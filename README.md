# Pokémon card portfolio reconciliation, modelled in Dafny

This project models the reconciliation engine of the card-portfolio lab
(`update_portfolio.py`). The engine does three things:

- **Catalog loading** (`_load_lookup_data`). It reads JSON catalog documents in
  file-name order and skips those it cannot use. It normalises each card entry to
  six columns: `card_id`, `card_name`, `card_number`, `set_id`, `set_name` and
  `card_market_value`. The market value is the holofoil market price, else the
  normal market price, else 0.0. It then sorts by value (descending) and `card_id`
  (ascending) and keeps the first row of each `card_id`. Finally it turns
  `card_number` and `set_id` into strings.
- **Inventory loading** (`_load_inventory_data`). It concatenates the readable
  inventory CSV files and adds an empty `set_id` or `card_number` column when no
  file has one. It turns both into strings and derives `card_id` as
  `set_id + "-" + card_number`.
- **Reconciliation** (`update_portfolio`). It left-joins the inventory with the
  catalog on `card_id`. Unmatched rows get the value 0.0, and a missing `set_name`
  becomes `NOT_FOUND`. It adds absent location columns as "", builds
  `index = binder_name-page_number-slot_number`, and projects to the ten output
  columns. An empty inventory gives an empty table with the output header.

Modules:

- `Cards` (`cards.dfy`) is the data model.
  - A pandas cell is `Cell`: `Text(s)` or `Missing` (NaN); `astype(str)` renders
    `Missing` as "nan".
  - A JSON field is `Field`: `Absent`, `Null` or `Given(v)`.
  - It also defines catalog entries and documents, inventory CSV files and
    records, and output rows.
- `TextOrder` is Python's string order.
- `LookupNormalizer` handles one catalog document.
- `LookupDedup` is the sort and keep-first step.
- `LookupLoader` is the catalog loader.
- `InventoryLoader` is the inventory loader.
- `Reconciliation` holds the join, the output rows and the end-to-end lemmas.

Each loader and the top-level operation is a `method` with the source's loops.
Each such method is proved equal to a specification function
(`LookupTable`, `InventoryTable`, `Reconcile`), and the lemmas state the
properties of those functions.

A column a document lacks entirely is treated differently from a value that is
absent or null in a document that has the column. pandas makes the same
distinction: the first gets the default "" (lines 49-51), the second stays NaN.

Where the intended behaviour and the code disagree, the model follows the code:

- A key column that exists in some inventory files but not others is NaN in the
  rows of the files that lack it. After `astype(str)` it reads "nan", not "". The
  fill at lines 94-97 acts on the concatenated table, not per file.
- Unmatched rows always keep the inventory's `set_id` and `card_number`. Their
  `card_name` is NaN unless the inventory has that column: the merged table always
  has a `card_name` column (from the lookup side), so the fill at lines 155-157
  never adds it.
- A row gets the catalog's set name only when the inventory has no `set_name`
  column. Otherwise it keeps the inventory's (the lookup's is renamed
  `set_name_lookup`), and a missing one becomes `NOT_FOUND`.

## Model

| member | source | states |
|---|---|---|
| `LookupNormalizer.FirstGiven` | Labs/Lab_04/pokemon_lab/update_portfolio.py:27-31 | An ordered fallback chain yields the first given value, or the default when none is given |
| `LookupNormalizer.MarketValue` | Labs/Lab_04/pokemon_lab/update_portfolio.py:25-31 | The value is the holofoil price if given, else the normal price if given, else 0.0; a null price falls through like an absent one |
| `LookupNormalizer.NormalizeEntry` | Labs/Lab_04/pokemon_lab/update_portfolio.py:22-52 | A normalised row carries the entry's market value and, per renamed column, the entry's value if given, "" if the document lacks the column, and NaN otherwise |
| `LookupNormalizer.DocumentRows` | Labs/Lab_04/pokemon_lab/update_portfolio.py:22-52 | A document's table has one normalised row per card entry, in entry order |
| `LookupNormalizer.DefaultsOnlyForAbsentColumns` | Labs/Lab_04/pokemon_lab/update_portfolio.py:49-51 | A key present with null keeps its column, so that entry's cell is NaN and never the "" default |
| `TextOrder.LeTotal` | Labs/Lab_04/pokemon_lab/update_portfolio.py:65-66 | Any two strings are comparable in the ascending `card_id` order |
| `TextOrder.LeTransitive` | Labs/Lab_04/pokemon_lab/update_portfolio.py:65-66 | The ascending `card_id` order is transitive |
| `LookupDedup.KeyLeTotal` | Labs/Lab_04/pokemon_lab/update_portfolio.py:65-66 | Any two rows are comparable under the sort key (value descending, then `card_id` ascending with missing ids last) |
| `LookupDedup.KeyLeTransitive` | Labs/Lab_04/pokemon_lab/update_portfolio.py:65-66 | The sort key is transitive, so sorting by it is well defined |
| `LookupDedup.KeyLeSameId` | Labs/Lab_04/pokemon_lab/update_portfolio.py:65-66 | Between two rows with the same `card_id`, the sort key orders by value alone, higher first |
| `LookupDedup.KeyLeAntisymmetric` | Labs/Lab_04/pokemon_lab/update_portfolio.py:65-66 | Two rows that may each precede the other agree on value and `card_id` |
| `LookupDedup.Insert` | Labs/Lab_04/pokemon_lab/update_portfolio.py:65-66 | Inserting a row gives a permutation of the table plus that row |
| `LookupDedup.InsertSorted` | Labs/Lab_04/pokemon_lab/update_portfolio.py:65-66 | Inserting into a sorted table keeps it sorted |
| `LookupDedup.SortByKey` | Labs/Lab_04/pokemon_lab/update_portfolio.py:65-66 | The sort is a permutation of its input |
| `LookupDedup.SortByKeySorted` | Labs/Lab_04/pokemon_lab/update_portfolio.py:65-66 | The sort's output is ordered by value descending, then `card_id` ascending |
| `LookupDedup.BestIndex` | Labs/Lab_04/pokemon_lab/update_portfolio.py:64-67 | Reference definition of the row kept for an id: it has the id, no row of that id has a higher value, and every earlier row of that id has a lower value |
| `LookupDedup.InsertFirstWithId` | Labs/Lab_04/pokemon_lab/update_portfolio.py:65-66 | Inserting a row into a sorted table makes it the first row of its id exactly when the former first row of that id does not have a higher value; every other first row is unchanged |
| `LookupDedup.SortKeepsBestFirst` | Labs/Lab_04/pokemon_lab/update_portfolio.py:65-67 | After the stable sort, the first row of each id is the reference row `BestIndex` picks |
| `LookupDedup.Without` | Labs/Lab_04/pokemon_lab/update_portfolio.py:67 | Dropping an id removes exactly that id, keeps order and sortedness, and leaves every other id's first row |
| `LookupDedup.DropDuplicates` | Labs/Lab_04/pokemon_lab/update_portfolio.py:67 | Keep-first deduplication keeps every id exactly once, as that id's first row, and keeps sortedness |
| `LookupDedup.KeepFirstStep` | Labs/Lab_04/pokemon_lab/update_portfolio.py:67 | The head row followed by the deduplicated rows of the other ids is a keep-first deduplication of the whole table |
| `LookupDedup.Dedup` | Labs/Lab_04/pokemon_lab/update_portfolio.py:64-67 | The deduplicated catalog has the same ids, each once, sorted; each kept row is the `BestIndex` row, and no input row of its id has a higher value |
| `LookupLoader.CoerceAll` | Labs/Lab_04/pokemon_lab/update_portfolio.py:68-69 | String coercion of `card_number` and `set_id` changes no `card_id`, order or uniqueness |
| `LookupLoader.LookupTable` | Labs/Lab_04/pokemon_lab/update_portfolio.py:53-70 | The lookup table is unique on `card_id`, sorted, has exactly the ids of the normalised rows, and holds for each id the coerced `BestIndex` row |
| `LookupLoader.LoadLookupData` | Labs/Lab_04/pokemon_lab/update_portfolio.py:9-70 | The loop over documents (skipping unusable ones) returns the lookup table |
| `LookupLoader.NormalizedRowsCount` | Labs/Lab_04/pokemon_lab/update_portfolio.py:19-52 | The concatenated table has one row per entry of the documents not skipped |
| `LookupLoader.EntryIsNormalized` | Labs/Lab_04/pokemon_lab/update_portfolio.py:19-52 | Every entry of a document not skipped appears, normalised, in the concatenated table |
| `LookupLoader.NormalizedRowOrigin` | Labs/Lab_04/pokemon_lab/update_portfolio.py:19-52 | Every row of the concatenated table is the normalisation of an entry of a document not skipped |
| `LookupLoader.LookupTableEmptyIff` | Labs/Lab_04/pokemon_lab/update_portfolio.py:53-63 | The lookup table is empty exactly when no document is readable with a non-empty `data` list |
| `LookupLoader.LookupTableKeepsHighestValue` | Labs/Lab_04/pokemon_lab/update_portfolio.py:64-67 | The row kept for a `card_id` has at least the value any catalog entry of that id gives |
| `InventoryLoader.CardKey` | Labs/Lab_04/pokemon_lab/update_portfolio.py:100-102 | `card_id` is `set_id`, then one hyphen, then `card_number`, so both parts can be read back |
| `InventoryLoader.SetColumn` | Labs/Lab_04/pokemon_lab/update_portfolio.py:97 | Setting a column adds it, writes the value in every row, and leaves other cells unchanged |
| `InventoryLoader.FillMissing` | Labs/Lab_04/pokemon_lab/update_portfolio.py:94-97 | The fill loop adds the needed columns and keeps the row count |
| `InventoryLoader.FillMissingCell` | Labs/Lab_04/pokemon_lab/update_portfolio.py:94-97 | After the fill, a needed column the table lacked is "" in every row and every other cell is unchanged |
| `InventoryLoader.ToStrColumn` | Labs/Lab_04/pokemon_lab/update_portfolio.py:98-99 | `astype(str)` renders every cell of the column as a string and changes no other column |
| `InventoryLoader.WithCardIds` | Labs/Lab_04/pokemon_lab/update_portfolio.py:100-102 | Each record's `card_id` is its `set_id` and `card_number` joined by a hyphen |
| `InventoryLoader.LoadedRow` | Labs/Lab_04/pokemon_lab/update_portfolio.py:94-102 | A loaded row's keys are the source cells as strings ("" if no file has the column) and its other cells are unchanged |
| `InventoryLoader.InventoryTable` | Labs/Lab_04/pokemon_lab/update_portfolio.py:72-103 | One record per readable row, in file order, with coerced keys, the hyphenated `card_id` and the source's other cells |
| `InventoryLoader.LoadInventoryData` | Labs/Lab_04/pokemon_lab/update_portfolio.py:72-103 | The loop over CSV files (skipping unreadable ones) returns the inventory table |
| `InventoryLoader.ConcatReadFrames` | Labs/Lab_04/pokemon_lab/update_portfolio.py:75-93 | Concatenating the tables read gives the readable rows in file order, under the union of their columns |
| `InventoryLoader.MissingKeyColumnGivesEmpty` | Labs/Lab_04/pokemon_lab/update_portfolio.py:94-102 | When no readable file has `set_id`, every row's `set_id` is "" and its `card_id` is "-" followed by the card number |
| `Reconciliation.Matches` | Labs/Lab_04/pokemon_lab/update_portfolio.py:136-142 | The matches of a key are exactly the lookup rows with that `card_id`; a unique lookup gives at most one |
| `Reconciliation.JoinRecord` | Labs/Lab_04/pokemon_lab/update_portfolio.py:136-142 | A left join keeps every inventory row unchanged: one row without a match exactly when no lookup row has its key, else one row per matching lookup row, each carrying a lookup row with that key; against a unique lookup, exactly one row carrying `LookupFor`'s match |
| `Reconciliation.LeftJoin` | Labs/Lab_04/pokemon_lab/update_portfolio.py:136-142 | The left join has at least as many rows as the inventory |
| `Reconciliation.LookupFor` | Labs/Lab_04/pokemon_lab/update_portfolio.py:136-142 | No match exactly when no lookup row has the key; otherwise the matched row is a lookup row with that key |
| `Reconciliation.LeftJoinCompleteness` | Labs/Lab_04/pokemon_lab/update_portfolio.py:136-142 | With a lookup unique on `card_id`, the join has exactly one row per inventory row, in order, carrying that row and its match |
| `Reconciliation.MergedColumns` | Labs/Lab_04/pokemon_lab/update_portfolio.py:136-157 | Suffix rule: the lookup's `set_id`/`card_number` are renamed away; `card_name`/`set_name` are renamed away exactly when the inventory has them; every output column is present once the location columns and `index` are added |
| `Reconciliation.MergedLocationColumns` | Labs/Lab_04/pokemon_lab/update_portfolio.py:136-147 | A location column is in the merged table exactly when the inventory has it |
| `Reconciliation.FillColumns` | Labs/Lab_04/pokemon_lab/update_portfolio.py:145-147 | The fill loop leaves every wanted column present and adds exactly the wanted columns that were absent; it adds none when all are present |
| `Reconciliation.ProjectedHeader` | Labs/Lab_04/pokemon_lab/update_portfolio.py:145-158 | The location fill adds exactly the location columns the inventory lacks; the fill over the output columns adds none; the projected header is the ten output columns, each from the merge, the location fill or `index` |
| `Reconciliation.PortfolioRowOf` | Labs/Lab_04/pokemon_lab/update_portfolio.py:143-158 | Output row: `index` is the hyphen-joined location cells; keys come from the inventory; an unmatched row gets 0.0 and `NOT_FOUND`; a matched row gets the lookup's value and the names the inventory lacks |
| `Reconciliation.PortfolioOf` | Labs/Lab_04/pokemon_lab/update_portfolio.py:120-158 | The header is the ten output columns; an empty inventory gives no rows; with a unique lookup, row `k` is inventory row `k` joined with its match |
| `Reconciliation.Reconcile` | Labs/Lab_04/pokemon_lab/update_portfolio.py:105-158 | The portfolio has the output header and exactly one row per readable inventory row |
| `Reconciliation.UpdatePortfolio` | Labs/Lab_04/pokemon_lab/update_portfolio.py:105-158 | The top-level operation returns the portfolio `Reconcile` specifies, including the empty table for an empty inventory |
| `Reconciliation.InventoryKeys` | Labs/Lab_04/pokemon_lab/update_portfolio.py:98-102 | Every output row's `set_id`/`card_number` are the coerced inventory cells and its `card_id` is their hyphenated join |
| `Reconciliation.InventoryLocation` | Labs/Lab_04/pokemon_lab/update_portfolio.py:145-154 | Every output row's location cells are the inventory's ("" when no file has the column) and `index` joins them with hyphens |
| `Reconciliation.InventoryNames` | Labs/Lab_04/pokemon_lab/update_portfolio.py:136-144 | When the inventory has a name column, the output keeps the inventory's name, with a missing set name becoming `NOT_FOUND` |
| `Reconciliation.UnmatchedRow` | Labs/Lab_04/pokemon_lab/update_portfolio.py:143-144 | A row whose key no catalog entry has gets the value 0.0, a missing card name, and `NOT_FOUND` as set name (unless the inventory supplies the names) |
| `Reconciliation.MatchedRow` | Labs/Lab_04/pokemon_lab/update_portfolio.py:136-144 | A row whose key some catalog entry has gets the value, and the names the inventory lacks, of that key's highest-valued catalog row |
| `Reconciliation.LookupSide` | Labs/Lab_04/pokemon_lab/update_portfolio.py:64-70 | A key finds no match exactly when no catalog entry has it; otherwise it finds the coerced `BestIndex` catalog row |
| `Reconciliation.SingleCardPortfolio` | Labs/Lab_04/pokemon_lab/update_portfolio.py:105-158 | A one-row inventory without name columns, against a one-entry catalog with its key, gives one row located and keyed by the inventory and named and priced by the catalog |
| `Reconciliation.ExamplePortfolio` | Labs/Lab_04/pokemon_lab/update_portfolio.py:105-158 | Worked example: inventory B1/1/1, base1/4 against the Charizard catalog entry (holofoil 350.0) gives `B1-1-1, B1, 1, 1, base1-4, Charizard, 4, base1, Base, 350.0` |

## Left out

- File-system access (globbing directories, sorting file names, opening files), JSON and CSV parsing, and the exceptions they raise. The inputs are the parsed documents and files, already in file-name order; an unreadable one is a distinct constructor.
- Writing the output: creating the directory, `to_csv`, and how NaN is rendered in the CSV. The output is the table of cells and values.
- The warning, error and OK messages printed to standard error and standard output, `main`, and `test`.
- Numeric parsing by `read_csv` and `json_normalize`. Inventory and catalog cells are text from the start, and prices are `real`. So a numeric CSV column rendered by `astype(str)` (for example "4.0") is not modelled.
- An inventory file carrying its own `card_market_value`, `card_id`, `index` or other extra columns. The inventory's columns are the five location and key columns and the two name columns.
- Catalog entries that are not JSON objects, entry lists whose objects carry none of the modelled keys (where `df.empty` is true for a non-empty list), and extra entry fields that would collide with renamed columns.
- The projection of the lookup table at lines 124-135. `LookupRow` already has exactly the six lookup columns, and an empty lookup is the empty sequence.
- Floating-point arithmetic: `astype(float)` is the identity on `real`.
- `Reconciliation.LeftJoin`: its own contract gives only a length bound. The row-by-row characterisation is `LeftJoinCompleteness`, which needs a lookup unique on `card_id`. The pipeline's lookup always is unique (`LookupTable`), so a join against a lookup with duplicate ids is not characterised further.
- `InventoryLoader.FillMissing`: its contract states columns and row count only. The cell contents are stated by `FillMissingCell`.
