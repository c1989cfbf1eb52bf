/** The tables the reconciliation engine reads and writes, one datatype per kind of
    record. pandas' missing value (NaN) is a cell of its own, because the engine treats it
    differently from an empty string (fillna, astype(str)). */
module Cards {

  /** A text cell of a table: pandas' missing value, or a string. */
  datatype Cell = Missing | Text(text: string)

  /** `astype(str)` on a text cell: the missing value renders as "nan". */
  function AsStr(c: Cell): string
  {
    match c
    case Missing => "nan"
    case Text(s) => s
  }

  /** `fillna(default)` on a text cell. */
  function FillNa(c: Cell, default: string): string
  {
    match c
    case Missing => default
    case Text(s) => s
  }

  // ---------------------------------------------------------------------------
  // Catalog (lookup) side

  /** One dotted-path field of a flattened card entry: the key is absent from the
      entry, present with JSON null, or present with a value. */
  datatype Field<T> = Absent | Null | Given(value: T)

  /** A card entry of a catalog document after flattening, restricted to the paths
      the engine reads. */
  datatype CardEntry = CardEntry(
    id: Field<string>,                   // "id"
    name: Field<string>,                 // "name"
    number: Field<string>,               // "number"
    setId: Field<string>,                // "set.id"
    setName: Field<string>,              // "set.name"
    holofoilMarket: Field<real>,         // "tcgplayer.prices.holofoil.market"
    normalMarket: Field<real>)           // "tcgplayer.prices.normal.market"

  /** The value under the key "data" of a JSON object. */
  datatype DataField = NoDataKey | NotAList | CardList(entries: seq<CardEntry>)

  /** One catalog file, in file-name order: unreadable JSON, a JSON value that is not
      an object, or an object. */
  datatype Document = Unreadable | NotAnObject | JsonObject(data: DataField)

  /** A normalised catalog row, its six fields in the canonical column order. */
  datatype LookupRow = LookupRow(
    cardId: Cell,
    cardName: Cell,
    cardNumber: Cell,
    setId: Cell,
    setName: Cell,
    marketValue: real)

  const LookupColumns: seq<string> :=
    ["card_id", "card_name", "card_number", "set_id", "set_name", "card_market_value"]

  // ---------------------------------------------------------------------------
  // Inventory side

  /** The inventory columns that can reach the portfolio. */
  datatype InvCol = BinderName | PageNumber | SlotNumber | SetId | CardNumber | CardName | SetName

  function ColumnName(c: InvCol): string
  {
    match c
    case BinderName => "binder_name"
    case PageNumber => "page_number"
    case SlotNumber => "slot_number"
    case SetId => "set_id"
    case CardNumber => "card_number"
    case CardName => "card_name"
    case SetName => "set_name"
  }

  /** The non-empty cells of one inventory row; a column of the table that has no
      entry here holds the missing value. */
  type Row = map<InvCol, string>

  /** One inventory CSV file, in file-name order: unreadable, or its header's columns
      and its rows. */
  datatype CsvFile = UnreadableCsv | Csv(columns: set<InvCol>, rows: seq<Row>)

  /** A loaded inventory row: its cells, the string-coerced `set_id` and
      `card_number`, and the derived join key `card_id`. */
  datatype InventoryRecord = InventoryRecord(cells: Row, setId: string, cardNumber: string, cardId: string)

  /** The loaded inventory: the columns of the concatenated table and its rows. */
  datatype Inventory = Inventory(columns: set<InvCol>, records: seq<InventoryRecord>)

  /** Columns of the empty inventory table returned when no file could be read
      (`card_id` is always a column and is not listed). */
  const EmptyInventoryColumns: set<InvCol> :=
    {CardName, SetId, CardNumber, BinderName, PageNumber, SlotNumber}

  // ---------------------------------------------------------------------------
  // Portfolio (output) side

  /** One row of the portfolio, its ten fields in the output column order. */
  datatype PortfolioRow = PortfolioRow(
    index: string,
    binderName: Cell,
    pageNumber: Cell,
    slotNumber: Cell,
    cardId: string,
    cardName: Cell,
    cardNumber: string,
    setId: string,
    setName: string,
    marketValue: real)

  const FinalColumns: seq<string> :=
    ["index", "binder_name", "page_number", "slot_number", "card_id",
     "card_name", "card_number", "set_id", "set_name", "card_market_value"]

  /** The portfolio table: its header and its rows. */
  datatype Portfolio = Portfolio(header: seq<string>, rows: seq<PortfolioRow>)
}
