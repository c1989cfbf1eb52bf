/** `update_portfolio`: the left join of the inventory with the deduplicated lookup on
    `card_id`, the fallbacks for unmatched rows, the `index` column, and the projection
    to the ten output columns. */
module Reconciliation {
  import opened Cards
  import opened LookupDedup
  import opened LookupLoader
  import opened InventoryLoader
  import opened LookupNormalizer

  const NotFound: string := "NOT_FOUND"

  // ---------------------------------------------------------------------------
  // The left join

  /** The lookup rows whose `card_id` is `key`, in lookup order. */
  function Matches(lookup: seq<LookupRow>, key: string): (m: seq<LookupRow>)
    ensures forall r | r in m :: r in lookup && r.cardId == Text(key)
    ensures forall r | r in lookup && r.cardId == Text(key) :: r in m
    ensures Unique(lookup) ==> |m| <= 1
  {
    if |lookup| == 0 then []
    else
      var rest := Matches(lookup[1..], key);
      assert lookup == [lookup[0]] + lookup[1..];
      assert Unique(lookup) ==> Unique(lookup[1..]) by {
        if Unique(lookup) {
          forall i, j | 0 <= i < j < |lookup[1..]| ensures lookup[1..][i].cardId != lookup[1..][j].cardId {
            assert lookup[1..][i] == lookup[i + 1] && lookup[1..][j] == lookup[j + 1];
          }
        }
      }
      assert Unique(lookup) && rest != [] ==> lookup[0].cardId != Text(key) by {
        if Unique(lookup) && rest != [] {
          assert rest[0] in rest;
          var k :| 0 <= k < |lookup[1..]| && lookup[1..][k] == rest[0];
          assert lookup[k + 1] == rest[0];
        }
      }
      (if lookup[0].cardId == Text(key) then [lookup[0]] else []) + rest
  }

  /** The lookup side of a merged row: no match, or the matched lookup row. */
  datatype Match = NoMatch | Matched(row: LookupRow)

  /** A row of the merged table: an inventory row and its lookup side. */
  datatype JoinedRow = JoinedRow(record: InventoryRecord, lookup: Match)

  /** The merged rows of one inventory row: one per matching lookup row, or one
      without a match. */
  function JoinRecord(rec: InventoryRecord, lookup: seq<LookupRow>): (js: seq<JoinedRow>)
    ensures |js| >= 1
    ensures forall j | j in js :: j.record == rec
    ensures forall j | j in js :: (j.lookup == NoMatch <==> forall r | r in lookup :: r.cardId != Text(rec.cardId))
    ensures forall j | j in js && j.lookup.Matched? :: j.lookup.row in lookup && j.lookup.row.cardId == Text(rec.cardId)
    ensures forall r | r in lookup && r.cardId == Text(rec.cardId) :: JoinedRow(rec, Matched(r)) in js
    ensures Unique(lookup) ==> js == [JoinedRow(rec, LookupFor(lookup, rec.cardId))]
  {
    var ms := Matches(lookup, rec.cardId);
    if |ms| == 0 then
      assert ms == [];
      [JoinedRow(rec, NoMatch)]
    else
      var js := seq(|ms|, i requires 0 <= i < |ms| => JoinedRow(rec, Matched(ms[i])));
      assert ms[0] in ms;
      assert forall j | j in js :: j.lookup.Matched? && j.lookup.row in ms;
      assert forall r | r in lookup && r.cardId == Text(rec.cardId) :: JoinedRow(rec, Matched(r)) in js by {
        forall r | r in lookup && r.cardId == Text(rec.cardId) ensures JoinedRow(rec, Matched(r)) in js {
          assert r in ms;
          var i :| 0 <= i < |ms| && ms[i] == r;
          assert js[i] == JoinedRow(rec, Matched(r));
        }
      }
      js
  }

  /** `pd.merge(inventory, lookup, on="card_id", how="left")`: inventory order, and
      for each inventory row its matches in lookup order. */
  function LeftJoin(records: seq<InventoryRecord>, lookup: seq<LookupRow>): (joined: seq<JoinedRow>)
    ensures |joined| >= |records|
  {
    if |records| == 0 then [] else JoinRecord(records[0], lookup) + LeftJoin(records[1..], lookup)
  }

  /** The lookup side a unique lookup gives an inventory key: its one match, if any. */
  function LookupFor(lookup: seq<LookupRow>, key: string): (m: Match)
    requires Unique(lookup)
    ensures m == NoMatch <==> forall r | r in lookup :: r.cardId != Text(key)
    ensures m.Matched? ==> m.row in lookup && m.row.cardId == Text(key)
  {
    var ms := Matches(lookup, key);
    if |ms| == 0 then NoMatch else assert ms[0] in ms; Matched(ms[0])
  }

  /** With a lookup unique on `card_id`, the merge has one row per inventory row, in
      inventory order, carrying that row unchanged and its match. */
  lemma {:induction false} LeftJoinCompleteness(records: seq<InventoryRecord>, lookup: seq<LookupRow>)
    requires Unique(lookup)
    ensures |LeftJoin(records, lookup)| == |records|
    ensures forall k | 0 <= k < |records| ::
              LeftJoin(records, lookup)[k] == JoinedRow(records[k], LookupFor(lookup, records[k].cardId))
    decreases |records|
  {
    if |records| > 0 {
      LeftJoinCompleteness(records[1..], lookup);
      var head := JoinRecord(records[0], lookup);
      assert head == [JoinedRow(records[0], LookupFor(lookup, records[0].cardId))];
      var joined := LeftJoin(records, lookup);
      forall k | 1 <= k < |records|
        ensures joined[k] == JoinedRow(records[k], LookupFor(lookup, records[k].cardId))
      {
        assert joined[k] == LeftJoin(records[1..], lookup)[k - 1];
        assert records[1..][k - 1] == records[k];
      }
    }
  }

  // ---------------------------------------------------------------------------
  // Column names of the merged table

  /** The inventory side's column names: its own columns and the join key. */
  function LeftNames(invColumns: set<InvCol>): set<string>
  {
    (set c | c in invColumns :: ColumnName(c)) + {"card_id"}
  }

  /** The lookup's columns other than the join key. */
  const LookupOwnNames: set<string> := {"card_name", "card_number", "set_id", "set_name", "card_market_value"}

  /** The columns of the merged table: the inventory side's, and the lookup's other
      columns, renamed with the suffix "_lookup" when the inventory side has a column
      of the same name. */
  function MergedColumnNames(invColumns: set<InvCol>): set<string>
  {
    var left := LeftNames(invColumns);
    left + (LookupOwnNames - left) + (set c | c in LookupOwnNames && c in left :: c + "_lookup")
  }

  /** An inventory column's name is on the inventory side exactly when the inventory
      has that column. */
  lemma LeftNamesOf(invColumns: set<InvCol>, c: InvCol)
    ensures ColumnName(c) in LeftNames(invColumns) <==> c in invColumns
  {
    if ColumnName(c) in LeftNames(invColumns) && ColumnName(c) != "card_id" {
      var d :| d in invColumns && ColumnName(d) == ColumnName(c);
      assert d == c;
    }
  }

  /** The names the merge can give a lookup column that the inventory side also has. */
  lemma SuffixedNames(left: set<string>, name: string)
    requires name in LookupOwnNames
    ensures name + "_lookup" in (set c | c in LookupOwnNames && c in left :: c + "_lookup") <==> name in left
  {
    var suffixed := set c | c in LookupOwnNames && c in left :: c + "_lookup";
    if name + "_lookup" in suffixed {
      var c :| c in LookupOwnNames && c in left && c + "_lookup" == name + "_lookup";
      assert c == name by {
        assert c == (c + "_lookup")[..|c|];
        assert name == (name + "_lookup")[..|name|];
      }
    }
  }

  /** The inventory side never has `card_market_value` or a suffixed name. (Kept as a
      lemma of its own: it keeps the quantifier over the inventory's names out of
      `MergedColumns`.) */
  lemma LeftNamesExclude(invColumns: set<InvCol>)
    ensures forall n | n in LeftNames(invColumns) ::
              n != "card_market_value" && n != "card_name_lookup" && n != "set_name_lookup"
  {
  }

  /** No lookup column renamed with the suffix is called like a location column. */
  lemma LocationNamesNotSuffixed(left: set<string>)
    ensures "binder_name" !in (set c | c in LookupOwnNames && c in left :: c + "_lookup")
    ensures "page_number" !in (set c | c in LookupOwnNames && c in left :: c + "_lookup")
    ensures "slot_number" !in (set c | c in LookupOwnNames && c in left :: c + "_lookup")
  {
    forall c | c in LookupOwnNames
      ensures c + "_lookup" != "binder_name" && c + "_lookup" != "page_number" && c + "_lookup" != "slot_number"
    {
      var n := c + "_lookup";
      assert n[|n| - 1] == 'p';
    }
  }

  /** For a loaded inventory (which always has `set_id` and `card_number`): the lookup's
      `set_id` and `card_number` are renamed away; its `card_name` and `set_name` are
      renamed away exactly when the inventory has that column; `card_market_value` is
      the lookup's under its own name; and the fill loop before the projection finds
      every output column already present once the location columns and `index` are
      added. */
  lemma MergedColumns(invColumns: set<InvCol>)
    requires SetId in invColumns && CardNumber in invColumns
    ensures var merged := MergedColumnNames(invColumns);
      && "set_id_lookup" in merged && "card_number_lookup" in merged
      && ("card_name_lookup" in merged <==> CardName in invColumns)
      && ("set_name_lookup" in merged <==> SetName in invColumns)
      && "card_market_value" in merged
      && forall c | c in FinalColumns :: c in merged + {"binder_name", "page_number", "slot_number", "index"}
  {
    var left := LeftNames(invColumns);
    var merged := MergedColumnNames(invColumns);
    LeftNamesOf(invColumns, SetId);
    LeftNamesOf(invColumns, CardNumber);
    LeftNamesOf(invColumns, CardName);
    LeftNamesOf(invColumns, SetName);
    LeftNamesExclude(invColumns);
    SuffixedNames(left, "set_id");
    SuffixedNames(left, "card_number");
    SuffixedNames(left, "card_name");
    SuffixedNames(left, "set_name");
    assert "set_id" + "_lookup" == "set_id_lookup";
    assert "card_number" + "_lookup" == "card_number_lookup";
    assert "card_name" + "_lookup" == "card_name_lookup";
    assert "set_name" + "_lookup" == "set_name_lookup";
  }

  /** A location column is in the merged table exactly when the inventory has it. */
  lemma MergedLocationColumns(invColumns: set<InvCol>)
    ensures var merged := MergedColumnNames(invColumns);
      && ("binder_name" in merged <==> BinderName in invColumns)
      && ("page_number" in merged <==> PageNumber in invColumns)
      && ("slot_number" in merged <==> SlotNumber in invColumns)
  {
    LeftNamesOf(invColumns, BinderName);
    LeftNamesOf(invColumns, PageNumber);
    LeftNamesOf(invColumns, SlotNumber);
    LocationNamesNotSuffixed(LeftNames(invColumns));
  }

  // ---------------------------------------------------------------------------
  // One output row

  /** A location column after the fill loop: the inventory's cell, or "" in every row
      when the inventory has no such column. */
  function LocationCell(columns: set<InvCol>, rec: InventoryRecord, c: InvCol): Cell
  {
    if c in columns then CellOf(rec.cells, c) else Text("")
  }

  /** A column both sides carry: the inventory's cell when the inventory has the
      column, else the lookup's. */
  function SharedCell(columns: set<InvCol>, rec: InventoryRecord, c: InvCol, fromLookup: Cell): Cell
  {
    if c in columns then CellOf(rec.cells, c) else fromLookup
  }

  /** `binder_name + "-" + page_number + "-" + slot_number`, each as `astype(str)`. */
  function IndexOf(binder: Cell, page: Cell, slot: Cell): string
  {
    AsStr(binder) + "-" + AsStr(page) + "-" + AsStr(slot)
  }

  /** The output row of one merged row, projected to the ten output columns. */
  function PortfolioRowOf(columns: set<InvCol>, j: JoinedRow): (p: PortfolioRow)
    ensures p.index == AsStr(p.binderName) + "-" + AsStr(p.pageNumber) + "-" + AsStr(p.slotNumber)
    ensures p.binderName == LocationCell(columns, j.record, BinderName)
    ensures p.pageNumber == LocationCell(columns, j.record, PageNumber)
    ensures p.slotNumber == LocationCell(columns, j.record, SlotNumber)
    ensures p.cardId == j.record.cardId && p.cardNumber == j.record.cardNumber && p.setId == j.record.setId
    ensures CardName in columns ==> p.cardName == CellOf(j.record.cells, CardName)
    ensures j.lookup == NoMatch ==> p.marketValue == 0.0
    ensures j.lookup == NoMatch && CardName !in columns ==> p.cardName == Missing
    ensures j.lookup == NoMatch && SetName !in columns ==> p.setName == NotFound
    ensures j.lookup.Matched? ==> p.marketValue == j.lookup.row.marketValue
    ensures j.lookup.Matched? && CardName !in columns ==> p.cardName == j.lookup.row.cardName
    ensures j.lookup.Matched? && SetName !in columns ==> p.setName == FillNa(j.lookup.row.setName, NotFound)
    ensures SetName in columns ==> p.setName == FillNa(CellOf(j.record.cells, SetName), NotFound)
  {
    var rec := j.record;
    var binder := LocationCell(columns, rec, BinderName);
    var page := LocationCell(columns, rec, PageNumber);
    var slot := LocationCell(columns, rec, SlotNumber);
    var lookupName := if j.lookup.Matched? then j.lookup.row.cardName else Missing;
    var lookupSet := if j.lookup.Matched? then j.lookup.row.setName else Missing;
    var value := if j.lookup.Matched? then j.lookup.row.marketValue else 0.0;
    PortfolioRow(
      IndexOf(binder, page, slot),
      binder,
      page,
      slot,
      rec.cardId,
      SharedCell(columns, rec, CardName, lookupName),
      rec.cardNumber,
      rec.setId,
      FillNa(SharedCell(columns, rec, SetName, lookupSet), NotFound),
      value)
  }

  // ---------------------------------------------------------------------------
  // The whole table

  /** The portfolio `update_portfolio` writes, for a loaded inventory and lookup. */
  function PortfolioOf(inv: Inventory, lookup: seq<LookupRow>): (p: Portfolio)
    ensures p.header == FinalColumns
    ensures |inv.records| == 0 ==> p.rows == []
    ensures Unique(lookup) ==> |p.rows| == |inv.records|
    ensures Unique(lookup) ==> forall k | 0 <= k < |p.rows| ::
              p.rows[k] == PortfolioRowOf(inv.columns,
                             JoinedRow(inv.records[k], LookupFor(lookup, inv.records[k].cardId)))
  {
    if |inv.records| == 0 then Portfolio(FinalColumns, [])
    else
      var merged := LeftJoin(inv.records, lookup);
      assert Unique(lookup) ==> |merged| == |inv.records| && forall k | 0 <= k < |merged| ::
               merged[k] == JoinedRow(inv.records[k], LookupFor(lookup, inv.records[k].cardId)) by {
        if Unique(lookup) {
          LeftJoinCompleteness(inv.records, lookup);
        }
      }
      Portfolio(FinalColumns, seq(|merged|, i requires 0 <= i < |merged| => PortfolioRowOf(inv.columns, merged[i])))
  }

  /** The portfolio for the inventory files and catalog documents, in file order. */
  function Reconcile(inventoryFiles: seq<CsvFile>, lookupDocs: seq<Document>): (p: Portfolio)
    ensures p.header == FinalColumns
    ensures |p.rows| == |ReadableRows(inventoryFiles)|
  {
    PortfolioOf(InventoryTable(inventoryFiles), LookupTable(lookupDocs))
  }

  /** A loop `for col in wanted: if col not in columns: add col`: the column names
      afterwards, and the names it added (those it did not find), in loop order. */
  method FillColumns(columns: set<string>, wanted: seq<string>) returns (filled: set<string>, added: seq<string>)
    ensures forall c :: c in filled <==> c in columns || c in wanted
    ensures forall c | c in added :: c in wanted && c !in columns
    ensures forall c | c in wanted && c !in columns :: c in added
    ensures (forall c | c in wanted :: c in columns) ==> added == []
  {
    filled := columns;
    added := [];
    for i := 0 to |wanted|
      invariant forall c :: c in filled <==> c in columns || c in wanted[..i]
      invariant forall c | c in added :: c in wanted[..i] && c !in columns
      invariant forall c | c in wanted[..i] && c !in columns :: c in added
      invariant (forall c | c in wanted[..i] :: c in columns) ==> added == []
    {
      assert wanted[..i + 1] == wanted[..i] + [wanted[i]];
      if wanted[i] !in filled {
        filled := filled + {wanted[i]};
        added := added + [wanted[i]];
      }
    }
    assert wanted[..|wanted|] == wanted;
  }

  /** The column bookkeeping after the merge: the loop that adds the location columns
      the merged table lacks (they read "" in every row, as `LocationCell` renders
      them), the `index` column, then the loop over the output columns, and the
      projection to them. Returns the projected header, the location columns the
      first loop added and the output columns the second loop added: none, since
      every projected column comes from the merge, the first loop or `index`. */
  method ProjectedHeader(invColumns: set<InvCol>) returns (header: seq<string>, blank: seq<string>, late: seq<string>)
    requires SetId in invColumns && CardNumber in invColumns
    ensures header == FinalColumns
    ensures "binder_name" in blank <==> BinderName !in invColumns
    ensures "page_number" in blank <==> PageNumber !in invColumns
    ensures "slot_number" in blank <==> SlotNumber !in invColumns
    ensures late == []
    ensures forall c | c in header :: c in MergedColumnNames(invColumns) || c in blank || c == "index"
  {
    MergedColumns(invColumns);
    MergedLocationColumns(invColumns);
    var located, complete;
    located, blank := FillColumns(MergedColumnNames(invColumns), ["binder_name", "page_number", "slot_number"]);
    complete, late := FillColumns(located + {"index"}, FinalColumns);
    // `merged[final_cols]` selects columns the table has.
    assert forall c | c in FinalColumns :: c in complete;
    header := FinalColumns;
  }

  /** `update_portfolio`: loads both sides, writes an empty table with the output
      header when the inventory is empty, else joins them. */
  method UpdatePortfolio(inventoryFiles: seq<CsvFile>, lookupDocs: seq<Document>) returns (portfolio: Portfolio)
    ensures portfolio == Reconcile(inventoryFiles, lookupDocs)
  {
    var lookup := LoadLookupData(lookupDocs);
    var inventory := LoadInventoryData(inventoryFiles);
    if |inventory.records| == 0 {
      return Portfolio(FinalColumns, []);
    }
    var header, blank, late := ProjectedHeader(inventory.columns);
    var merged := LeftJoin(inventory.records, lookup);
    portfolio := Portfolio(header,
      seq(|merged|, i requires 0 <= i < |merged| => PortfolioRowOf(inventory.columns, merged[i])));
  }

  // ---------------------------------------------------------------------------
  // End to end

  /** Row `k` of the portfolio against row `k` of the readable inventory files: the key
      columns come from the inventory (coerced, "" when no file has the column) and
      `card_id` joins them with a hyphen. */
  lemma InventoryKeys(files: seq<CsvFile>, docs: seq<Document>, k: nat)
    requires k < |ReadableRows(files)|
    ensures var row := Reconcile(files, docs).rows[k];
      var src := ReadableRows(files)[k];
      && row.setId == CoercedKey(src, SetId, AllColumns(files))
      && row.cardNumber == CoercedKey(src, CardNumber, AllColumns(files))
      && row.cardId == row.setId + "-" + row.cardNumber
  {
    ReconciledRowIs(files, docs, k);
    RecordOf(files, k);
  }

  /** The location columns of row `k` are the inventory's (or "" when no file has the
      column) and `index` joins them with hyphens. */
  lemma InventoryLocation(files: seq<CsvFile>, docs: seq<Document>, k: nat)
    requires k < |ReadableRows(files)|
    ensures var row := Reconcile(files, docs).rows[k];
      var src := ReadableRows(files)[k];
      var cols := AllColumns(files);
      && row.binderName == (if BinderName in cols then CellOf(src, BinderName) else Text(""))
      && row.pageNumber == (if PageNumber in cols then CellOf(src, PageNumber) else Text(""))
      && row.slotNumber == (if SlotNumber in cols then CellOf(src, SlotNumber) else Text(""))
      && row.index == AsStr(row.binderName) + "-" + AsStr(row.pageNumber) + "-" + AsStr(row.slotNumber)
  {
    var inv := InventoryTable(files);
    var rec := inv.records[k];
    ReconciledRowIs(files, docs, k);
    RecordOf(files, k);
    LocationOfRecord(inv.columns, rec, LookupFor(LookupTable(docs), rec.cardId), ReadableRows(files)[k], AllColumns(files));
  }

  /** When the inventory files have a name column, row `k` keeps the inventory's name,
      whatever the catalog says; a missing set name becomes "NOT_FOUND". */
  lemma InventoryNames(files: seq<CsvFile>, docs: seq<Document>, k: nat)
    requires k < |ReadableRows(files)|
    ensures var row := Reconcile(files, docs).rows[k];
      var src := ReadableRows(files)[k];
      var cols := AllColumns(files);
      && (CardName in cols ==> row.cardName == CellOf(src, CardName))
      && (SetName in cols ==> row.setName == FillNa(CellOf(src, SetName), NotFound))
  {
    var inv := InventoryTable(files);
    var rec := inv.records[k];
    ReconciledRowIs(files, docs, k);
    RecordOf(files, k);
    NamesOfRecord(inv.columns, rec, LookupFor(LookupTable(docs), rec.cardId), ReadableRows(files)[k], AllColumns(files));
  }

  /** An inventory row whose key no catalog entry has keeps the value 0.0, and
      "NOT_FOUND" as its set name unless the inventory has its own set names. */
  lemma UnmatchedRow(files: seq<CsvFile>, docs: seq<Document>, k: nat)
    requires k < |ReadableRows(files)|
    requires Text(Reconcile(files, docs).rows[k].cardId) !in Ids(NormalizedRows(docs))
    ensures var row := Reconcile(files, docs).rows[k];
      var cols := AllColumns(files);
      && row.marketValue == 0.0
      && (CardName !in cols ==> row.cardName == Missing)
      && (SetName !in cols ==> row.setName == NotFound)
  {
    var inv := InventoryTable(files);
    var rec := inv.records[k];
    ReconciledRowIs(files, docs, k);
    RecordOf(files, k);
    LookupSide(docs, rec.cardId);
    UnmatchedRowOf(inv.columns, rec, AllColumns(files));
  }

  /** An inventory row whose key some catalog entry has takes the value, and the names
      the inventory lacks, from the catalog row kept for that key: the one with the
      highest value, the earliest among equals. */
  lemma MatchedRow(files: seq<CsvFile>, docs: seq<Document>, k: nat)
    requires k < |ReadableRows(files)|
    requires Text(Reconcile(files, docs).rows[k].cardId) in Ids(NormalizedRows(docs))
    ensures var row := Reconcile(files, docs).rows[k];
      var cols := AllColumns(files);
      var catalog := NormalizedRows(docs);
      var best := catalog[BestIndex(catalog, Text(row.cardId))];
      && row.marketValue == best.marketValue
      && (CardName !in cols ==> row.cardName == best.cardName)
      && (SetName !in cols ==> row.setName == FillNa(best.setName, NotFound))
  {
    var inv := InventoryTable(files);
    var rec := inv.records[k];
    var catalog := NormalizedRows(docs);
    var best := catalog[BestIndex(catalog, Text(rec.cardId))];
    ReconciledRowIs(files, docs, k);
    RecordOf(files, k);
    LookupSide(docs, rec.cardId);
    MatchedRowOf(inv.columns, rec, best, AllColumns(files));
  }

  /** An inventory column the loaded table has exactly when the files have it, holding
      the file row's cell. */
  predicate SameColumn(columns: set<InvCol>, rec: InventoryRecord, src: Row, cols: set<InvCol>, c: InvCol)
  {
    (c in columns <==> c in cols) && CellOf(rec.cells, c) == CellOf(src, c)
  }

  /** Row `k` of the loaded inventory against row `k` of the readable files. */
  lemma RecordOf(files: seq<CsvFile>, k: nat)
    requires k < |ReadableRows(files)|
    ensures var inv := InventoryTable(files);
      var rec := inv.records[k];
      var src := ReadableRows(files)[k];
      var cols := AllColumns(files);
      && rec.setId == CoercedKey(src, SetId, cols)
      && rec.cardNumber == CoercedKey(src, CardNumber, cols)
      && rec.cardId == rec.setId + "-" + rec.cardNumber
      && SameColumn(inv.columns, rec, src, cols, BinderName)
      && SameColumn(inv.columns, rec, src, cols, PageNumber)
      && SameColumn(inv.columns, rec, src, cols, SlotNumber)
      && SameColumn(inv.columns, rec, src, cols, CardName)
      && SameColumn(inv.columns, rec, src, cols, SetName)
  {
  }

  /** The location columns and `index` of an output row. */
  lemma LocationOfRecord(columns: set<InvCol>, rec: InventoryRecord, m: Match, src: Row, cols: set<InvCol>)
    requires SameColumn(columns, rec, src, cols, BinderName)
    requires SameColumn(columns, rec, src, cols, PageNumber)
    requires SameColumn(columns, rec, src, cols, SlotNumber)
    ensures var row := PortfolioRowOf(columns, JoinedRow(rec, m));
      && row.binderName == (if BinderName in cols then CellOf(src, BinderName) else Text(""))
      && row.pageNumber == (if PageNumber in cols then CellOf(src, PageNumber) else Text(""))
      && row.slotNumber == (if SlotNumber in cols then CellOf(src, SlotNumber) else Text(""))
  {
  }

  /** The name columns of an output row whose inventory has them. */
  lemma NamesOfRecord(columns: set<InvCol>, rec: InventoryRecord, m: Match, src: Row, cols: set<InvCol>)
    requires SameColumn(columns, rec, src, cols, CardName)
    requires SameColumn(columns, rec, src, cols, SetName)
    ensures var row := PortfolioRowOf(columns, JoinedRow(rec, m));
      && (CardName in cols ==> row.cardName == CellOf(src, CardName))
      && (SetName in cols ==> row.setName == FillNa(CellOf(src, SetName), NotFound))
  {
  }

  /** The output row of an inventory row without a match. */
  lemma UnmatchedRowOf(columns: set<InvCol>, rec: InventoryRecord, cols: set<InvCol>)
    requires CardName in columns <==> CardName in cols
    requires SetName in columns <==> SetName in cols
    ensures var row := PortfolioRowOf(columns, JoinedRow(rec, NoMatch));
      && row.marketValue == 0.0
      && (CardName !in cols ==> row.cardName == Missing)
      && (SetName !in cols ==> row.setName == NotFound)
  {
  }

  /** The output row of an inventory row matched to a catalog row. */
  lemma MatchedRowOf(columns: set<InvCol>, rec: InventoryRecord, best: LookupRow, cols: set<InvCol>)
    requires CardName in columns <==> CardName in cols
    requires SetName in columns <==> SetName in cols
    ensures var row := PortfolioRowOf(columns, JoinedRow(rec, Matched(CoerceKeys(best))));
      && row.marketValue == best.marketValue
      && (CardName !in cols ==> row.cardName == best.cardName)
      && (SetName !in cols ==> row.setName == FillNa(best.setName, NotFound))
  {
  }

  /** Row `k` of the portfolio is inventory row `k` with its lookup side. */
  lemma ReconciledRowIs(files: seq<CsvFile>, docs: seq<Document>, k: nat)
    requires k < |ReadableRows(files)|
    ensures var inv := InventoryTable(files);
      Reconcile(files, docs).rows[k] ==
        PortfolioRowOf(inv.columns, JoinedRow(inv.records[k], LookupFor(LookupTable(docs), inv.records[k].cardId)))
  {
  }

  /** The lookup side of a key: no match exactly when no catalog entry has the key,
      else the catalog row kept for it, with its keys coerced. */
  lemma LookupSide(docs: seq<Document>, key: string)
    ensures var catalog := NormalizedRows(docs);
      var m := LookupFor(LookupTable(docs), key);
      && (m == NoMatch <==> Text(key) !in Ids(catalog))
      && (m.Matched? ==> Text(key) in Ids(catalog) && m.row == CoerceKeys(catalog[BestIndex(catalog, Text(key))]))
  {
    var lookup := LookupTable(docs);
    var catalog := NormalizedRows(docs);
    var m := LookupFor(lookup, key);
    if Text(key) in Ids(catalog) {
      var i :| 0 <= i < |lookup| && lookup[i].cardId == Text(key);
      assert lookup[i] in lookup;
    }
    if m.Matched? {
      var i :| 0 <= i < |lookup| && lookup[i] == m.row;
      assert Text(key) in Ids(lookup);
    }
  }

  // ---------------------------------------------------------------------------
  // A worked example

  /** One catalog document with one entry: card base1-4, Charizard, set base1 "Base",
      holofoil market price 350.0. */
  const ExampleCatalog: Document := JsonObject(CardList([
    CardEntry(Given("base1-4"), Given("Charizard"), Given("4"), Given("base1"), Given("Base"),
              Given(350.0), Absent)]))

  /** The example's inventory row: binder B1, page 1, slot 1, set base1, number 4. */
  const ExampleRow: Row :=
    map[BinderName := "B1", PageNumber := "1", SlotNumber := "1", SetId := "base1", CardNumber := "4"]

  /** One inventory file holding the example row and no name columns. */
  const ExampleInventory: CsvFile := Csv({BinderName, PageNumber, SlotNumber, SetId, CardNumber}, [ExampleRow])

  /** The normalised row of the example's catalog entry. */
  const ExampleEntryRow: LookupRow :=
    LookupRow(Text("base1-4"), Text("Charizard"), Text("4"), Text("base1"), Text("Base"), 350.0)

  /** The example file reads as the example row, with its five columns. */
  lemma ExampleInventoryRows()
    ensures ReadableRows([ExampleInventory]) == [ExampleRow]
    ensures var cols := AllColumns([ExampleInventory]);
      && BinderName in cols && PageNumber in cols && SlotNumber in cols && SetId in cols && CardNumber in cols
      && CardName !in cols && SetName !in cols
  {
    assert [ExampleInventory][..0] == [];
    assert Restrict(ExampleRow, ExampleInventory.columns) == ExampleRow;
  }

  /** Every field of the example entry is given, so it normalises to the example row. */
  lemma ExampleCatalogRows()
    ensures NormalizedRows([ExampleCatalog]) == [ExampleEntryRow]
  {
    var entries := CardEntries(ExampleCatalog);
    assert ColumnPresent(entries, CardIdCol) && ColumnPresent(entries, CardNameCol)
      && ColumnPresent(entries, CardNumberCol) && ColumnPresent(entries, SetIdCol)
      && ColumnPresent(entries, SetNameCol) by {
      assert SourceField(entries[0], CardIdCol).Given? && SourceField(entries[0], CardNameCol).Given?
        && SourceField(entries[0], CardNumberCol).Given? && SourceField(entries[0], SetIdCol).Given?
        && SourceField(entries[0], SetNameCol).Given?;
    }
    assert NormalizeEntry(entries, 0) == ExampleEntryRow;
    assert [ExampleCatalog][..0] == [];
    NormalizedRowsSnoc([ExampleCatalog]);
  }

  /** The key columns of a row whose file has both key columns filled in. */
  lemma KeyOfFilledRow(files: seq<CsvFile>, docs: seq<Document>, k: nat, setId: string, number: string)
    requires k < |ReadableRows(files)|
    requires SetId in AllColumns(files) && CardNumber in AllColumns(files)
    requires CellOf(ReadableRows(files)[k], SetId) == Text(setId)
    requires CellOf(ReadableRows(files)[k], CardNumber) == Text(number)
    ensures var row := Reconcile(files, docs).rows[k];
      row.setId == setId && row.cardNumber == number && row.cardId == setId + "-" + number
  {
    InventoryKeys(files, docs, k);
  }

  /** The location columns of a row whose file has all three filled in. */
  lemma LocationOfFilledRow(files: seq<CsvFile>, docs: seq<Document>, k: nat, binder: string, page: string, slot: string)
    requires k < |ReadableRows(files)|
    requires BinderName in AllColumns(files) && PageNumber in AllColumns(files) && SlotNumber in AllColumns(files)
    requires CellOf(ReadableRows(files)[k], BinderName) == Text(binder)
    requires CellOf(ReadableRows(files)[k], PageNumber) == Text(page)
    requires CellOf(ReadableRows(files)[k], SlotNumber) == Text(slot)
    ensures var row := Reconcile(files, docs).rows[k];
      && row.binderName == Text(binder) && row.pageNumber == Text(page) && row.slotNumber == Text(slot)
      && row.index == binder + "-" + page + "-" + slot
  {
    InventoryLocation(files, docs, k);
  }

  /** The value and names of a row when the catalog has exactly one normalised row,
      with the row's key, and the inventory has no name columns. */
  lemma SingleEntryMatch(files: seq<CsvFile>, docs: seq<Document>, k: nat, e: LookupRow)
    requires k < |ReadableRows(files)|
    requires NormalizedRows(docs) == [e]
    requires e.cardId == Text(Reconcile(files, docs).rows[k].cardId)
    requires CardName !in AllColumns(files) && SetName !in AllColumns(files)
    ensures var row := Reconcile(files, docs).rows[k];
      row.marketValue == e.marketValue && row.cardName == e.cardName && row.setName == FillNa(e.setName, NotFound)
  {
    assert e in NormalizedRows(docs);
    MatchedRow(files, docs, k);
  }

  /** A one-row inventory holding the five location and key columns, against a catalog
      whose one entry has that row's key: one output row, located and keyed by the
      inventory and named and priced by the catalog. */
  lemma SingleCardPortfolio(files: seq<CsvFile>, docs: seq<Document>, src: Row, e: LookupRow,
                            binder: string, page: string, slot: string, setId: string, number: string)
    requires ReadableRows(files) == [src]
    requires BinderName in AllColumns(files) && PageNumber in AllColumns(files) && SlotNumber in AllColumns(files)
    requires SetId in AllColumns(files) && CardNumber in AllColumns(files)
    requires CardName !in AllColumns(files) && SetName !in AllColumns(files)
    requires CellOf(src, BinderName) == Text(binder) && CellOf(src, PageNumber) == Text(page)
    requires CellOf(src, SlotNumber) == Text(slot)
    requires CellOf(src, SetId) == Text(setId) && CellOf(src, CardNumber) == Text(number)
    requires NormalizedRows(docs) == [e] && e.cardId == Text(setId + "-" + number)
    ensures Reconcile(files, docs).rows ==
      [PortfolioRow(binder + "-" + page + "-" + slot, Text(binder), Text(page), Text(slot), setId + "-" + number,
                    e.cardName, number, setId, FillNa(e.setName, NotFound), e.marketValue)]
  {
    var rows := Reconcile(files, docs).rows;
    assert |rows| == 1;
    KeyOfFilledRow(files, docs, 0, setId, number);
    LocationOfFilledRow(files, docs, 0, binder, page, slot);
    SingleEntryMatch(files, docs, 0, e);
    var r := rows[0];
    assert r == PortfolioRow(r.index, r.binderName, r.pageNumber, r.slotNumber, r.cardId,
                             r.cardName, r.cardNumber, r.setId, r.setName, r.marketValue);
  }

  /** The portfolio for the example: one row keyed "B1-1-1" for base1-4, named and
      priced from the catalog. */
  lemma ExamplePortfolio()
    ensures Reconcile([ExampleInventory], [ExampleCatalog]).rows ==
      [PortfolioRow("B1-1-1", Text("B1"), Text("1"), Text("1"), "base1-4", Text("Charizard"), "4", "base1",
                    "Base", 350.0)]
  {
    ExampleInventoryRows();
    ExampleCatalogRows();
    assert CellOf(ExampleRow, SetId) == Text("base1") && CellOf(ExampleRow, CardNumber) == Text("4");
    assert CellOf(ExampleRow, BinderName) == Text("B1") && CellOf(ExampleRow, PageNumber) == Text("1");
    assert CellOf(ExampleRow, SlotNumber) == Text("1");
    assert "base1" + "-" + "4" == "base1-4";
    assert "B1" + "-" + "1" + "-" + "1" == "B1-1-1";
    SingleCardPortfolio([ExampleInventory], [ExampleCatalog], ExampleRow, ExampleEntryRow, "B1", "1", "1", "base1", "4");
  }
}
