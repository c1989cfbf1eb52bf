/** `_load_inventory_data`: the loop over inventory CSV files in file-name order, the
    concatenation of the tables read, the filling of a missing `set_id` or
    `card_number` column, their string coercion, and the derived `card_id`. */
module InventoryLoader {
  import opened Cards

  /** A table being built: its columns and its rows. */
  datatype Frame = Frame(columns: set<InvCol>, rows: seq<Row>)

  /** The cell of a row in a column. */
  function CellOf(r: Row, c: InvCol): Cell
  {
    if c in r then Text(r[c]) else Missing
  }

  /** The join key: `set_id` and `card_number` joined by a hyphen. */
  function CardKey(setId: string, cardNumber: string): (k: string)
    ensures |k| == |setId| + 1 + |cardNumber|
    ensures k[..|setId|] == setId && k[|setId|] == '-' && k[|setId| + 1..] == cardNumber
  {
    setId + "-" + cardNumber
  }

  // ---------------------------------------------------------------------------
  // Reading and concatenating the files

  /** A file's row as the table read from it holds it: only the file's columns. */
  function Restrict(r: Row, columns: set<InvCol>): Row
  {
    map c | c in r && c in columns :: r[c]
  }

  /** The table `pd.read_csv` gives for a readable file. */
  function FileFrame(f: CsvFile): Frame
    requires f.Csv?
  {
    Frame(f.columns, seq(|f.rows|, i requires 0 <= i < |f.rows| => Restrict(f.rows[i], f.columns)))
  }

  /** The list `inventory_data`: the tables of the readable files, in order. */
  function ReadFrames(files: seq<CsvFile>): seq<Frame>
  {
    if |files| == 0 then []
    else
      var last := files[|files| - 1];
      ReadFrames(files[..|files| - 1]) + (if last.Csv? then [FileFrame(last)] else [])
  }

  /** `pd.concat`: the union of the columns and the rows one table after another; a
      row keeps the missing value in the columns its own file lacks. */
  function Concat(frames: seq<Frame>): Frame
  {
    if |frames| == 0 then Frame({}, [])
    else
      var init := Concat(frames[..|frames| - 1]);
      var last := frames[|frames| - 1];
      Frame(init.columns + last.columns, init.rows + last.rows)
  }

  /** The rows of all readable files, in file order, each holding its file's columns. */
  function ReadableRows(files: seq<CsvFile>): seq<Row>
  {
    if |files| == 0 then []
    else
      var last := files[|files| - 1];
      ReadableRows(files[..|files| - 1]) +
        (if last.Csv? then seq(|last.rows|, i requires 0 <= i < |last.rows| => Restrict(last.rows[i], last.columns))
         else [])
  }

  /** The columns of the readable files. */
  function AllColumns(files: seq<CsvFile>): set<InvCol>
  {
    if |files| == 0 then {}
    else
      var last := files[|files| - 1];
      AllColumns(files[..|files| - 1]) + (if last.Csv? then last.columns else {})
  }

  // ---------------------------------------------------------------------------
  // Column operations

  /** `df[c] = value` for a whole column. */
  function SetColumn(f: Frame, c: InvCol, value: string): (g: Frame)
    ensures g.columns == f.columns + {c} && |g.rows| == |f.rows|
    ensures forall i, d | 0 <= i < |g.rows| :: CellOf(g.rows[i], d) == if d == c then Text(value) else CellOf(f.rows[i], d)
  {
    Frame(f.columns + {c}, seq(|f.rows|, i requires 0 <= i < |f.rows| => f.rows[i][c := value]))
  }

  /** The loop `for col in needed: if col not in df.columns: df[col] = ""`. */
  function FillMissing(f: Frame, needed: seq<InvCol>): (g: Frame)
    ensures g.columns == f.columns + (set c | c in needed)
    ensures |g.rows| == |f.rows|
  {
    if |needed| == 0 then f
    else
      var g := FillMissing(f, needed[..|needed| - 1]);
      var c := needed[|needed| - 1];
      assert needed == needed[..|needed| - 1] + [c];
      if c !in g.columns then SetColumn(g, c, "") else g
  }

  /** A needed column the table lacks is "" in every row; every other cell is kept. */
  lemma {:induction false} FillMissingCell(f: Frame, needed: seq<InvCol>, i: nat, c: InvCol)
    requires i < |f.rows|
    ensures CellOf(FillMissing(f, needed).rows[i], c) ==
      if c in needed && c !in f.columns then Text("") else CellOf(f.rows[i], c)
    decreases |needed|
  {
    if |needed| > 0 {
      var init := needed[..|needed| - 1];
      var last := needed[|needed| - 1];
      FillMissingCell(f, init, i, c);
      assert needed == init + [last];
      assert c in needed <==> c in init || c == last;
    }
  }

  /** `df[c] = df[c].astype(str)`: every cell of the column becomes a string. */
  function ToStrColumn(f: Frame, c: InvCol): (g: Frame)
    ensures g.columns == f.columns && |g.rows| == |f.rows|
    ensures forall i | 0 <= i < |g.rows| :: c in g.rows[i] && g.rows[i][c] == AsStr(CellOf(f.rows[i], c))
    ensures forall i, d | 0 <= i < |g.rows| && d != c :: CellOf(g.rows[i], d) == CellOf(f.rows[i], d)
  {
    Frame(f.columns, seq(|f.rows|, i requires 0 <= i < |f.rows| => f.rows[i][c := AsStr(CellOf(f.rows[i], c))]))
  }

  /** `df["card_id"] = df["set_id"].str.cat(df["card_number"], sep="-")`. */
  function WithCardIds(f: Frame): (records: seq<InventoryRecord>)
    requires forall i | 0 <= i < |f.rows| :: SetId in f.rows[i] && CardNumber in f.rows[i]
    ensures |records| == |f.rows|
    ensures forall i | 0 <= i < |records| ::
              && records[i].cells == f.rows[i]
              && records[i].setId == f.rows[i][SetId]
              && records[i].cardNumber == f.rows[i][CardNumber]
              && records[i].cardId == records[i].setId + "-" + records[i].cardNumber
  {
    seq(|f.rows|, i requires 0 <= i < |f.rows| =>
      var r := f.rows[i];
      InventoryRecord(r, r[SetId], r[CardNumber], CardKey(r[SetId], r[CardNumber])))
  }

  const Needed: seq<InvCol> := [SetId, CardNumber]

  /** The value a key column takes in a loaded row: "" when no readable file has the
      column, else the row's cell coerced to a string (a missing cell gives "nan"). */
  function CoercedKey(r: Row, c: InvCol, columns: set<InvCol>): string
  {
    if c in columns then AsStr(CellOf(r, c)) else ""
  }

  /** The concatenated table after the key columns are filled and coerced. */
  function LoadedFrame(g: Frame): (f: Frame)
    ensures f.columns == g.columns + {SetId, CardNumber} && |f.rows| == |g.rows|
  {
    assert (set c | c in Needed) == {SetId, CardNumber};
    ToStrColumn(ToStrColumn(FillMissing(g, Needed), SetId), CardNumber)
  }

  /** One row of the loaded table against the same row of the concatenated one. */
  lemma LoadedRow(g: Frame, k: nat)
    requires k < |g.rows|
    ensures var f := LoadedFrame(g);
      && SetId in f.rows[k] && CardNumber in f.rows[k]
      && f.rows[k][SetId] == CoercedKey(g.rows[k], SetId, g.columns)
      && f.rows[k][CardNumber] == CoercedKey(g.rows[k], CardNumber, g.columns)
      && forall c | c != SetId && c != CardNumber :: CellOf(f.rows[k], c) == CellOf(g.rows[k], c)
  {
    var filled := FillMissing(g, Needed);
    var withSet := ToStrColumn(filled, SetId);
    var f := ToStrColumn(withSet, CardNumber);
    FillMissingCell(g, Needed, k, SetId);
    FillMissingCell(g, Needed, k, CardNumber);
    assert CellOf(f.rows[k], SetId) == CellOf(withSet.rows[k], SetId);
    forall c | c != SetId && c != CardNumber ensures CellOf(f.rows[k], c) == CellOf(g.rows[k], c) {
      FillMissingCell(g, Needed, k, c);
      assert c !in Needed;
    }
  }

  /** The inventory table `_load_inventory_data` returns. */
  function InventoryTable(files: seq<CsvFile>): (inv: Inventory)
    ensures |inv.records| == |ReadableRows(files)|
    ensures forall k | 0 <= k < |inv.records| ::
              var r := ReadableRows(files)[k];
              var rec := inv.records[k];
              && rec.setId == CoercedKey(r, SetId, AllColumns(files))
              && rec.cardNumber == CoercedKey(r, CardNumber, AllColumns(files))
              && rec.cardId == rec.setId + "-" + rec.cardNumber
    ensures forall k, c | 0 <= k < |inv.records| && c != SetId && c != CardNumber ::
              CellOf(inv.records[k].cells, c) == CellOf(ReadableRows(files)[k], c)
    ensures |inv.records| > 0 ==> inv.columns == AllColumns(files) + {SetId, CardNumber}
  {
    var frames := ReadFrames(files);
    ConcatReadFrames(files);
    if |frames| == 0 then
      Inventory(EmptyInventoryColumns, [])
    else
      var g := Concat(frames);
      var f := LoadedFrame(g);
      assert forall k | 0 <= k < |g.rows| ::
        && SetId in f.rows[k] && CardNumber in f.rows[k]
        && f.rows[k][SetId] == CoercedKey(g.rows[k], SetId, g.columns)
        && f.rows[k][CardNumber] == CoercedKey(g.rows[k], CardNumber, g.columns)
        && forall c | c != SetId && c != CardNumber :: CellOf(f.rows[k], c) == CellOf(g.rows[k], c)
      by {
        forall k | 0 <= k < |g.rows|
          ensures && SetId in f.rows[k] && CardNumber in f.rows[k]
                  && f.rows[k][SetId] == CoercedKey(g.rows[k], SetId, g.columns)
                  && f.rows[k][CardNumber] == CoercedKey(g.rows[k], CardNumber, g.columns)
                  && forall c | c != SetId && c != CardNumber :: CellOf(f.rows[k], c) == CellOf(g.rows[k], c)
        {
          LoadedRow(g, k);
        }
      }
      Inventory(f.columns, WithCardIds(f))
  }

  /** The inventory loader: keeps the tables of the readable files, concatenates them,
      fills and coerces the key columns, and derives `card_id`. */
  method LoadInventoryData(files: seq<CsvFile>) returns (inv: Inventory)
    ensures inv == InventoryTable(files)
  {
    var inventoryData: seq<Frame> := [];
    for i := 0 to |files|
      invariant inventoryData == ReadFrames(files[..i])
    {
      assert files[..i + 1][..i] == files[..i];
      if files[i].Csv? {
        inventoryData := inventoryData + [FileFrame(files[i])];
      }
    }
    assert files[..|files|] == files;
    if |inventoryData| == 0 {
      return Inventory(EmptyInventoryColumns, []);
    }
    var concat := Concat(inventoryData);
    var frame := concat;
    for j := 0 to |Needed|
      invariant frame == FillMissing(concat, Needed[..j])
    {
      assert Needed[..j + 1][..j] == Needed[..j];
      if Needed[j] !in frame.columns {
        frame := SetColumn(frame, Needed[j], "");
      }
    }
    assert Needed[..|Needed|] == Needed;
    frame := ToStrColumn(frame, SetId);
    frame := ToStrColumn(frame, CardNumber);
    inv := Inventory(frame.columns, WithCardIds(frame));
  }

  // ---------------------------------------------------------------------------
  // Properties

  /** Concatenating the tables read gives the readable rows, in file order, under the
      union of the files' columns. */
  lemma {:induction false} ConcatReadFrames(files: seq<CsvFile>)
    ensures Concat(ReadFrames(files)).rows == ReadableRows(files)
    ensures Concat(ReadFrames(files)).columns == AllColumns(files)
    decreases |files|
  {
    if |files| > 0 {
      var init := files[..|files| - 1];
      var last := files[|files| - 1];
      ConcatReadFrames(init);
      var frames := ReadFrames(files);
      if last.Csv? {
        assert frames[..|frames| - 1] == ReadFrames(init);
        assert frames[|frames| - 1] == FileFrame(last);
      } else {
        assert frames == ReadFrames(init);
      }
    }
  }

  /** A key column that no readable file has is "" in every row, so a file without a
      `set_id` column gives keys such as "-4". */
  lemma MissingKeyColumnGivesEmpty(files: seq<CsvFile>, k: nat)
    requires k < |InventoryTable(files).records|
    requires SetId !in AllColumns(files)
    ensures InventoryTable(files).records[k].setId == ""
    ensures InventoryTable(files).records[k].cardId == "-" + InventoryTable(files).records[k].cardNumber
  {
    var rec := InventoryTable(files).records[k];
    assert rec.setId == CoercedKey(ReadableRows(files)[k], SetId, AllColumns(files));
  }
}
