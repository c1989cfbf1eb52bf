/** Per-document normalisation of catalog entries (`_load_lookup_data`, the body of
    its loop over files): the market-value fallback chain, the renaming of source
    fields to canonical columns, and the defaults for columns a document lacks. */
module LookupNormalizer {
  import opened Cards

  /** An ordered fallback chain: the first given value wins, else the default. */
  function FirstGiven(chain: seq<Field<real>>, default: real): (v: real)
    ensures (forall i | 0 <= i < |chain| :: !chain[i].Given?) ==> v == default
    ensures forall i | 0 <= i < |chain| && chain[i].Given? ::
              (forall j | 0 <= j < i :: !chain[j].Given?) ==> v == chain[i].value
  {
    if |chain| == 0 then default
    else if chain[0].Given? then chain[0].value
    else FirstGiven(chain[1..], default)
  }

  /** `card_market_value`: the holofoil market price, else the normal market price,
      else 0.0; a key present with null falls through like an absent one. */
  function MarketValue(e: CardEntry): (v: real)
    ensures e.holofoilMarket.Given? ==> v == e.holofoilMarket.value
    ensures !e.holofoilMarket.Given? && e.normalMarket.Given? ==> v == e.normalMarket.value
    ensures !e.holofoilMarket.Given? && !e.normalMarket.Given? ==> v == 0.0
  {
    var chain := [e.holofoilMarket, e.normalMarket];
    assert chain[1] == e.normalMarket;
    FirstGiven(chain, 0.0)
  }

  /** The five text columns of a normalised row. */
  datatype TextColumn = CardIdCol | CardNameCol | CardNumberCol | SetIdCol | SetNameCol

  /** The rename map: the source field each canonical text column is taken from. */
  function SourceField(e: CardEntry, c: TextColumn): Field<string>
  {
    match c
    case CardIdCol => e.id
    case CardNameCol => e.name
    case CardNumberCol => e.number
    case SetIdCol => e.setId
    case SetNameCol => e.setName
  }

  /** The cell of a normalised row in a canonical text column. */
  function ColumnOf(r: LookupRow, c: TextColumn): Cell
  {
    match c
    case CardIdCol => r.cardId
    case CardNameCol => r.cardName
    case CardNumberCol => r.cardNumber
    case SetIdCol => r.setId
    case SetNameCol => r.setName
  }

  /** The flattened table of a document has a column for a path when at least one of
      its entries carries that key (with a value or with null). */
  predicate ColumnPresent(entries: seq<CardEntry>, c: TextColumn)
  {
    exists i | 0 <= i < |entries| :: !SourceField(entries[i], c).Absent?
  }

  /** A renamed cell: the entry's value, the missing value when the document has the
      column but this entry has no value, "" when the document lacks the column. */
  function TextCell(present: bool, f: Field<string>): Cell
  {
    if !present then Text("")
    else if f.Given? then Text(f.value)
    else Missing
  }

  /** The normalised row of entry `j` of a document's entry list. */
  function NormalizeEntry(entries: seq<CardEntry>, j: nat): (r: LookupRow)
    requires j < |entries|
    ensures r.marketValue == MarketValue(entries[j])
    ensures forall c: TextColumn :: SourceField(entries[j], c).Given? ==>
              ColumnOf(r, c) == Text(SourceField(entries[j], c).value)
    ensures forall c: TextColumn :: !ColumnPresent(entries, c) ==> ColumnOf(r, c) == Text("")
    ensures forall c: TextColumn :: ColumnPresent(entries, c) && !SourceField(entries[j], c).Given? ==>
              ColumnOf(r, c) == Missing
  {
    var e := entries[j];
    LookupRow(
      TextCell(ColumnPresent(entries, CardIdCol), e.id),
      TextCell(ColumnPresent(entries, CardNameCol), e.name),
      TextCell(ColumnPresent(entries, CardNumberCol), e.number),
      TextCell(ColumnPresent(entries, SetIdCol), e.setId),
      TextCell(ColumnPresent(entries, SetNameCol), e.setName),
      MarketValue(e))
  }

  /** The card entries of a document, or none when the document is skipped: not
      readable, not an object, no "data" key, or "data" not a list. */
  function CardEntries(doc: Document): seq<CardEntry>
  {
    match doc
    case JsonObject(CardList(entries)) => entries
    case _ => []
  }

  /** Whether a document adds a table to the list of normalised tables. */
  predicate Contributes(doc: Document)
  {
    |CardEntries(doc)| > 0
  }

  /** The normalised table of one document: one row per entry, in entry order. */
  function DocumentRows(doc: Document): (rows: seq<LookupRow>)
    ensures |rows| == |CardEntries(doc)|
    ensures forall j | 0 <= j < |rows| :: rows[j] == NormalizeEntry(CardEntries(doc), j)
  {
    var entries := CardEntries(doc);
    seq(|entries|, j requires 0 <= j < |entries| => NormalizeEntry(entries, j))
  }

  /** A key present with JSON null keeps its column in the document's table, so the
      entry's cell is the missing value and never the "" default. */
  lemma {:induction false} DefaultsOnlyForAbsentColumns(entries: seq<CardEntry>, j: nat, c: TextColumn)
    requires j < |entries|
    requires SourceField(entries[j], c).Null?
    ensures ColumnOf(NormalizeEntry(entries, j), c) == Missing
  {
    assert !SourceField(entries[j], c).Absent?;
    assert ColumnPresent(entries, c);
  }
}
