/** `_load_lookup_data`: the loop over catalog documents in file-name order, the
    concatenation of their normalised tables, deduplication, and the string coercion
    of `card_number` and `set_id`. */
module LookupLoader {
  import opened Cards
  import opened LookupNormalizer
  import opened LookupDedup

  /** `pd.concat` of a list of tables with the same columns. */
  function Flatten(tables: seq<seq<LookupRow>>): (rows: seq<LookupRow>)
  {
    if |tables| == 0 then [] else Flatten(tables[..|tables| - 1]) + tables[|tables| - 1]
  }

  /** The list of normalised tables the loop builds: one per document that has a
      non-empty "data" list, in document order. */
  function Contributions(docs: seq<Document>): seq<seq<LookupRow>>
  {
    if |docs| == 0 then []
    else
      var last := docs[|docs| - 1];
      Contributions(docs[..|docs| - 1]) + (if Contributes(last) then [DocumentRows(last)] else [])
  }

  /** The concatenated, not yet deduplicated catalog table. */
  function NormalizedRows(docs: seq<Document>): seq<LookupRow>
  {
    Flatten(Contributions(docs))
  }

  /** The number of card entries across the documents that are not skipped. */
  function EntryCount(docs: seq<Document>): nat
  {
    if |docs| == 0 then 0 else EntryCount(docs[..|docs| - 1]) + |CardEntries(docs[|docs| - 1])|
  }

  /** `astype(str)` on `card_number` and `set_id`. */
  function CoerceKeys(r: LookupRow): LookupRow
  {
    r.(cardNumber := Text(AsStr(r.cardNumber)), setId := Text(AsStr(r.setId)))
  }

  /** `astype(str)` on `card_number` and `set_id`, over a whole table. */
  function CoerceAll(d: seq<LookupRow>): (t: seq<LookupRow>)
    ensures |t| == |d|
    ensures forall i | 0 <= i < |t| :: t[i] == CoerceKeys(d[i])
    ensures Ids(t) == Ids(d)
    ensures Unique(d) ==> Unique(t)
    ensures Sorted(d) ==> Sorted(t)
  {
    var t := seq(|d|, i requires 0 <= i < |d| => CoerceKeys(d[i]));
    assert Ids(t) == Ids(d) by {
      forall k | k in Ids(d) ensures k in Ids(t) {
        var j :| 0 <= j < |d| && d[j].cardId == k;
        assert t[j] in t;
      }
      forall k | k in Ids(t) ensures k in Ids(d) {
        var j :| 0 <= j < |t| && t[j].cardId == k;
        assert d[j] in d;
      }
    }
    t
  }

  /** The lookup table `_load_lookup_data` returns. */
  function LookupTable(docs: seq<Document>): (t: seq<LookupRow>)
    ensures Unique(t)
    ensures Sorted(t)
    ensures Ids(t) == Ids(NormalizedRows(docs))
    ensures forall i | 0 <= i < |t| ::
              var s := NormalizedRows(docs);
              t[i].cardId in Ids(s) && t[i] == CoerceKeys(s[BestIndex(s, t[i].cardId)])
  {
    var s := NormalizedRows(docs);
    var d := Dedup(s);
    var t := CoerceAll(d);
    assert forall i | 0 <= i < |t| :: t[i].cardId in Ids(s) && t[i] == CoerceKeys(s[BestIndex(s, t[i].cardId)]) by {
      forall i | 0 <= i < |t| ensures t[i].cardId in Ids(s) && t[i] == CoerceKeys(s[BestIndex(s, t[i].cardId)]) {
        assert d[i] in d;
        assert t[i].cardId == d[i].cardId;
      }
    }
    t
  }

  /** The catalog loader: skips the documents it cannot use, normalises the others,
      then deduplicates and coerces. */
  method LoadLookupData(docs: seq<Document>) returns (lookup: seq<LookupRow>)
    ensures lookup == LookupTable(docs)
  {
    var tables: seq<seq<LookupRow>> := [];
    for i := 0 to |docs|
      invariant tables == Contributions(docs[..i])
    {
      assert docs[..i + 1][..i] == docs[..i];
      var doc := docs[i];
      if !(doc.JsonObject? && doc.data.CardList?) {
        continue;
      }
      if |doc.data.entries| == 0 {
        continue;
      }
      tables := tables + [DocumentRows(doc)];
    }
    assert docs[..|docs|] == docs;
    if |tables| == 0 {
      return [];
    }
    var deduped := Dedup(Flatten(tables));
    lookup := CoerceAll(deduped);
  }

  // ---------------------------------------------------------------------------
  // Properties of the normalised table

  lemma {:induction false} FlattenAppend(tables: seq<seq<LookupRow>>, extra: seq<seq<LookupRow>>)
    ensures Flatten(tables + extra) == Flatten(tables) + Flatten(extra)
    decreases |extra|
  {
    if |extra| == 0 {
      assert tables + extra == tables;
    } else {
      var n := |extra| - 1;
      var all := tables + extra;
      assert all[..|all| - 1] == tables + extra[..n];
      assert all[|all| - 1] == extra[n];
      FlattenAppend(tables, extra[..n]);
    }
  }

  /** The normalised table of a document list ends with that of its last document. */
  lemma NormalizedRowsSnoc(docs: seq<Document>)
    requires |docs| > 0
    ensures NormalizedRows(docs) == NormalizedRows(docs[..|docs| - 1]) + DocumentRows(docs[|docs| - 1])
  {
    var last := docs[|docs| - 1];
    var extra := if Contributes(last) then [DocumentRows(last)] else [];
    FlattenAppend(Contributions(docs[..|docs| - 1]), extra);
    if Contributes(last) {
      assert extra[..0] == [];
    }
  }

  /** One normalised row per entry of every document that is not skipped. */
  lemma {:induction false} NormalizedRowsCount(docs: seq<Document>)
    ensures |NormalizedRows(docs)| == EntryCount(docs)
    decreases |docs|
  {
    if |docs| > 0 {
      NormalizedRowsCount(docs[..|docs| - 1]);
      NormalizedRowsSnoc(docs);
    }
  }

  /** Every entry of a document that is not skipped gives a normalised row. */
  lemma {:induction false} EntryIsNormalized(docs: seq<Document>, d: nat, j: nat)
    requires d < |docs| && j < |CardEntries(docs[d])|
    ensures NormalizeEntry(CardEntries(docs[d]), j) in NormalizedRows(docs)
    decreases |docs|
  {
    var init := docs[..|docs| - 1];
    NormalizedRowsSnoc(docs);
    if d < |docs| - 1 {
      assert init[d] == docs[d];
      EntryIsNormalized(init, d, j);
    } else {
      assert DocumentRows(docs[d])[j] in DocumentRows(docs[d]);
    }
  }

  /** Every normalised row is the normalisation of an entry of a document that is not
      skipped. */
  lemma {:induction false} NormalizedRowOrigin(docs: seq<Document>, r: LookupRow)
    requires r in NormalizedRows(docs)
    ensures exists d, j | 0 <= d < |docs| && 0 <= j < |CardEntries(docs[d])| ::
              r == NormalizeEntry(CardEntries(docs[d]), j)
    decreases |docs|
  {
    var init := docs[..|docs| - 1];
    var last := docs[|docs| - 1];
    NormalizedRowsSnoc(docs);
    if r in NormalizedRows(init) {
      NormalizedRowOrigin(init, r);
      var d, j :| 0 <= d < |init| && 0 <= j < |CardEntries(init[d])| &&
                  r == NormalizeEntry(CardEntries(init[d]), j);
      assert docs[d] == init[d];
    } else {
      var j :| 0 <= j < |DocumentRows(last)| && DocumentRows(last)[j] == r;
    }
  }

  lemma {:induction false} EntryCountZero(docs: seq<Document>)
    ensures EntryCount(docs) == 0 <==> forall d | 0 <= d < |docs| :: !Contributes(docs[d])
    decreases |docs|
  {
    if |docs| > 0 {
      var init := docs[..|docs| - 1];
      EntryCountZero(init);
      assert forall d | 0 <= d < |init| :: init[d] == docs[d];
    }
  }

  /** The lookup table is empty exactly when no document has a non-empty "data" list. */
  lemma LookupTableEmptyIff(docs: seq<Document>)
    ensures LookupTable(docs) == [] <==> forall d | 0 <= d < |docs| :: !Contributes(docs[d])
  {
    var s := NormalizedRows(docs);
    IdsEmpty(s);
    IdsEmpty(LookupTable(docs));
    NormalizedRowsCount(docs);
    EntryCountZero(docs);
  }

  /** The row kept for a `card_id` carries the highest value any catalog entry gives
      that id. */
  lemma LookupTableKeepsHighestValue(docs: seq<Document>, i: nat, d: nat, j: nat)
    requires i < |LookupTable(docs)|
    requires d < |docs| && j < |CardEntries(docs[d])|
    requires NormalizeEntry(CardEntries(docs[d]), j).cardId == LookupTable(docs)[i].cardId
    ensures MarketValue(CardEntries(docs[d])[j]) <= LookupTable(docs)[i].marketValue
  {
    var s := NormalizedRows(docs);
    var t := LookupTable(docs);
    EntryIsNormalized(docs, d, j);
    var e := NormalizeEntry(CardEntries(docs[d]), j);
    var m :| 0 <= m < |s| && s[m] == e;
    var b := BestIndex(s, t[i].cardId);
    assert s[m].marketValue <= s[b].marketValue;
  }
}
