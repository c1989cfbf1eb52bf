/** Deduplication of the concatenated catalog table (`_load_lookup_data`, after its loop):
    a stable sort by (`card_market_value` descending, `card_id` ascending, missing ids
    last) followed by keeping the first row of each `card_id`. */
module LookupDedup {
  import opened Cards
  import TextOrder

  /** The `card_id`s of a table. */
  function Ids(s: seq<LookupRow>): set<Cell>
  {
    set r | r in s :: r.cardId
  }

  /** No `card_id` occurs twice. */
  predicate Unique(s: seq<LookupRow>)
  {
    forall i, j | 0 <= i < j < |s| :: s[i].cardId != s[j].cardId
  }

  // ---------------------------------------------------------------------------
  // The sort key

  /** Ascending order on `card_id`, with pandas' default of missing values last. */
  predicate IdLe(a: Cell, b: Cell)
  {
    match (a, b)
    case (Text(x), Text(y)) => TextOrder.Le(x, y)
    case (Text(_), Missing) => true
    case (Missing, Text(_)) => false
    case (Missing, Missing) => true
  }

  /** May `a` stand before `b` in a table sorted by (value descending, id ascending). */
  predicate KeyLe(a: LookupRow, b: LookupRow)
  {
    a.marketValue > b.marketValue || (a.marketValue == b.marketValue && IdLe(a.cardId, b.cardId))
  }

  lemma KeyLeTotal(a: LookupRow, b: LookupRow)
    ensures KeyLe(a, b) || KeyLe(b, a)
  {
    if a.cardId.Text? && b.cardId.Text? { TextOrder.LeTotal(a.cardId.text, b.cardId.text); }
  }

  lemma KeyLeTransitive(a: LookupRow, b: LookupRow, c: LookupRow)
    requires KeyLe(a, b) && KeyLe(b, c)
    ensures KeyLe(a, c)
  {
    if a.cardId.Text? && b.cardId.Text? && c.cardId.Text? {
      if TextOrder.Le(a.cardId.text, b.cardId.text) && TextOrder.Le(b.cardId.text, c.cardId.text) {
        TextOrder.LeTransitive(a.cardId.text, b.cardId.text, c.cardId.text);
      }
    }
  }

  /** Between two rows of the same `card_id`, the key compares the values only. */
  lemma KeyLeSameId(a: LookupRow, b: LookupRow)
    requires a.cardId == b.cardId
    ensures KeyLe(a, b) <==> a.marketValue >= b.marketValue
  {
    if a.cardId.Text? { TextOrder.LeReflexive(a.cardId.text); }
  }

  /** Two rows that may each stand before the other have the same value and id. */
  lemma KeyLeAntisymmetric(a: LookupRow, b: LookupRow)
    requires KeyLe(a, b) && KeyLe(b, a)
    ensures a.marketValue == b.marketValue && a.cardId == b.cardId
  {
    if a.cardId.Text? && b.cardId.Text? { TextOrder.LeAntisymmetric(a.cardId.text, b.cardId.text); }
  }

  predicate Sorted(s: seq<LookupRow>)
  {
    forall i, j | 0 <= i < j < |s| :: KeyLe(s[i], s[j])
  }

  // ---------------------------------------------------------------------------
  // Stable sort

  /** Inserts `x` before the first row it may precede: ahead of the rows with an equal
      key, which came later in the input. */
  function Insert(x: LookupRow, t: seq<LookupRow>): (r: seq<LookupRow>)
    ensures multiset(r) == multiset(t) + multiset{x}
  {
    if |t| == 0 then [x]
    else if KeyLe(x, t[0]) then [x] + t
    else
      assert t == [t[0]] + t[1..];
      [t[0]] + Insert(x, t[1..])
  }

  lemma {:induction false} InsertSorted(x: LookupRow, t: seq<LookupRow>)
    requires Sorted(t)
    ensures Sorted(Insert(x, t))
  {
    if |t| == 0 {
    } else if KeyLe(x, t[0]) {
      var r := Insert(x, t);
      forall i, j | 0 <= i < j < |r| ensures KeyLe(r[i], r[j]) {
        if i == 0 && j > 1 { KeyLeTransitive(x, t[0], t[j - 1]); }
      }
    } else {
      KeyLeTotal(x, t[0]);
      InsertSorted(x, t[1..]);
      var rest := Insert(x, t[1..]);
      var r := [t[0]] + rest;
      forall j | 0 <= j < |rest| ensures KeyLe(t[0], rest[j]) {
        assert rest[j] in multiset(rest);
        assert rest[j] == x || rest[j] in multiset(t[1..]);
        if rest[j] != x {
          var k :| 0 <= k < |t[1..]| && t[1..][k] == rest[j];
          assert t[k + 1] == rest[j];
        }
      }
      forall i, j | 0 <= i < j < |r| ensures KeyLe(r[i], r[j]) {
        if i == 0 { assert r[j] == rest[j - 1]; } else { assert r[i] == rest[i - 1] && r[j] == rest[j - 1]; }
      }
    }
  }

  /** `sort_values` on (value descending, id ascending), stable. */
  function SortByKey(s: seq<LookupRow>): (r: seq<LookupRow>)
    ensures multiset(r) == multiset(s)
  {
    if |s| == 0 then []
    else
      assert s == [s[0]] + s[1..];
      Insert(s[0], SortByKey(s[1..]))
  }

  lemma {:induction false} SortByKeySorted(s: seq<LookupRow>)
    ensures Sorted(SortByKey(s))
  {
    if |s| > 0 {
      SortByKeySorted(s[1..]);
      InsertSorted(s[0], SortByKey(s[1..]));
    }
  }

  lemma SameMultisetSameIds(a: seq<LookupRow>, b: seq<LookupRow>)
    requires multiset(a) == multiset(b)
    ensures Ids(a) == Ids(b)
  {
    forall k | k in Ids(a) ensures k in Ids(b) {
      var r :| r in a && r.cardId == k;
      assert r in multiset(a);
    }
    forall k | k in Ids(b) ensures k in Ids(a) {
      var r :| r in b && r.cardId == k;
      assert r in multiset(b);
    }
  }

  lemma IdsEmpty(s: seq<LookupRow>)
    ensures Ids(s) == {} <==> |s| == 0
  {
    if |s| > 0 { assert s[0] in s; assert s[0].cardId in Ids(s); }
  }

  lemma IdsCons(s: seq<LookupRow>)
    requires |s| > 0
    ensures Ids(s) == {s[0].cardId} + Ids(s[1..])
  {
    assert s == [s[0]] + s[1..];
    forall k | k in Ids(s) ensures k in {s[0].cardId} + Ids(s[1..]) {
      var r :| r in s && r.cardId == k;
      if r != s[0] { assert r in s[1..]; }
    }
  }

  // ---------------------------------------------------------------------------
  // Which row survives: the reference definition

  /** The first row of `t` with `card_id` `k`. */
  function FirstWithId(t: seq<LookupRow>, k: Cell): (r: LookupRow)
    requires k in Ids(t)
    ensures r in t && r.cardId == k
  {
    IdsCons(t);
    if t[0].cardId == k then t[0] else FirstWithId(t[1..], k)
  }

  /** The row deduplication should keep for `card_id` `k`: the earliest input row among
      those of highest value for `k`. */
  function BestIndex(s: seq<LookupRow>, k: Cell): (i: nat)
    requires k in Ids(s)
    ensures i < |s| && s[i].cardId == k
    ensures forall j | 0 <= j < |s| && s[j].cardId == k :: s[j].marketValue <= s[i].marketValue
    ensures forall j | 0 <= j < i && s[j].cardId == k :: s[j].marketValue < s[i].marketValue
  {
    IdsCons(s);
    if s[0].cardId == k then
      if k in Ids(s[1..]) && s[1 + BestIndex(s[1..], k)].marketValue > s[0].marketValue
      then 1 + BestIndex(s[1..], k)
      else 0
    else 1 + BestIndex(s[1..], k)
  }

  /** Inserting `x` into a sorted table changes the first row of id `k` to `x` exactly
      when `x` has id `k` and at least the value of the former first row. */
  lemma {:induction false} InsertFirstWithId(x: LookupRow, t: seq<LookupRow>, k: Cell)
    requires Sorted(t)
    requires k in Ids(t) || x.cardId == k
    ensures k in Ids(Insert(x, t))
    ensures FirstWithId(Insert(x, t), k) ==
      if x.cardId == k && !(k in Ids(t) && FirstWithId(t, k).marketValue > x.marketValue) then x
      else FirstWithId(t, k)
  {
    var r := Insert(x, t);
    if |t| == 0 {
      assert r == [x];
    } else if KeyLe(x, t[0]) {
      InsertFirstWithIdAhead(x, t, k);
    } else {
      KeyLeTotal(x, t[0]);
      IdsCons(t);
      IdsCons(r);
      assert r[0] == t[0] && r[1..] == Insert(x, t[1..]);
      if t[0].cardId == k {
        if x.cardId == k { KeyLeSameId(x, t[0]); }
      } else {
        SortedTail(t);
        InsertFirstWithId(x, t[1..], k);
      }
    }
  }

  /** The case of InsertFirstWithId where `x` goes ahead of the whole table. */
  lemma InsertFirstWithIdAhead(x: LookupRow, t: seq<LookupRow>, k: Cell)
    requires Sorted(t) && |t| > 0 && KeyLe(x, t[0])
    requires k in Ids(t) || x.cardId == k
    ensures k in Ids(Insert(x, t))
    ensures FirstWithId(Insert(x, t), k) ==
      if x.cardId == k && !(k in Ids(t) && FirstWithId(t, k).marketValue > x.marketValue) then x
      else FirstWithId(t, k)
  {
    var r := Insert(x, t);
    assert r == [x] + t && r[1..] == t;
    IdsCons(r);
    if x.cardId == k && k in Ids(t) {
      var y := FirstWithId(t, k);
      var j :| 0 <= j < |t| && t[j] == y;
      if j > 0 { KeyLeTransitive(x, t[0], y); }
      KeyLeSameId(x, y);
    }
  }

  lemma SortedTail(t: seq<LookupRow>)
    requires Sorted(t) && |t| > 0
    ensures Sorted(t[1..])
  {
    forall i, j | 0 <= i < j < |t[1..]| ensures KeyLe(t[1..][i], t[1..][j]) {
      assert t[1..][i] == t[i + 1] && t[1..][j] == t[j + 1];
    }
  }

  /** After the stable sort, the first row of each id is the best row of the input. */
  lemma {:induction false} SortKeepsBestFirst(s: seq<LookupRow>, k: Cell)
    requires k in Ids(s)
    ensures k in Ids(SortByKey(s))
    ensures FirstWithId(SortByKey(s), k) == s[BestIndex(s, k)]
  {
    IdsCons(s);
    var t := SortByKey(s[1..]);
    SortByKeySorted(s[1..]);
    SameMultisetSameIds(t, s[1..]);
    InsertFirstWithId(s[0], t, k);
    if k in Ids(s[1..]) {
      SortKeepsBestFirst(s[1..], k);
      assert s[1..][BestIndex(s[1..], k)] == s[1 + BestIndex(s[1..], k)];
    }
  }

  // ---------------------------------------------------------------------------
  // Keep the first row of each id

  /** The rows of `t` whose `card_id` is not `k`, in order. */
  function Without(t: seq<LookupRow>, k: Cell): (r: seq<LookupRow>)
    ensures |r| <= |t|
    ensures forall y | y in r :: y in t && y.cardId != k
    ensures Ids(r) == Ids(t) - {k}
    ensures Sorted(t) ==> Sorted(r)
    ensures forall k' | k' in Ids(r) :: FirstWithId(r, k') == FirstWithId(t, k')
  {
    if |t| == 0 then []
    else
      IdsCons(t);
      assert Sorted(t) ==> Sorted(t[1..]) by {
        if Sorted(t) { SortedTail(t); }
      }
      var rest := Without(t[1..], k);
      if t[0].cardId == k then rest
      else
        var r := [t[0]] + rest;
        IdsCons(r);
        assert r[1..] == rest;
        assert Sorted(t) ==> forall j | 0 <= j < |rest| :: KeyLe(t[0], rest[j]) by {
          if Sorted(t) {
            forall j | 0 <= j < |rest| ensures KeyLe(t[0], rest[j]) {
              assert rest[j] in t[1..];
            }
          }
        }
        r
  }

  /** `drop_duplicates(subset=["card_id"], keep="first")`; missing ids count as equal. */
  function DropDuplicates(u: seq<LookupRow>): (r: seq<LookupRow>)
    ensures |r| <= |u|
    ensures Ids(r) == Ids(u)
    ensures Unique(r)
    ensures forall y | y in r :: y in u
    ensures Sorted(u) ==> Sorted(r)
    ensures forall y | y in r :: y.cardId in Ids(u) && y == FirstWithId(u, y.cardId)
    decreases |u|
  {
    if |u| == 0 then []
    else
      var w := Without(u[1..], u[0].cardId);
      var rest := DropDuplicates(w);
      KeepFirstStep(u, w, rest);
      [u[0]] + rest
  }

  /** One step of DropDuplicates: the head row, then the deduplicated rows of other ids. */
  lemma KeepFirstStep(u: seq<LookupRow>, w: seq<LookupRow>, rest: seq<LookupRow>)
    requires |u| > 0 && w == Without(u[1..], u[0].cardId)
    requires |rest| <= |w| && Ids(rest) == Ids(w) && Unique(rest)
    requires forall y | y in rest :: y in w
    requires Sorted(w) ==> Sorted(rest)
    requires forall y | y in rest :: y.cardId in Ids(w) && y == FirstWithId(w, y.cardId)
    ensures var r := [u[0]] + rest;
      && |r| <= |u| && Ids(r) == Ids(u) && Unique(r)
      && (forall y | y in r :: y in u)
      && (Sorted(u) ==> Sorted(r))
      && (forall y | y in r :: y.cardId in Ids(u) && y == FirstWithId(u, y.cardId))
  {
    var r := [u[0]] + rest;
    IdsCons(u);
    IdsCons(r);
    assert r[1..] == rest;
    assert Ids(w) == Ids(u[1..]) - {u[0].cardId};
    assert Ids(r) == Ids(u);
    assert forall y | y in w :: y in u[1..] && y.cardId != u[0].cardId;
    if Sorted(u) {
      SortedTail(u);
      assert Sorted(w);
    }
    KeepFirstMembers(u, w, rest);
    KeepFirstUnique(u, w, rest);
    if Sorted(u) {
      KeepFirstSorted(u, w, rest);
    }
    KeepFirstIsFirst(u, w, rest);
  }

  lemma KeepFirstMembers(u: seq<LookupRow>, w: seq<LookupRow>, rest: seq<LookupRow>)
    requires |u| > 0 && forall y | y in w :: y in u[1..]
    requires forall y | y in rest :: y in w
    ensures forall y | y in [u[0]] + rest :: y in u
  {
    assert u == [u[0]] + u[1..];
    forall y | y in [u[0]] + rest ensures y in u {
      if y != u[0] { assert y in rest; }
    }
  }

  lemma KeepFirstUnique(u: seq<LookupRow>, w: seq<LookupRow>, rest: seq<LookupRow>)
    requires |u| > 0 && forall y | y in w :: y.cardId != u[0].cardId
    requires Unique(rest)
    requires forall y | y in rest :: y in w
    ensures Unique([u[0]] + rest)
  {
    var r := [u[0]] + rest;
    forall j | 0 <= j < |rest| ensures rest[j].cardId != u[0].cardId {
      assert rest[j] in rest;
    }
    forall i, j | 0 <= i < j < |r| ensures r[i].cardId != r[j].cardId {
      assert r[j] == rest[j - 1];
      if i > 0 {
        assert r[i] == rest[i - 1];
      }
    }
  }

  lemma KeepFirstSorted(u: seq<LookupRow>, w: seq<LookupRow>, rest: seq<LookupRow>)
    requires |u| > 0 && forall y | y in w :: y in u[1..]
    requires Sorted(u) && Sorted(rest)
    requires forall y | y in rest :: y in w
    ensures Sorted([u[0]] + rest)
  {
    var r := [u[0]] + rest;
    forall i, j | 0 <= i < j < |r| ensures KeyLe(r[i], r[j]) {
      assert r[j] == rest[j - 1];
      if i == 0 {
        assert r[j] in u[1..];
        var k :| 0 <= k < |u[1..]| && u[1..][k] == r[j];
        assert u[k + 1] == r[j];
      } else {
        assert r[i] == rest[i - 1];
      }
    }
  }

  lemma KeepFirstIsFirst(u: seq<LookupRow>, w: seq<LookupRow>, rest: seq<LookupRow>)
    requires |u| > 0 && Ids(w) == Ids(u[1..]) - {u[0].cardId}
    requires forall k | k in Ids(w) :: FirstWithId(w, k) == FirstWithId(u[1..], k)
    requires forall y | y in rest :: y.cardId in Ids(w) && y == FirstWithId(w, y.cardId)
    ensures forall y | y in [u[0]] + rest :: y.cardId in Ids(u) && y == FirstWithId(u, y.cardId)
  {
    IdsCons(u);
    forall y | y in [u[0]] + rest ensures y.cardId in Ids(u) && y == FirstWithId(u, y.cardId) {
      if y in rest { assert y.cardId in Ids(w); }
    }
  }

  /** Sort, then keep the first row of each `card_id`. */
  function Dedup(s: seq<LookupRow>): (r: seq<LookupRow>)
    ensures Ids(r) == Ids(s)
    ensures Unique(r)
    ensures Sorted(r)
    ensures forall y | y in r :: y in s
    ensures forall y | y in r :: y.cardId in Ids(s) && y == s[BestIndex(s, y.cardId)]
    ensures forall x, y | x in r && y in s && y.cardId == x.cardId :: y.marketValue <= x.marketValue
  {
    var sorted := SortByKey(s);
    SortByKeySorted(s);
    SameMultisetSameIds(sorted, s);
    assert forall y | y in sorted :: y in s by {
      forall y | y in sorted ensures y in s { assert y in multiset(sorted); }
    }
    assert forall k | k in Ids(s) :: FirstWithId(sorted, k) == s[BestIndex(s, k)] by {
      forall k | k in Ids(s) ensures FirstWithId(sorted, k) == s[BestIndex(s, k)] {
        SortKeepsBestFirst(s, k);
      }
    }
    DropDuplicates(sorted)
  }
}
