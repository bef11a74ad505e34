/** The inheritance rows of one project, and the statements of
    pkg/weave/project_inheritance_store.go that rewrite their order and their primary. */
module Families {
  import opened Wrappers
  import opened Bytes
  import opened Sorting
  import Lexicographic
  import PagesText

  type Id = Bytes

  datatype Source = Draft | Release(version: Bytes)

  datatype Row = Row(isPrimary: bool, order: int, source: Source)

  /** A project's rows by their parent. */
  type Family = map<Id, Row>

  // ---------------------------------------------------------------- the two orderings

  /** ORDER BY canonical_order, parent_project_id */
  function ByOrder(fam: Family): (Id, Id) -> bool {
    (a, b) => a in fam && b in fam && (fam[a].order < fam[b].order || (fam[a].order == fam[b].order && Lexicographic.Less(a, b)))
  }

  /** The same, primary rows first. */
  function ByPrimary(fam: Family): (Id, Id) -> bool {
    (a, b) => a in fam && b in fam &&
      if fam[a].isPrimary == fam[b].isPrimary then ByOrder(fam)(a, b) else fam[a].isPrimary
  }

  lemma OrdersRows(fam: Family)
    ensures Orders(ByOrder(fam), fam.Keys) && Orders(ByPrimary(fam), fam.Keys)
  {
    hide Lexicographic.Less;
    Lexicographic.Strict();
  }

  /** The parents as a reader lists them by order. */
  ghost function View(fam: Family): (xs: seq<Id>)
    ensures SortedBy(xs, ByOrder(fam)) && Elements(xs) == fam.Keys && Distinct(xs)
  {
    OrdersRows(fam);
    var xs := Arranged(fam.Keys, ByOrder(fam));
    SortedDistinct(xs, ByOrder(fam));
    xs
  }

  lemma ViewIs(fam: Family, xs: seq<Id>)
    requires SortedBy(xs, ByOrder(fam)) && Elements(xs) == fam.Keys
    ensures View(fam) == xs
  {
    OrdersRows(fam);
    SortedUnique(xs, View(fam), ByOrder(fam));
  }

  /** `x` stands somewhere before `y`. */
  ghost predicate Before(xs: seq<Id>, x: Id, y: Id) {
    exists i, j :: 0 <= i < j < |xs| && xs[i] == x && xs[j] == y
  }

  /** In the view rows stand by ascending order, equal orders by ascending parent. */
  lemma ViewOrder(fam: Family, x: Id, y: Id)
    requires x in fam && y in fam
    ensures Before(View(fam), x, y) <==> fam[x].order < fam[y].order || (fam[x].order == fam[y].order && Lexicographic.Less(x, y))
  {
    hide Lexicographic.Less;
    Lexicographic.Strict();
    var xs := View(fam);
    assert x in Elements(xs) && y in Elements(xs);
    var i :| 0 <= i < |xs| && xs[i] == x;
    var j :| 0 <= j < |xs| && xs[j] == y;
    if i < j { assert ByOrder(fam)(xs[i], xs[j]); }
    if j < i { assert ByOrder(fam)(xs[j], xs[i]); }
  }

  // ---------------------------------------------------------------- good families

  predicate OnlyPrimary(fam: Family, q: Id) {
    q in fam && forall x | x in fam :: fam[x].isPrimary <==> x == q
  }

  /** What the partial unique index of the table enforces at all times. */
  predicate AtMostOnePrimary(fam: Family) {
    forall x, y | x in fam && y in fam && fam[x].isPrimary && fam[y].isPrimary :: x == y
  }

  /** The orders are 0 to n - 1 along the view. */
  ghost predicate Dense(fam: Family) {
    forall i | 0 <= i < |View(fam)| :: fam[View(fam)[i]].order == i
  }

  /** One primary if there is a parent at all, dense orders, and the mirrored column. */
  ghost predicate Good(fam: Family, column: Option<Id>) {
    && Dense(fam)
    && if fam == map[] then column == None else column.Some? && OnlyPrimary(fam, column.value)
  }

  // ---------------------------------------------------------------- normalizeInheritanceOrderTx

  /** The order of every row is its place in `xs`. */
  predicate NumberedBy(fam: Family, xs: seq<Id>) {
    forall i | 0 <= i < |xs| :: xs[i] in fam && fam[xs[i]].order == i
  }

  /** Like `before` but for the orders. */
  predicate SameButOrder(before: Family, fam: Family) {
    fam.Keys == before.Keys && forall q | q in fam :: fam[q].isPrimary == before[q].isPrimary && fam[q].source == before[q].source
  }

  method KeysOf(fam: Family) returns (keys: seq<Id>)
    ensures Distinct(keys) && Elements(keys) == fam.Keys
  {
    keys := [];
    var todo := fam.Keys;
    while todo != {}
      invariant todo <= fam.Keys && Distinct(keys) && Elements(keys) == fam.Keys - todo
      decreases |todo|
    {
      var q :| q in todo;
      todo := todo - {q};
      AppendElement(keys, q);
      keys := keys + [q];
    }
  }

  method NormalizeOrder(fam0: Family) returns (fam: Family)
    ensures SameButOrder(fam0, fam) && View(fam) == View(fam0) && Dense(fam)
  {
    hide Orders, ByOrder;
    var keys := KeysOf(fam0);
    OrdersRows(fam0);
    var ordered := Sort(keys, ByOrder(fam0));
    ViewIs(fam0, ordered);
    fam := fam0;
    var i := 0;
    while i < |ordered|
      invariant 0 <= i <= |ordered| && SameButOrder(fam0, fam) && NumberedBy(fam, ordered[..i])
    {
      assert ordered[i] in Elements(ordered);
      fam := Renumber(fam0, fam, ordered, i);
      i := i + 1;
    }
    assert ordered[..i] == ordered;
    NumberedView(fam, ordered);
  }

  /** UPDATE ... SET canonical_order = i for one parent. */
  method Renumber(fam0: Family, fam: Family, ordered: seq<Id>, i: nat) returns (out: Family)
    requires i < |ordered| && Distinct(ordered) && ordered[i] in fam && SameButOrder(fam0, fam) && NumberedBy(fam, ordered[..i])
    ensures SameButOrder(fam0, out) && NumberedBy(out, ordered[..i + 1])
  {
    out := fam[ordered[i] := fam[ordered[i]].(order := i)];
    var upTo := ordered[..i + 1];
    forall k | 0 <= k < |upTo| ensures upTo[k] in out && out[upTo[k]].order == k {
      if k < i {
        assert ordered[..i][k] == ordered[k] != ordered[i];
      }
    }
  }

  lemma NumberedView(fam: Family, xs: seq<Id>)
    requires Elements(xs) == fam.Keys && NumberedBy(fam, xs)
    ensures View(fam) == xs && Dense(fam)
  {
    assert SortedBy(xs, ByOrder(fam));
    ViewIs(fam, xs);
  }

  // ---------------------------------------------------------------- ensureSinglePrimaryInheritanceTx

  function WithPrimary(fam: Family, q: Id): Family {
    map x | x in fam :: fam[x].(isPrimary := x == q)
  }

  /** The first row by primary, order and parent. */
  ghost function First(fam: Family): (q: Id)
    requires fam != map[]
    ensures q in fam
  {
    OrdersRows(fam);
    var xs := Arranged(fam.Keys, ByPrimary(fam));
    assert xs != [] by {
      var q :| q in fam;
      assert q in Elements(xs);
    }
    assert xs[0] in Elements(xs);
    xs[0]
  }

  /** The primary row is first; without one, the first of the view. */
  lemma FirstIs(fam: Family)
    requires fam != map[] && AtMostOnePrimary(fam)
    ensures (forall q | q in fam && fam[q].isPrimary :: First(fam) == q)
    ensures View(fam) != [] && ((forall q | q in fam :: !fam[q].isPrimary) ==> First(fam) == View(fam)[0])
  {
    hide Lexicographic.Less;
    OrdersRows(fam);
    var xs := Arranged(fam.Keys, ByPrimary(fam));
    var v := View(fam);
    forall q | q in fam && fam[q].isPrimary ensures First(fam) == q {
      assert q in Elements(xs);
      var i :| 0 <= i < |xs| && xs[i] == q;
      assert i > 0 ==> ByPrimary(fam)(xs[0], xs[i]);
    }
    assert First(fam) in Elements(v);
    if forall q | q in fam :: !fam[q].isPrimary {
      var i :| 0 <= i < |v| && v[i] == First(fam);
      assert v[0] in Elements(v);
      assert v[0] in Elements(xs);
      var j :| 0 <= j < |xs| && xs[j] == v[0];
    }
  }

  method EnsureSinglePrimary(fam0: Family) returns (fam: Family)
    ensures fam == if fam0 == map[] then fam0 else WithPrimary(fam0, First(fam0))
  {
    hide ByPrimary, Orders;
    var keys := KeysOf(fam0);
    OrdersRows(fam0);
    var ordered := Sort(keys, ByPrimary(fam0));
    if |ordered| == 0 {
      assert fam0.Keys == {};
      return fam0;
    }
    assert ordered[0] in Elements(ordered);
    fam := map x | x in fam0 :: fam0[x].(isPrimary := x == ordered[0]);
  }

  /** The mirrored column: the first row's parent, or none. */
  method SyncedColumn(fam: Family) returns (column: Option<Id>)
    ensures column == if fam == map[] then None else Some(First(fam))
  {
    hide ByPrimary, Orders;
    var keys := KeysOf(fam);
    OrdersRows(fam);
    var ordered := Sort(keys, ByPrimary(fam));
    if |ordered| == 0 {
      assert fam.Keys == {};
      return None;
    }
    assert ordered[0] in Elements(ordered);
    column := Some(ordered[0]);
  }

  // ---------------------------------------------------------------- the three together

  /** The end of every transaction: nothing but the orders and the primary flags is changed,
      the view stays, the family is good, and an existing primary stays the primary. */
  method Settle(fam0: Family) returns (fam: Family, column: Option<Id>)
    requires AtMostOnePrimary(fam0)
    ensures SameRows(fam0, fam) && View(fam) == View(fam0) && Good(fam, column)
    ensures fam0 == map[] ==> column == None
    ensures forall q | q in fam0 && fam0[q].isPrimary :: column == Some(q)
    ensures fam0 != map[] && (forall q | q in fam0 :: !fam0[q].isPrimary) ==> |View(fam0)| > 0 && column == Some(View(fam0)[0])
  {
    hide View, First, Dense, ByOrder;
    var numbered := NormalizeOrder(fam0);
    fam := EnsureSinglePrimary(numbered);
    column := SyncedColumn(fam);
    if fam0 != map[] {
      NotEmpty(fam0, numbered);
      FirstIs(numbered);
      PrimarySettled(numbered, First(numbered));
      assert View(fam0) == View(numbered) == View(fam);
    } else {
      assert numbered.Keys == {};
    }
  }

  predicate SameRows(before: Family, fam: Family) {
    fam.Keys == before.Keys && forall q | q in fam :: fam[q].source == before[q].source
  }

  lemma NotEmpty(a: Family, b: Family)
    requires a.Keys == b.Keys && a != map[]
    ensures b != map[]
  {
    var q :| q in a;
    assert q in b.Keys;
  }

  lemma PrimarySettled(fam: Family, q: Id)
    requires q in fam && Dense(fam)
    ensures var out := WithPrimary(fam, q);
            out != map[] && View(out) == View(fam) && Dense(out) && OnlyPrimary(out, q) && First(out) == q
  {
    var out := WithPrimary(fam, q);
    assert q in out;
    assert SortedBy(View(fam), ByOrder(out));
    ViewIs(out, View(fam));
    FirstIs(out);
  }

  // ---------------------------------------------------------------- what the operations do to the view

  /** `xs` without `q`. */
  function Without(xs: seq<Id>, q: Id): seq<Id> {
    if xs == [] then [] else (if xs[0] == q then [] else [xs[0]]) + Without(xs[1..], q)
  }

  lemma {:induction false} WithoutSorted(xs: seq<Id>, q: Id, less: (Id, Id) -> bool)
    requires SortedBy(xs, less)
    ensures SortedBy(Without(xs, q), less) && Elements(Without(xs, q)) == Elements(xs) - {q}
  {
    if xs != [] {
      var rest := Without(xs[1..], q);
      WithoutSorted(xs[1..], q, less);
      assert xs == [xs[0]] + xs[1..];
      assert forall y :: y in Elements(xs) <==> y == xs[0] || y in Elements(xs[1..]);
      assert forall y :: y in Elements([xs[0]] + rest) <==> y == xs[0] || y in Elements(rest);
      assert xs[0] == q ==> Without(xs, q) == rest;
      if xs[0] != q {
        forall j | 0 <= j < |rest| ensures less(xs[0], rest[j]) {
          assert rest[j] in Elements(rest);
          var k :| 0 <= k < |xs[1..]| && xs[1..][k] == rest[j];
          assert xs[k + 1] == rest[j];
        }
      }
    }
  }

  lemma SortedAlike(xs: seq<Id>, a: Family, b: Family)
    requires SortedBy(xs, ByOrder(a))
    requires forall x | x in xs :: x in a && x in b && b[x].order == a[x].order
    ensures SortedBy(xs, ByOrder(b))
  {
    hide Lexicographic.Less;
    forall i, j | 0 <= i < j < |xs| ensures ByOrder(b)(xs[i], xs[j]) {
      assert ByOrder(a)(xs[i], xs[j]);
      assert xs[i] in xs && xs[j] in xs;
    }
  }

  /** Adding, replacing or removing one row keeps the relative order of the others. */
  lemma OthersKeepOrder(before: Family, fam: Family, q: Id)
    requires fam.Keys - {q} == before.Keys - {q}
    requires forall x | x in fam && x != q :: x in before && fam[x].order == before[x].order
    ensures Without(View(fam), q) == Without(View(before), q)
  {
    hide ByOrder, View, SortedBy;
    var rest := before - {q};
    var a, b := Without(View(before), q), Without(View(fam), q);
    WithoutSorted(View(before), q, ByOrder(before));
    WithoutSorted(View(fam), q, ByOrder(fam));
    forall x | x in a ensures x in rest && rest[x].order == before[x].order { assert x in Elements(a); }
    forall x | x in b ensures x in rest && rest[x].order == fam[x].order { assert x in Elements(b); }
    SortedAlike(a, before, rest);
    SortedAlike(b, fam, rest);
    ViewIs(rest, a);
    ViewIs(rest, b);
  }

  lemma {:induction false} WithoutNothing(xs: seq<Id>, q: Id)
    requires q !in xs
    ensures Without(xs, q) == xs
  {
    if xs != [] { WithoutNothing(xs[1..], q); }
  }

  lemma LastBeforeNone(xs: seq<Id>, y: Id)
    requires Distinct(xs) && xs != []
    ensures !Before(xs, xs[|xs| - 1], y)
  {
  }

  /** What all others stand before stands last. */
  lemma LastAfterAll(xs: seq<Id>, q: Id)
    requires Distinct(xs) && q in xs && forall x | x in xs && x != q :: Before(xs, x, q)
    ensures xs == Without(xs, q) + [q]
  {
    hide Before;
    var n := |xs| - 1;
    LastBeforeNone(xs, q);
    assert xs[n] in xs;
    assert xs == xs[..n] + [q];
    WithoutLast(xs[..n], q);
  }

  lemma {:induction false} WithoutLast(xs: seq<Id>, q: Id)
    requires q !in xs
    ensures Without(xs + [q], q) == xs
  {
    if xs == [] {
      assert [q][1..] == [];
    } else {
      assert (xs + [q])[1..] == xs[1..] + [q];
      WithoutLast(xs[1..], q);
    }
  }

  /** Removing a row takes it out of the view. */
  lemma RemovedView(fam: Family, q: Id)
    ensures View(fam - {q}) == Without(View(fam), q)
  {
    hide View;
    OthersKeepOrder(fam, fam - {q}, q);
    assert q !in View(fam - {q}) by { assert q !in Elements(View(fam - {q})); }
    WithoutNothing(View(fam - {q}), q);
  }

  // ---------------------------------------------------------------- reordering

  predicate Blank(id: Id) { PagesText.TrimSpace(id) == "" }

  /** The loop of `Reorder` from position `i` on; ids that are blank or not parents are
      skipped, of a repeated id the last position counts. */
  function Placed(fam: Family, list: seq<Id>, i: nat): Family
    requires i <= |list|
    decreases |list| - i
  {
    if i == |list| then fam
    else if Blank(list[i]) || list[i] !in fam then Placed(fam, list, i + 1)
    else Placed(fam[list[i] := fam[list[i]].(order := i)], list, i + 1)
  }

  method Place(fam0: Family, list: seq<Id>) returns (fam: Family)
    ensures fam == Placed(fam0, list, 0)
  {
    hide Blank;
    fam := fam0;
    var i := 0;
    while i < |list|
      invariant 0 <= i <= |list| && Placed(fam, list, i) == Placed(fam0, list, 0)
    {
      if !Blank(list[i]) && list[i] in fam {
        fam := fam[list[i] := fam[list[i]].(order := i)];
      }
      i := i + 1;
    }
  }

  lemma {:induction false} PlacedRows(fam: Family, list: seq<Id>, i: nat)
    requires i <= |list|
    ensures SameButOrder(fam, Placed(fam, list, i))
    ensures forall q | q in fam && q !in list[i..] :: Placed(fam, list, i)[q].order == fam[q].order
    decreases |list| - i
  {
    hide Blank;
    if i < |list| {
      var next := if Blank(list[i]) || list[i] !in fam then fam else fam[list[i] := fam[list[i]].(order := i)];
      PlacedRows(next, list, i + 1);
      assert list[i..] == [list[i]] + list[i + 1..];
    }
  }

  /** A blank id, or one that is not listed, moves nothing. */
  lemma {:induction false} PlacedNot(fam: Family, list: seq<Id>, i: nat, q: Id)
    requires i <= |list| && q in fam && (PagesText.TrimSpace(q) == "" || q !in list[i..])
    ensures q in Placed(fam, list, i) && Placed(fam, list, i)[q] == fam[q]
    decreases |list| - i
  {
    if i < |list| {
      var next := if Blank(list[i]) || list[i] !in fam then fam else fam[list[i] := fam[list[i]].(order := i)];
      assert list[i..] == [list[i]] + list[i + 1..];
      PlacedNot(next, list, i + 1, q);
    }
  }

  /** Every listed parent gets its last place in the list. */
  lemma {:induction false} PlacedAt(fam: Family, list: seq<Id>, i: nat, k: nat)
    requires i <= k < |list| && list[k] !in list[k + 1..] && !Blank(list[k]) && list[k] in fam
    ensures list[k] in Placed(fam, list, i) && Placed(fam, list, i)[list[k]].order == k
    decreases |list| - i
  {
    hide Blank;
    var next := if Blank(list[i]) || list[i] !in fam then fam else fam[list[i] := fam[list[i]].(order := i)];
    if i == k {
      PlacedRows(next, list, i + 1);
    } else {
      PlacedAt(next, list, i + 1, k);
    }
  }

  /** A list of all the parents, each once, becomes the view. */
  lemma FullReorder(fam: Family, list: seq<Id>)
    requires Distinct(list) && Elements(list) == fam.Keys && forall k | 0 <= k < |list| :: !Blank(list[k])
    ensures View(Placed(fam, list, 0)) == list
  {
    hide Blank, Placed, View;
    var out := Placed(fam, list, 0);
    PlacedRows(fam, list, 0);
    forall k | 0 <= k < |list| ensures list[k] in out && out[list[k]].order == k {
      assert list[k] in Elements(list);
      assert list[k] !in list[k + 1..];
      PlacedAt(fam, list, 0, k);
    }
    NumberedView(out, list);
  }
}
