/** Sorting under a strict total order on the elements at hand: what `sort.Slice`,
    `sort.SliceStable` and SQL's ORDER BY do when no two elements tie. */
module Sorting {

  ghost predicate SortedBy<T>(xs: seq<T>, less: (T, T) -> bool) {
    forall i, j | 0 <= i < j < |xs| :: less(xs[i], xs[j])
  }

  ghost predicate Distinct<T>(xs: seq<T>) {
    forall i, j | 0 <= i < j < |xs| :: xs[i] != xs[j]
  }

  /** `less` orders the members of `s` strictly and totally. */
  ghost predicate Orders<T>(less: (T, T) -> bool, s: set<T>) {
    && (forall x | x in s :: !less(x, x))
    && (forall x, y | x in s && y in s && x != y :: less(x, y) || less(y, x))
    && (forall x, y, z | x in s && y in s && z in s && less(x, y) && less(y, z) :: less(x, z))
  }

  function Elements<T>(xs: seq<T>): set<T> {
    set x | x in xs
  }

  lemma AppendElement<T>(xs: seq<T>, x: T)
    ensures Elements(xs + [x]) == Elements(xs) + {x}
    ensures Distinct(xs) && x !in Elements(xs) ==> Distinct(xs + [x])
  {
    forall y ensures y in Elements(xs + [x]) <==> y in Elements(xs) + {x} {
      assert y in xs + [x] <==> y in xs || y == x;
    }
    if Distinct(xs) && x !in Elements(xs) {
      forall i, j | 0 <= i < j < |xs + [x]| ensures (xs + [x])[i] != (xs + [x])[j] {
        assert xs[i] in Elements(xs);
      }
    }
  }

  lemma {:induction false} ElementsCount<T>(xs: seq<T>)
    requires Distinct(xs)
    ensures |Elements(xs)| == |xs|
    decreases |xs|
  {
    if xs != [] {
      var n := |xs| - 1;
      assert Distinct(xs[..n]);
      ElementsCount(xs[..n]);
      assert Elements(xs) == Elements(xs[..n]) + {xs[n]};
      assert xs[n] !in xs[..n];
    }
  }

  lemma NothingSorted<T>(less: (T, T) -> bool)
    ensures SortedBy([], less) && Elements<T>([]) == {}
  {
  }

  lemma OrdersFewer<T>(s: set<T>, x: T, less: (T, T) -> bool)
    requires Orders(less, s)
    ensures Orders(less, s - {x})
  {
  }

  /** Every ordered set has a sorted arrangement. */
  lemma Arrange<T>(s: set<T>, less: (T, T) -> bool) returns (xs: seq<T>)
    requires Orders(less, s)
    ensures SortedBy(xs, less) && Elements(xs) == s
    decreases |s|
  {
    hide Orders, SortedBy, Elements;
    if s == {} {
      xs := [];
      NothingSorted<T>(less);
    } else {
      var x :| x in s;
      OrdersFewer(s, x, less);
      var ys := Arrange(s - {x}, less);
      assert Elements(ys) + {x} == s;
      var k := |ys|;
      while k > 0 && less(x, ys[k - 1])
        invariant 0 <= k <= |ys|
        invariant forall j | k <= j < |ys| :: less(x, ys[j])
      {
        k := k - 1;
      }
      Below(ys, x, k, less);
      InsertedSorted(ys, x, k, less);
      InsertedElements(ys, x, k);
      xs := ys[..k] + [x] + ys[k..];
    }
  }

  /** The members of `s` in the order of `less`. */
  ghost function Arranged<T(!new)>(s: set<T>, less: (T, T) -> bool): (xs: seq<T>)
    requires Orders(less, s)
    ensures SortedBy(xs, less) && Elements(xs) == s
  {
    assert exists xs :: SortedBy(xs, less) && Elements(xs) == s by {
      var xs := Arrange(s, less);
    }
    var xs :| SortedBy(xs, less) && Elements(xs) == s;
    xs
  }

  /** Insertion sort. */
  method Sort<T(==,!new)>(xs: seq<T>, less: (T, T) -> bool) returns (ys: seq<T>)
    requires Distinct(xs) && Orders(less, Elements(xs))
    ensures ys == Arranged(Elements(xs), less) && |ys| == |xs|
  {
    ys := [];
    for n := 0 to |xs|
      invariant SortedBy(ys, less) && |ys| == n && Elements(ys) == Elements(xs[..n])
    {
      assert xs[..n + 1] == xs[..n] + [xs[n]];
      assert xs[n] in Elements(xs) && Elements(xs[..n]) <= Elements(xs);
      ys := InsertSorted(ys, xs[n], less);
    }
    assert xs[..|xs|] == xs;
    SortedUnique(ys, Arranged(Elements(xs), less), less);
  }

  method InsertSorted<T(==)>(ys: seq<T>, x: T, less: (T, T) -> bool) returns (zs: seq<T>)
    requires SortedBy(ys, less) && x !in Elements(ys) && Orders(less, Elements(ys) + {x})
    ensures SortedBy(zs, less) && Elements(zs) == Elements(ys) + {x} && |zs| == |ys| + 1
  {
    hide Orders, SortedBy, Elements;
    var k := |ys|;
    while k > 0 && less(x, ys[k - 1])
      invariant 0 <= k <= |ys|
      invariant forall j | k <= j < |ys| :: less(x, ys[j])
    {
      k := k - 1;
    }
    Below(ys, x, k, less);
    InsertedSorted(ys, x, k, less);
    InsertedElements(ys, x, k);
    zs := ys[..k] + [x] + ys[k..];
  }

  lemma Below<T>(ys: seq<T>, x: T, k: nat, less: (T, T) -> bool)
    requires SortedBy(ys, less) && x !in Elements(ys) && Orders(less, Elements(ys) + {x})
    requires k <= |ys| && (k > 0 ==> !less(x, ys[k - 1]))
    ensures forall j | 0 <= j < k :: less(ys[j], x)
  {
    forall j | 0 <= j < k ensures less(ys[j], x) {
      assert ys[k - 1] in Elements(ys) && ys[j] in Elements(ys);
      assert less(ys[k - 1], x);
    }
  }

  lemma InsertedSorted<T>(ys: seq<T>, x: T, k: nat, less: (T, T) -> bool)
    requires SortedBy(ys, less) && k <= |ys|
    requires forall j | 0 <= j < k :: less(ys[j], x)
    requires forall j | k <= j < |ys| :: less(x, ys[j])
    ensures SortedBy(ys[..k] + [x] + ys[k..], less)
  {
    var zs := ys[..k] + [x] + ys[k..];
    assert forall j | 0 <= j < |zs| :: zs[j] == if j < k then ys[j] else if j == k then x else ys[j - 1];
  }

  lemma InsertedElements<T>(ys: seq<T>, x: T, k: nat)
    requires k <= |ys|
    ensures Elements(ys[..k] + [x] + ys[k..]) == Elements(ys) + {x}
  {
    var zs := ys[..k] + [x] + ys[k..];
    assert ys == ys[..k] + ys[k..];
    forall y ensures y in Elements(zs) <==> y in Elements(ys) + {x} {
      assert y in zs <==> y in ys[..k] || y == x || y in ys[k..];
      assert y in ys <==> y in ys[..k] || y in ys[k..];
    }
  }

  lemma SortedDistinct<T>(xs: seq<T>, less: (T, T) -> bool)
    requires SortedBy(xs, less) && Orders(less, Elements(xs))
    ensures Distinct(xs)
  {
  }

  lemma NoElements<T>(xs: seq<T>)
    ensures Elements(xs) == {} <==> xs == []
  {
    assert xs != [] ==> xs[0] in Elements(xs);
  }

  /** There is only one sorted arrangement of a set. */
  lemma {:induction false} SortedUnique<T>(xs: seq<T>, ys: seq<T>, less: (T, T) -> bool)
    requires SortedBy(xs, less) && SortedBy(ys, less)
    requires Elements(xs) == Elements(ys) && Orders(less, Elements(xs))
    ensures xs == ys
    decreases |xs|
  {
    assert Elements(xs) == {} <==> xs == [] by { NoElements(xs); }
    assert Elements(ys) == {} <==> ys == [] by { NoElements(ys); }
    if xs != [] {
      assert xs[0] in Elements(xs);
      var i :| 0 <= i < |ys| && ys[i] == xs[0];
      assert ys[0] in Elements(ys);
      var j :| 0 <= j < |xs| && xs[j] == ys[0];
      assert xs[0] == ys[0];
      RestElements(xs, less);
      RestElements(ys, less);
      SortedUnique(xs[1..], ys[1..], less);
      assert xs == [xs[0]] + xs[1..] && ys == [ys[0]] + ys[1..];
    }
  }

  lemma RestElements<T>(xs: seq<T>, less: (T, T) -> bool)
    requires xs != [] && SortedBy(xs, less) && Orders(less, Elements(xs))
    ensures Elements(xs[1..]) == Elements(xs) - {xs[0]} && SortedBy(xs[1..], less)
  {
    SortedDistinct(xs, less);
    forall x ensures x in Elements(xs[1..]) <==> x in Elements(xs) - {xs[0]} {
      if x in Elements(xs[1..]) {
        var k :| 0 <= k < |xs[1..]| && xs[1..][k] == x;
        assert xs[k + 1] == x;
      }
    }
  }
}

/** The byte-wise order of strings. */
module Lexicographic {
  import opened Bytes

  predicate Less(a: Bytes, b: Bytes) {
    if b == "" then false
    else if a == "" then true
    else if a[0] != b[0] then a[0] < b[0]
    else Less(a[1..], b[1..])
  }

  lemma {:induction false} Irreflexive(a: Bytes)
    ensures !Less(a, a)
  {
    if a != "" { Irreflexive(a[1..]); }
  }

  lemma {:induction false} Total(a: Bytes, b: Bytes)
    ensures a == b || Less(a, b) || Less(b, a)
  {
    if a != "" && b != "" && a[0] == b[0] {
      Total(a[1..], b[1..]);
      assert a == [a[0]] + a[1..] && b == [b[0]] + b[1..];
    }
  }

  lemma {:induction false} Transitive(a: Bytes, b: Bytes, c: Bytes)
    requires Less(a, b) && Less(b, c)
    ensures Less(a, c)
  {
    if a != "" && a[0] == b[0] && b[0] == c[0] {
      Transitive(a[1..], b[1..], c[1..]);
    }
  }

  lemma Strict()
    ensures forall a :: !Less(a, a)
    ensures forall a, b :: a == b || Less(a, b) || Less(b, a)
    ensures forall a, b, c :: Less(a, b) && Less(b, c) ==> Less(a, c)
  {
    forall a ensures !Less(a, a) { Irreflexive(a); }
    forall a, b ensures a == b || Less(a, b) || Less(b, a) { Total(a, b); }
    forall a, b, c | Less(a, b) && Less(b, c) ensures Less(a, c) { Transitive(a, b, c); }
  }

  /** Byte by byte: a string is less than another if it is a proper prefix of it, or has the
      smaller byte where they first differ. */
  lemma {:induction false} LessIff(a: Bytes, b: Bytes)
    ensures Less(a, b) <==> exists k :: Differs(a, b, k)
    decreases |a|
  {
    if a == "" || b == "" {
      assert b != "" ==> Differs(a, b, 0);
    } else if a[0] != b[0] {
      assert a[0] < b[0] ==> Differs(a, b, 0);
      assert forall k: nat :: k > 0 && k <= |a| && k < |b| ==> a[..k][0] == a[0] && b[..k][0] == b[0];
    } else {
      LessIff(a[1..], b[1..]);
      if k: nat :| Differs(a[1..], b[1..], k) { DiffersLater(a, b, k); assert Differs(a, b, k + 1); }
      if k: nat :| Differs(a, b, k) { DiffersLater(a, b, k - 1); assert Differs(a[1..], b[1..], k - 1); }
    }
  }

  /** `a` and `b` agree up to `k`, and there `a` ends or has the smaller byte. */
  predicate Differs(a: Bytes, b: Bytes, k: nat) {
    k <= |a| && k < |b| && a[..k] == b[..k] && (k == |a| || a[k] < b[k])
  }

  lemma DiffersLater(a: Bytes, b: Bytes, k: nat)
    requires a != "" && b != "" && a[0] == b[0]
    ensures Differs(a, b, k + 1) <==> Differs(a[1..], b[1..], k)
  {
    if k <= |a| - 1 && k < |b| - 1 {
      assert a[..k + 1] == [a[0]] + a[1..][..k] && b[..k + 1] == [b[0]] + b[1..][..k];
    }
  }
}
