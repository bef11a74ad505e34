/** The namespace store of pkg/namespace: two indexes over the same binding objects. */
module Namespaces {
  import opened Wrappers
  import opened Bytes
  import opened Lexicographic
  import Sorting

  class Namespace {
    const prefix: Bytes
    const uri: Bytes
    var weight: int

    constructor (prefix: Bytes, uri: Bytes, weight: int)
      ensures this.prefix == prefix && this.uri == uri && this.weight == weight
    {
      this.prefix, this.uri, this.weight := prefix, uri, weight;
    }
  }

  /** The weight last given to each pair of prefix and base. */
  type Weights = map<(Bytes, Bytes), int>

  // ---------------------------------------------------------------- the winner of a bucket

  /** `base` wins for `prefix`: the greatest weight, then the smallest base. */
  ghost predicate BestBase(w: Weights, prefix: Bytes, base: Bytes) {
    (prefix, base) in w &&
    forall b | (prefix, b) in w && b != base ::
      w[(prefix, base)] > w[(prefix, b)] || (w[(prefix, base)] == w[(prefix, b)] && Less(base, b))
  }

  /** `prefix` wins for `base`: the greatest weight, then the smallest prefix. */
  ghost predicate BestPrefix(w: Weights, base: Bytes, prefix: Bytes) {
    (prefix, base) in w &&
    forall p | (p, base) in w && p != prefix ::
      w[(prefix, base)] > w[(p, base)] || (w[(prefix, base)] == w[(p, base)] && Less(prefix, p))
  }

  /** The weights determine every lookup. */
  lemma OneWinner(w: Weights, prefix: Bytes, base: Bytes, x: Bytes)
    ensures BestBase(w, prefix, base) && BestBase(w, prefix, x) ==> base == x
    ensures BestPrefix(w, base, prefix) && BestPrefix(w, base, x) ==> prefix == x
  {
    Strict();
  }

  // ---------------------------------------------------------------- buckets

  /** What breaks ties in a bucket: its entries differ in it. */
  function Tie(n: Namespace, byUri: bool): Bytes {
    if byUri then n.uri else n.prefix
  }

  predicate Heavier(a: Namespace, b: Namespace, byUri: bool)
    reads a, b
  {
    a.weight > b.weight || (a.weight == b.weight && Less(Tie(a, byUri), Tie(b, byUri)))
  }

  ghost predicate SortedEntries(entries: seq<Namespace>, byUri: bool)
    reads entries
  {
    forall i, j | 0 <= i < j < |entries| :: Heavier(entries[i], entries[j], byUri)
  }

  /** No two entries tie. */
  ghost predicate Apart(entries: seq<Namespace>, byUri: bool) {
    forall i, j | 0 <= i < j < |entries| :: Tie(entries[i], byUri) != Tie(entries[j], byUri)
  }

  ghost predicate SameEntries(a: seq<Namespace>, b: seq<Namespace>) {
    multiset(a) == multiset(b)
  }

  lemma HeavierTotal(a: Namespace, b: Namespace, byUri: bool)
    requires Tie(a, byUri) != Tie(b, byUri)
    ensures Heavier(a, b, byUri) || Heavier(b, a, byUri)
  {
    Total(Tie(a, byUri), Tie(b, byUri));
  }

  lemma HeavierVia(a: Namespace, b: Namespace, c: Namespace, byUri: bool)
    requires Heavier(a, b, byUri) && Heavier(b, c, byUri)
    ensures Heavier(a, c, byUri)
  {
    if a.weight == b.weight == c.weight {
      Transitive(Tie(a, byUri), Tie(b, byUri), Tie(c, byUri));
    }
  }

  lemma InsertKeeps(sorted: seq<Namespace>, n: Namespace, k: nat, byUri: bool)
    requires k <= |sorted| && SortedEntries(sorted, byUri) && Apart(sorted, byUri)
    requires forall i | 0 <= i < |sorted| :: Tie(sorted[i], byUri) != Tie(n, byUri)
    requires forall i | k <= i < |sorted| :: Heavier(n, sorted[i], byUri)
    requires k > 0 ==> !Heavier(n, sorted[k - 1], byUri)
    ensures var out := sorted[..k] + [n] + sorted[k..];
            SortedEntries(out, byUri) && Apart(out, byUri) && SameEntries(out, sorted + [n])
  {
    hide Heavier, Tie;
    var out := sorted[..k] + [n] + sorted[k..];
    forall i | 0 <= i < k ensures Heavier(sorted[i], n, byUri) {
      HeavierTotal(sorted[k - 1], n, byUri);
      if i < k - 1 { HeavierVia(sorted[i], sorted[k - 1], n, byUri); }
    }
    InsertPlaces(sorted, n, k);
    forall i, j | 0 <= i < j < |out| ensures Heavier(out[i], out[j], byUri) && Tie(out[i], byUri) != Tie(out[j], byUri) {
      var a, b := if i < k then i else i - 1, if j < k then j else j - 1;
      assert i != k && j != k ==> 0 <= a < b < |sorted| && out[i] == sorted[a] && out[j] == sorted[b];
    }
  }

  lemma InsertPlaces(sorted: seq<Namespace>, n: Namespace, k: nat)
    requires k <= |sorted|
    ensures var out := sorted[..k] + [n] + sorted[k..];
            && |out| == |sorted| + 1
            && (forall i | 0 <= i < |out| :: out[i] == if i < k then sorted[i] else if i == k then n else sorted[i - 1])
            && multiset(out) == multiset(sorted + [n])
  {
    assert sorted == sorted[..k] + sorted[k..];
  }

  /** The stable sort of one bucket; without ties stability does not matter. */
  method SortBucket(entries: seq<Namespace>, byUri: bool) returns (sorted: seq<Namespace>)
    requires Apart(entries, byUri)
    ensures SortedEntries(sorted, byUri) && Apart(sorted, byUri) && SameEntries(sorted, entries)
  {
    hide Heavier, Tie, SortedEntries, Apart;
    sorted := [];
    NothingToSort(byUri);
    var i := 0;
    while i < |entries|
      invariant 0 <= i <= |entries|
      invariant SortedEntries(sorted, byUri) && Apart(sorted, byUri) && SameEntries(sorted, entries[..i])
    {
      NextApart(entries, sorted, i, byUri);
      sorted := InsertEntry(sorted, entries[i], byUri);
      assert entries[..i + 1] == entries[..i] + [entries[i]];
      i := i + 1;
    }
    assert entries[..i] == entries;
  }

  lemma NothingToSort(byUri: bool)
    ensures SortedEntries([], byUri) && Apart([], byUri)
  {
  }

  lemma NextApart(entries: seq<Namespace>, sorted: seq<Namespace>, i: nat, byUri: bool)
    requires i < |entries| && Apart(entries, byUri) && SameEntries(sorted, entries[..i])
    ensures forall k | 0 <= k < |sorted| :: Tie(sorted[k], byUri) != Tie(entries[i], byUri)
  {
    forall k | 0 <= k < |sorted| ensures Tie(sorted[k], byUri) != Tie(entries[i], byUri) {
      assert sorted[k] in multiset(sorted);
      assert sorted[k] in entries[..i];
    }
  }

  method InsertEntry(sorted: seq<Namespace>, n: Namespace, byUri: bool) returns (out: seq<Namespace>)
    requires SortedEntries(sorted, byUri) && Apart(sorted, byUri)
    requires forall k | 0 <= k < |sorted| :: Tie(sorted[k], byUri) != Tie(n, byUri)
    ensures SortedEntries(out, byUri) && Apart(out, byUri) && SameEntries(out, sorted + [n])
  {
    hide Heavier, Tie, SortedEntries, Apart;
    var k := |sorted|;
    while k > 0 && Heavier(n, sorted[k - 1], byUri)
      invariant 0 <= k <= |sorted|
      invariant forall j | k <= j < |sorted| :: Heavier(n, sorted[j], byUri)
    {
      k := k - 1;
    }
    InsertKeeps(sorted, n, k, byUri);
    out := sorted[..k] + [n] + sorted[k..];
  }

  // ---------------------------------------------------------------- the store

  type Index = map<Bytes, seq<Namespace>>

  /** The buckets of an index hold exactly the bindings, each under its own key. */
  ghost predicate Holds(index: Index, bindings: set<Namespace>, byUri: bool) {
    && (forall k | k in index :: Apart(index[k], byUri))
    && (forall k, n | k in index && n in index[k] :: n in bindings && KeyOf(n, byUri) == k)
    && (forall n | n in bindings :: KeyOf(n, byUri) in index && n in index[KeyOf(n, byUri)])
  }

  /** The key of a binding in an index whose buckets are told apart by the other part. */
  function KeyOf(n: Namespace, byUri: bool): Bytes {
    if byUri then n.prefix else n.uri
  }

  /** Sorting the buckets of one index, in any order of its keys. */
  method SortIndex(index: Index, ghost bindings: set<Namespace>, byUri: bool) returns (out: Index)
    requires Holds(index, bindings, byUri)
    ensures Holds(out, bindings, byUri) && forall k | k in out :: SortedEntries(out[k], byUri)
  {
    hide Apart, SortedEntries, KeyOf;
    out := index;
    var todo := index.Keys;
    while todo != {}
      invariant todo <= out.Keys && Holds(out, bindings, byUri)
      invariant forall k | k in out && k !in todo :: SortedEntries(out[k], byUri)
      decreases |todo|
    {
      var k :| k in todo;
      todo := todo - {k};
      var sorted := SortBucket(out[k], byUri);
      SameHolds(out, bindings, byUri, k, sorted);
      out := out[k := sorted];
    }
  }

  lemma SameHolds(index: Index, bindings: set<Namespace>, byUri: bool, k: Bytes, sorted: seq<Namespace>)
    requires Holds(index, bindings, byUri) && k in index && Apart(sorted, byUri) && SameEntries(sorted, index[k])
    ensures Holds(index[k := sorted], bindings, byUri)
  {
    hide Apart, KeyOf;
    forall n ensures n in sorted <==> n in index[k] {
      assert n in multiset(sorted) <==> n in multiset(index[k]);
    }
  }

  /** A pair of prefix and base is bound once. */
  lemma PairOnce(index: Index, bindings: set<Namespace>, m: Namespace, n: Namespace)
    requires Holds(index, bindings, true) && m in bindings && n in bindings && m.prefix == n.prefix && m.uri == n.uri
    ensures m == n
  {
    var entries := index[m.prefix];
    var i :| 0 <= i < |entries| && entries[i] == m;
    var j :| 0 <= j < |entries| && entries[j] == n;
    assert i == j;
  }

  function BasesOf(w: Weights, prefix: Bytes): set<Bytes> {
    set k | k in w && k.0 == prefix :: k.1
  }

  function PrefixesOf(w: Weights, base: Bytes): set<Bytes> {
    set k | k in w && k.1 == base :: k.0
  }

  /** The weights after a `Put`: zero stands for a default, but only for a new pair. */
  function AfterPut(w: Weights, prefix: Bytes, base: Bytes, weight: int): Weights {
    w[(prefix, base) := if (prefix, base) in w || weight != 0 then weight
                        else |BasesOf(w, prefix)| + |PrefixesOf(w, base)| + 1]
  }

  /** The entries under a key; none for a key that is not there. */
  function EntriesOf(index: Index, key: Bytes): seq<Namespace> {
    if key in index then index[key] else []
  }

  function Ties(entries: seq<Namespace>, byUri: bool): (r: seq<Bytes>)
    ensures |r| == |entries| && forall i | 0 <= i < |r| :: r[i] == Tie(entries[i], byUri)
  {
    seq(|entries|, i requires 0 <= i < |entries| => Tie(entries[i], byUri))
  }

  function BoundUnder(w: Weights, key: Bytes, byUri: bool): set<Bytes> {
    if byUri then BasesOf(w, key) else PrefixesOf(w, key)
  }

  lemma TieIsBound(index: Index, bindings: set<Namespace>, w: Weights, key: Bytes, byUri: bool, i: nat)
    requires Holds(index, bindings, byUri) && Recorded(bindings, w) && i < |EntriesOf(index, key)|
    ensures Tie(EntriesOf(index, key)[i], byUri) in BoundUnder(w, key, byUri)
  {
    var n := EntriesOf(index, key)[i];
    assert n in bindings && KeyOf(n, byUri) == key;
    assert (n.prefix, n.uri) in w;
  }

  lemma BoundIsTie(index: Index, bindings: set<Namespace>, w: Weights, key: Bytes, byUri: bool, t: Bytes) returns (i: nat)
    requires Holds(index, bindings, byUri) && Recorded(bindings, w) && t in BoundUnder(w, key, byUri)
    ensures i < |EntriesOf(index, key)| && Tie(EntriesOf(index, key)[i], byUri) == t
  {
    var pair := if byUri then (key, t) else (t, key);
    assert pair in w;
    var n :| n in bindings && (n.prefix, n.uri) == pair;
    assert n in EntriesOf(index, key);
    i :| 0 <= i < |EntriesOf(index, key)| && EntriesOf(index, key)[i] == n;
  }

  /** A bucket has one entry for each base, or prefix, bound under its key. */
  lemma BucketSize(index: Index, bindings: set<Namespace>, w: Weights, key: Bytes, byUri: bool)
    requires Holds(index, bindings, byUri) && Recorded(bindings, w)
    ensures |EntriesOf(index, key)| == |BoundUnder(w, key, byUri)|
  {
    hide Recorded, BoundUnder, Tie, KeyOf;
    var ties := Ties(EntriesOf(index, key), byUri);
    Sorting.ElementsCount(ties);
    forall t ensures t in Sorting.Elements(ties) <==> t in BoundUnder(w, key, byUri) {
      if t in ties {
        var i :| 0 <= i < |ties| && ties[i] == t;
        TieIsBound(index, bindings, w, key, byUri, i);
      }
      if t in BoundUnder(w, key, byUri) {
        var i := BoundIsTie(index, bindings, w, key, byUri, t);
        assert ties[i] == t;
      }
    }
    assert Sorting.Elements(ties) == BoundUnder(w, key, byUri);
  }

  /** The current weights are those recorded. */
  ghost predicate Recorded(bindings: set<Namespace>, weights: Weights)
    reads bindings
  {
    && (forall n | n in bindings :: (n.prefix, n.uri) in weights && weights[(n.prefix, n.uri)] == n.weight)
    && (forall k | k in weights :: exists n | n in bindings :: (n.prefix, n.uri) == k)
  }

  lemma BoundEntry(index: Index, bindings: set<Namespace>, w: Weights, prefix: Bytes, base: Bytes) returns (n: Namespace)
    requires Holds(index, bindings, true) && Recorded(bindings, w) && (prefix, base) in w
    ensures n in EntriesOf(index, prefix) && n.uri == base
  {
    n :| n in bindings && (n.prefix, n.uri) == (prefix, base);
  }

  /** A new binding joins its bucket. */
  lemma HoldsMore(index: Index, bindings: set<Namespace>, byUri: bool, n: Namespace)
    requires Holds(index, bindings, byUri) && n !in bindings
    requires var entries := EntriesOf(index, KeyOf(n, byUri));
             Apart(entries, byUri) && forall i | 0 <= i < |entries| :: Tie(entries[i], byUri) != Tie(n, byUri)
    ensures Holds(index[KeyOf(n, byUri) := EntriesOf(index, KeyOf(n, byUri)) + [n]], bindings + {n}, byUri)
  {
    hide KeyOf, Tie;
  }

  lemma RecordedMore(bindings: set<Namespace>, w: Weights, n: Namespace)
    requires Recorded(bindings, w) && (n.prefix, n.uri) !in w
    ensures Recorded(bindings + {n}, w[(n.prefix, n.uri) := n.weight])
  {
    var w' := w[(n.prefix, n.uri) := n.weight];
    forall k | k in w' ensures exists m | m in bindings + {n} :: (m.prefix, m.uri) == k {
      if k != (n.prefix, n.uri) {
        var m :| m in bindings && (m.prefix, m.uri) == k;
        assert m in bindings + {n};
      } else {
        assert n in bindings + {n};
      }
    }
  }

  /** The bucket a new pair goes to has no entry that ties with it. */
  lemma Appended(index: Index, bindings: set<Namespace>, w: Weights, prefix: Bytes, base: Bytes, byUri: bool)
    requires Holds(index, bindings, byUri) && Recorded(bindings, w) && (prefix, base) !in w
    ensures var entries := EntriesOf(index, if byUri then prefix else base);
            && Apart(entries, byUri)
            && forall i | 0 <= i < |entries| :: Tie(entries[i], byUri) != if byUri then base else prefix
  {
    var entries := EntriesOf(index, if byUri then prefix else base);
    forall i | 0 <= i < |entries| ensures Tie(entries[i], byUri) != if byUri then base else prefix {
      assert entries[i] in bindings;
      assert (entries[i].prefix, entries[i].uri) in w;
    }
  }

  class Store {
    var byPrefix: Index
    var byBase: Index
    ghost var bindings: set<Namespace>
    ghost var weights: Weights

    /** Both indexes hold the same objects, each pair of prefix and base once. */
    ghost predicate Indexed()
      reads this, bindings
    {
      Holds(byPrefix, bindings, true) && Holds(byBase, bindings, false) && Recorded(bindings, weights)
    }

    ghost predicate Valid()
      reads this, bindings
    {
      && Indexed()
      && (forall k | k in byPrefix :: SortedEntries(byPrefix[k], true))
      && (forall k | k in byBase :: SortedEntries(byBase[k], false))
    }

    constructor ()
      ensures Valid() && weights == map[] && bindings == {}
    {
      byPrefix, byBase, bindings, weights := map[], map[], {}, map[];
    }

    /** Sorting every bucket of both indexes, in any order. */
    method SortAll()
      requires Indexed()
      modifies this`byPrefix, this`byBase
      ensures Valid()
    {
      hide Apart, Recorded, SortedEntries;
      byPrefix := SortIndex(byPrefix, bindings, true);
      byBase := SortIndex(byBase, bindings, false);
    }

    method Put(prefix: Bytes, base: Bytes, weight: int) returns (r: Option<Namespace>)
      requires Valid()
      modifies this, bindings
      ensures Valid() && fresh(bindings - old(bindings))
      ensures r.None? <==> prefix == "" || base == ""
      ensures r.None? ==> weights == old(weights) && bindings == old(bindings)
      ensures r.Some? ==> r.value in bindings && r.value.prefix == prefix && r.value.uri == base
      ensures r.Some? ==> weights == AfterPut(old(weights), prefix, base, weight)
    {
      if prefix == "" || base == "" {
        return None;
      }
      var entries := EntriesOf(byPrefix, prefix);
      var i := 0;
      while i < |entries|
        invariant 0 <= i <= |entries|
        invariant forall j | 0 <= j < i :: entries[j].uri != base
      {
        var existing := entries[i];
        if existing.uri == base {
          Reweigh(existing, weight);
          return Some(existing);
        }
        i := i + 1;
      }
      if (prefix, base) in weights {
        ghost var n := BoundEntry(byPrefix, bindings, weights, prefix, base);
      }
      var n := Append(prefix, base, weight);
      return Some(n);
    }

    /** A known pair: the shared object gets the weight, and everything is sorted again. */
    method Reweigh(existing: Namespace, weight: int)
      requires Valid() && existing in bindings
      modifies this`byPrefix, this`byBase, this`weights, existing
      ensures Valid() && bindings == old(bindings)
      ensures weights == old(weights)[(existing.prefix, existing.uri) := weight]
    {
      hide SortedEntries, Holds;
      forall n | n in bindings && n.prefix == existing.prefix && n.uri == existing.uri ensures n == existing {
        PairOnce(byPrefix, bindings, n, existing);
      }
      assert (existing.prefix, existing.uri) in weights;
      if existing.weight != weight {
        weights := weights[(existing.prefix, existing.uri) := weight];
        existing.weight := weight;
        SortAll();
      }
    }

    /** A new pair: the object goes into one bucket of each index. */
    method Append(prefix: Bytes, base: Bytes, weight: int) returns (n: Namespace)
      requires Valid() && (prefix, base) !in weights
      modifies this
      ensures Valid() && n in bindings && bindings == old(bindings) + {n} && fresh(n)
      ensures n.prefix == prefix && n.uri == base
      ensures weights == AfterPut(old(weights), prefix, base, weight)
    {
      hide Holds, Recorded, SortedEntries, Apart;
      var given := if weight != 0 then weight else |EntriesOf(byPrefix, prefix)| + |EntriesOf(byBase, base)| + 1;
      BucketSize(byPrefix, bindings, weights, prefix, true);
      BucketSize(byBase, bindings, weights, base, false);
      Appended(byPrefix, bindings, weights, prefix, base, true);
      Appended(byBase, bindings, weights, prefix, base, false);
      n := new Namespace(prefix, base, given);
      HoldsMore(byPrefix, bindings, true, n);
      HoldsMore(byBase, bindings, false, n);
      RecordedMore(bindings, weights, n);
      byPrefix := byPrefix[prefix := EntriesOf(byPrefix, prefix) + [n]];
      byBase := byBase[base := EntriesOf(byBase, base) + [n]];
      bindings := bindings + {n};
      weights := weights[(prefix, base) := given];
      SortAll();
    }
  
    /** The first entry of the prefix's bucket: the base that wins for it. */
    method GetWithPrefix(prefix: Bytes) returns (r: Option<Namespace>)
      requires Valid()
      ensures r.Some? ==> r.value in bindings && r.value.prefix == prefix && BestBase(weights, prefix, r.value.uri)
      ensures r.Some? ==> (prefix, r.value.uri) in weights && weights[(prefix, r.value.uri)] == r.value.weight
      ensures r.None? <==> BoundUnder(weights, prefix, true) == {}
    {
      var entries := EntriesOf(byPrefix, prefix);
      BucketSize(byPrefix, bindings, weights, prefix, true);
      if |entries| == 0 {
        return None;
      }
      FirstWins(byPrefix, bindings, weights, prefix, true);
      return Some(entries[0]);
    }

    method GetWithBase(base: Bytes) returns (r: Option<Namespace>)
      requires Valid()
      ensures r.Some? ==> r.value in bindings && r.value.uri == base && BestPrefix(weights, base, r.value.prefix)
      ensures r.Some? ==> (r.value.prefix, base) in weights && weights[(r.value.prefix, base)] == r.value.weight
      ensures r.None? <==> BoundUnder(weights, base, false) == {}
    {
      var entries := EntriesOf(byBase, base);
      BucketSize(byBase, bindings, weights, base, false);
      if |entries| == 0 {
        return None;
      }
      FirstWins(byBase, bindings, weights, base, false);
      return Some(entries[0]);
    }

    /** The label of a uri: the winning prefix of its base, and its local name; a uri without a
        base is its own label, and one with an unbound base has none. */
    method GetSearchLabel(uri: Bytes) returns (r: Option<Bytes>)
      requires Valid()
      ensures Labels(weights, uri, r)
    {
      hide BestPrefix, Holds, Recorded, SortedEntries;
      var base, local := SplitUri(uri).0, SplitUri(uri).1;
      if base == "" {
        return Some(uri);
      }
      var ns := GetWithBase(base);
      if ns.None? {
        return None;
      }
      Labelling(weights, uri, ns.value.prefix);
      return Some(Underscored(ns.value.prefix, local));
    }

    /** `prefix:local` with a bound prefix becomes the winning base and the local name. */
    method Expand(input: Bytes) returns (r: Option<Bytes>)
      requires Valid()
      ensures Expands(weights, input, r)
    {
      hide Absolute, BoundUnder, BestBase, ExpandsTo, Holds, Recorded, SortedEntries;
      if Absolute(input) || !HasColon(input) {
        return Some(input);
      }
      var k := IndexOf(input, ':', 0);
      var ns := GetWithPrefix(input[..k]);
      if ns.None? {
        return None;
      }
      Expanding(weights, input[..k], ns.value.uri, input[k + 1..]);
      return Some(ns.value.uri + input[k + 1..]);
    }
  }

  function Underscored(prefix: Bytes, local: Bytes): Bytes { prefix + ("_" + local) }

  function Coloned(prefix: Bytes, local: Bytes): Bytes { prefix + (":" + local) }

  ghost predicate LabelledBy(w: Weights, uri: Bytes, out: Bytes) {
    exists prefix :: BestPrefix(w, SplitUri(uri).0, prefix) && out == Underscored(prefix, SplitUri(uri).1)
  }

  /** What `GetSearchLabel` returns. */
  ghost predicate Labels(w: Weights, uri: Bytes, r: Option<Bytes>) {
    if SplitUri(uri).0 == "" then r == Some(uri)
    else if r.None? then BoundUnder(w, SplitUri(uri).0, false) == {}
    else LabelledBy(w, uri, r.value)
  }

  lemma Labelling(w: Weights, uri: Bytes, prefix: Bytes)
    requires BestPrefix(w, SplitUri(uri).0, prefix)
    ensures LabelledBy(w, uri, Underscored(prefix, SplitUri(uri).1))
  {
  }

  /** What `Expand` returns. */
  ghost predicate Expands(w: Weights, input: Bytes, r: Option<Bytes>) {
    if Absolute(input) || !HasColon(input) then r == Some(input)
    else
      var k := IndexOf(input, ':', 0);
      if r.None? then BoundUnder(w, input[..k], true) == {}
      else ExpandsTo(w, input[..k], input[k + 1..], r.value)
  }

  ghost predicate ExpandsTo(w: Weights, prefix: Bytes, local: Bytes, out: Bytes) {
    exists base :: BestBase(w, prefix, base) && out == base + local
  }

  lemma Expanding(w: Weights, prefix: Bytes, base: Bytes, local: Bytes)
    requires BestBase(w, prefix, base)
    ensures ExpandsTo(w, prefix, local, base + local)
  {
  }

  /** The first entry of a sorted bucket beats the others under its key. */
  lemma FirstWins(index: Index, bindings: set<Namespace>, w: Weights, key: Bytes, byUri: bool)
    requires Holds(index, bindings, byUri) && Recorded(bindings, w) && key in index && index[key] != []
    requires SortedEntries(index[key], byUri)
    ensures var n := index[key][0];
            && n in bindings && KeyOf(n, byUri) == key && (n.prefix, n.uri) in w && w[(n.prefix, n.uri)] == n.weight
            && (byUri ==> BestBase(w, key, n.uri)) && (!byUri ==> BestPrefix(w, key, n.prefix))
  {
    var n := index[key][0];
    assert n in bindings;
    forall t | t in BoundUnder(w, key, byUri) && t != Tie(n, byUri)
      ensures var pair := if byUri then (key, t) else (t, key);
              pair in w && (w[(n.prefix, n.uri)] > w[pair] || (w[(n.prefix, n.uri)] == w[pair] && Less(Tie(n, byUri), t)))
    {
      var i := BoundIsTie(index, bindings, w, key, byUri, t);
      var m := index[key][i];
      assert Heavier(n, m, byUri);
      assert m in bindings;
    }
    if byUri {
      forall b | (key, b) in w && b != n.uri ensures b in BoundUnder(w, key, true) { assert (key, b).1 == b; }
    } else {
      forall p | (p, key) in w && p != n.prefix ensures p in BoundUnder(w, key, false) { assert (p, key).0 == p; }
    }
  }

  // ---------------------------------------------------------------- histories

  datatype Given = Given(prefix: Bytes, base: Bytes, weight: int)

  function AfterAll(w: Weights, puts: seq<Given>): Weights
    decreases |puts|
  {
    if puts == [] then w else AfterAll(AfterPut(w, puts[0].prefix, puts[0].base, puts[0].weight), puts[1..])
  }

  /** The weight last given to a pair, if it was given one. */
  function LastGiven(puts: seq<Given>, prefix: Bytes, base: Bytes): Option<int>
    decreases |puts|
  {
    if puts == [] then None
    else if LastGiven(puts[1..], prefix, base).Some? then LastGiven(puts[1..], prefix, base)
    else if puts[0].prefix == prefix && puts[0].base == base then Some(puts[0].weight)
    else None
  }

  /** How often a pair is given a weight. */
  function TimesGiven(puts: seq<Given>, prefix: Bytes, base: Bytes): nat
    decreases |puts|
  {
    if puts == [] then 0
    else (if puts[0].prefix == prefix && puts[0].base == base then 1 else 0) + TimesGiven(puts[1..], prefix, base)
  }

  /** The pair gets the default weight, and keeps it: it is new, and put once, with zero. */
  predicate Defaulted(w: Weights, puts: seq<Given>, prefix: Bytes, base: Bytes) {
    (prefix, base) !in w && TimesGiven(puts, prefix, base) == 1 && LastGiven(puts, prefix, base) == Some(0)
  }

  lemma {:induction false} GivenOnce(puts: seq<Given>, prefix: Bytes, base: Bytes)
    ensures LastGiven(puts, prefix, base).Some? <==> TimesGiven(puts, prefix, base) > 0
    decreases |puts|
  {
    if puts != [] { GivenOnce(puts[1..], prefix, base); }
  }

  /** After any puts, zero weights included, a pair has the weight it was given last exactly
      unless it was defaulted; one that was never given keeps what it had. */
  lemma {:induction false} LastWeightIff(w: Weights, puts: seq<Given>, prefix: Bytes, base: Bytes)
    ensures var last, after := LastGiven(puts, prefix, base), AfterAll(w, puts);
            && ((prefix, base) in after <==> last.Some? || (prefix, base) in w)
            && (last.Some? ==> (after[(prefix, base)] == last.value <==> !Defaulted(w, puts, prefix, base)))
            && (last.None? && (prefix, base) in w ==> after[(prefix, base)] == w[(prefix, base)])
    decreases |puts|
  {
    if puts != [] {
      LastWeightIff(AfterPut(w, puts[0].prefix, puts[0].base, puts[0].weight), puts[1..], prefix, base);
      GivenOnce(puts[1..], prefix, base);
    }
  }

  /** Unless a pair is defaulted the order of the puts does not matter, only the weight each
      pair was given last. */
  lemma OrderDoesNotMatter(a: seq<Given>, b: seq<Given>)
    requires forall p, u :: !Defaulted(map[], a, p, u) && !Defaulted(map[], b, p, u)
    requires forall p, u :: LastGiven(a, p, u) == LastGiven(b, p, u)
    ensures AfterAll(map[], a) == AfterAll(map[], b)
  {
    hide Defaulted;
    var x, y := AfterAll(map[], a), AfterAll(map[], b);
    forall k: (Bytes, Bytes) ensures (k in x <==> k in y) && (k in x ==> x[k] == y[k]) {
      LastWeightIff(map[], a, k.0, k.1);
      LastWeightIff(map[], b, k.0, k.1);
      assert (k.0, k.1) == k;
      assert !Defaulted(map[], a, k.0, k.1) && !Defaulted(map[], b, k.0, k.1);
    }
  }

  /** With zero weights the order does matter: the default counts what is there already, so the
      base put second wins. */
  lemma ZeroWeightsDepend()
    ensures var a, b := Given("p", "a", 0), Given("p", "b", 0);
            && BestBase(AfterAll(map[], [a, b]), "p", "b")
            && BestBase(AfterAll(map[], [b, a]), "p", "a")
  {
    TwoDefaults("p", "a", "b");
    TwoDefaults("p", "b", "a");
  }

  lemma TwoDefaults(p: Bytes, a: Bytes, b: Bytes)
    requires a != b
    ensures BestBase(AfterAll(map[], [Given(p, a, 0), Given(p, b, 0)]), p, b)
  {
    var puts := [Given(p, a, 0), Given(p, b, 0)];
    var w1 := AfterPut(map[], p, a, 0);
    var w2 := AfterPut(w1, p, b, 0);
    assert puts[1..] == [Given(p, b, 0)] && puts[1..][1..] == [];
    assert AfterAll(map[], puts) == AfterAll(w1, puts[1..]) == AfterAll(w2, []) == w2;
    assert BasesOf(map[], p) == {} && PrefixesOf(map[], a) == {};
    assert w1 == map[(p, a) := 1];
    assert BasesOf(w1, p) == {a} by {
      assert (p, a) in w1 && (p, a).1 == a;
    }
    assert PrefixesOf(w1, b) == {};
    assert w2 == w1[(p, b) := 2];
  }

  // ---------------------------------------------------------------- splitting and expanding

  predicate HasColon(s: Bytes) { IndexOf(s, ':', 0) < |s| }

  predicate Absolute(s: Bytes) {
    "http://" <= s || "https://" <= s
  }

  /** Base and local name: split after the last `#`, or else after the last `/`. */
  function SplitUri(uri: Bytes): (r: (Bytes, Bytes)) {
    var hash, slash := LastIndex(uri, '#'), LastIndex(uri, '/');
    if hash >= 0 then (uri[..hash + 1], uri[hash + 1..])
    else if slash >= 0 then (uri[..slash + 1], uri[slash + 1..])
    else ("", uri)
  }

  predicate NoByte(s: Bytes, c: byte) { forall k | 0 <= k < |s| :: s[k] != c }

  lemma LastNone(s: Bytes, c: byte)
    ensures LastIndex(s, c) < 0 <==> NoByte(s, c)
  {
    if LastIndex(s, c) >= 0 { assert s[LastIndex(s, c)] == c; }
  }

  /** Cutting after `k`, where the last `c` is. */
  lemma CutAfter(s: Bytes, k: nat, c: byte)
    requires k < |s| && forall j | k < j < |s| :: s[j] != c
    ensures s[..k + 1] + s[k + 1..] == s && s[..k + 1] != "" && NoByte(s[k + 1..], c)
  {
    var tail := s[k + 1..];
    forall j | 0 <= j < |tail| ensures tail[j] != c { assert tail[j] == s[k + 1 + j]; }
  }

  /** The parts are the uri again, and the local name cannot be split further. */
  lemma SplitParts(uri: Bytes)
    ensures SplitUri(uri).0 + SplitUri(uri).1 == uri
    ensures var local := SplitUri(uri).1; NoByte(local, '#') && (NoByte(uri, '#') ==> NoByte(local, '/'))
    ensures SplitUri(uri).0 == "" <==> NoByte(uri, '#') && NoByte(uri, '/')
  {
    hide NoByte, LastIndex, SplitUri;
    LastNone(uri, '#');
    LastNone(uri, '/');
    if !NoByte(uri, '#') {
      SplitAtHash(uri);
    } else if !NoByte(uri, '/') {
      SplitAtSlash(uri);
    } else {
      NoSplit(uri);
    }
  }

  lemma NoSplit(uri: Bytes)
    requires LastIndex(uri, '#') < 0 && LastIndex(uri, '/') < 0
    ensures SplitUri(uri) == ("", uri) && SplitUri(uri).0 + SplitUri(uri).1 == uri
  {
    hide LastIndex;
  }

  lemma SplitAtHash(uri: Bytes)
    requires LastIndex(uri, '#') >= 0
    ensures SplitUri(uri).0 + SplitUri(uri).1 == uri && SplitUri(uri).0 != "" && NoByte(SplitUri(uri).1, '#')
  {
    hide NoByte, LastIndex;
    CutAfter(uri, LastIndex(uri, '#'), '#');
  }

  lemma SplitAtSlash(uri: Bytes)
    requires LastIndex(uri, '#') < 0 <= LastIndex(uri, '/')
    ensures SplitUri(uri).0 + SplitUri(uri).1 == uri && SplitUri(uri).0 != "" && NoByte(SplitUri(uri).1, '#') && NoByte(SplitUri(uri).1, '/')
  {
    hide NoByte, LastIndex;
    var k := LastIndex(uri, '/');
    CutAfter(uri, k, '/');
    CutAfter(uri, k, '#');
  }

  /** A base ends with its separator, so it is no prefix with a colon. */
  lemma BaseEnds(uri: Bytes)
    ensures SplitUri(uri).0 != "" ==> var base := SplitUri(uri).0; base[|base| - 1] == '#' || base[|base| - 1] == '/'
  {
    hide LastIndex;
  }

  lemma ColonParts(prefix: Bytes, local: Bytes)
    requires NoByte(prefix, ':')
    ensures var input := Coloned(prefix, local);
            HasColon(input) && IndexOf(input, ':', 0) == |prefix| && input[..|prefix|] == prefix && input[|prefix| + 1..] == local
  {
    hide IndexOf;
    var input := Coloned(prefix, local);
    assert input[|prefix|] == ':';
    assert forall k | 0 <= k < |prefix| :: input[k] == prefix[k];
    IndexOfIs(input, ':', |prefix|);
  }

  lemma SameEnd(a: Bytes, b: Bytes, end: Bytes)
    requires a + end == b + end
    ensures a == b
  {
    assert |a| == |b|;
    assert (a + end)[..|a|] == a && (b + end)[..|b|] == b;
  }

  /** `Expand` of a prefix without a colon and the local name of a uri returns that uri exactly
      when the input is not taken for an absolute one and the uri's base wins for the prefix. */
  lemma ExpandReturnsIff(w: Weights, uri: Bytes, prefix: Bytes, r: Option<Bytes>)
    requires NoByte(prefix, ':') && Expands(w, Coloned(prefix, SplitUri(uri).1), r)
    ensures var input := Coloned(prefix, SplitUri(uri).1);
            r == Some(uri) <==> !Absolute(input) && BestBase(w, prefix, SplitUri(uri).0)
  {
    hide Absolute, BestBase, BoundUnder, HasColon, SplitUri, IndexOf;
    var base, local := SplitUri(uri).0, SplitUri(uri).1;
    var input := Coloned(prefix, local);
    SplitParts(uri);
    ColonParts(prefix, local);
    if Absolute(input) {
      BaseEnds(uri);
      NotItsInput(base, prefix, local);
    } else if r.None? {
      BoundBase(w, prefix, base);
    } else {
      var won :| BestBase(w, prefix, won) && r.value == won + local;
      if r == Some(uri) { SameEnd(won, base, local); }
      if BestBase(w, prefix, base) { OneWinner(w, prefix, won, base); }
    }
  }

  /** What `Expand` answers, for any weights: web addresses and inputs without a colon come back
      as they are; of other inputs the part before the first colon is looked up, and there is
      no answer exactly when nothing is bound to it. */
  lemma ExpandIs(w: Weights, prefix: Bytes, local: Bytes, plain: Bytes, r: Option<Bytes>, s: Option<Bytes>)
    requires NoByte(prefix, ':') && NoByte(plain, ':')
    requires Expands(w, prefix + (":" + local), r) && Expands(w, plain, s)
    ensures s == Some(plain)
    ensures var input := prefix + (":" + local);
            if "http://" <= input || "https://" <= input then r == Some(input)
            else
              && (r.None? <==> forall base :: (prefix, base) !in w)
              && (r.Some? ==> exists base :: BestBase(w, prefix, base) && r.value == base + local)
  {
    hide BestBase, SplitUri, IndexOf;
    var input := Coloned(prefix, local);
    ColonParts(prefix, local);
    IndexOfIs(plain, ':', |plain|);
    assert Absolute(plain) ==> plain[..7] == "http://" || plain[..8] == "https://";
    forall base ensures (prefix, base) in w <==> base in BoundUnder(w, prefix, true) {
      if (prefix, base) in w { assert (prefix, base).1 == base; }
    }
    if !Absolute(input) && r.Some? {
      var base :| BestBase(w, prefix, base) && r.value == base + local;
      BoundBase(w, prefix, base);
    }
  }

  /** A pair put with more weight than its rivals wins for its prefix and for its base; with as
      much weight the smaller one wins. */
  lemma PutWins(w: Weights, prefix: Bytes, base: Bytes, weight: int)
    requires weight != 0 || (prefix, base) in w
    ensures (forall b | (prefix, b) in w && b != base :: w[(prefix, b)] < weight || (w[(prefix, b)] == weight && Less(base, b)))
            <==> BestBase(AfterPut(w, prefix, base, weight), prefix, base)
    ensures (forall p | (p, base) in w && p != prefix :: w[(p, base)] < weight || (w[(p, base)] == weight && Less(prefix, p)))
            <==> BestPrefix(AfterPut(w, prefix, base, weight), base, prefix)
  {
    hide Less;
    var after := AfterPut(w, prefix, base, weight);
    forall b | b != base ensures (prefix, b) in after <==> (prefix, b) in w { assert (prefix, b) != (prefix, base); }
    forall p | p != prefix ensures (p, base) in after <==> (p, base) in w { assert (p, base) != (prefix, base); }
  }

  lemma BoundBase(w: Weights, prefix: Bytes, base: Bytes)
    ensures BestBase(w, prefix, base) ==> BoundUnder(w, prefix, true) != {}
  {
    if (prefix, base) in w {
      assert (prefix, base).1 in BasesOf(w, prefix);
    }
  }

  lemma NotItsInput(base: Bytes, prefix: Bytes, local: Bytes)
    requires base != "" ==> base[|base| - 1] == '#' || base[|base| - 1] == '/'
    ensures base + local != Coloned(prefix, local)
  {
    var colon: Bytes := prefix + ":";
    assert colon[|prefix|] == ':';
    assert Coloned(prefix, local) == colon + local;
    assert base != colon;
    if base + local == colon + local { SameEnd(base, colon, local); }
  }

  /** The instance `http:` + `//y`: both win for each other, and yet `Expand` takes the input
      for an absolute uri. */
  lemma AbsoluteInputStays(http: Bytes, base: Bytes, local: Bytes, r: Option<Bytes>)
    requires http == "http" && base == "x#" && local == "//y" && Expands(map[(http, base) := 1], Coloned(http, local), r)
    ensures r == Some("http://y")
    ensures BestBase(map[(http, base) := 1], http, base) && BestPrefix(map[(http, base) := 1], base, http)
  {
    assert Coloned(http, local) == "http://y";
    assert Absolute("http://y");
  }

  // ---------------------------------------------------------------- labels

  /** Two uris with bound bases, whose winning prefixes have no underscore, get the same label
      exactly when they have the same winning prefix and the same local name. */
  lemma SameLabelIff(w: Weights, a: Bytes, b: Bytes, p: Bytes, q: Bytes, la: Option<Bytes>, lb: Option<Bytes>)
    requires SplitUri(a).0 != "" && SplitUri(b).0 != "" && Labels(w, a, la) && Labels(w, b, lb)
    requires BestPrefix(w, SplitUri(a).0, p) && BestPrefix(w, SplitUri(b).0, q) && NoByte(p, '_') && NoByte(q, '_')
    ensures la.Some? && lb.Some? && (la == lb <==> p == q && SplitUri(a).1 == SplitUri(b).1)
  {
    hide SplitUri, BestPrefix;
    LabelIs(w, a, p, la);
    LabelIs(w, b, q, lb);
    if la == lb { SameParts(p, q, SplitUri(a).1, SplitUri(b).1); }
  }

  lemma LabelIs(w: Weights, uri: Bytes, p: Bytes, r: Option<Bytes>)
    requires SplitUri(uri).0 != "" && Labels(w, uri, r) && BestPrefix(w, SplitUri(uri).0, p)
    ensures r == Some(Underscored(p, SplitUri(uri).1))
  {
    hide SplitUri, BestPrefix;
    if r.None? {
      BoundPrefix(w, SplitUri(uri).0, p);
      assert false;
    } else {
      var won :| BestPrefix(w, SplitUri(uri).0, won) && r.value == Underscored(won, SplitUri(uri).1);
      OneWinner(w, p, SplitUri(uri).0, won);
    }
  }

  lemma BoundPrefix(w: Weights, base: Bytes, p: Bytes)
    requires BestPrefix(w, base, p)
    ensures BoundUnder(w, base, false) != {}
  {
    assert (p, base).0 in PrefixesOf(w, base);
  }

  lemma SameParts(p: Bytes, q: Bytes, x: Bytes, y: Bytes)
    requires NoByte(p, '_') && NoByte(q, '_') && Underscored(p, x) == Underscored(q, y)
    ensures p == q && x == y
  {
    var s, t := Underscored(p, x), Underscored(q, y);
    assert s[|p|] == '_' && t[|q|] == '_';
    assert forall k | 0 <= k < |p| :: s[k] == p[k];
    assert forall k | 0 <= k < |q| :: t[k] == q[k];
    assert |p| == |q|;
    assert s[..|p|] == p && t[..|q|] == q && s[|p| + 1..] == x && t[|q| + 1..] == y;
  }

  /** Where each base also wins for its prefix, a label stands for one uri only. */
  lemma LabelsTellApart(w: Weights, a: Bytes, b: Bytes, p: Bytes, q: Bytes, la: Option<Bytes>, lb: Option<Bytes>)
    requires SplitUri(a).0 != "" && SplitUri(b).0 != "" && Labels(w, a, la) && Labels(w, b, lb)
    requires BestPrefix(w, SplitUri(a).0, p) && BestPrefix(w, SplitUri(b).0, q) && NoByte(p, '_') && NoByte(q, '_')
    requires BestBase(w, p, SplitUri(a).0) && BestBase(w, q, SplitUri(b).0)
    ensures la == lb <==> a == b
  {
    hide SplitUri, BestPrefix, BestBase, Labels;
    SameLabelIff(w, a, b, p, q, la, lb);
    SplitParts(a);
    SplitParts(b);
    if p == q { OneWinner(w, p, SplitUri(a).0, SplitUri(b).0); }
    if a == b { OneWinner(w, p, SplitUri(a).0, q); }
  }
}
