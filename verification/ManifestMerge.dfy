/** Merging frontend manifests, twice: pkg/frontendmanifest goes manifest by manifest and keeps
    tables by name, the Vite configuration goes kind by kind and keeps arrays. */
module ManifestMerge {
  import opened Wrappers
  import opened Bytes

  datatype Kind = GlobalEntries | Islands | FormWidgets | RowWidgets | EditorWidgets | ContentWidgets

  const KINDS: seq<Kind> := [GlobalEntries, Islands, FormWidgets, RowWidgets, EditorWidgets, ContentWidgets]

  /** An entry with the flag of the manifest it comes from. */
  datatype Entry = Entry(name: Bytes, source: Bytes, overrides: Bytes, manifest: Bytes, core: bool)

  datatype Manifest = Manifest(path: Bytes, core: bool, lists: Kind -> seq<Entry>)

  type Table = map<Bytes, Entry>

  // ---------------------------------------------------------------- the rule

  /** An entry may take a free name, or replace a core entry when it says so and is not core
      itself. */
  predicate MayPlace(t: Table, e: Entry) {
    e.name !in t || (t[e.name].core && !e.core && e.overrides == "core")
  }

  /** The table after all entries in turn, if each may be placed. */
  function Merge(es: seq<Entry>): Option<Table>
    decreases |es|
  {
    if es == [] then Some(map[])
    else
      var e := es[|es| - 1];
      match Merge(es[..|es| - 1])
      case None => None
      case Some(t) => if MayPlace(t, e) then Some(t[e.name := e]) else None
  }

  function Occurrences(es: seq<Entry>, name: Bytes): seq<Entry>
    decreases |es|
  {
    if es == [] then []
    else
      Occurrences(es[..|es| - 1], name) + if es[|es| - 1].name == name then [es[|es| - 1]] else []
  }

  /** A name occurs once, or as a core entry followed by one that overrides it. */
  predicate Unambiguous(occ: seq<Entry>) {
    |occ| == 1 || (|occ| == 2 && occ[0].core && !occ[1].core && occ[1].overrides == "core")
  }

  lemma {:induction false} OccurrencesOf(es: seq<Entry>, name: Bytes)
    ensures Occurrences(es, name) != [] <==> exists k :: 0 <= k < |es| && es[k].name == name
    decreases |es|
  {
    if es != [] {
      var n := |es| - 1;
      OccurrencesOf(es[..n], name);
      if exists k :: 0 <= k < |es| && es[k].name == name {
        var k :| 0 <= k < |es| && es[k].name == name;
        if k < n { assert es[..n][k].name == name; }
      }
    }
  }

  /** The merge accepts exactly the lists in which every name is unambiguous, and the last
      occurrence wins. */
  lemma {:induction false} MergeIff(es: seq<Entry>)
    ensures Merge(es).Some? <==> forall k | 0 <= k < |es| :: Unambiguous(Occurrences(es, es[k].name))
    ensures Merge(es).Some? ==> forall name ::
              var occ := Occurrences(es, name);
              && (name in Merge(es).value <==> occ != [])
              && (occ != [] ==> Unambiguous(occ) && Merge(es).value[name] == occ[|occ| - 1])
    decreases |es|
  {
    hide Unambiguous, Occurrences;
    if es == [] {
      forall name ensures Occurrences(es, name) == [] { OccurrencesOf(es, name); }
    } else {
      var n := |es| - 1;
      MergeIff(es[..n]);
      if Merge(es[..n]).Some? {
        MergeOne(es);
      } else {
        var k :| 0 <= k < n && !Unambiguous(Occurrences(es[..n], es[..n][k].name));
        assert es[..n][k].name == es[k].name;
        OccurrencesOf(es[..n], es[k].name);
        MoreOccurrences(es, es[k].name);
        assert !Unambiguous(Occurrences(es, es[k].name));
      }
    }
  }

  lemma OccurrencesStep(es: seq<Entry>, name: Bytes)
    requires es != []
    ensures Occurrences(es, name) == Occurrences(es[..|es| - 1], name) + if es[|es| - 1].name == name then [es[|es| - 1]] else []
  {
  }

  /** A name that is ambiguous stays so. */
  lemma MoreOccurrences(es: seq<Entry>, name: Bytes)
    requires es != [] && Occurrences(es[..|es| - 1], name) != []
    ensures !Unambiguous(Occurrences(es[..|es| - 1], name)) ==> !Unambiguous(Occurrences(es, name))
  {
    hide Occurrences;
    OccurrencesStep(es, name);
  }

  lemma MergeOne(es: seq<Entry>)
    requires es != [] && Merge(es[..|es| - 1]).Some?
    requires var n := |es| - 1;
             forall name ::
              var occ := Occurrences(es[..n], name);
              && (name in Merge(es[..n]).value <==> occ != [])
              && (occ != [] ==> Unambiguous(occ) && Merge(es[..n]).value[name] == occ[|occ| - 1])
    ensures Merge(es).Some? <==> forall k | 0 <= k < |es| :: Unambiguous(Occurrences(es, es[k].name))
    ensures Merge(es).Some? ==> forall name ::
              var occ := Occurrences(es, name);
              && (name in Merge(es).value <==> occ != [])
              && (occ != [] ==> Unambiguous(occ) && Merge(es).value[name] == occ[|occ| - 1])
  {
    hide Occurrences;
    var n := |es| - 1;
    var e := es[n];
    var t := Merge(es[..n]).value;
    var before := Occurrences(es[..n], e.name);
    OccurrencesStep(es, e.name);
    assert MayPlace(t, e) <==> Unambiguous(before + [e]);
    forall name | name != e.name ensures Occurrences(es, name) == Occurrences(es[..n], name) {
      OccurrencesStep(es, name);
    }
    forall k | 0 <= k < n && es[k].name != e.name ensures Unambiguous(Occurrences(es, es[k].name)) {
      assert es[..n][k].name == es[k].name;
      OccurrencesOf(es[..n], es[k].name);
    }
    assert es[n].name == e.name;
  }

  /** A rejected list stays rejected. */
  lemma {:induction false} MergePrefix(a: seq<Entry>, b: seq<Entry>)
    ensures Merge(a + b).Some? ==> Merge(a).Some?
    decreases |b|
  {
    if b == [] {
      assert a + b == a;
    } else {
      var n := |b| - 1;
      assert (a + b)[..|a + b| - 1] == a + b[..n];
      MergePrefix(a, b[..n]);
    }
  }

  lemma MergeMore(a: seq<Entry>, e: Entry)
    ensures Merge(a + [e]) == match Merge(a)
                              case None => None
                              case Some(t) => if MayPlace(t, e) then Some(t[e.name := e]) else None
  {
    assert (a + [e])[..|a|] == a;
  }

  // ---------------------------------------------------------------- the entries of a kind

  function Stamped(m: Manifest, kind: Kind): (r: seq<Entry>)
    ensures |r| == |m.lists(kind)|
  {
    seq(|m.lists(kind)|, k requires 0 <= k < |m.lists(kind)| => m.lists(kind)[k].(manifest := m.path, core := m.core))
  }

  /** All entries of one kind, in the order of the manifests. */
  function Listed(ms: seq<Manifest>, kind: Kind): seq<Entry>
    decreases |ms|
  {
    if ms == [] then [] else Listed(ms[..|ms| - 1], kind) + Stamped(ms[|ms| - 1], kind)
  }

  /** Every entry of a kind comes from one manifest, and carries its path and its core flag. */
  lemma {:induction false} ListedFrom(ms: seq<Manifest>, kind: Kind, n: nat) returns (i: nat, j: nat)
    requires n < |Listed(ms, kind)|
    ensures i < |ms| && j < |ms[i].lists(kind)|
    ensures var e := Listed(ms, kind)[n]; var source := ms[i].lists(kind)[j];
            e == Entry(source.name, source.source, source.overrides, ms[i].path, ms[i].core)
    decreases |ms|
  {
    var last := |ms| - 1;
    var before := Listed(ms[..last], kind);
    if n < |before| {
      i, j := ListedFrom(ms[..last], kind, n);
    } else {
      i, j := last, n - |before|;
      assert Listed(ms, kind)[n] == Stamped(ms[last], kind)[j];
    }
  }

  /** And every entry of every manifest is listed, those of earlier manifests first. */
  lemma {:induction false} ListedAll(ms: seq<Manifest>, kind: Kind, i: nat)
    requires i < |ms|
    ensures var before := Listed(ms[..i], kind);
            && |before| + |ms[i].lists(kind)| <= |Listed(ms, kind)|
            && forall j | 0 <= j < |ms[i].lists(kind)| ::
                 Listed(ms, kind)[|before| + j] == ms[i].lists(kind)[j].(manifest := ms[i].path, core := ms[i].core)
    decreases |ms|
  {
    var last := |ms| - 1;
    if i < last {
      ListedAll(ms[..last], kind, i);
      assert ms[..last][..i] == ms[..i];
    }
  }

  /** So what the catalog holds for a name is the last entry of that name in any manifest, with
      the path and the core flag of its own. */
  lemma WinnerFrom(ms: seq<Manifest>, kind: Kind, name: Bytes) returns (i: nat, j: nat)
    requires Merge(Listed(ms, kind)).Some? && name in Merge(Listed(ms, kind)).value
    ensures i < |ms| && j < |ms[i].lists(kind)| && ms[i].lists(kind)[j].name == name
    ensures Merge(Listed(ms, kind)).value[name] == ms[i].lists(kind)[j].(manifest := ms[i].path, core := ms[i].core)
  {
    hide Merge;
    var es := Listed(ms, kind);
    MergeIff(es);
    var occ := Occurrences(es, name);
    var n := OccurrenceAt(es, name, |occ| - 1);
    i, j := ListedFrom(ms, kind, n);
  }

  lemma {:induction false} OccurrenceAt(es: seq<Entry>, name: Bytes, k: nat) returns (n: nat)
    requires k < |Occurrences(es, name)|
    ensures n < |es| && es[n] == Occurrences(es, name)[k] && es[n].name == name
    decreases |es|
  {
    var last := |es| - 1;
    if k < |Occurrences(es[..last], name)| {
      n := OccurrenceAt(es[..last], name, k);
    } else {
      n := last;
    }
  }

  predicate Named(es: seq<Entry>) {
    forall k | 0 <= k < |es| :: es[k].name != ""
  }

  /** What the Go catalog accepts: names that are not empty, and unambiguous ones. */
  predicate Accepted(es: seq<Entry>) {
    Named(es) && Merge(es).Some?
  }

  lemma {:induction false} ListedPrefix(ms: seq<Manifest>, n: nat, kind: Kind)
    requires n <= |ms| && !Accepted(Listed(ms[..n], kind))
    ensures !Accepted(Listed(ms, kind))
    decreases |ms| - n
  {
    if n < |ms| {
      assert ms[..n + 1][..n] == ms[..n];
      var a, b := Listed(ms[..n], kind), Stamped(ms[n], kind);
      assert Listed(ms[..n + 1], kind) == a + b;
      MergePrefix(a, b);
      if !Named(a) {
        var k :| 0 <= k < |a| && a[k].name == "";
        assert (a + b)[k].name == "";
      }
      ListedPrefix(ms, n + 1, kind);
    } else {
      assert ms[..n] == ms;
    }
  }

  // ---------------------------------------------------------------- the Go catalog

  class Catalog {
    var entries: map<Kind, Table>

    /** The catalog of the lists seen so far. */
    ghost predicate Shows(seen: Kind -> seq<Entry>)
      reads this
    {
      forall kind: Kind :: kind in entries && Merge(seen(kind)) == Some(entries[kind])
    }

    constructor ()
      ensures Shows(_ => [])
    {
      entries := map kind: Kind | kind in KINDS :: map[];
      new;
      assert forall kind: Kind :: kind in KINDS by { AllKinds(); }
    }

    /** The entries of one manifest of one kind. */
    method AddEntries(kind: Kind, list: seq<Entry>, ghost before: seq<Entry>) returns (ok: bool)
      requires kind in entries && Merge(before) == Some(entries[kind])
      modifies this
      ensures ok <==> Named(list) && Merge(before + list).Some?
      ensures ok ==> entries == old(entries)[kind := Merge(before + list).value]
    {
      hide Merge;
      var i := 0;
      assert before + list[..0] == before;
      while i < |list|
        invariant 0 <= i <= |list| && Named(list[..i]) && Merge(before + list[..i]).Some?
        invariant entries == old(entries)[kind := Merge(before + list[..i]).value]
      {
        var entry := list[i];
        assert before + list[..i + 1] == (before + list[..i]) + [entry];
        assert before + list == (before + list[..i + 1]) + list[i + 1..];
        MergeMore(before + list[..i], entry);
        MergePrefix(before + list[..i + 1], list[i + 1..]);
        if entry.name == "" {
          return false;
        }
        if entry.name in entries[kind] {
          var existing := entries[kind][entry.name];
          if existing.core && !entry.core && entry.overrides == "core" {
            entries := entries[kind := entries[kind][entry.name := entry]];
          } else {
            return false;
          }
        } else {
          entries := entries[kind := entries[kind][entry.name := entry]];
        }
        i := i + 1;
      }
      assert list[..i] == list;
      ok := true;
    }

    method AddManifest(m: Manifest, ghost seen: Kind -> seq<Entry>) returns (ok: bool)
      requires Shows(seen)
      modifies this
      ensures ok <==> forall kind: Kind :: Named(Stamped(m, kind)) && Merge(seen(kind) + Stamped(m, kind)).Some?
      ensures ok ==> Shows(kind => seen(kind) + Stamped(m, kind))
    {
      hide Merge, Named, Stamped, Upto;
      AllKinds();
      UptoEnds(seen, m);
      var i := 0;
      while i < |KINDS|
        invariant 0 <= i <= |KINDS|
        invariant Shows(kind => Upto(seen, m, i, kind))
        invariant forall kind: Kind | kind in KINDS[..i] :: Named(Stamped(m, kind))
      {
        UptoNext(seen, m, i);
        var added := AddEntries(KINDS[i], Stamped(m, KINDS[i]), seen(KINDS[i]));
        if !added {
          return false;
        }
        i := i + 1;
      }
      assert KINDS[..i] == KINDS;
      forall kind: Kind ensures kind in entries && Merge(seen(kind) + Stamped(m, kind)) == Some(entries[kind]) && Named(Stamped(m, kind)) {
        assert kind in KINDS[..i];
        assert kind in entries && Merge(Upto(seen, m, i, kind)) == Some(entries[kind]);
      }
      ok := true;
    }
  }

  lemma UptoEnds(seen: Kind -> seq<Entry>, m: Manifest)
    ensures forall kind: Kind :: Upto(seen, m, 0, kind) == seen(kind)
    ensures forall kind: Kind :: Upto(seen, m, |KINDS|, kind) == seen(kind) + Stamped(m, kind)
  {
    hide Stamped;
    AllKinds();
    assert KINDS[..|KINDS|] == KINDS;
  }

  lemma AllKinds()
    ensures forall kind: Kind :: kind in KINDS
    ensures forall j, k | 0 <= j < k < |KINDS| :: KINDS[j] != KINDS[k]
  {
    forall kind: Kind ensures kind in KINDS {
      match kind
      case GlobalEntries => assert KINDS[0] == kind;
      case Islands => assert KINDS[1] == kind;
      case FormWidgets => assert KINDS[2] == kind;
      case RowWidgets => assert KINDS[3] == kind;
      case EditorWidgets => assert KINDS[4] == kind;
      case ContentWidgets => assert KINDS[5] == kind;
    }
  }

  /** What a kind has after the first `i` kinds of a manifest are added. */
  function Upto(seen: Kind -> seq<Entry>, m: Manifest, i: nat, kind: Kind): seq<Entry>
    requires i <= |KINDS|
  {
    if kind in KINDS[..i] then seen(kind) + Stamped(m, kind) else seen(kind)
  }

  lemma UptoNext(seen: Kind -> seq<Entry>, m: Manifest, i: nat)
    requires i < |KINDS|
    ensures Upto(seen, m, i, KINDS[i]) == seen(KINDS[i])
    ensures Upto(seen, m, i + 1, KINDS[i]) == seen(KINDS[i]) + Stamped(m, KINDS[i])
    ensures forall kind: Kind | kind != KINDS[i] :: Upto(seen, m, i + 1, kind) == Upto(seen, m, i, kind)
    ensures forall kind: Kind :: kind in KINDS[..i + 1] <==> kind in KINDS[..i] || kind == KINDS[i]
  {
    hide Stamped;
    AllKinds();
    assert KINDS[..i + 1] == KINDS[..i] + [KINDS[i]];
  }

  method NewCatalog(ms: seq<Manifest>) returns (r: Option<Catalog>)
    ensures r.Some? <==> forall kind: Kind :: Accepted(Listed(ms, kind))
    ensures r.Some? ==> fresh(r.value) && r.value.Shows(kind => Listed(ms, kind))
  {
    hide Merge, Named;
    var c := new Catalog();
    var i := 0;
    assert ms[..0] == [];
    NothingListed();
    while i < |ms|
      invariant 0 <= i <= |ms| && fresh(c)
      invariant c.Shows(kind => Listed(ms[..i], kind))
      invariant forall kind: Kind :: Accepted(Listed(ms[..i], kind))
    {
      var added := c.AddManifest(ms[i], kind => Listed(ms[..i], kind));
      forall kind: Kind ensures Accepted(Listed(ms[..i + 1], kind)) <==> Named(Stamped(ms[i], kind)) && Merge(Listed(ms[..i], kind) + Stamped(ms[i], kind)).Some? {
        AcceptedMore(ms, i, kind);
      }
      if !added {
        var kind: Kind :| !Accepted(Listed(ms[..i + 1], kind));
        ListedPrefix(ms, i + 1, kind);
        return None;
      }
      forall kind: Kind ensures Listed(ms[..i + 1], kind) == Listed(ms[..i], kind) + Stamped(ms[i], kind) {
        assert ms[..i + 1][..i] == ms[..i];
      }
      i := i + 1;
    }
    assert ms[..i] == ms;
    return Some(c);
  }

  lemma NothingListed()
    ensures forall kind: Kind :: Listed([], kind) == [] && Accepted([])
  {
  }

  lemma AcceptedMore(ms: seq<Manifest>, i: nat, kind: Kind)
    requires i < |ms| && Accepted(Listed(ms[..i], kind))
    ensures Accepted(Listed(ms[..i + 1], kind)) <==> Named(Stamped(ms[i], kind)) && Merge(Listed(ms[..i], kind) + Stamped(ms[i], kind)).Some?
  {
    hide Merge;
    assert ms[..i + 1][..i] == ms[..i];
    var a, b := Listed(ms[..i], kind), Stamped(ms[i], kind);
    assert Listed(ms[..i + 1], kind) == a + b;
    if Named(a + b) {
      forall k | 0 <= k < |b| ensures b[k].name != "" { assert (a + b)[|a| + k] == b[k]; }
    }
  }
}
