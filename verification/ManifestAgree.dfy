/** The Vite implementation of the merge rule, and its agreement with the Go catalog. */
module ManifestAgree {
  import opened Wrappers
  import opened Bytes
  import opened ManifestMerge
  import PagesText

  // ---------------------------------------------------------------- reading

  predicate IsNameStart(c: byte) {
    'a' <= c <= 'z' || 'A' <= c <= 'Z' || '0' <= c <= '9'
  }

  predicate IsNameChar(c: byte) {
    IsNameStart(c) || c == '_' || c == '.' || c == '-'
  }

  predicate ValidName(name: Bytes) {
    name != "" && IsNameStart(name[0]) && forall k | 0 <= k < |name| :: IsNameChar(name[k])
  }

  /** An entry as Vite reads it: the name trimmed and checked, the override checked; whether
      the source is fit is for the file system to say. */
  function ReadEntry(e: Entry, sourceFits: Bytes -> bool): Option<Entry> {
    var name := PagesText.TrimSpace(e.name);
    if !ValidName(name) || !sourceFits(e.source) || (e.overrides != "" && e.overrides != "core") then None
    else Some(e.(name := name))
  }

  /** What Vite reads: letters, digits, `_`, `.` and `-`, the first a letter or digit; an override
      of `core` or none. Nothing but the white space around the name is lost. */
  lemma ReadIff(e: Entry, sourceFits: Bytes -> bool)
    ensures var name := PagesText.TrimSpace(e.name);
            ReadEntry(e, sourceFits) == Some(Entry(name, e.source, e.overrides, e.manifest, e.core)) <==>
              && name != "" && name[0] != '_' && name[0] != '.' && name[0] != '-'
              && (forall k | 0 <= k < |name| ::
                    var c := name[k] as int;
                    0x30 <= c <= 0x39 || 0x41 <= c <= 0x5A || 0x61 <= c <= 0x7A || c == 0x5F || c == 0x2E || c == 0x2D)
              && sourceFits(e.source) && (e.overrides == "" || e.overrides == "core")
    ensures ReadEntry(e, sourceFits).Some? ==> ReadEntry(e, sourceFits).value == e.(name := PagesText.TrimSpace(e.name))
  {
    hide PagesText.TrimSpace;
    var name := PagesText.TrimSpace(e.name);
    forall k | 0 <= k < |name| ensures IsNameChar(name[k]) <==>
        (var c := name[k] as int; 0x30 <= c <= 0x39 || 0x41 <= c <= 0x5A || 0x61 <= c <= 0x7A || c == 0x5F || c == 0x2E || c == 0x2D) {}
  }

  predicate Readable(e: Entry, sourceFits: Bytes -> bool) { ReadEntry(e, sourceFits).Some? }

  function ReadAll(es: seq<Entry>, sourceFits: Bytes -> bool): (r: seq<Entry>)
    requires forall k | 0 <= k < |es| :: Readable(es[k], sourceFits)
    ensures |r| == |es| && forall k | 0 <= k < |es| :: Some(r[k]) == ReadEntry(es[k], sourceFits)
  {
    seq(|es|, k requires 0 <= k < |es| && Readable(es[k], sourceFits) => ReadEntry(es[k], sourceFits).value)
  }

  // ---------------------------------------------------------------- one kind

  /** The array holds one entry for each name, the one of the table. */
  ghost predicate Resolves(resolved: seq<Entry>, t: Table) {
    && (forall j, k | 0 <= j < k < |resolved| :: resolved[j].name != resolved[k].name)
    && (forall k | 0 <= k < |resolved| :: resolved[k].name in t && t[resolved[k].name] == resolved[k])
    && (forall name | name in t :: exists k :: 0 <= k < |resolved| && resolved[k].name == name)
  }

  method FindIndex(resolved: seq<Entry>, name: Bytes) returns (r: Option<nat>)
    ensures r.Some? ==> r.value < |resolved| && resolved[r.value].name == name
    ensures r.None? ==> forall k | 0 <= k < |resolved| :: resolved[k].name != name
  {
    var i := 0;
    while i < |resolved|
      invariant 0 <= i <= |resolved| && forall k | 0 <= k < i :: resolved[k].name != name
    {
      if resolved[i].name == name { return Some(i); }
      i := i + 1;
    }
    return None;
  }

  lemma ResolvesMore(resolved: seq<Entry>, t: Table, e: Entry)
    requires Resolves(resolved, t) && e.name !in t
    ensures Resolves(resolved + [e], t[e.name := e])
  {
    var t' := t[e.name := e];
    forall name | name in t' ensures exists k :: 0 <= k < |resolved + [e]| && (resolved + [e])[k].name == name {
      if name != e.name {
        var k :| 0 <= k < |resolved| && resolved[k].name == name;
        assert (resolved + [e])[k].name == name;
      } else {
        assert (resolved + [e])[|resolved|].name == name;
      }
    }
  }

  lemma ResolvesInstead(resolved: seq<Entry>, t: Table, e: Entry, i: nat)
    requires Resolves(resolved, t) && i < |resolved| && resolved[i].name == e.name
    ensures Resolves(resolved[i := e], t[e.name := e])
  {
    var t', out := t[e.name := e], resolved[i := e];
    forall name | name in t' ensures exists k :: 0 <= k < |out| && out[k].name == name {
      if name != e.name {
        var k :| 0 <= k < |resolved| && resolved[k].name == name;
        assert out[k].name == name;
      } else {
        assert out[i].name == name;
      }
    }
  }

  /** The inner loop of `validateContributionDuplicates`. */
  method ResolveKind(es: seq<Entry>) returns (r: Option<seq<Entry>>)
    ensures r.Some? <==> Merge(es).Some?
    ensures r.Some? ==> Resolves(r.value, Merge(es).value)
  {
    hide Merge, Resolves;
    var seen: Table := map[];
    var resolved: seq<Entry> := [];
    NothingSeen();
    assert es[..0] == [];
    var i := 0;
    while i < |es|
      invariant 0 <= i <= |es| && Merge(es[..i]) == Some(seen) && Resolves(resolved, seen)
    {
      var entry := es[i];
      assert es[..i + 1] == es[..i] + [entry];
      assert es == es[..i + 1] + es[i + 1..];
      MergeMore(es[..i], entry);
      MergePrefix(es[..i + 1], es[i + 1..]);
      if entry.name in seen {
        var existing := seen[entry.name];
        if existing.core && !entry.core && entry.overrides == "core" {
          var index := FindIndex(resolved, entry.name);
          SeenIsResolved(resolved, seen, entry.name);
          if index.Some? {
            ResolvesInstead(resolved, seen, entry, index.value);
            resolved := resolved[index.value := entry];
          }
          seen := seen[entry.name := entry];
        } else {
          return None;
        }
      } else {
        ResolvesMore(resolved, seen, entry);
        seen := seen[entry.name := entry];
        resolved := resolved + [entry];
      }
      i := i + 1;
    }
    assert es[..i] == es;
    return Some(resolved);
  }

  lemma NothingSeen()
    ensures Merge([]) == Some(map[]) && Resolves([], map[])
  {
  }

  lemma SeenIsResolved(resolved: seq<Entry>, t: Table, name: Bytes)
    requires Resolves(resolved, t) && name in t
    ensures exists k :: 0 <= k < |resolved| && resolved[k].name == name
  {
  }

  type Contributions = map<Kind, seq<Entry>>

  /** All kinds in turn; the first conflict ends it. */
  method ValidateContributionDuplicates(contributions: Contributions) returns (r: Option<Contributions>)
    requires forall kind: Kind :: kind in contributions
    ensures r.Some? <==> forall kind: Kind :: Merge(contributions[kind]).Some?
    ensures r.Some? ==> forall kind: Kind :: kind in r.value && Resolves(r.value[kind], Merge(contributions[kind]).value)
  {
    hide Merge, Resolves;
    AllKinds();
    var out := contributions;
    var i := 0;
    while i < |KINDS|
      invariant 0 <= i <= |KINDS| && out.Keys == contributions.Keys
      invariant forall k | 0 <= k < i :: Merge(contributions[KINDS[k]]).Some? && Resolves(out[KINDS[k]], Merge(contributions[KINDS[k]]).value)
      invariant forall k | i <= k < |KINDS| :: out[KINDS[k]] == contributions[KINDS[k]]
    {
      var resolved := ResolveKind(out[KINDS[i]]);
      if resolved.None? {
        return None;
      }
      out := out[KINDS[i] := resolved.value];
      i := i + 1;
    }
    forall kind: Kind ensures Merge(contributions[kind]).Some? && Resolves(out[kind], Merge(contributions[kind]).value) {
      assert kind in KINDS;
      var k :| 0 <= k < |KINDS| && KINDS[k] == kind;
    }
    return Some(out);
  }

  // ---------------------------------------------------------------- agreement

  /** Every entry can be read by Vite, and its name has no white space around it. */
  predicate Tidy(es: seq<Entry>, sourceFits: Bytes -> bool) {
    forall k | 0 <= k < |es| :: Readable(es[k], sourceFits) && PagesText.TrimSpace(es[k].name) == es[k].name
  }

  lemma TidyReads(es: seq<Entry>, sourceFits: Bytes -> bool)
    requires Tidy(es, sourceFits)
    ensures ReadAll(es, sourceFits) == es && Named(es)
  {
    hide PagesText.TrimSpace;
  }

  /** On tidy lists of one kind the two accept the same, namely when every name is unambiguous,
      and the last entry of a name wins in both. */
  lemma SameVerdict(es: seq<Entry>, sourceFits: Bytes -> bool)
    requires Tidy(es, sourceFits)
    ensures Accepted(es) <==> Merge(ReadAll(es, sourceFits)).Some?
    ensures Accepted(es) <==> forall k | 0 <= k < |es| :: Unambiguous(Occurrences(es, es[k].name))
    ensures Accepted(es) ==> forall k | 0 <= k < |es| ::
              var occ := Occurrences(es, es[k].name);
              && occ != [] && es[k].name in Merge(es).value && Merge(es).value[es[k].name] == occ[|occ| - 1]
              && Merge(ReadAll(es, sourceFits)) == Merge(es)
  {
    hide Merge, Occurrences, Unambiguous, Tidy;
    TidyReads(es, sourceFits);
    MergeIff(es);
    forall k | 0 <= k < |es| ensures Occurrences(es, es[k].name) != [] { OccurrencesOf(es, es[k].name); }
  }

  /** Two tables with the same resolved array have the same winners. */
  lemma SameWinners(resolved: seq<Entry>, t: Table, u: Table)
    requires Resolves(resolved, t) && Resolves(resolved, u)
    ensures t == u
  {
    assert t.Keys == u.Keys;
  }

  /** Names told apart by Go may be one name to Vite; where Vite holds a core entry, so does Go. */
  ghost predicate Finer(t: Table, read: Table) {
    forall name | name in t ::
      PagesText.TrimSpace(name) in read && (read[PagesText.TrimSpace(name)].core ==> t[name].core)
  }

  /** With any white space around names, what Vite accepts Go accepts as well. */
  lemma {:induction false} AcceptedByVite(es: seq<Entry>, sourceFits: Bytes -> bool)
    requires forall k | 0 <= k < |es| :: Readable(es[k], sourceFits)
    ensures var read := Merge(ReadAll(es, sourceFits));
            read.Some? ==> Accepted(es) && Finer(Merge(es).value, read.value)
    decreases |es|
  {
    hide PagesText.TrimSpace, Finer, ValidName;
    if es == [] {
      assert Finer(map[], map[]) by { NothingFiner(); }
    } else {
      var n := |es| - 1;
      var read := ReadAll(es, sourceFits);
      AcceptedByVite(es[..n], sourceFits);
      assert ReadAll(es[..n], sourceFits) == read[..n];
      assert Readable(es[n], sourceFits);
      if Merge(read).Some? {
        NameLeft(es[n].name);
        FinerMore(Merge(es[..n]).value, Merge(read[..n]).value, es[n], read[n]);
      }
    }
  }

  lemma NothingFiner()
    ensures Finer(map[], map[])
  {
  }

  lemma NameLeft(name: Bytes)
    ensures ValidName(PagesText.TrimSpace(name)) ==> name != ""
  {
  }

  lemma FinerMore(t: Table, read: Table, e: Entry, r: Entry)
    requires Finer(t, read) && r == e.(name := PagesText.TrimSpace(e.name)) && MayPlace(read, r)
    ensures MayPlace(t, e) && Finer(t[e.name := e], read[r.name := r])
  {
    hide PagesText.TrimSpace;
  }

  /** Go accepts what Vite rejects exactly when every name is unambiguous as it is written, but
      some name is not once it is trimmed; it is never the other way round. */
  lemma VerdictsDifferIff(es: seq<Entry>, sourceFits: Bytes -> bool)
    requires forall k | 0 <= k < |es| :: Readable(es[k], sourceFits)
    ensures var read := ReadAll(es, sourceFits);
            (Accepted(es) <==> Merge(read).Some?)
            <==> ((exists k :: 0 <= k < |es| && !Unambiguous(Occurrences(es, es[k].name)))
                  || forall k | 0 <= k < |read| :: Unambiguous(Occurrences(read, read[k].name)))
  {
    hide Merge, Occurrences, Unambiguous, PagesText.TrimSpace, ValidName;
    AcceptedByVite(es, sourceFits);
    MergeIff(es);
    MergeIff(ReadAll(es, sourceFits));
    forall k | 0 <= k < |es| ensures es[k].name != "" {
      assert Readable(es[k], sourceFits);
      NameLeft(es[k].name);
    }
  }

  /** An instance in which they differ: Go takes ` a` and `a` for two names. */
  lemma UntrimmedDiffer(sourceFits: Bytes -> bool)
    requires sourceFits("a.ts")
    ensures var es := [Entry(" a", "a.ts", "", "m", false), Entry("a", "a.ts", "", "m", false)];
            && (forall k | 0 <= k < |es| :: Readable(es[k], sourceFits))
            && Accepted(es) && Merge(ReadAll(es, sourceFits)).None?
  {
    hide PagesText.TrimSpace;
    var x, y := Entry(" a", "a.ts", "", "m", false), Entry("a", "a.ts", "", "m", false);
    var es := [x, y];
    TrimmedA();
    assert Readable(x, sourceFits) && Readable(y, sourceFits);
    var read := ReadAll(es, sourceFits);
    assert read[0] == y && read[1] == y;
    assert read == [y] + [y] && es == [x] + [y];
    MergeMore([], x);
    MergeMore([], y);
    MergeMore([x], y);
    MergeMore([y], y);
    assert [] + [x] == [x] && [] + [y] == [y];
    assert Merge([]) == Some(map[]);
  }

  lemma TrimmedA()
    ensures PagesText.TrimSpace(" a") == "a" && PagesText.TrimSpace("a") == "a" && ValidName("a")
  {
    assert " a"[1..] == "a";
    assert PagesText.SpaceAtStart(" a") == 1 && PagesText.SpaceAtStart("a") == 0 && PagesText.SpaceAtEnd("a") == 0;
    assert PagesText.TrimLeft("a") == "a" && PagesText.TrimLeft(" a") == "a" && PagesText.TrimRight("a") == "a";
  }
}
