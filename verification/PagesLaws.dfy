/** Laws of the targeted edits that a caller relies on, stated on the bytes of the file. */
module PagesLaws {
  import opened Wrappers
  import opened Bytes
  import opened JsonGrammar
  import opened JsonScan
  import opened JsonStrings
  import opened JsonAgree
  import opened Sorting
  import opened PagesEdit
  import opened PagesDocument
  import opened PagesReplace
  import opened PagesTheorems

  function Encoded(kv: Updates): map<Bytes, Bytes> {
    map k | k in kv :: EncodeBody(kv[k])
  }

  // ---------------------------------------------------------------- update as map union

  function Overlay(m: map<Bytes, Bytes>, kv: Updates): map<Bytes, Bytes> {
    map k | k in m :: if k in kv then EncodeBody(kv[k]) else m[k]
  }

  lemma OverlayUnion(a: map<Bytes, Bytes>, a': map<Bytes, Bytes>, b: map<Bytes, Bytes>, kv: Updates)
    requires a'.Keys == a.Keys
    requires forall k | k in a && k !in b :: a'[k] == if k in kv then EncodeBody(kv[k]) else a[k]
    ensures a' + Overlay(b, kv) == Overlay(a + b, kv)
  {
    hide EncodeBody;
  }

  lemma {:induction false} StringsReplaced(es: seq<Entry>, kv: Updates)
    ensures Strings(Replace(es, kv)) == Overlay(Strings(es), kv)
  {
    hide EncodeBody, Overlay;
    if es == [] {
      OverlayNothing(kv);
    } else {
      StringsReplaced(es[1..], kv);
      assert Replace(es, kv)[1..] == Replace(es[1..], kv);
      OverlayUnion(Own(es[0]), Own(Replace(es, kv)[0]), Strings(es[1..]), kv);
    }
  }

  lemma OverlayNothing(kv: Updates)
    ensures Overlay(map[], kv) == map[]
  {
  }

  lemma {:induction false} StringsConcat(a: seq<Entry>, b: seq<Entry>)
    ensures Strings(a + b) == Strings(a) + Strings(b)
  {
    hide Own;
    if a == [] {
      assert a + b == b;
    } else {
      assert (a + b)[1..] == a[1..] + b;
      StringsConcat(a[1..], b);
      UnionAssoc(Own(a[0]), Strings(a[1..]), Strings(b));
    }
  }

  lemma {:induction false} StringsTrimmed(es: seq<Entry>)
    ensures Strings(Trimmed(es)) == Strings(es)
  {
    if |es| > 1 {
      assert Trimmed(es)[1..] == Trimmed(es[1..]);
      StringsTrimmed(es[1..]);
    } else if |es| == 1 {
      assert Trimmed(es)[1..] == es[1..];
    }
  }

  /** The encoded values of the pairs from index `i` on. */
  function PairBodies(pairs: seq<Pair>, i: nat, kv: Updates): map<Bytes, Bytes> {
    map k | k in kv && (exists j :: i <= j < |pairs| && pairs[j].key == k) :: EncodeBody(kv[k])
  }

  lemma PairBodiesStep(pairs: seq<Pair>, i: nat, kv: Updates)
    requires i < |pairs| && pairs[i].key in kv && kv[pairs[i].key] == pairs[i].value
    ensures PairBodies(pairs, i, kv) == map[pairs[i].key := EncodeBody(pairs[i].value)] + PairBodies(pairs, i + 1, kv)
  {
    hide EncodeBody;
  }

  lemma {:induction false} StringsOfPairs(pairs: seq<Pair>, i: nat, kv: Updates)
    requires i <= |pairs|
    requires forall j | i <= j < |pairs| :: pairs[j].key in kv && kv[pairs[j].key] == pairs[j].value
    ensures Strings(PairEntries(pairs, i)) == PairBodies(pairs, i, kv)
    decreases |pairs| - i
  {
    hide EncodeBody;
    if i < |pairs| {
      StringsOfPairs(pairs, i + 1, kv);
      PairBodiesStep(pairs, i, kv);
      assert PairEntries(pairs, i)[1..] == PairEntries(pairs, i + 1);
    }
  }

  lemma StringsAdded(kv: Updates)
    ensures Strings(PairEntries(SortedPairs(kv), 0)) == Encoded(kv)
  {
    hide EncodeBody;
    var ps := SortedPairs(kv);
    assert Elements(ps) == PairsOf(kv);
    forall j | 0 <= j < |ps| ensures ps[j].key in kv && kv[ps[j].key] == ps[j].value {
      assert ps[j] in Elements(ps);
    }
    forall k | k in kv ensures exists j :: 0 <= j < |ps| && ps[j].key == k {
      assert Pair(k, kv[k]) in Elements(ps);
    }
    StringsOfPairs(ps, 0, kv);
  }

  /** The string members after an update are the old ones overridden by the encoded updates:
      nothing lost, nothing else changed. */
  lemma StringsUpdated(o: Value, kv: Updates)
    requires IsObject(o)
    ensures Strings(Updated(o, kv).entries) == Strings(o.entries) + Encoded(kv)
  {
    hide EncodeBody, SortedPairs, PairEntries, Strings, Replace;
    var replaced := Replace(o.entries, kv);
    var added := Added(kv, o.entries);
    StringsReplaced(o.entries, kv);
    if added != map[] {
      StringsTrimmed(replaced);
      StringsConcat(Trimmed(replaced), PairEntries(SortedPairs(added), 0));
      StringsAdded(added);
    } else {
      forall k | k in kv ensures k in Strings(o.entries) {
        assert k !in added;
      }
    }
  }

  // ---------------------------------------------------------------- rescanning

  predicate InData(data: Bytes, ranges: Ranges) {
    forall k | k in ranges :: ranges[k].0 + 2 <= ranges[k].1 <= |data|
  }

  /** The bodies a scan's ranges stand for. */
  function Bodies(data: Bytes, ranges: Ranges): map<Bytes, Bytes>
    requires InData(data, ranges)
  {
    map k | k in ranges :: data[ranges[k].0 + 1..ranges[k].1 - 1]
  }

  lemma {:induction false} BodiesOfEntries(data: Bytes, i: nat, es: seq<Entry>, acc: Ranges)
    requires es != [] ==> At(data, i, Entries(es))
    requires InData(data, acc)
    ensures InData(data, AddRanges(es, i, acc))
    ensures Bodies(data, AddRanges(es, i, acc)) == Bodies(data, acc) + Strings(es)
    decreases es
  {
    hide At, EntryText, Entries, Own, AddRange, InData, Bodies;
    if es != [] {
      var n := |EntryText(es[0])|;
      FirstEntryAt(data, i, es);
      BodiesOfEntry(data, i, es[0], acc);
      BodiesOfEntries(data, i + n + 1, es[1..], AddRange(es[0], i, acc));
      UnionAssoc(Bodies(data, acc), Own(es[0]), Strings(es[1..]));
    } else {
      assert Bodies(data, acc) + Strings(es) == Bodies(data, acc);
    }
  }

  lemma UnionAssoc(a: map<Bytes, Bytes>, b: map<Bytes, Bytes>, c: map<Bytes, Bytes>)
    ensures (a + b) + c == a + (b + c)
  {
  }

  lemma FirstEntryAt(data: Bytes, i: nat, es: seq<Entry>)
    requires es != [] && At(data, i, Entries(es))
    ensures At(data, i, EntryText(es[0]))
    ensures |es| > 1 ==> At(data, i + |EntryText(es[0])| + 1, Entries(es[1..]))
  {
    hide At, EntryText;
    if |es| > 1 { EntriesParts(data, i, es); }
  }

  lemma BodiesOfEntry(data: Bytes, i: nat, e: Entry, acc: Ranges)
    requires At(data, i, EntryText(e)) && InData(data, acc)
    ensures InData(data, AddRange(e, i, acc))
    ensures Bodies(data, AddRange(e, i, acc)) == Bodies(data, acc) + Own(e)
  {
    hide At, EntryText, NameText, Quoted, InData, Bodies;
    EntryParts(data, i, e);
    if e.name.Name? && e.value.Str? {
      var v := i + |e.pre| + |NameText(e.name)|;
      QuotedInside(data, v, e.value.body);
      BodiesMore(data, acc, e.name.key, v, v + |Quoted(e.value.body)|, e.value.body);
    } else {
      assert Bodies(data, acc) + Own(e) == Bodies(data, acc);
    }
  }

  lemma BodiesMore(data: Bytes, acc: Ranges, key: Bytes, start: nat, end: nat, body: Bytes)
    requires InData(data, acc) && start + 2 <= end <= |data| && data[start + 1..end - 1] == body
    ensures InData(data, acc[key := (start, end)])
    ensures Bodies(data, acc[key := (start, end)]) == Bodies(data, acc) + map[key := body]
  {
  }

  lemma QuotedInside(data: Bytes, v: nat, body: Bytes)
    requires At(data, v, Quoted(body))
    ensures |Quoted(body)| == |body| + 2 && data[v + 1..v + |Quoted(body)| - 1] == body
  {
    hide At;
    AtSplit(data, v, "\"" + body, "\"");
    AtSplit(data, v, "\"", body);
    AtSlice(data, v + 1, body);
  }

  /** Scanning a well-formed object and reading its ranges gives its string members. */
  lemma Rescan(left: Bytes, o: Value, right: Bytes)
    requires IsObject(o) && Wf(o)
    ensures var raw := left + (Text(o) + right);
            && Scan(raw, |left|).Ok? && InData(raw, Scan(raw, |left|).value)
            && Bodies(raw, Scan(raw, |left|).value) == Strings(o.entries)
  {
    hide At, Text, Scan, Strings, WfEntries, AddRanges;
    var raw := left + (Text(o) + right);
    ScanWhole(left, o, right);
    NodeParts(raw, |left|, o);
    BodiesOfEntries(raw, |left| + 1, o.entries, map[]);
  }

  /** Splicing refines map update: scanning the slug block again after `applySlugUpdates`
      finds the old key-to-text map with the encoded updates laid over it. */
  lemma ApplyThenScan(d: Document, p: nat, k: nat, slug: Bytes, kv: Updates)
    requires SlugAt(d, p, k, slug) && WfUpdates(kv)
    ensures var open := |SlugLeft(d, p, k, slug)|;
            && Apply(DocText(d), slug, kv).Ok?
            && var raw := Apply(DocText(d), slug, kv).value;
            && FindSlug(raw, slug) == Some(open)
            && Scan(raw, open).Ok? && InData(raw, Scan(raw, open).value)
            && Bodies(raw, Scan(raw, open).value) == Strings(SlugOf(d, p, k, slug).entries) + Encoded(kv)
  {
    hide Text, Wf, Scan, Strings, SlugLeft, SlugRight, SlugAt, SlugOf, WithSlug, Updated, Apply, DocText, WfUpdates, FindSlug;
    SlugWf(d, p, k, slug);
    var o := Updated(SlugOf(d, p, k, slug), kv);
    ApplyToSlug(d, p, k, slug, kv);
    SlugHole(d, p, k, slug, o);
    Rescan(SlugLeft(d, p, k, slug), o, SlugRight(d, p, k, slug));
    StringsUpdated(SlugOf(d, p, k, slug), kv);
    FindsSlugBlock(WithSlug(d, p, k, slug, o), p, k, slug);
    SameLeft(d, p, k, slug, o);
  }

  lemma SameLeft(d: Document, p: nat, k: nat, slug: Bytes, v: Value)
    requires SlugAt(d, p, k, slug) && SlugAt(WithSlug(d, p, k, slug, v), p, k, slug)
    ensures SlugLeft(WithSlug(d, p, k, slug, v), p, k, slug) == SlugLeft(d, p, k, slug)
  {
    hide Wf, WfBody, FirstOfEntry, Before;
    SetValueAround(d.root.entries, p, PagesWith(d, p, k, slug, v));
    SetValueAround(PagesOf(d, p).entries, k, v);
  }

  // ---------------------------------------------------------------- no change, and idempotence

  lemma {:induction false} ReplaceSame(es: seq<Entry>, kv: Updates)
    requires forall k | k in kv && k in Strings(es) :: Strings(es)[k] == EncodeBody(kv[k])
    ensures Replace(es, kv) == es
  {
    hide EncodeBody;
    if es != [] {
      ReplaceSame(es[1..], kv);
      if Hit(es, kv) {
        assert Strings(es)[es[0].name.key] == es[0].value.body;
      }
    }
  }

  /** All the updates are string members already, with the very text that would be written. */
  predicate Settled(o: Value, kv: Updates)
    requires IsObject(o)
  {
    forall k | k in kv :: k in Strings(o.entries) && Strings(o.entries)[k] == EncodeBody(kv[k])
  }

  lemma UpdatedSettled(o: Value, kv: Updates)
    requires IsObject(o) && Settled(o, kv)
    ensures Updated(o, kv) == o
  {
    hide EncodeBody, Strings, SortedPairs, Replace;
    ReplaceSame(o.entries, kv);
    assert Added(kv, o.entries) == map[];
  }

  /** `applySlugUpdates` leaves the file as it is, byte for byte, exactly when every update
      is already there in canonical form. */
  lemma ApplyUnchangedIff(d: Document, p: nat, k: nat, slug: Bytes, kv: Updates)
    requires SlugAt(d, p, k, slug) && WfUpdates(kv)
    ensures IsObject(SlugOf(d, p, k, slug))
    ensures Apply(DocText(d), slug, kv) == Ok(DocText(d)) <==> Settled(SlugOf(d, p, k, slug), kv)
  {
    hide Text, Wf, Scan, Strings, SlugLeft, SlugRight, SlugAt, SlugOf, WithSlug, Updated, Apply, DocText, WfUpdates, EncodeBody;
    var o := SlugOf(d, p, k, slug);
    SlugWf(d, p, k, slug);
    ApplyToSlug(d, p, k, slug, kv);
    SlugHole(d, p, k, slug, o);
    if Settled(o, kv) {
      UpdatedSettled(o, kv);
    }
    if Apply(DocText(d), slug, kv) == Ok(DocText(d)) {
      var o' := Updated(o, kv);
      SlugHole(d, p, k, slug, o');
      Rescan(SlugLeft(d, p, k, slug), o, SlugRight(d, p, k, slug));
      Rescan(SlugLeft(d, p, k, slug), o', SlugRight(d, p, k, slug));
      StringsUpdated(o, kv);
      SettledByStrings(o, kv);
    }
  }

  lemma SettledByStrings(o: Value, kv: Updates)
    requires IsObject(o) && Strings(o.entries) + Encoded(kv) == Strings(o.entries)
    ensures Settled(o, kv)
  {
    hide EncodeBody, Strings;
    forall k | k in kv ensures k in Strings(o.entries) && Strings(o.entries)[k] == EncodeBody(kv[k]) {
      assert k in Strings(o.entries) + Encoded(kv);
      assert (Strings(o.entries) + Encoded(kv))[k] == EncodeBody(kv[k]);
    }
  }

  lemma SettledAfter(o: Value, kv: Updates)
    requires IsObject(o)
    ensures IsObject(Updated(o, kv)) && Settled(Updated(o, kv), kv)
  {
    hide EncodeBody, Strings, Replace, SortedPairs;
    StringsUpdated(o, kv);
  }

  /** Applying the same updates again returns identical bytes: with an existing slug block... */
  lemma ApplyTwice(d: Document, p: nat, k: nat, slug: Bytes, kv: Updates)
    requires SlugAt(d, p, k, slug) && WfUpdates(kv)
    ensures Apply(DocText(d), slug, kv).Ok?
    ensures var once := Apply(DocText(d), slug, kv).value; Apply(once, slug, kv) == Ok(once)
  {
    hide SlugAt, SlugOf, WithSlug, Updated, Apply, DocText, WfUpdates, Settled, Wf;
    var o := SlugOf(d, p, k, slug);
    SlugWf(d, p, k, slug);
    ApplyToSlug(d, p, k, slug, kv);
    SettledAfter(o, kv);
    ApplyUnchangedIff(WithSlug(d, p, k, slug, Updated(o, kv)), p, k, slug, kv);
  }

  /** ...and with one that the first application created. */
  lemma ApplyTwiceNewSlug(d: Document, p: nat, slug: Bytes, kv: Updates)
    requires NoSlug(d, p, slug) && WfUpdates(kv) && kv != map[]
    ensures Apply(DocText(d), slug, kv).Ok?
    ensures var once := Apply(DocText(d), slug, kv).value; Apply(once, slug, kv) == Ok(once)
  {
    hide SlugAt, SlugOf, Apply, DocText, WfUpdates, Settled, Extend, SlugEntry, SortedPairs, WithPages, Wf, FirstOfEntry, FirstOfEntries, WfBody;
    ApplyToMissingSlug(d, p, slug, kv);
    var o := Extend(PagesOf(d, p), [SlugEntry(slug, SortedPairs(kv))]);
    var d' := WithPages(d, p, o);
    var k := |PagesOf(d, p).entries|;
    NewSlugAt(d, p, slug, kv);
    NewSlugSettled(slug, kv);
    ApplyUnchangedIff(d', p, k, slug, kv);
  }

  lemma NewSlugAt(d: Document, p: nat, slug: Bytes, kv: Updates)
    requires NoSlug(d, p, slug) && WfUpdates(kv) && kv != map[]
    ensures var d' := WithPages(d, p, Extend(PagesOf(d, p), [SlugEntry(slug, SortedPairs(kv))]));
            var k := |PagesOf(d, p).entries|;
            SlugAt(d', p, k, slug) && SlugOf(d', p, k, slug) == BlockOf(SortedPairs(kv))
  {
    hide Apply, DocText, WfUpdates, SortedPairs, PairEntries, FirstOfEntry, WfBody, Wf;
    ApplyToMissingSlug(d, p, slug, kv);
    var es := PagesOf(d, p).entries;
    NoneInEntries(es, slug);
    NoneInTrimmed(es, slug);
    var new_ := Trimmed(es) + [SlugEntry(slug, SortedPairs(kv))];
    assert IsFirst(new_, |es|, slug);
  }

  lemma NoneInTrimmed(es: seq<Entry>, key: Bytes)
    requires forall j | 0 <= j < |es| :: FirstOfEntry(es[j], key) == None
    ensures forall j | 0 <= j < |es| :: FirstOfEntry(Trimmed(es)[j], key) == None
  {
    hide NameText, FirstBlock;
  }

  lemma NewSlugSettled(slug: Bytes, kv: Updates)
    ensures IsObject(BlockOf(SortedPairs(kv))) && Settled(BlockOf(SortedPairs(kv)), kv)
  {
    hide EncodeBody, Strings, SortedPairs;
    StringsAdded(kv);
  }

  // ---------------------------------------------------------------- the first block

  lemma {:induction false} BlockInside(v: Value, key: Bytes)
    ensures FirstBlock(v, key).Some? ==> FirstBlock(v, key).value < |Text(v)|
    decreases v
  {
    if v.Node? {
      BlockInEntries(v.entries, key);
    }
  }

  lemma {:induction false} BlockInEntry(e: Entry, key: Bytes)
    ensures FirstOfEntry(e, key).Some? ==> FirstOfEntry(e, key).value < |EntryText(e)|
    decreases e
  {
    BlockInside(e.value, key);
    assert IsObject(e.value) ==> |Text(e.value)| >= 2;
  }

  lemma {:induction false} BlockInEntries(es: seq<Entry>, key: Bytes)
    ensures FirstOfEntries(es, key).Some? ==> FirstOfEntries(es, key).value < |Entries(es)|
    decreases es
  {
    hide EntryText, FirstOfEntry;
    if es != [] {
      BlockInEntry(es[0], key);
      BlockInEntries(es[1..], key);
    }
  }

  /** The search lands on the block of entry `k` exactly when no earlier entry holds a block
      of that name at any depth. */
  lemma {:induction false} FirstIff(es: seq<Entry>, k: nat, key: Bytes)
    requires k < |es| && es[k].name.Name? && es[k].name.key == key && IsObject(es[k].value)
    ensures FirstOfEntries(es, key) == Some(|Before(es, k)|) <==>
            forall j | 0 <= j < k :: FirstOfEntry(es[j], key) == None
    decreases k
  {
    hide EntryText, NameText, FirstOfEntry, FirstOfEntries, Before;
    if forall j | 0 <= j < k :: FirstOfEntry(es[j], key) == None {
      FirstIsFirst(es, k, key);
    } else if FirstOfEntry(es[0], key) == None {
      assert k > 0;
      FirstIff(es[1..], k - 1, key);
      var j :| 0 <= j < k && FirstOfEntry(es[j], key) != None;
      assert FirstOfEntry(es[1..][j - 1], key) != None;
      FirstOfRest(es, key);
      BeforeLength(es, k);
    } else {
      BlockInEntry(es[0], key);
      FoundInFirst(es, key);
      if k > 0 { BeforeLength(es, k); }
    }
  }

  lemma FoundInFirst(es: seq<Entry>, key: Bytes)
    requires es != [] && FirstOfEntry(es[0], key) != None
    ensures FirstOfEntries(es, key) == FirstOfEntry(es[0], key)
  {
    hide FirstOfEntry;
  }
}
