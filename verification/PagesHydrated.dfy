/** A whole hydration of one language: every group applied, in any order of the slugs. The file
    that comes out decodes to the same values in every order, and shows the new ones. */
module PagesHydrated {
  import opened Wrappers
  import opened Bytes
  import opened JsonGrammar
  import opened JsonStrings
  import opened JsonAgree
  import opened PagesEdit
  import opened PagesDocument
  import opened PagesReplace
  import opened PagesTheorems
  import opened PagesLaws
  import opened PagesHydrate
  import opened PagesRoundTrip
  import opened PagesShown
  import T = PagesText

  // ---------------------------------------------------------------- blocks inside entries

  /** Both entries hold a block of that name, or neither does. */
  predicate SameNone(a: Entry, b: Entry, key: Bytes) {
    FirstOfEntry(a, key) == None <==> FirstOfEntry(b, key) == None
  }

  lemma {:induction false} NoneIff(es: seq<Entry>, key: Bytes)
    ensures FirstOfEntries(es, key) == None <==> forall j | 0 <= j < |es| :: FirstOfEntry(es[j], key) == None
    decreases |es|
  {
    hide EntryText, FirstOfEntry;
    if es != [] {
      NoneIff(es[1..], key);
      assert forall j | 0 <= j < |es| - 1 :: es[1..][j] == es[j + 1];
    }
  }

  /** The position counts only for where the block is. */
  lemma SameInside(a: Entry, b: Entry, key: Bytes)
    requires a.name == b.name && (IsObject(a.value) <==> IsObject(b.value))
    requires FirstBlock(a.value, key) == None <==> FirstBlock(b.value, key) == None
    ensures SameNone(a, b, key)
  {
    hide NameText, FirstBlock;
  }

  lemma StringHasNone(e: Entry, key: Bytes)
    requires e.value.Str?
    ensures FirstOfEntry(e, key) == None
  {
  }

  lemma ReplacedNone(es: seq<Entry>, kv: Updates, key: Bytes)
    ensures FirstOfEntries(Replace(es, kv), key) == None <==> FirstOfEntries(es, key) == None
  {
    hide Replace, FirstOfEntry, FirstOfEntries;
    var out := Replace(es, kv);
    ReplaceShape(es, kv);
    NoneIff(es, key);
    NoneIff(out, key);
    forall j | 0 <= j < |es| ensures SameNone(es[j], out[j], key) {
      if out[j].value == es[j].value {
        assert out[j] == es[j];
      } else {
        StringHasNone(es[j], key);
        StringHasNone(out[j], key);
      }
    }
  }

  lemma TrimmedNone(es: seq<Entry>, key: Bytes)
    ensures forall j | 0 <= j < |es| :: SameNone(es[j], Trimmed(es)[j], key)
  {
    hide FirstBlock;
    forall j | 0 <= j < |es| ensures SameNone(es[j], Trimmed(es)[j], key) { SameInside(es[j], Trimmed(es)[j], key); }
  }

  lemma PairHasNone(p: Pair, last: bool, key: Bytes)
    ensures FirstOfEntry(PairEntry(p, last), key) == None
  {
    hide EncodeBody;
    StringHasNone(PairEntry(p, last), key);
  }

  lemma {:induction false} PairsNone(pairs: seq<Pair>, i: nat, key: Bytes)
    requires i <= |pairs|
    ensures FirstOfEntries(PairEntries(pairs, i), key) == None
    decreases |pairs| - i
  {
    hide PairEntry, FirstOfEntry, EntryText;
    if i < |pairs| {
      PairsNone(pairs, i + 1, key);
      PairHasNone(pairs[i], i == |pairs| - 1, key);
      assert PairEntries(pairs, i)[1..] == PairEntries(pairs, i + 1);
    }
  }

  lemma NoneConcat(a: seq<Entry>, b: seq<Entry>, key: Bytes)
    ensures FirstOfEntries(a + b, key) == None <==> FirstOfEntries(a, key) == None && FirstOfEntries(b, key) == None
  {
    hide FirstOfEntry, FirstOfEntries;
    NoneIff(a, key);
    NoneIff(b, key);
    NoneIff(a + b, key);
    if FirstOfEntries(a + b, key) == None {
      forall j | 0 <= j < |a| ensures FirstOfEntry(a[j], key) == None { assert (a + b)[j] == a[j]; }
      forall j | 0 <= j < |b| ensures FirstOfEntry(b[j], key) == None { assert (a + b)[|a| + j] == b[j]; }
    }
  }

  /** An update moves no block in or out of the slug block. */
  lemma UpdatedNone(o: Value, kv: Updates, key: Bytes)
    requires IsObject(o)
    ensures FirstBlock(Updated(o, kv), key) == None <==> FirstBlock(o, key) == None
  {
    hide Replace, FirstOfEntry, FirstOfEntries, SortedPairs, PairEntries, Added;
    var replaced := Replace(o.entries, kv);
    var added := Added(kv, o.entries);
    ReplacedNone(o.entries, kv, key);
    if added != map[] {
      TrimmedNone(replaced, key);
      NoneIff(replaced, key);
      NoneIff(Trimmed(replaced), key);
      PairsNone(SortedPairs(added), 0, key);
      NoneConcat(Trimmed(replaced), PairEntries(SortedPairs(added), 0), key);
    }
  }

  // ---------------------------------------------------------------- canonical entries

  predicate CanonicalEntry(e: Entry) {
    e.name.Name? && NameOf(e) == e.name.key && (e.value.Str? ==> EncodeBody(StringOf(e.value.body)) == e.value.body)
  }

  /** Updates of valid text under unescaped names. */
  predicate Fit(kv: Updates) {
    Unescaped(kv) && forall k | k in kv :: ValidUtf8(kv[k])
  }

  lemma PrintedAgain(v: Bytes)
    requires ValidUtf8(v)
    ensures EncodeBody(StringOf(EncodeBody(v))) == EncodeBody(v)
  {
    hide EncodeBody, WfBody, Decode;
    DecodeEncode(v);
  }

  lemma {:induction false} CanonicalReplaced(es: seq<Entry>, kv: Updates)
    requires Canonical(es) && Fit(kv)
    ensures Canonical(Replace(es, kv))
  {
    hide EncodeBody, StringOf, Strings, ValidUtf8, WfBody;
    if es != [] {
      CanonicalReplaced(es[1..], kv);
      var out := Replace(es, kv);
      assert CanonicalEntry(es[0]);
      if Hit(es, kv) { PrintedAgain(kv[es[0].name.key]); }
      assert CanonicalEntry(out[0]);
      forall j | 0 <= j < |out| ensures CanonicalEntry(out[j]) {
        if j > 0 { assert out[j] == Replace(es[1..], kv)[j - 1]; }
      }
    }
  }

  lemma {:induction false} CanonicalPairs(pairs: seq<Pair>, i: nat)
    requires i <= |pairs| && forall j | i <= j < |pairs| :: StringOf(pairs[j].key) == pairs[j].key && ValidUtf8(pairs[j].value)
    ensures Canonical(PairEntries(pairs, i))
    decreases |pairs| - i
  {
    hide EncodeBody, StringOf, ValidUtf8;
    if i < |pairs| {
      CanonicalPairs(pairs, i + 1);
      var out := PairEntries(pairs, i);
      PrintedAgain(pairs[i].value);
      assert CanonicalEntry(out[0]);
      forall j | 0 <= j < |out| ensures CanonicalEntry(out[j]) {
        if j > 0 { assert out[j] == PairEntries(pairs, i + 1)[j - 1]; }
      }
    }
  }

  lemma CanonicalAdded(kv: Updates)
    requires Fit(kv)
    ensures Canonical(PairEntries(SortedPairs(kv), 0))
  {
    hide PairEntries, StringOf, ValidUtf8, WfBody;
    var ps := SortedPairs(kv);
    forall j | 0 <= j < |ps| ensures StringOf(ps[j].key) == ps[j].key && ValidUtf8(ps[j].value) {
      PairOf(kv, j);
    }
    CanonicalPairs(ps, 0);
  }

  lemma CanonicalTrimmed(es: seq<Entry>, new_: seq<Entry>)
    requires Canonical(es) && Canonical(new_)
    ensures Canonical(Trimmed(es) + new_)
  {
    hide StringOf, EncodeBody;
    var out := Trimmed(es) + new_;
    forall j | 0 <= j < |out| ensures CanonicalEntry(out[j]) {
      if j < |es| { assert CanonicalEntry(es[j]); } else { assert CanonicalEntry(new_[j - |es|]); }
    }
  }

  lemma CanonicalUpdated(o: Value, kv: Updates)
    requires IsObject(o) && Canonical(o.entries) && Fit(kv)
    ensures Canonical(Updated(o, kv).entries)
  {
    hide Replace, SortedPairs, PairEntries, Canonical, StringOf, ValidUtf8, WfBody, Strings;
    CanonicalReplaced(o.entries, kv);
    var added := Added(kv, o.entries);
    if added != map[] {
      CanonicalAdded(added);
      CanonicalTrimmed(Replace(o.entries, kv), PairEntries(SortedPairs(added), 0));
    }
  }

  // ---------------------------------------------------------------- the entries of `pages`

  /** The object entries are tidy slug blocks. */
  predicate TidyBlocks(es: seq<Entry>) {
    forall k | 0 <= k < |es| :: IsObject(es[k].value) ==> TidySlug(es, k)
  }

  /** The entry has another value or other white space, but the same name and the same blocks
      inside, and is canonical if it was. */
  ghost predicate Alike(a: Entry, b: Entry) {
    && b.name == a.name && (IsObject(b.value) <==> IsObject(a.value))
    && (IsObject(a.value) && Canonical(a.value.entries) ==> Canonical(b.value.entries))
    && forall key :: SameNone(a, b, key)
  }

  ghost predicate AllAlike(es: seq<Entry>, out: seq<Entry>) {
    |es| <= |out| && forall j | 0 <= j < |es| :: Alike(es[j], out[j])
  }

  lemma FirstAlike(es: seq<Entry>, out: seq<Entry>, j: nat, key: Bytes)
    requires AllAlike(es, out) && j < |es|
    ensures IsFirst(es, j, key) <==> IsFirst(out, j, key)
  {
    hide Canonical, FirstOfEntry, StringOf;
    forall i | 0 <= i < j ensures FirstOfEntry(es[i], key) == None <==> FirstOfEntry(out[i], key) == None {
      assert Alike(es[i], out[i]) && SameNone(es[i], out[i], key);
    }
    assert Alike(es[j], out[j]);
  }

  lemma NoneAlike(es: seq<Entry>, out: seq<Entry>, key: Bytes)
    requires AllAlike(es, out)
    ensures FirstOfEntries(out, key) == None ==> FirstOfEntries(es, key) == None
    ensures |out| == |es| && FirstOfEntries(es, key) == None ==> FirstOfEntries(out, key) == None
    ensures |out| == |es| + 1 && FirstOfEntries(es, key) == None && FirstOfEntry(out[|es|], key) == None ==> FirstOfEntries(out, key) == None
  {
    hide Canonical, FirstOfEntry, FirstOfEntries;
    NoneIff(es, key);
    NoneIff(out, key);
    forall i | 0 <= i < |es| ensures FirstOfEntry(es[i], key) == None <==> FirstOfEntry(out[i], key) == None {
      assert Alike(es[i], out[i]) && SameNone(es[i], out[i], key);
    }
  }

  lemma SameNames(es: seq<Entry>, out: seq<Entry>)
    requires AllAlike(es, out)
    ensures forall j | 0 <= j < |es| :: NameOf(out[j]) == NameOf(es[j]) && (IsObject(out[j].value) <==> IsObject(es[j].value))
  {
    hide Canonical, FirstOfEntry, StringOf;
    forall j | 0 <= j < |es| ensures NameOf(out[j]) == NameOf(es[j]) && (IsObject(out[j].value) <==> IsObject(es[j].value)) {
      assert Alike(es[j], out[j]);
    }
  }

  lemma BlocksStayTidy(es: seq<Entry>, out: seq<Entry>)
    requires TidyBlocks(es) && AllAlike(es, out) && |out| == |es|
    ensures TidyBlocks(out)
  {
    hide Canonical, IsFirst, Alike, NameOf;
    SameNames(es, out);
    forall k | 0 <= k < |out| && IsObject(out[k].value) ensures TidySlug(out, k) {
      assert TidySlug(es, k);
      AlikeParts(es[k], out[k]);
      FirstAlike(es, out, k, es[k].name.key);
    }
  }

  lemma AlikeParts(a: Entry, b: Entry)
    requires Alike(a, b) && IsObject(a.value) && Canonical(a.value.entries)
    ensures b.name == a.name && IsObject(b.value) && Canonical(b.value.entries)
  {
    hide Canonical, FirstOfEntry;
  }

  /** The same with a block of a new name at the end. */
  lemma MoreBlocksStayTidy(es: seq<Entry>, out: seq<Entry>, slug: Bytes)
    requires TidyBlocks(es) && AllAlike(es, out) && |out| == |es| + 1
    requires var e := out[|es|];
             e.name.Name? && e.name.key == slug == NameOf(e) && IsObject(e.value) && Canonical(e.value.entries)
    requires FirstOfEntries(es, slug) == None && slug !in Members(es)
    ensures TidyBlocks(out)
  {
    hide Canonical, Alike, NameOf, FirstOfEntries, FirstOfEntry, Members;
    SameNames(es, out);
    forall j | 0 <= j < |es| ensures NameOf(es[j]) != slug { NamesIn(es, j); }
    forall k | 0 <= k < |out| && IsObject(out[k].value) ensures TidySlug(out, k) {
      if k < |es| {
        assert TidySlug(es, k);
        AlikeParts(es[k], out[k]);
        FirstAlike(es, out, k, es[k].name.key);
      } else {
        NoneIff(es, slug);
        forall i | 0 <= i < |es| ensures FirstOfEntry(out[i], slug) == None { AlikeNone(es[i], out[i], slug); }
      }
    }
  }

  lemma AlikeNone(a: Entry, b: Entry, key: Bytes)
    requires Alike(a, b)
    ensures FirstOfEntry(a, key) == None <==> FirstOfEntry(b, key) == None
  {
    hide Canonical, FirstOfEntry;
    assert SameNone(a, b, key);
  }

  // ---------------------------------------------------------------- one group

  /** The members of the slug's block; none if there is no block. */
  ghost function BlockEntries(d: Document, p: nat, slug: Bytes): seq<Entry>
    requires PagesAt(d, p)
  {
    if exists k :: SlugAt(d, p, k, slug) then var k :| SlugAt(d, p, k, slug); SlugEntries(d, p, k, slug) else []
  }

  /** The slug has its block, or `pages` has neither a block nor a member of its name. */
  ghost predicate Ready(d: Document, p: nat, slug: Bytes)
    requires PagesAt(d, p)
  {
    && StringOf(slug) == slug
    && ((exists k :: SlugAt(d, p, k, slug)) || (NoSlug(d, p, slug) && slug !in Members(PagesOf(d, p).entries)))
  }

  lemma BlockIs(d: Document, p: nat, k: nat, slug: Bytes)
    requires Tidy(d, p) && SlugAt(d, p, k, slug)
    ensures BlockEntries(d, p, slug) == SlugEntries(d, p, k, slug)
  {
    hide Wf, WfBody, FirstOfEntry, Tidy;
    var j :| SlugAt(d, p, j, slug) && BlockEntries(d, p, slug) == SlugEntries(d, p, j, slug);
    SamePlace(d, p, slug, j, k);
  }

  lemma NoBlock(d: Document, p: nat, slug: Bytes)
    requires NoSlug(d, p, slug)
    ensures !(exists k :: SlugAt(d, p, k, slug)) && BlockEntries(d, p, slug) == []
  {
    hide Wf, FirstOfEntry, FirstOfEntries, WfBody;
    forall k ensures !SlugAt(d, p, k, slug) {
      if SlugAt(d, p, k, slug) { FirstIsFirst(PagesOf(d, p).entries, k, slug); }
    }
  }

  /** The other slug's block, or its absence, is as it was. */
  ghost predicate Kept(d: Document, d': Document, p: nat, slug: Bytes)
    requires PagesAt(d, p) && PagesAt(d', p)
  {
    Ready(d, p, slug) ==> Ready(d', p, slug) && BlockEntries(d', p, slug) == BlockEntries(d, p, slug)
  }

  lemma BlockKept(d: Document, d': Document, p: nat, j: nat, slug: Bytes)
    requires Tidy(d, p) && Tidy(d', p) && SlugAt(d, p, j, slug)
    requires AllAlike(PagesOf(d, p).entries, PagesOf(d', p).entries)
    requires PagesOf(d', p).entries[j].value == PagesOf(d, p).entries[j].value
    ensures Kept(d, d', p, slug)
  {
    hide Wf, WfBody, Alike, FirstOfEntry, Tidy, OnlyName, StringOf;
    TidyIsPages(d, p);
    TidyIsPages(d', p);
    FirstAlike(PagesOf(d, p).entries, PagesOf(d', p).entries, j, slug);
    BlockIs(d, p, j, slug);
    BlockIs(d', p, j, slug);
  }

  lemma TidyIsPages(d: Document, p: nat)
    requires Tidy(d, p)
    ensures PagesAt(d, p) && IsObject(PagesOf(d, p)) && TidyBlocks(PagesOf(d, p).entries)
  {
    hide Wf, WfBody, FirstOfEntry, Canonical, StringOf;
  }

  lemma NoBlockKept(d: Document, d': Document, p: nat, slug: Bytes)
    requires PagesAt(d, p) && PagesAt(d', p) && NoSlug(d, p, slug)
    requires FirstOfEntries(PagesOf(d', p).entries, slug) == None
    requires slug !in Members(PagesOf(d, p).entries) ==> slug !in Members(PagesOf(d', p).entries)
    ensures Kept(d, d', p, slug)
  {
    hide Wf, WfBody, FirstOfEntry, FirstOfEntries, StringOf, Members;
    NoBlock(d, p, slug);
    NoBlock(d', p, slug);
  }

  lemma SetAlike(es: seq<Entry>, k: nat, v: Value)
    requires k < |es| && IsObject(es[k].value) && IsObject(v) && Canonical(v.entries)
    requires forall key :: FirstBlock(v, key) == None <==> FirstBlock(es[k].value, key) == None
    ensures AllAlike(es, SetValue(es, k, v))
  {
    hide Canonical, FirstBlock, FirstOfEntry;
    var out := SetValue(es, k, v);
    forall j | 0 <= j < |es| ensures Alike(es[j], out[j]) {
      forall key ensures SameNone(es[j], out[j], key) { SameInside(es[j], out[j], key); }
    }
  }

  lemma PagesNameKept(d: Document, p: nat, v: Value)
    requires Tidy(d, p) && IsObject(v) && PagesAt(WithPages(d, p, v), p) && TidyBlocks(v.entries)
    ensures Tidy(WithPages(d, p, v), p) && PagesOf(WithPages(d, p, v), p) == v
  {
    hide Wf, WfBody, FirstOfEntry, Canonical, StringOf, TidySlug;
  }

  /** One group on an existing block. */
  lemma StepOnBlock(d: Document, p: nat, k: nat, slug: Bytes, kv: Updates) returns (d': Document)
    requires Tidy(d, p) && SlugAt(d, p, k, slug) && Fit(kv)
    ensures Apply(DocText(d), slug, kv) == Ok(DocText(d'))
    ensures Tidy(d', p) && Data(d') == Revised(d, p, slug, Overlaid(BlockEntries(d, p, slug), kv))
    ensures forall t | t != slug :: Kept(d, d', p, t)
  {
    hide Wf, WfBody, FirstOfEntry, FirstOfEntries, Canonical, StringOf, Members, Updated, Apply, DocText, Data, Revised, Overlaid, Kept, AllAlike, ValidUtf8;
    SlugWf(d, p, k, slug);
    var o := SlugOf(d, p, k, slug);
    var o' := Updated(o, kv);
    var es := PagesOf(d, p).entries;
    assert TidySlug(es, k);
    ApplyToSlug(d, p, k, slug, kv);
    AppliedData(d, p, k, slug, kv);
    BlockIs(d, p, k, slug);
    d' := WithSlug(d, p, k, slug, o');
    CanonicalUpdated(o, kv);
    forall key ensures FirstBlock(o', key) == None <==> FirstBlock(o, key) == None { UpdatedNone(o, kv, key); }
    SetAlike(es, k, o');
    TidyIsPages(d, p);
    BlocksStayTidy(es, SetValue(es, k, o'));
    PagesNameKept(d, p, PagesWith(d, p, k, slug, o'));
    forall t | t != slug ensures Kept(d, d', p, t) { OtherKept(d, p, k, slug, o', t); }
  }

  lemma OtherKept(d: Document, p: nat, k: nat, slug: Bytes, v: Value, t: Bytes)
    requires Tidy(d, p) && SlugAt(d, p, k, slug) && IsObject(v) && t != slug
    requires Tidy(WithSlug(d, p, k, slug, v), p) && AllAlike(PagesOf(d, p).entries, SetValue(PagesOf(d, p).entries, k, v))
    ensures Kept(d, WithSlug(d, p, k, slug, v), p, t)
  {
    hide Wf, WfBody, FirstOfEntry, FirstOfEntries, Canonical, Members, AllAlike, StringOf, NoSlug;
    var d' := WithSlug(d, p, k, slug, v);
    var es := PagesOf(d, p).entries;
    if j: nat :| SlugAt(d, p, j, t) {
      BlockKept(d, d', p, j, t);
    } else if NoSlug(d, p, t) {
      NoSlugParts(d, p, t);
      NoneAlike(es, SetValue(es, k, v), t);
      assert TidySlug(es, k);
      MembersSet(es, k, v);
      NoBlockKept(d, d', p, t);
    }
  }

  lemma NoSlugParts(d: Document, p: nat, slug: Bytes)
    requires NoSlug(d, p, slug)
    ensures PagesAt(d, p) && IsObject(PagesOf(d, p)) && FirstOfEntries(PagesOf(d, p).entries, slug) == None
  {
    hide Wf, FirstOfEntry, FirstOfEntries;
  }

  lemma ExtendAlike(es: seq<Entry>, e: Entry)
    ensures AllAlike(es, Trimmed(es) + [e]) && |Trimmed(es) + [e]| == |es| + 1 && (Trimmed(es) + [e])[|es|] == e
  {
    hide Canonical, FirstOfEntry;
    var out := Trimmed(es) + [e];
    forall j | 0 <= j < |es| ensures Alike(es[j], out[j]) {
      assert out[j] == Trimmed(es)[j];
      forall key ensures SameNone(es[j], out[j], key) { TrimmedNone(es, key); }
    }
  }

  lemma NewEntry(slug: Bytes, kv: Updates, t: Bytes)
    requires Fit(kv) && StringOf(slug) == slug
    ensures var e := SlugEntry(slug, SortedPairs(kv));
            && e.name.Name? && e.name.key == slug == NameOf(e) && IsObject(e.value) && Canonical(e.value.entries)
            && (t != slug ==> FirstOfEntry(e, t) == None)
  {
    hide StringOf, SortedPairs, PairEntries, Canonical, FirstOfEntries;
    CanonicalAdded(kv);
    PairsNone(SortedPairs(kv), 0, t);
  }

  /** One group without a block. */
  lemma StepOnNone(d: Document, p: nat, slug: Bytes, kv: Updates) returns (d': Document)
    requires Tidy(d, p) && NoSlug(d, p, slug) && slug !in Members(PagesOf(d, p).entries) && StringOf(slug) == slug
    requires Fit(kv) && kv != map[]
    ensures Apply(DocText(d), slug, kv) == Ok(DocText(d'))
    ensures Tidy(d', p) && Data(d') == Revised(d, p, slug, Overlaid(BlockEntries(d, p, slug), kv))
    ensures forall t | t != slug :: Kept(d, d', p, t)
  {
    hide Wf, WfBody, FirstOfEntry, FirstOfEntries, Canonical, StringOf, Members, Apply, DocText, Data, Revised, Overlaid, Kept, AllAlike, ValidUtf8;
    hide SlugEntry, SortedPairs, TidyBlocks;
    var es := PagesOf(d, p).entries;
    var e := SlugEntry(slug, SortedPairs(kv));
    AppliedNewData(d, p, slug, kv);
    NoBlock(d, p, slug);
    d' := WithPages(d, p, Extend(PagesOf(d, p), [e]));
    ExtendAlike(es, e);
    NewEntry(slug, kv, slug);
    TidyIsPages(d, p);
    NoSlugParts(d, p, slug);
    MoreBlocksStayTidy(es, Trimmed(es) + [e], slug);
    PagesNameKept(d, p, Extend(PagesOf(d, p), [e]));
    forall t | t != slug ensures Kept(d, d', p, t) {
      NewEntry(slug, kv, t);
      OtherKeptBeside(d, d', p, e, t);
    }
  }

  lemma OtherKeptBeside(d: Document, d': Document, p: nat, e: Entry, t: Bytes)
    requires Tidy(d, p) && Tidy(d', p) && PagesOf(d', p).entries == Trimmed(PagesOf(d, p).entries) + [e]
    requires FirstOfEntry(e, t) == None && NameOf(e) != t
    ensures Kept(d, d', p, t)
  {
    hide Wf, WfBody, FirstOfEntry, FirstOfEntries, Canonical, Members, AllAlike, StringOf, NoSlug;
    var es := PagesOf(d, p).entries;
    ExtendAlike(es, e);
    if j: nat :| SlugAt(d, p, j, t) {
      BlockKept(d, d', p, j, t);
    } else if NoSlug(d, p, t) {
      NoSlugParts(d, p, t);
      NoneAlike(es, Trimmed(es) + [e], t);
      MembersTrimmed(es);
      MembersConcat(Trimmed(es), [e]);
      OneEntry(e);
      NoBlockKept(d, d', p, t);
    }
  }

  lemma Step(d: Document, p: nat, slug: Bytes, kv: Updates) returns (d': Document)
    requires Tidy(d, p) && Ready(d, p, slug) && Fit(kv) && kv != map[]
    ensures Apply(DocText(d), slug, kv) == Ok(DocText(d'))
    ensures Tidy(d', p) && Data(d') == Revised(d, p, slug, Overlaid(BlockEntries(d, p, slug), kv))
    ensures forall t | t != slug :: Kept(d, d', p, t)
  {
    hide Wf, WfBody, FirstOfEntry, FirstOfEntries, Canonical, StringOf, Members, Apply, DocText, Data, Revised, Overlaid, Kept, SlugAt, BlockEntries, Fit, NoSlug;
    if k: nat :| SlugAt(d, p, k, slug) {
      d' := StepOnBlock(d, p, k, slug, kv);
    } else {
      d' := StepOnNone(d, p, slug, kv);
    }
  }

  // ---------------------------------------------------------------- all groups

  /** What the groups of some slugs put into `pages`. */
  ghost function NewBlocks(d: Document, p: nat, groups: Groups, slugs: set<Bytes>): Dict
    requires PagesAt(d, p)
  {
    map slug | slug in slugs && slug in groups :: T.Dict(Overlaid(BlockEntries(d, p, slug), groups[slug]))
  }

  /** The decoded file with all the groups in it. */
  ghost function Filled(d: Document, p: nat, groups: Groups, slugs: set<Bytes>): T.Json
    requires PagesAt(d, p) && IsObject(PagesOf(d, p))
  {
    T.Dict(Members(d.root.entries)["pages" := T.Dict(Members(PagesOf(d, p).entries) + NewBlocks(d, p, groups, slugs))])
  }

  predicate FitGroups(groups: Groups) {
    forall slug | slug in groups :: Fit(groups[slug])
  }

  ghost predicate AllReady(d: Document, p: nat, order: seq<Bytes>)
    requires PagesAt(d, p)
  {
    forall i | 0 <= i < |order| :: Ready(d, p, order[i])
  }

  function Visited(order: seq<Bytes>): set<Bytes> {
    set slug | slug in order
  }

  lemma {:induction false} HydrateAll(d: Document, p: nat, groups: Groups, order: seq<Bytes>) returns (d': Document)
    requires Tidy(d, p) && FitGroups(groups) && Visits(groups, order) && AllReady(d, p, order)
    requires forall slug | slug in groups :: groups[slug] != map[]
    ensures HydrateInOrder(DocText(d), groups, order) == Ok(DocText(d'))
    ensures Tidy(d', p) && IsObject(PagesOf(d, p)) && Data(d') == Filled(d, p, groups, Visited(order))
    decreases |order|
  {
    hide Wf, WfBody, FirstOfEntry, Canonical, StringOf, Members, Apply, DocText, Data, Overlaid, BlockEntries, Fit, Ready, TidySlug, OnlyName;
    TidyIsPages(d, p);
    if order == [] {
      d' := d;
      PagesMember(d, p);
      NothingFilled(d, p, groups);
    } else {
      var slug := order[0];
      var d1 := Step(d, p, slug, groups[slug]);
      forall i | 1 <= i < |order| ensures Kept(d, d1, p, order[i]) { assert order[i] != slug; }
      assert forall i | 0 <= i < |order| - 1 :: order[1..][i] == order[i + 1];
      d' := HydrateAll(d1, p, groups, order[1..]);
      FilledMore(d, d1, p, groups, order);
    }
  }

  lemma NothingFilled(d: Document, p: nat, groups: Groups)
    requires Tidy(d, p)
    ensures IsObject(PagesOf(d, p)) && Filled(d, p, groups, Visited([])) == Data(d)
  {
    hide Wf, WfBody, FirstOfEntry, Members, Data, TidySlug, OnlyName, Overlaid, BlockEntries;
    PagesMember(d, p);
    assert Visited([]) == {};
    var pages := Members(PagesOf(d, p).entries);
    assert pages + NewBlocks(d, p, groups, {}) == pages;
    var m := Members(d.root.entries);
    assert m["pages" := T.Dict(pages)] == m;
  }

  lemma FilledMore(d: Document, d1: Document, p: nat, groups: Groups, order: seq<Bytes>)
    requires Tidy(d, p) && Tidy(d1, p) && IsObject(PagesOf(d, p)) && IsObject(PagesOf(d1, p))
    requires order != [] && Visits(groups, order) && AllReady(d, p, order)
    requires Data(d1) == Revised(d, p, order[0], Overlaid(BlockEntries(d, p, order[0]), groups[order[0]]))
    requires forall i | 1 <= i < |order| :: Kept(d, d1, p, order[i])
    ensures Filled(d1, p, groups, Visited(order[1..])) == Filled(d, p, groups, Visited(order))
  {
    hide Wf, WfBody, FirstOfEntry, Members, Data, TidySlug, OnlyName, Overlaid, BlockEntries, Ready, Tidy;
    PagesMember(d1, p);
    TidyIsPages(d, p);
    TidyIsPages(d1, p);
    var slug := order[0];
    var m, m1 := Members(d.root.entries), Members(d1.root.entries);
    var pages, pages1 := Members(PagesOf(d, p).entries), Members(PagesOf(d1, p).entries);
    var block := T.Dict(Overlaid(BlockEntries(d, p, slug), groups[slug]));
    assert pages1 == pages[slug := block];
    var a, b := NewBlocks(d1, p, groups, Visited(order[1..])), NewBlocks(d, p, groups, Visited(order));
    forall t ensures (t in b <==> t == slug || t in a) && (t in a ==> t != slug && a[t] == b[t]) && b[slug] == block {
      assert t in Visited(order) <==> t == slug || t in Visited(order[1..]);
      if t in Visited(order[1..]) {
        var i :| 0 <= i < |order| - 1 && order[1..][i] == t;
        assert Kept(d, d1, p, order[i + 1]) && Ready(d, p, order[i + 1]);
      }
    }
    assert pages1 + a == pages + b;
    assert m1["pages" := T.Dict(pages + b)] == m["pages" := T.Dict(pages + b)];
  }

  // ---------------------------------------------------------------- what hydration shows

  ghost predicate GroupsReady(d: Document, p: nat, groups: Groups)
    requires PagesAt(d, p)
  {
    forall slug | slug in groups :: Ready(d, p, slug)
  }

  /** In whatever order the slugs are visited, hydration succeeds, the file stays tidy, and it
      decodes to the same values, those of the old file with all the groups in it. */
  lemma HydratedIs(d: Document, p: nat, docs: seq<T.EditableDoc>, r: Result<Bytes, EditError>) returns (d': Document)
    requires Tidy(d, p) && FitGroups(Grouped(docs)) && GroupsReady(d, p, Grouped(docs)) && Hydrated(DocText(d), Grouped(docs), r)
    ensures r == Ok(DocText(d'))
    ensures Tidy(d', p) && IsObject(PagesOf(d, p)) && Data(d') == Filled(d, p, Grouped(docs), Grouped(docs).Keys)
  {
    hide Wf, WfBody, FirstOfEntry, Canonical, StringOf, Members, Apply, DocText, Data, BlockEntries, Fit, Ready, HydrateInOrder, Filled, Grouped;
    var groups := Grouped(docs);
    var order :| Visits(groups, order) && r == HydrateInOrder(DocText(d), groups, order)
                 && (r.Ok? ==> forall slug | slug in groups :: slug in order);
    forall slug | slug in groups ensures groups[slug] != map[] { NoEmptyGroup(docs, slug); }
    d' := HydrateAll(d, p, groups, order);
    assert Visited(order) == groups.Keys;
  }

  lemma BlockIsCanonical(d: Document, p: nat, slug: Bytes)
    requires Tidy(d, p)
    ensures Canonical(BlockEntries(d, p, slug))
  {
    hide Wf, WfBody, FirstOfEntry, StringOf, Canonical;
    if k: nat :| SlugAt(d, p, k, slug) {
      BlockIs(d, p, k, slug);
      assert TidySlug(PagesOf(d, p).entries, k);
    } else {
      NothingHidden("");
    }
  }

  /** After hydration a key shows its new value, exactly unless a member that is no string hid
      the string member of that name before. */
  lemma HydratedShows(d: Document, p: nat, groups: Groups, slug: Bytes, leaf: Bytes)
    requires Tidy(d, p) && IsObject(PagesOf(d, p)) && FitGroups(groups) && slug in groups && leaf in groups[slug]
    requires T.NoDot(slug) && T.NoDot(leaf)
    ensures T.LookupParts(Filled(d, p, groups, groups.Keys), T.Split(T.FullKey(slug, leaf))) == Some(groups[slug][leaf])
            <==> !Hidden(BlockEntries(d, p, slug), leaf)
  {
    hide Wf, WfBody, FirstOfEntry, Canonical, Members, BlockEntries, TidySlug, OnlyName, T.LookupParts, T.Split, ValidUtf8, Overlaid, Hidden, StringOf;
    var es := BlockEntries(d, p, slug);
    var pages := Members(PagesOf(d, p).entries) + NewBlocks(d, p, groups, groups.Keys);
    BlockIsCanonical(d, p, slug);
    LeafOverlaid(es, groups[slug], leaf);
    ThreeParts(slug, leaf);
    assert ["pages", slug] + [leaf] == ["pages"] + ([slug] + [leaf]);
    LookupStep(Members(d.root.entries)["pages" := T.Dict(pages)], "pages", [slug] + [leaf]);
    LookupStep(pages, slug, [leaf]);
  }

  /** Every lookup that leads to no hydrated key finds what it found before. */
  lemma HydratedKeeps(d: Document, p: nat, groups: Groups, path: seq<Bytes>)
    requires Tidy(d, p) && IsObject(PagesOf(d, p)) && GroupsReady(d, p, groups)
    requires forall slug, leaf | slug in groups && leaf in groups[slug] :: !Leads(path, slug, leaf)
    ensures T.LookupParts(Filled(d, p, groups, groups.Keys), path) == T.LookupParts(Data(d), path)
  {
    hide Wf, WfBody, FirstOfEntry, Canonical, Members, BlockEntries, T.LookupParts, Overlaid, Leads, Data, Ready, TidySlug, OnlyName;
    PagesMember(d, p);
    var pages := Members(PagesOf(d, p).entries);
    var pages' := pages + NewBlocks(d, p, groups, groups.Keys);
    if |path| > 1 && path[0] == "pages" {
      LookupFirst(pages, path[1..]);
      LookupFirst(pages', path[1..]);
      if path[1] in groups {
        SameInBlock(BlockEntries(d, p, path[1]), groups[path[1]], path[1], path);
        BlockBefore(d, p, path[1], path[1..][1..]);
      }
    }
    SamePages(Members(d.root.entries), pages, pages', path);
  }

  /** What is found in the block before is what is found below the slug. */
  lemma BlockBefore(d: Document, p: nat, slug: Bytes, rest: seq<Bytes>)
    requires Tidy(d, p) && Ready(d, p, slug) && IsObject(PagesOf(d, p))
    ensures var pages := Members(PagesOf(d, p).entries);
            T.LookupParts(T.Dict(Members(BlockEntries(d, p, slug))), rest)
            == if slug in pages then T.LookupParts(pages[slug], rest) else None
  {
    hide Wf, WfBody, FirstOfEntry, FirstOfEntries, Canonical, StringOf, Members, TidySlug, OnlyName, T.LookupParts;
    if k: nat :| SlugAt(d, p, k, slug) {
      BlockIs(d, p, k, slug);
      SlugMemberIs(d, p, k, slug);
    } else {
      NoBlock(d, p, slug);
      NothingInside(rest);
    }
  }

  lemma NothingInside(rest: seq<Bytes>)
    ensures T.LookupParts(T.Dict(Members([])), rest) == None
  {
  }
}
