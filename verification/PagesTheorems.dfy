/** What the targeted edits do to a whole language file: the text of the result is, byte for
    byte, the text of the updated syntax tree. */
module PagesTheorems {
  import opened Wrappers
  import opened Bytes
  import opened JsonGrammar
  import opened JsonScan
  import opened JsonAgree
  import opened Sorting
  import opened PagesEdit
  import opened PagesDocument
  import opened PagesReplace

  // ---------------------------------------------------------------- places in a document

  /** Entry `p` of the root is the first block named `pages` in the file. */
  predicate PagesAt(d: Document, p: nat) {
    WfDoc(d) && IsFirst(d.root.entries, p, "pages")
  }

  function PagesOf(d: Document, p: nat): Value
    requires PagesAt(d, p)
  {
    d.root.entries[p].value
  }

  function WithPages(d: Document, p: nat, v: Value): Document
    requires PagesAt(d, p)
  {
    d.(root := d.root.(entries := SetValue(d.root.entries, p, v)))
  }

  /** Entry `k` of `pages` is the first block named `slug` inside it. */
  predicate SlugAt(d: Document, p: nat, k: nat, slug: Bytes) {
    PagesAt(d, p) && WfBody(slug) && IsFirst(PagesOf(d, p).entries, k, slug)
  }

  /** No block inside `pages` is named `slug`. */
  predicate NoSlug(d: Document, p: nat, slug: Bytes) {
    PagesAt(d, p) && WfBody(slug) && FirstOfEntries(PagesOf(d, p).entries, slug) == None
  }

  function SlugOf(d: Document, p: nat, k: nat, slug: Bytes): Value
    requires SlugAt(d, p, k, slug)
  {
    PagesOf(d, p).entries[k].value
  }

  function PagesWith(d: Document, p: nat, k: nat, slug: Bytes, v: Value): Value
    requires SlugAt(d, p, k, slug)
  {
    PagesOf(d, p).(entries := SetValue(PagesOf(d, p).entries, k, v))
  }

  /** The document with the slug block replaced by `v`. */
  function WithSlug(d: Document, p: nat, k: nat, slug: Bytes, v: Value): Document
    requires SlugAt(d, p, k, slug)
  {
    WithPages(d, p, PagesWith(d, p, k, slug, v))
  }

  function PagesLeft(d: Document, p: nat): Bytes
    requires PagesAt(d, p)
  {
    Left(d.lead, d.root.entries, p)
  }

  function PagesRight(d: Document, p: nat): Bytes
    requires PagesAt(d, p)
  {
    Right(d.trail, d.root.entries, p)
  }

  function SlugLeft(d: Document, p: nat, k: nat, slug: Bytes): Bytes
    requires SlugAt(d, p, k, slug)
  {
    Left(PagesLeft(d, p), PagesOf(d, p).entries, k)
  }

  function SlugRight(d: Document, p: nat, k: nat, slug: Bytes): Bytes
    requires SlugAt(d, p, k, slug)
  {
    Right(PagesRight(d, p), PagesOf(d, p).entries, k)
  }

  lemma PagesHole(d: Document, p: nat, v: Value)
    requires PagesAt(d, p)
    ensures DocText(WithPages(d, p, v)) == PagesLeft(d, p) + (Text(v) + PagesRight(d, p))
    ensures WithPages(d, p, PagesOf(d, p)) == d
  {
    hide Text, Left, Right, Wf;
    Hole(d.lead, d.root, p, v, d.trail);
    SameValue(d.root.entries, p);
  }

  /** Only the text of the slug block depends on the slug block. */
  lemma SlugHole(d: Document, p: nat, k: nat, slug: Bytes, v: Value)
    requires SlugAt(d, p, k, slug)
    ensures DocText(WithSlug(d, p, k, slug, v)) == SlugLeft(d, p, k, slug) + (Text(v) + SlugRight(d, p, k, slug))
    ensures WithSlug(d, p, k, slug, SlugOf(d, p, k, slug)) == d
  {
    hide Text, Left, Right, Wf, DocText;
    PagesHole(d, p, PagesWith(d, p, k, slug, v));
    Hole(PagesLeft(d, p), PagesOf(d, p), k, v, PagesRight(d, p));
    SameValue(PagesOf(d, p).entries, k);
    PagesHole(d, p, PagesOf(d, p));
  }

  lemma WfPages(d: Document, p: nat, v: Value)
    requires PagesAt(d, p) && Wf(v) && IsObject(v)
    ensures PagesAt(WithPages(d, p, v), p) && PagesOf(WithPages(d, p, v), p) == v
    ensures Wf(PagesOf(d, p))
  {
    hide WfEntries, FirstOfEntry;
    WfSetValue(Object, d.root.entries, p, v);
    WfAt(Object, d.root.entries, p);
  }

  lemma WfAt(kind: Kind, es: seq<Entry>, k: nat)
    requires WfEntries(kind, es) && k < |es|
    ensures Wf(es[k].value)
  {
  }

  lemma WfSlug(d: Document, p: nat, k: nat, slug: Bytes, v: Value)
    requires SlugAt(d, p, k, slug) && Wf(v) && IsObject(v)
    ensures SlugAt(WithSlug(d, p, k, slug, v), p, k, slug) && SlugOf(WithSlug(d, p, k, slug, v), p, k, slug) == v
    ensures Wf(SlugOf(d, p, k, slug))
  {
    hide WfEntries, FirstOfEntry, WfBody;
    WfPages(d, p, PagesOf(d, p)) by { WfAt(Object, d.root.entries, p); }
    WfSetValue(Object, PagesOf(d, p).entries, k, v);
    WfAt(Object, PagesOf(d, p).entries, k);
    WfPages(d, p, PagesWith(d, p, k, slug, v));
  }

  // ---------------------------------------------------------------- the searches

  lemma PagesWf()
    ensures WfBody("pages")
  {
    assert "pages"[1..] == "ages" && "ages"[1..] == "ges" && "ges"[1..] == "es" && "es"[1..] == "s" && "s"[1..] == "";
  }

  /** The first search lands on the `pages` block, and its closing brace is found. */
  lemma FindsPages(d: Document, p: nat)
    requires PagesAt(d, p)
    ensures var raw := DocText(d);
            var open := |PagesLeft(d, p)|;
            && At(raw, open, Text(PagesOf(d, p)))
            && FindKey(raw, 0, "pages") == Some(open)
            && BraceMatch(raw, open) == Some(open + |Text(PagesOf(d, p))| - 1)
  {
    hide At, Text, Wf, WfEntries, FindKey, BraceMatch, FirstOfEntry, Entries, Before, After;
    var raw := DocText(d);
    var start := |d.lead|;
    assert raw == "" + d.lead + (Text(d.root) + d.trail);
    AtHere("", d.lead, Text(d.root) + d.trail);
    assert raw == d.lead + Text(d.root) + d.trail;
    AtHere(d.lead, Text(d.root), d.trail);
    NodeParts(raw, start, d.root);
    PagesWf();
    RootEntries(d, p);
    FindPlain(raw, 0, d.lead, "pages");
    FindBrace(raw, start, "pages");
    FindsFirst(raw, start + 1, d.root.entries, p, "pages");
    PagesHole(d, p, PagesOf(d, p));
    assert raw == PagesLeft(d, p) + Text(PagesOf(d, p)) + PagesRight(d, p);
    AtHere(PagesLeft(d, p), Text(PagesOf(d, p)), PagesRight(d, p));
    WfAt(Object, d.root.entries, p);
    CloserOfNode(raw, |PagesLeft(d, p)|, PagesOf(d, p));
  }

  lemma FindBrace(data: Bytes, i: nat, key: Bytes)
    requires i < |data| && data[i] == '{'
    ensures FindKey(data, i, key) == FindKey(data, i + 1, key)
  {
  }

  lemma RootEntries(d: Document, p: nat)
    requires PagesAt(d, p)
    ensures WfEntries(Object, d.root.entries) && Inside(d.root.pad, d.root.entries) == Entries(d.root.entries)
  {
  }

  /** The second search, in the text before the closing brace of `pages`. */
  lemma FindsSlug(d: Document, p: nat, k: nat, slug: Bytes)
    requires SlugAt(d, p, k, slug)
    ensures var raw := DocText(d);
            var close := |PagesLeft(d, p)| + |Text(PagesOf(d, p))| - 1;
            var open := |SlugLeft(d, p, k, slug)|;
            && close <= |raw|
            && FindKey(raw[..close], |PagesLeft(d, p)| + 1, slug) == Some(open)
            && BraceMatch(raw, open) == Some(open + |Text(SlugOf(d, p, k, slug))| - 1)
  {
    hide At, Text, Wf, WfEntries, FindKey, BraceMatch, FirstOfEntry, Entries, Before, After, DocText, PagesLeft, WfBody;
    var raw := DocText(d);
    var pages := PagesOf(d, p);
    var open := |PagesLeft(d, p)|;
    FindsPages(d, p);
    NodeParts(raw, open, pages);
    PagesEntries(d, p);
    AtPrefix(raw, open + 1, Entries(pages.entries), open + |Text(pages)| - 1);
    FindsFirst(raw[..open + |Text(pages)| - 1], open + 1, pages.entries, k, slug);
    SlugHole(d, p, k, slug, SlugOf(d, p, k, slug));
    var left := SlugLeft(d, p, k, slug);
    assert raw == left + Text(SlugOf(d, p, k, slug)) + SlugRight(d, p, k, slug);
    AtHere(left, Text(SlugOf(d, p, k, slug)), SlugRight(d, p, k, slug));
    WfAt(Object, pages.entries, k);
    CloserOfNode(raw, |left|, SlugOf(d, p, k, slug));
  }

  lemma PagesEntries(d: Document, p: nat)
    requires PagesAt(d, p)
    ensures WfEntries(Object, PagesOf(d, p).entries)
    ensures PagesOf(d, p).entries != [] ==> Inside(PagesOf(d, p).pad, PagesOf(d, p).entries) == Entries(PagesOf(d, p).entries)
  {
    WfAt(Object, d.root.entries, p);
  }

  lemma MissesSlug(d: Document, p: nat, slug: Bytes)
    requires NoSlug(d, p, slug)
    ensures var raw := DocText(d);
            var close := |PagesLeft(d, p)| + |Text(PagesOf(d, p))| - 1;
            close <= |raw| && FindKey(raw[..close], |PagesLeft(d, p)| + 1, slug) == None
  {
    hide At, Text, Wf, WfEntries, BraceMatch, FirstOfEntries, Entries, DocText, PagesLeft, WfBody;
    var raw := DocText(d);
    var pages := PagesOf(d, p);
    var open := |PagesLeft(d, p)|;
    var close := open + |Text(pages)| - 1;
    FindsPages(d, p);
    NodeParts(raw, open, pages);
    PagesEntries(d, p);
    AtPrefix(raw, open + 1, Inside(pages.pad, pages.entries), close);
    if pages.entries == [] {
      PadWs(d, p);
      FindPlain(raw[..close], open + 1, pages.pad, slug);
    } else {
      FindEntries(raw[..close], open + 1, Object, pages.entries, slug);
    }
  }

  lemma PadWs(d: Document, p: nat)
    requires PagesAt(d, p)
    ensures AllWs(PagesOf(d, p).pad)
  {
    hide WfEntries;
    assert WfEntries(Object, d.root.entries);
    WfAt(Object, d.root.entries, p);
  }

  // ---------------------------------------------------------------- insertion

  lemma InsertsAtSlug(d: Document, p: nat, k: nat, slug: Bytes, pairs: seq<Pair>)
    requires SlugAt(d, p, k, slug)
    ensures var open := |SlugLeft(d, p, k, slug)|;
            var close := open + |Text(SlugOf(d, p, k, slug))| - 1;
            open < close < |DocText(d)| &&
            Insert(DocText(d), slug, pairs) == Ok(InsertLast(DocText(d), open, close, BlockBody(pairs)))
  {
    hide Text, Wf, FindKey, BraceMatch, FirstOfEntry, DocText, PagesLeft, SlugLeft, WfBody, InsertLast, BlockBody;
    FindsPages(d, p);
    FindsSlug(d, p, k, slug);
  }

  /** `insertPageKeys` with an existing slug block: the new members come after its own, and
      no byte outside the block changes. */
  lemma InsertIntoSlug(d: Document, p: nat, k: nat, slug: Bytes, pairs: seq<Pair>)
    requires SlugAt(d, p, k, slug) && pairs != [] && WfKeys(pairs)
    ensures var o := Extend(SlugOf(d, p, k, slug), PairEntries(pairs, 0));
            && Insert(DocText(d), slug, pairs) == Ok(DocText(WithSlug(d, p, k, slug, o)))
            && SlugAt(WithSlug(d, p, k, slug, o), p, k, slug)
            && SlugOf(WithSlug(d, p, k, slug, o), p, k, slug) == o
            && Wf(o)
  {
    hide Text, Wf, WfEntries, FindKey, BraceMatch, FirstOfEntry, Entries, DocText, PagesLeft, SlugLeft, SlugRight;
    hide WfBody, InsertLast, BlockBody, SlugAt, Extend, Insert, PairEntries, WithSlug, SlugOf, WfKeys;
    var o := SlugOf(d, p, k, slug);
    InsertsAtSlug(d, p, k, slug, pairs);
    SlugWf(d, p, k, slug);
    BodyText(pairs);
    WfPairEntries(pairs, 0);
    NonEmptyPairs(pairs);
    SlugHole(d, p, k, slug, o);
    InsertedText(SlugLeft(d, p, k, slug), o, SlugRight(d, p, k, slug), PairEntries(pairs, 0));
    WfExtend(o, PairEntries(pairs, 0));
    IsExtend(o, PairEntries(pairs, 0));
    SlugHole(d, p, k, slug, Extend(o, PairEntries(pairs, 0)));
    WfSlug(d, p, k, slug, Extend(o, PairEntries(pairs, 0)));
  }

  lemma SlugWf(d: Document, p: nat, k: nat, slug: Bytes)
    requires SlugAt(d, p, k, slug)
    ensures Wf(SlugOf(d, p, k, slug)) && IsObject(SlugOf(d, p, k, slug))
  {
    hide WfEntries, FirstOfEntry, WfBody;
    assert WfEntries(Object, d.root.entries);
    WfAt(Object, d.root.entries, p);
    WfAt(Object, PagesOf(d, p).entries, k);
  }

  lemma NonEmptyPairs(pairs: seq<Pair>)
    requires pairs != []
    ensures PairEntries(pairs, 0) != []
    ensures Inside(BlockOf(pairs).pad, BlockOf(pairs).entries) == Entries(PairEntries(pairs, 0))
  {
  }

  lemma IsExtend(o: Value, new_: seq<Entry>)
    requires IsObject(o)
    ensures IsObject(Extend(o, new_))
  {
  }

  /** `insertPageKeys` without a slug block: one is created after the other members of
      `pages`, which may have had none. */
  lemma InsertNewSlug(d: Document, p: nat, slug: Bytes, pairs: seq<Pair>)
    requires NoSlug(d, p, slug) && WfKeys(pairs)
    ensures var o := Extend(PagesOf(d, p), [SlugEntry(slug, pairs)]);
            && Insert(DocText(d), slug, pairs) == Ok(DocText(WithPages(d, p, o)))
            && PagesAt(WithPages(d, p, o), p) && PagesOf(WithPages(d, p, o), p) == o
  {
    hide Text, Wf, WfEntries, FindKey, BraceMatch, FirstOfEntries, Entries, DocText, PagesLeft, PagesRight;
    hide WfBody, InsertLast, BlockBody, SlugMember, Extend, FirstOfEntry;
    var o := PagesOf(d, p);
    FindsPages(d, p);
    MissesSlug(d, p, slug);
    PagesIsWf(d, p);
    SlugText(slug, pairs);
    WfSlugEntry(slug, pairs);
    PagesHole(d, p, o);
    InsertedText(PagesLeft(d, p), o, PagesRight(d, p), [SlugEntry(slug, pairs)]);
    WfExtend(o, [SlugEntry(slug, pairs)]);
    IsExtend(o, [SlugEntry(slug, pairs)]);
    PagesHole(d, p, Extend(o, [SlugEntry(slug, pairs)]));
    WfPages(d, p, Extend(o, [SlugEntry(slug, pairs)]));
  }

  lemma PagesIsWf(d: Document, p: nat)
    requires PagesAt(d, p)
    ensures Wf(PagesOf(d, p)) && IsObject(PagesOf(d, p))
  {
    hide WfEntries, FirstOfEntry;
    assert WfEntries(Object, d.root.entries);
    WfAt(Object, d.root.entries, p);
  }

  // ---------------------------------------------------------------- updates

  /** The updates for keys that are not string members yet. */
  function Added(kv: Updates, es: seq<Entry>): Updates {
    map k | k in kv && k !in Strings(es) :: kv[k]
  }

  /** The slug block after `applySlugUpdates`: string members rewritten in place, other keys
      appended by ascending key. */
  ghost function Updated(o: Value, kv: Updates): Value
    requires IsObject(o)
  {
    var replaced := o.(entries := Replace(o.entries, kv));
    var added := Added(kv, o.entries);
    if added == map[] then replaced else Extend(replaced, PairEntries(SortedPairs(added), 0))
  }

  /** The keys that will be inserted, as they are, are contents of JSON strings. */
  predicate WfUpdates(kv: Updates) {
    forall k | k in kv :: WfBody(k)
  }

  lemma SortedWf(kv: Updates)
    requires WfUpdates(kv)
    ensures WfKeys(SortedPairs(kv)) && (kv != map[] ==> SortedPairs(kv) != [])
  {
    hide WfBody;
    var ps := SortedPairs(kv);
    forall i | 0 <= i < |ps| ensures WfBody(ps[i].key) {
      assert ps[i] in Elements(ps);
    }
    if kv != map[] {
      var k :| k in kv;
      assert Pair(k, kv[k]) in Elements(ps);
    }
  }

  /** `applySlugUpdates` with an existing slug block: the bytes of the result are those of
      the document with the slug block updated. */
  lemma ApplyToSlug(d: Document, p: nat, k: nat, slug: Bytes, kv: Updates)
    requires SlugAt(d, p, k, slug) && WfUpdates(kv)
    ensures var o := Updated(SlugOf(d, p, k, slug), kv);
            && Apply(DocText(d), slug, kv) == Ok(DocText(WithSlug(d, p, k, slug, o)))
            && SlugAt(WithSlug(d, p, k, slug, o), p, k, slug)
            && SlugOf(WithSlug(d, p, k, slug, o), p, k, slug) == o
            && IsObject(o) && Wf(o)
  {
    hide Text, Wf, WfEntries, FindKey, BraceMatch, FirstOfEntry, Entries, DocText, PagesLeft, SlugLeft, SlugRight;
    hide WfBody, Insert, Patch, EditsFor, Scan, SortedPairs, WfKeys, SlugAt, WithSlug, SlugOf, PairEntries, Disjoint;
    var o := SlugOf(d, p, k, slug);
    SlugWf(d, p, k, slug);
    SlugHole(d, p, k, slug, o);
    if kv == map[] {
      UpdatedByNothing(o);
    } else {
      FindsSlugBlock(d, p, k, slug);
      PatchObject(SlugLeft(d, p, k, slug), o, SlugRight(d, p, k, slug), kv);
      var replaced := o.(entries := Replace(o.entries, kv));
      SlugHole(d, p, k, slug, replaced);
      ReplacedWf(o, kv);
      WfSlug(d, p, k, slug, replaced);
      var added := Added(kv, o.entries);
      assert added == Missing(kv, Scan(DocText(d), |SlugLeft(d, p, k, slug)|).value);
      if added != map[] {
        SortedWf(added);
        InsertIntoSlug(WithSlug(d, p, k, slug, replaced), p, k, slug, SortedPairs(added));
        SetTwice(d, p, k, slug, replaced, Extend(replaced, PairEntries(SortedPairs(added), 0)));
      }
    }
  }

  lemma FindsSlugBlock(d: Document, p: nat, k: nat, slug: Bytes)
    requires SlugAt(d, p, k, slug)
    ensures FindSlug(DocText(d), slug) == Some(|SlugLeft(d, p, k, slug)|)
  {
    hide Text, FindKey, BraceMatch, FirstOfEntry, DocText, PagesLeft, SlugLeft, WfBody, Wf;
    FindsPages(d, p);
    FindsSlug(d, p, k, slug);
  }

  lemma MissesSlugBlock(d: Document, p: nat, slug: Bytes)
    requires NoSlug(d, p, slug)
    ensures FindSlug(DocText(d), slug) == None
  {
    hide Text, FindKey, BraceMatch, FirstOfEntries, FirstOfEntry, DocText, PagesLeft, WfBody, Wf;
    FindsPages(d, p);
    MissesSlug(d, p, slug);
  }

  lemma UpdatedByNothing(o: Value)
    requires IsObject(o)
    ensures Updated(o, map[]) == o
  {
    hide Strings, SortedPairs;
    ReplaceNothing(o.entries);
    assert Added(map[], o.entries) == map[];
  }

  lemma {:induction false} ReplaceNothing(es: seq<Entry>)
    ensures Replace(es, map[]) == es
  {
    hide Strings;
    if es != [] { ReplaceNothing(es[1..]); }
  }

  lemma ReplacedWf(o: Value, kv: Updates)
    requires IsObject(o) && Wf(o)
    ensures Wf(o.(entries := Replace(o.entries, kv))) && IsObject(o.(entries := Replace(o.entries, kv)))
  {
    hide WfEntries, Replace;
    WfReplace(o.entries, kv);
    ReplaceShape(o.entries, kv);
  }

  lemma SetTwice(d: Document, p: nat, k: nat, slug: Bytes, v: Value, w: Value)
    requires SlugAt(d, p, k, slug) && SlugAt(WithSlug(d, p, k, slug, v), p, k, slug)
    ensures WithSlug(WithSlug(d, p, k, slug, v), p, k, slug, w) == WithSlug(d, p, k, slug, w)
  {
    hide Wf, WfBody, FirstOfEntry;
    var es := PagesOf(d, p).entries;
    assert SetValue(SetValue(es, k, v), k, w) == SetValue(es, k, w);
    assert SetValue(SetValue(d.root.entries, p, PagesWith(d, p, k, slug, v)), p, PagesWith(d, p, k, slug, w))
        == SetValue(d.root.entries, p, PagesWith(d, p, k, slug, w));
  }

  /** `applySlugUpdates` without a slug block: one is created with all the updates. */
  lemma ApplyToMissingSlug(d: Document, p: nat, slug: Bytes, kv: Updates)
    requires NoSlug(d, p, slug) && WfUpdates(kv) && kv != map[]
    ensures var o := Extend(PagesOf(d, p), [SlugEntry(slug, SortedPairs(kv))]);
            && Apply(DocText(d), slug, kv) == Ok(DocText(WithPages(d, p, o)))
            && PagesAt(WithPages(d, p, o), p) && PagesOf(WithPages(d, p, o), p) == o
  {
    hide FindSlug, DocText, WfBody, Wf, Insert, SortedPairs, WfKeys, NoSlug, Extend, SlugEntry, WithPages, PagesOf, PagesAt, WfUpdates;
    MissesSlugBlock(d, p, slug);
    SortedWf(kv);
    InsertNewSlug(d, p, slug, SortedPairs(kv));
  }
}
