/** What hydration is for: after the updates are applied, looking a key up in the decoded file
    gives the new value, and every other lookup gives what it gave before. */
module PagesShown {
  import opened Wrappers
  import opened Bytes
  import opened JsonGrammar
  import opened JsonStrings
  import opened JsonAgree
  import opened Sorting
  import opened PagesEdit
  import opened PagesDocument
  import opened PagesReplace
  import opened PagesTheorems
  import opened PagesLaws
  import opened PagesRoundTrip
  import T = PagesText

  type Dict = map<Bytes, T.Json>

  /** The keys are written without escapes. */
  predicate Unescaped(kv: Updates) {
    forall k | k in kv :: WfBody(k) && StringOf(k) == k
  }

  /** What a decoder reads where `v` was written. */
  function Written(v: Bytes): T.Json {
    T.Text(StringOf(EncodeBody(v)))
  }

  lemma WrittenIs(v: Bytes)
    requires ValidUtf8(v)
    ensures Written(v) == T.Text(v)
  {
    hide EncodeBody, WfBody, Decode;
    DecodeEncode(v);
  }

  // ---------------------------------------------------------------- members of edited objects

  lemma {:induction false} MembersConcat(a: seq<Entry>, b: seq<Entry>)
    ensures Members(a + b) == Members(a) + Members(b)
  {
    hide Decoded, NameOf;
    if a == [] {
      assert a + b == b;
    } else {
      assert (a + b)[1..] == a[1..] + b;
      MembersConcat(a[1..], b);
      DictAssoc(map[NameOf(a[0]) := Decoded(a[0].value)], Members(a[1..]), Members(b));
    }
  }

  lemma DictAssoc(a: Dict, b: Dict, c: Dict)
    ensures (a + b) + c == a + (b + c)
  {
  }

  lemma {:induction false} MembersTrimmed(es: seq<Entry>)
    ensures Members(Trimmed(es)) == Members(es)
  {
    hide Decoded, StringOf;
    if |es| > 1 {
      assert Trimmed(es)[1..] == Trimmed(es[1..]);
      MembersTrimmed(es[1..]);
    } else if |es| == 1 {
      assert Trimmed(es)[1..] == es[1..];
    }
  }

  lemma PairMember(p: Pair, last: bool)
    requires StringOf(p.key) == p.key
    ensures NameOf(PairEntry(p, last)) == p.key && Decoded(PairEntry(p, last).value) == Written(p.value)
  {
    hide StringOf, EncodeBody;
  }

  /** The values of the pairs from index `i` on, as a decoder reads them. */
  function PairDict(pairs: seq<Pair>, i: nat, kv: Updates): Dict {
    map k | k in kv && (exists j :: i <= j < |pairs| && pairs[j].key == k) :: Written(kv[k])
  }

  lemma PairDictStep(pairs: seq<Pair>, i: nat, kv: Updates)
    requires i < |pairs| && pairs[i].key in kv && kv[pairs[i].key] == pairs[i].value
    ensures PairDict(pairs, i, kv) == map[pairs[i].key := Written(pairs[i].value)] + PairDict(pairs, i + 1, kv)
  {
    hide Written;
  }

  lemma {:induction false} MembersOfPairs(pairs: seq<Pair>, i: nat, kv: Updates)
    requires i <= |pairs| && Unescaped(kv)
    requires forall j | i <= j < |pairs| :: pairs[j].key in kv && kv[pairs[j].key] == pairs[j].value
    ensures Members(PairEntries(pairs, i)) == PairDict(pairs, i, kv)
    decreases |pairs| - i
  {
    hide EncodeBody, PairEntry, NameOf, Decoded, Written, StringOf, WfBody, PairDict;
    if i < |pairs| {
      MembersOfPairs(pairs, i + 1, kv);
      PairMember(pairs[i], i == |pairs| - 1);
      PairDictStep(pairs, i, kv);
      assert PairEntries(pairs, i)[1..] == PairEntries(pairs, i + 1);
    } else {
      assert PairDict(pairs, i, kv) == map[] by { NoPairs(pairs, i, kv); }
    }
  }

  lemma NoPairs(pairs: seq<Pair>, i: nat, kv: Updates)
    requires i >= |pairs|
    ensures PairDict(pairs, i, kv) == map[]
  {
    hide Written;
  }

  lemma PairOf(kv: Updates, j: nat)
    requires j < |SortedPairs(kv)|
    ensures var p := SortedPairs(kv)[j]; p.key in kv && kv[p.key] == p.value
  {
    var ps := SortedPairs(kv);
    assert Elements(ps) == PairsOf(kv);
    assert ps[j] in Elements(ps);
  }

  lemma MembersAdded(kv: Updates)
    requires Unescaped(kv)
    ensures Members(PairEntries(SortedPairs(kv), 0)) == map k | k in kv :: Written(kv[k])
  {
    hide Unescaped, Written;
    var ps := SortedPairs(kv);
    assert Elements(ps) == PairsOf(kv);
    forall j | 0 <= j < |ps| ensures ps[j].key in kv && kv[ps[j].key] == ps[j].value { PairOf(kv, j); }
    forall k | k in kv ensures exists j :: 0 <= j < |ps| && ps[j].key == k {
      assert Pair(k, kv[k]) in Elements(ps);
    }
    MembersOfPairs(ps, 0, kv);
  }

  /** The decoder reads the name as a string: the last member of that name is one. */
  predicate ShownString(es: seq<Entry>, key: Bytes) {
    key in Members(es) && Members(es)[key].Text?
  }

  /** Rewriting string members changes what the decoder finds for the updated names that it
      reads as strings, and nothing else. */
  lemma {:induction false} MembersReplaced(es: seq<Entry>, kv: Updates, key: Bytes)
    requires Canonical(es)
    ensures key in Members(Replace(es, kv)) <==> key in Members(es)
    ensures key in Members(es) ==>
              Members(Replace(es, kv))[key] == if key in kv && ShownString(es, key) then Written(kv[key]) else Members(es)[key]
  {
    hide EncodeBody, StringOf, Strings;
    if es != [] {
      MembersReplaced(es[1..], kv, key);
      assert Replace(es, kv)[1..] == Replace(es[1..], kv);
      FirstReplaced(es, kv);
      if key in Members(es[1..]) {
      } else if key == NameOf(es[0]) && key in Strings(es[1..]) {
        StringsAreMembers(es[1..], key);
      }
    }
  }

  lemma FirstReplaced(es: seq<Entry>, kv: Updates)
    requires es != [] && Canonical(es)
    ensures NameOf(Replace(es, kv)[0]) == NameOf(es[0]) == es[0].name.key
    ensures Decoded(Replace(es, kv)[0].value)
         == if es[0].value.Str? && NameOf(es[0]) in kv && NameOf(es[0]) !in Strings(es[1..]) then Written(kv[NameOf(es[0])]) else Decoded(es[0].value)
    ensures Decoded(es[0].value).Text? <==> es[0].value.Str?
  {
    hide EncodeBody, StringOf, Strings, Members;
  }

  /** The updated name has a string member that a later member of another kind hides. */
  predicate Hidden(es: seq<Entry>, key: Bytes) {
    key in Strings(es) && !ShownString(es, key)
  }

  /** The decoded slug block after an update: the new values over the old ones, except for
      hidden names, which keep showing what hides them. */
  function Overlaid(es: seq<Entry>, kv: Updates): Dict {
    Members(es) + map k | k in kv && !Hidden(es, k) :: Written(kv[k])
  }

  lemma MembersUpdated(o: Value, kv: Updates)
    requires IsObject(o) && Canonical(o.entries) && Unescaped(kv)
    ensures Members(Updated(o, kv).entries) == Overlaid(o.entries, kv)
  {
    hide EncodeBody, SortedPairs, PairEntries, Strings, Replace, Canonical, Written, StringOf, WfBody, Members, Unescaped;
    var es := o.entries;
    var replaced := Replace(es, kv);
    var added := Added(kv, es);
    AddedPlain(kv, es);
    if added != map[] {
      MembersTrimmed(replaced);
      MembersConcat(Trimmed(replaced), PairEntries(SortedPairs(added), 0));
      MembersAdded(added);
    }
    var m := Members(replaced) + map k | k in added :: Written(added[k]);
    assert Members(Updated(o, kv).entries) == m;
    forall key ensures (key in m <==> key in Overlaid(es, kv)) && (key in m ==> m[key] == Overlaid(es, kv)[key]) {
      MembersReplaced(es, kv, key);
      if key in Strings(es) { StringsAreMembers(es, key); }
      if ShownString(es, key) { TextIsString(es, key); }
    }
    assert m == Overlaid(es, kv);
  }

  lemma AddedPlain(kv: Updates, es: seq<Entry>)
    requires Unescaped(kv)
    ensures Unescaped(Added(kv, es))
  {
    hide StringOf, WfBody, Strings;
  }

  lemma NamedLater(es: seq<Entry>, key: Bytes)
    requires es != [] && key in Members(es[1..])
    ensures exists j :: 0 < j < |es| && NameOf(es[j]) == key
  {
    hide Decoded, NameOf;
    var j := MemberFrom(es[1..], key);
    assert NameOf(es[j + 1]) == key;
  }

  lemma {:induction false} MembersSet(es: seq<Entry>, k: nat, v: Value)
    requires k < |es| && OnlyName(es, k)
    ensures Members(SetValue(es, k, v)) == Members(es)[NameOf(es[k]) := Decoded(v)]
  {
    hide Decoded, StringOf;
    var out := SetValue(es, k, v);
    if k == 0 {
      assert out[1..] == es[1..];
      if NameOf(es[0]) in Members(es[1..]) { NamedLater(es, NameOf(es[0])); }
    } else {
      assert out[1..] == SetValue(es[1..], k - 1, v);
      assert forall j | 0 <= j < |es| - 1 :: es[1..][j] == es[j + 1];
      MembersSet(es[1..], k - 1, v);
      assert NameOf(es[0]) != NameOf(es[k]);
    }
  }

  // ---------------------------------------------------------------- the decoded file

  /** The decoded file with another slug block. */
  function Revised(d: Document, p: nat, slug: Bytes, block: Dict): T.Json
    requires PagesAt(d, p)
  {
    T.Dict(Members(d.root.entries)["pages" := T.Dict(Members(PagesOf(d, p).entries)[slug := T.Dict(block)])])
  }

  lemma PagesMember(d: Document, p: nat)
    requires Tidy(d, p)
    ensures PagesAt(d, p) && Data(d) == T.Dict(Members(d.root.entries)) && IsObject(PagesOf(d, p))
    ensures "pages" in Members(d.root.entries) && Members(d.root.entries)["pages"] == T.Dict(Members(PagesOf(d, p).entries))
  {
    hide Wf, WfBody, FirstOfEntry, Members, Canonical, OnlyName, StringOf;
    PagesName(d, p);
    MemberIs(d.root.entries, p);
  }

  lemma SetPages(d: Document, p: nat, pages: Value)
    requires Tidy(d, p) && IsObject(pages)
    ensures Data(WithPages(d, p, pages)) == T.Dict(Members(d.root.entries)["pages" := T.Dict(Members(pages.entries))])
  {
    hide Wf, WfBody, FirstOfEntry, Members, Canonical, OnlyName, StringOf;
    PagesName(d, p);
    MembersSet(d.root.entries, p, pages);
  }

  /** With an existing slug block: the file after the updates decodes to what it decoded to
      before, with the new values in the slug block. */
  lemma AppliedData(d: Document, p: nat, k: nat, slug: Bytes, kv: Updates)
    requires Tidy(d, p) && SlugAt(d, p, k, slug) && Unescaped(kv)
    ensures IsObject(SlugOf(d, p, k, slug))
    ensures var d' := WithSlug(d, p, k, slug, Updated(SlugOf(d, p, k, slug), kv));
            && Apply(DocText(d), slug, kv) == Ok(DocText(d'))
            && PagesAt(d', p) && Data(d') == Revised(d, p, slug, Overlaid(SlugEntries(d, p, k, slug), kv))
  {
    hide Wf, WfBody, FirstOfEntry, Members, Canonical, OnlyName, StringOf, Updated, Overlaid, Apply, DocText;
    ApplyToSlug(d, p, k, slug, kv);
    SlugWf(d, p, k, slug);
    var o := Updated(SlugOf(d, p, k, slug), kv);
    assert TidySlug(PagesOf(d, p).entries, k);
    MembersUpdated(SlugOf(d, p, k, slug), kv);
    MembersSet(PagesOf(d, p).entries, k, o);
    SetPages(d, p, PagesWith(d, p, k, slug, o));
  }

  /** Without one: the same with the updates alone in a block of their own. */
  lemma AppliedNewData(d: Document, p: nat, slug: Bytes, kv: Updates)
    requires Tidy(d, p) && NoSlug(d, p, slug) && StringOf(slug) == slug && Unescaped(kv) && kv != map[]
    ensures IsObject(PagesOf(d, p))
    ensures var d' := WithPages(d, p, Extend(PagesOf(d, p), [SlugEntry(slug, SortedPairs(kv))]));
            && Apply(DocText(d), slug, kv) == Ok(DocText(d'))
            && PagesAt(d', p) && Data(d') == Revised(d, p, slug, Overlaid([], kv))
  {
    hide Wf, WfBody, FirstOfEntry, Members, Canonical, OnlyName, StringOf, PairEntries, SortedPairs, Overlaid, Apply, DocText;
    ApplyToMissingSlug(d, p, slug, kv);
    PagesMember(d, p);
    var es := PagesOf(d, p).entries;
    var e := SlugEntry(slug, SortedPairs(kv));
    MembersTrimmed(es);
    MembersConcat(Trimmed(es), [e]);
    OneEntry(e);
    MembersAdded(kv);
    NothingOverlaid(kv);
    assert NameOf(e) == slug && Decoded(e.value) == T.Dict(Overlaid([], kv));
    assert Members(Extend(PagesOf(d, p), [e]).entries) == Members(es)[slug := T.Dict(Overlaid([], kv))];
    SetPages(d, p, Extend(PagesOf(d, p), [e]));
  }

  lemma OneEntry(e: Entry)
    ensures Members([e]) == map[NameOf(e) := Decoded(e.value)]
  {
    hide Decoded, NameOf;
    assert [e][1..] == [] && Members([]) == map[];
  }

  lemma NothingOverlaid(kv: Updates)
    ensures Overlaid([], kv) == map k | k in kv :: Written(kv[k])
  {
    hide Written;
    assert Members([]) == map[] && Strings([]) == map[];
  }

  // ---------------------------------------------------------------- lookups after one edit

  /** The path `pages.<slug>.<leaf>`, or one below it. */
  predicate Leads(path: seq<Bytes>, slug: Bytes, leaf: Bytes) {
    ["pages", slug, leaf] <= path
  }

  lemma LookupRevised(d: Document, p: nat, slug: Bytes, block: Dict, rest: seq<Bytes>)
    requires PagesAt(d, p)
    ensures T.LookupParts(Revised(d, p, slug, block), ["pages", slug] + rest) == T.LookupParts(T.Dict(block), rest)
  {
    hide T.LookupParts, Members, Wf, FirstOfEntry;
    assert ["pages", slug] + rest == ["pages"] + ([slug] + rest);
    var pages := Members(PagesOf(d, p).entries)[slug := T.Dict(block)];
    LookupStep(Members(d.root.entries)["pages" := T.Dict(pages)], "pages", [slug] + rest);
    LookupStep(pages, slug, rest);
  }

  /** Looking up an updated leaf in the edited block. */
  lemma LeafOverlaid(es: seq<Entry>, kv: Updates, leaf: Bytes)
    requires Canonical(es) && leaf in kv && ValidUtf8(kv[leaf])
    ensures T.LookupParts(T.Dict(Overlaid(es, kv)), [leaf]) == if Hidden(es, leaf) then None else Some(kv[leaf])
  {
    hide T.LookupParts, Written, Members, Strings, Canonical;
    LookupStep(Overlaid(es, kv), leaf, []);
    assert [leaf] + [] == [leaf];
    WrittenIs(kv[leaf]);
    if Hidden(es, leaf) { StringsAreMembers(es, leaf); }
    LookupNone(Overlaid(es, kv)[leaf]);
  }

  lemma LookupNone(j: T.Json)
    ensures T.LookupParts(j, []) == if j.Text? then Some(j.text) else None
  {
  }

  /** The new value is shown, exactly unless a member of the same name that is no string stands
      after the string member that was rewritten. */
  lemma UpdateShown(d: Document, p: nat, k: nat, slug: Bytes, kv: Updates, leaf: Bytes)
    requires Tidy(d, p) && SlugAt(d, p, k, slug) && Unescaped(kv)
    requires T.NoDot(slug) && T.NoDot(leaf) && leaf in kv && ValidUtf8(kv[leaf])
    ensures IsObject(SlugOf(d, p, k, slug))
    ensures var d' := WithSlug(d, p, k, slug, Updated(SlugOf(d, p, k, slug), kv));
            && Apply(DocText(d), slug, kv) == Ok(DocText(d'))
            && (T.LookupParts(Data(d'), T.Split(T.FullKey(slug, leaf))) == Some(kv[leaf]) <==> !Hidden(SlugEntries(d, p, k, slug), leaf))
  {
    hide Revised, Overlaid, Updated, Apply, DocText, Data, Hidden, T.LookupParts, T.Split, Unescaped, WithSlug, Canonical, WfBody, FirstOfEntry, Wf;
    AppliedData(d, p, k, slug, kv);
    LookupRevised(d, p, slug, Overlaid(SlugEntries(d, p, k, slug), kv), [leaf]);
    ThreeParts(slug, leaf);
    assert TidySlug(PagesOf(d, p).entries, k);
    LeafOverlaid(SlugEntries(d, p, k, slug), kv, leaf);
  }

  /** In a block that is created the new value is always shown. */
  lemma NewUpdateShown(d: Document, p: nat, slug: Bytes, kv: Updates, leaf: Bytes)
    requires Tidy(d, p) && NoSlug(d, p, slug) && StringOf(slug) == slug && Unescaped(kv)
    requires T.NoDot(slug) && T.NoDot(leaf) && leaf in kv && ValidUtf8(kv[leaf])
    ensures IsObject(PagesOf(d, p))
    ensures var d' := WithPages(d, p, Extend(PagesOf(d, p), [SlugEntry(slug, SortedPairs(kv))]));
            && Apply(DocText(d), slug, kv) == Ok(DocText(d'))
            && T.LookupParts(Data(d'), T.Split(T.FullKey(slug, leaf))) == Some(kv[leaf])
  {
    hide Revised, Overlaid, Apply, DocText, Data, T.LookupParts, T.Split, Unescaped, WithPages, SlugEntry, SortedPairs, Extend, NoSlug, Tidy, StringOf;
    AppliedNewData(d, p, slug, kv);
    NoSlugPages(d, p, slug);
    LookupRevised(d, p, slug, Overlaid([], kv), [leaf]);
    ThreeParts(slug, leaf);
    NothingHidden(leaf);
    LeafOverlaid([], kv, leaf);
  }

  lemma NoSlugPages(d: Document, p: nat, slug: Bytes)
    requires NoSlug(d, p, slug)
    ensures PagesAt(d, p)
  {
  }

  lemma NothingHidden(leaf: Bytes)
    ensures !Hidden([], leaf) && Canonical([])
  {
  }

  /** Every other lookup finds what it found before. */
  lemma OthersShown(d: Document, p: nat, k: nat, slug: Bytes, kv: Updates, path: seq<Bytes>)
    requires Tidy(d, p) && SlugAt(d, p, k, slug) && Unescaped(kv)
    requires forall leaf | leaf in kv :: !Leads(path, slug, leaf)
    ensures IsObject(SlugOf(d, p, k, slug))
    ensures var d' := WithSlug(d, p, k, slug, Updated(SlugOf(d, p, k, slug), kv));
            T.LookupParts(Data(d'), path) == T.LookupParts(Data(d), path)
  {
    hide Overlaid, Updated, Apply, DocText, Data, Hidden, T.LookupParts, T.Split, Unescaped, WithSlug, Canonical, WfBody, FirstOfEntry, Wf, Members;
    AppliedData(d, p, k, slug, kv);
    PagesMember(d, p);
    SlugMemberIs(d, p, k, slug);
    SameLookups(d, p, slug, SlugEntries(d, p, k, slug), kv, path);
  }

  lemma SlugMemberIs(d: Document, p: nat, k: nat, slug: Bytes)
    requires Tidy(d, p) && SlugAt(d, p, k, slug)
    ensures slug in Members(PagesOf(d, p).entries) && Members(PagesOf(d, p).entries)[slug] == T.Dict(Members(SlugEntries(d, p, k, slug)))
  {
    hide Wf, WfBody, FirstOfEntry, Members, Canonical, OnlyName, StringOf;
    assert TidySlug(PagesOf(d, p).entries, k);
    MemberIs(PagesOf(d, p).entries, k);
  }

  lemma SameLookups(d: Document, p: nat, slug: Bytes, es: seq<Entry>, kv: Updates, path: seq<Bytes>)
    requires Tidy(d, p) && forall leaf | leaf in kv :: !Leads(path, slug, leaf)
    requires slug in Members(PagesOf(d, p).entries) && Members(PagesOf(d, p).entries)[slug] == T.Dict(Members(es))
    ensures T.LookupParts(Revised(d, p, slug, Overlaid(es, kv)), path) == T.LookupParts(Data(d), path)
  {
    hide Data, T.LookupParts, Tidy, Members, Leads, Overlaid, Wf, FirstOfEntry;
    PagesMember(d, p);
    var pages := Members(PagesOf(d, p).entries);
    var pages' := pages[slug := T.Dict(Overlaid(es, kv))];
    if |path| > 1 && path[0] == "pages" {
      LookupFirst(pages, path[1..]);
      LookupFirst(pages', path[1..]);
      if path[1] == slug { SameInBlock(es, kv, slug, path); }
    }
    SamePages(Members(d.root.entries), pages, pages', path);
  }

  /** A path that leads to no updated leaf finds the same in the edited block. */
  lemma SameInBlock(es: seq<Entry>, kv: Updates, slug: Bytes, path: seq<Bytes>)
    requires |path| > 1 && path[0] == "pages" && path[1] == slug && forall leaf | leaf in kv :: !Leads(path, slug, leaf)
    ensures T.LookupParts(T.Dict(Overlaid(es, kv)), path[1..][1..]) == T.LookupParts(T.Dict(Members(es)), path[1..][1..])
  {
    hide T.LookupParts, Members, Leads, Overlaid;
    var rest := path[1..][1..];
    assert rest == path[2..];
    if rest == [] {
      LookupNone(T.Dict(Overlaid(es, kv)));
      LookupNone(T.Dict(Members(es)));
    } else {
      LeadsTo(path, slug);
      OverlaidElsewhere(es, kv, path[2]);
      LookupFirst(Members(es), rest);
      LookupFirst(Overlaid(es, kv), rest);
    }
  }

  /** Another `pages` that finds the same on this path. */
  lemma SamePages(m: Dict, pages: Dict, pages': Dict, path: seq<Bytes>)
    requires "pages" in m && m["pages"] == T.Dict(pages)
    requires |path| > 1 && path[0] == "pages" ==> T.LookupParts(T.Dict(pages'), path[1..]) == T.LookupParts(T.Dict(pages), path[1..])
    ensures T.LookupParts(T.Dict(m["pages" := T.Dict(pages')]), path) == T.LookupParts(T.Dict(m), path)
  {
    hide T.LookupParts;
    var m' := m["pages" := T.Dict(pages')];
    if path == [] {
      LookupNone(T.Dict(m));
      LookupNone(T.Dict(m'));
    } else {
      LookupFirst(m, path);
      LookupFirst(m', path);
      if |path| == 1 {
        assert path[1..] == [];
        LookupNone(T.Dict(pages));
        LookupNone(T.Dict(pages'));
      }
    }
  }

  lemma OverlaidElsewhere(es: seq<Entry>, kv: Updates, key: Bytes)
    requires key !in kv
    ensures key in Overlaid(es, kv) <==> key in Members(es)
    ensures key in Members(es) ==> Overlaid(es, kv)[key] == Members(es)[key]
  {
    hide Members, Hidden, Written;
  }

  lemma LeadsTo(path: seq<Bytes>, slug: Bytes)
    requires |path| > 2 && path[0] == "pages" && path[1] == slug
    ensures Leads(path, slug, path[2])
  {
    assert path[..3] == ["pages", slug, path[2]];
  }

  lemma LookupFirst(m: Dict, path: seq<Bytes>)
    requires path != []
    ensures T.LookupParts(T.Dict(m), path) == if path[0] in m then T.LookupParts(m[path[0]], path[1..]) else None
  {
  }

  // ---------------------------------------------------------------- an instance that is hidden

  function HiddenBlock(): Value {
    Node(Object, "", [Member("a", Str("x")), Member("a", Atom("1"))])
  }

  /** `{"pages":{"home":{"a":"x","a":1}}}` */
  function HiddenFile(): Document {
    Document("", Block("pages", Block("home", HiddenBlock())), "")
  }

  lemma HiddenBlockIs()
    requires WfBody("a") && StringOf("a") == "a" && WfBody("x") && StringOf("x") == "x" && EncodeBody("x") == "x"
    ensures Wf(HiddenBlock()) && IsObject(HiddenBlock()) && Canonical(HiddenBlock().entries) && Hidden(HiddenBlock().entries, "a")
  {
    hide WfBody, StringOf, EncodeBody;
    var es := HiddenBlock().entries;
    assert es[1..] == [Member("a", Atom("1"))] && es[1..][1..] == [];
    OneEntry(es[1]);
    assert WfEntry(Object, es[0]) && WfEntry(Object, es[1]) by { OneIsAtom(); }
    WfEntriesFrom(Object, es);
    assert Strings(es[1..]) == map[] && Strings(es) == map["a" := "x"];
    assert Members(es)["a"] == T.Other;
  }

  lemma OneIsAtom()
    ensures WfAtom("1")
  {
    assert "1"[1..] == "" && Digits("1") == 1;
  }

  lemma EncodeX()
    ensures EncodeBody("x") == "x"
  {
    assert "x"[1..] == "";
  }

  lemma HiddenFileTidy()
    ensures Tidy(HiddenFile(), 0) && SlugAt(HiddenFile(), 0, 0, "home") && Hidden(SlugEntries(HiddenFile(), 0, 0, "home"), "a")
  {
    hide WfBody, StringOf, Wf, EncodeBody, Hidden, Canonical;
    AsciiName("x"); AsciiName("a"); AsciiName("home"); AsciiName("pages");
    EncodeX();
    HiddenBlockIs();
    BlockWf("home", HiddenBlock());
    BlockWf("pages", Block("home", HiddenBlock()));
    var d := HiddenFile();
    assert PagesAt(d, 0);
    assert PagesOf(d, 0).entries == [Member("home", HiddenBlock())];
    assert TidySlug(PagesOf(d, 0).entries, 0);
    assert SlugEntries(d, 0, 0, "home") == HiddenBlock().entries;
  }

  /** Here the string is rewritten, and the number after it is still what is read. */
  lemma HiddenExample(kv: Updates, slug: Bytes, a: Bytes)
    requires slug == "home" && a == "a" && kv == map[a := a]
    ensures Tidy(HiddenFile(), 0) && SlugAt(HiddenFile(), 0, 0, slug) && IsObject(SlugOf(HiddenFile(), 0, 0, slug))
    ensures var d' := WithSlug(HiddenFile(), 0, 0, slug, Updated(SlugOf(HiddenFile(), 0, 0, slug), kv));
            && Apply(DocText(HiddenFile()), slug, kv) == Ok(DocText(d'))
            && T.LookupParts(Data(d'), T.Split(T.FullKey(slug, a))) != Some(kv[a])
  {
    hide Tidy, SlugAt, SlugEntries, Updated, WithSlug, Hidden, T.Split, T.FullKey, T.LookupParts, Apply, DocText, Data, HiddenFile, WfBody, StringOf;
    HiddenFileTidy();
    AsciiName(a);
    assert T.NoDot(slug) && T.NoDot(a) && ValidUtf8(a);
    UpdateShown(HiddenFile(), 0, 0, slug, kv, a);
  }
}
