/** Extracting pages into editable files and hydrating them unchanged leaves a language file
    as it is, byte for byte; and what a key of more than three parts does to that. */
module PagesRoundTrip {
  import opened Wrappers
  import opened Bytes
  import opened JsonGrammar
  import opened JsonStrings
  import opened JsonAgree
  import opened PagesEdit
  import opened PagesDocument
  import opened PagesReplace
  import opened PagesTheorems
  import opened PagesLaws
  import opened PagesMarkers
  import opened PagesHydrate
  import T = PagesText

  // ---------------------------------------------------------------- the decoded file

  function StringOf(body: Bytes): Bytes {
    if WfBody(body) then Decode(body) else ""
  }

  /** What a JSON decoder makes of a well-formed value; of equal names the last one wins. */
  function Decoded(v: Value): T.Json
    decreases v, 0
  {
    match v
    case Str(body) => T.Text(StringOf(body))
    case Atom(_) => T.Other
    case Node(kind, _, entries) => if kind == Object then T.Dict(Members(entries)) else T.Other
  }

  function Members(es: seq<Entry>): map<Bytes, T.Json>
    decreases es
  {
    if es == [] then map[] else map[NameOf(es[0]) := Decoded(es[0].value)] + Members(es[1..])
  }

  function NameOf(e: Entry): Bytes {
    if e.name.Name? then StringOf(e.name.key) else ""
  }

  /** No other entry has the name of entry `k`. */
  predicate OnlyName(es: seq<Entry>, k: nat)
    requires k < |es|
  {
    forall j | 0 <= j < |es| && j != k :: NameOf(es[j]) != NameOf(es[k])
  }

  lemma {:induction false} MemberFrom(es: seq<Entry>, key: Bytes) returns (k: nat)
    requires key in Members(es)
    ensures k < |es| && NameOf(es[k]) == key && Members(es)[key] == Decoded(es[k].value)
  {
    hide Decoded, NameOf, WfEntry;
    if key in Members(es[1..]) {
      k := MemberFrom(es[1..], key);
      k := k + 1;
    } else {
      k := 0;
    }
  }

  lemma {:induction false} NamesIn(es: seq<Entry>, k: nat)
    requires k < |es|
    ensures NameOf(es[k]) in Members(es)
  {
    hide Decoded, NameOf, WfEntry;
    if k > 0 { NamesIn(es[1..], k - 1); }
  }

  lemma MemberIs(es: seq<Entry>, k: nat)
    requires k < |es| && OnlyName(es, k)
    ensures NameOf(es[k]) in Members(es) && Members(es)[NameOf(es[k])] == Decoded(es[k].value)
  {
    hide Decoded, NameOf, WfEntry, WfEntries, Members;
    NamesIn(es, k);
    var j := MemberFrom(es, NameOf(es[k]));
  }

  // ---------------------------------------------------------------- canonical files

  /** The names are written without escapes, the strings as the encoder writes them. */
  predicate Canonical(es: seq<Entry>) {
    forall j | 0 <= j < |es| ::
      && es[j].name.Name? && NameOf(es[j]) == es[j].name.key
      && (es[j].value.Str? ==> EncodeBody(StringOf(es[j].value.body)) == es[j].value.body)
  }

  /** The slug block at entry `k` of `pages`: the only one, found by its name, and canonical. */
  predicate TidySlug(es: seq<Entry>, k: nat)
    requires k < |es|
  {
    && es[k].name.Name? && IsObject(es[k].value) && OnlyName(es, k) && NameOf(es[k]) == es[k].name.key
    && IsFirst(es, k, es[k].name.key) && Canonical(es[k].value.entries)
  }

  predicate Tidy(d: Document, p: nat) {
    && PagesAt(d, p) && OnlyName(d.root.entries, p)
    && forall k | 0 <= k < |PagesOf(d, p).entries| ::
         IsObject(PagesOf(d, p).entries[k].value) ==> TidySlug(PagesOf(d, p).entries, k)
  }

  function Data(d: Document): T.Json {
    Decoded(d.root)
  }

  function SlugEntries(d: Document, p: nat, k: nat, slug: Bytes): seq<Entry>
    requires SlugAt(d, p, k, slug)
  {
    SlugOf(d, p, k, slug).entries
  }

  lemma DecodePages()
    ensures WfBody("pages") && Decode("pages") == "pages"
  {
    hide Decode, WfBody;
    DecodeEmpty();
    EmptyWf();
    DecodePlain('s', "");
    assert "s" == ['s'] + "";
    DecodePlain('e', "s");
    assert "es" == ['e'] + "s";
    DecodePlain('g', "es");
    assert "ges" == ['g'] + "es";
    DecodePlain('a', "ges");
    assert "ages" == ['a'] + "ges";
    DecodePlain('p', "ages");
    assert "pages" == ['p'] + "ages";
  }

  lemma EmptyWf()
    ensures WfBody("")
  {
  }

  // ---------------------------------------------------------------- lookups and string members

  /** In a canonical block a looked-up text is a string member, in its canonical form. */
  lemma {:induction false} TextIsString(es: seq<Entry>, key: Bytes)
    requires Canonical(es) && key in Members(es) && Members(es)[key].Text?
    ensures key in Strings(es) && Strings(es)[key] == EncodeBody(Members(es)[key].text)
  {
    hide EncodeBody, StringOf, NameOf;
    if key in Members(es[1..]) {
      TextIsString(es[1..], key);
    } else if key in Strings(es[1..]) {
      StringsAreMembers(es[1..], key);
    }
  }

  lemma {:induction false} StringsAreMembers(es: seq<Entry>, key: Bytes)
    requires Canonical(es) && key in Strings(es)
    ensures key in Members(es)
  {
    hide EncodeBody, StringOf, NameOf;
    if key in Strings(es[1..]) {
      StringsAreMembers(es[1..], key);
    }
  }

  lemma LookupStep(m: map<Bytes, T.Json>, part: Bytes, rest: seq<Bytes>)
    ensures T.LookupParts(T.Dict(m), [part] + rest) == if part in m then T.LookupParts(m[part], rest) else None
  {
    assert ([part] + rest)[1..] == rest;
  }

  lemma LookupDeep(j: T.Json, rest: seq<Bytes>)
    requires rest != [] && T.LookupParts(j, rest).Some?
    ensures j.Dict?
  {
  }

  /** A lookup below `pages.<slug>` that finds something goes through the slug block. */
  lemma LookupBlock(d: Document, p: nat, slug: Bytes, rest: seq<Bytes>) returns (k: nat)
    requires Tidy(d, p) && rest != [] && T.LookupParts(Data(d), ["pages", slug] + rest).Some?
    ensures SlugAt(d, p, k, slug) && Canonical(SlugEntries(d, p, k, slug))
    ensures T.LookupParts(Data(d), ["pages", slug] + rest)
         == T.LookupParts(T.Dict(Members(SlugEntries(d, p, k, slug))), rest)
  {
    hide Wf, WfBody, FirstOfEntry, Members, Canonical, OnlyName, StringOf, T.LookupParts;
    var root, pages := d.root.entries, PagesOf(d, p).entries;
    DecodePages();
    PagesName(d, p);
    MemberIs(root, p);
    assert ["pages", slug] + rest == ["pages"] + ([slug] + rest);
    LookupStep(Members(root), "pages", [slug] + rest);
    LookupStep(Members(pages), slug, rest);
    LookupDeep(Members(pages)[slug], rest);
    k := MemberFrom(pages, slug);
    assert Members(pages)[slug].Dict?;
    assert TidySlug(pages, k);
    SlugKeyWf(d, p, k);
  }

  lemma PagesName(d: Document, p: nat)
    requires PagesAt(d, p)
    ensures IsObject(PagesOf(d, p)) && NameOf(d.root.entries[p]) == "pages"
  {
    hide Wf, WfBody, Decode, FirstOfEntry;
    DecodePages();
  }

  lemma SlugKeyWf(d: Document, p: nat, k: nat)
    requires PagesAt(d, p) && k < |PagesOf(d, p).entries|
    ensures PagesOf(d, p).entries[k].name.Name? && WfBody(PagesOf(d, p).entries[k].name.key)
  {
    hide WfBody, FirstOfEntry;
    PagesIsWf(d, p);
  }

  // ---------------------------------------------------------------- the pages of one language

  /** A page and the keys its front matter refers to. */
  datatype Page = Page(slug: Bytes, keys: seq<Bytes>)

  predicate IsKeyChar(c: byte) {
    'a' <= c <= 'z' || 'A' <= c <= 'Z' || '0' <= c <= '9' || c == '_' || c == '.' || c == '-'
  }

  /** What a reference `t:KEY` can name. */
  predicate IsKey(k: Bytes) {
    k != "" && forall i | 0 <= i < |k| :: IsKeyChar(k[i])
  }

  /** The page can be exported and read back. */
  predicate Exportable(page: Page, data: T.Json) {
    FileName(page.slug) && forall k | k in page.keys :: IsKey(k) && TextOk(T.Shown(data, k))
  }

  /** Every text shown for a key of the page sits directly in the slug block. */
  predicate Shallow(page: Page, data: T.Json) {
    forall k | k in page.keys && T.Shown(data, k) != T.MISSING && T.SplitLeaf(k, page.slug).Some? ::
      T.NoDot(T.SplitLeaf(k, page.slug).value)
  }

  /** The file was exported for the page and parsed back. */
  predicate ReadBack(doc: T.EditableDoc, lang: Bytes, page: Page, data: T.Json) {
    T.Parsed(T.Rendered(page.slug, lang, page.keys, data)) == Ok(doc)
  }

  lemma ReadBackIs(doc: T.EditableDoc, lang: Bytes, page: Page, data: T.Json)
    requires FileName(lang) && Exportable(page, data) && ReadBack(doc, lang, page, data)
    ensures doc == T.EditableDoc(page.slug, lang, ReadValues(page.keys, data))
  {
    hide FileName, TextOk, T.Parsed, T.Rendered, T.Shown, ReadValues;
    forall k | k in page.keys ensures KeyOk(k) { KeyIsOk(k); }
    ParseRendered(page.slug, lang, page.keys, data);
  }

  lemma KeyIsOk(k: Bytes)
    requires IsKey(k)
    ensures KeyOk(k)
  {
  }

  /** Which leaves of a doc are hydrated, and with what. */
  lemma LeafShown(doc: T.EditableDoc, lang: Bytes, page: Page, data: T.Json, leaf: Bytes)
    requires FileName(lang) && Exportable(page, data) && ReadBack(doc, lang, page, data)
    ensures var full := T.FullKey(page.slug, leaf);
            leaf in LeavesOf(doc) <==>
              full in page.keys && T.Shown(data, full) != T.MISSING && T.SplitLeaf(full, page.slug) == Some(leaf)
    ensures leaf in LeavesOf(doc) ==> LeavesOf(doc)[leaf] == T.Shown(data, T.FullKey(page.slug, leaf))
  {
    hide FileName, TextOk, T.Clean, T.Outro, T.Shown, T.SplitLeaf, ReadBack, T.FullKey;
    var full := T.FullKey(page.slug, leaf);
    ReadBackIs(doc, lang, page, data);
    LeafIff(doc, doc.values.Keys, leaf);
    DotsAreNoLeaf(page.slug);
    if full in page.keys {
      ShownText(data, full);
    }
  }

  lemma ShownText(data: T.Json, key: Bytes)
    ensures T.Shown(data, key) != ""
    ensures T.Shown(data, key) != T.MISSING ==> T.LookupParts(data, T.Split(key)) == Some(T.Shown(data, key))
  {
    assert T.MISSING[0] == '<';
  }

  /** The key the instructions quote is dropped. */
  lemma DotsAreNoLeaf(slug: Bytes)
    ensures T.SplitLeaf("...", slug) == None
  {
    hide T.Split, T.Join;
    if T.SplitLeaf("...", slug).Some? {
      T.SplitLeafIff("...", slug, T.SplitLeaf("...", slug).value);
      FullKeyStarts(slug, T.SplitLeaf("...", slug).value);
      assert false;
    }
  }

  lemma FullKeyStarts(slug: Bytes, leaf: Bytes)
    ensures T.FullKey(slug, leaf) != "..."
  {
    assert T.FullKey(slug, leaf)[0] == 'p';
  }

  /** A three-part key that is shown is a canonical string member of its slug block. */
  lemma ShownIsMember(d: Document, p: nat, slug: Bytes, leaf: Bytes) returns (k: nat)
    requires Tidy(d, p) && T.NoDot(slug) && T.NoDot(leaf)
    requires T.Shown(Data(d), T.FullKey(slug, leaf)) != T.MISSING
    ensures SlugAt(d, p, k, slug)
    ensures var strings := Strings(SlugEntries(d, p, k, slug));
            leaf in strings && strings[leaf] == EncodeBody(T.Shown(Data(d), T.FullKey(slug, leaf)))
  {
    hide T.Split, Tidy, SlugAt, SlugEntries, Canonical, EncodeBody, Members, Strings, Data, T.Shown;
    var full := T.FullKey(slug, leaf);
    ShownText(Data(d), full);
    ThreeParts(slug, leaf);
    k := LookupBlock(d, p, slug, [leaf]);
    var es := SlugEntries(d, p, k, slug);
    LookupStep(Members(es), leaf, []);
    TextIsString(es, leaf);
  }

  lemma ThreeParts(slug: Bytes, leaf: Bytes)
    requires T.NoDot(slug) && T.NoDot(leaf)
    ensures T.Split(T.FullKey(slug, leaf)) == ["pages", slug] + [leaf]
  {
    hide T.Split;
    assert T.NoDot("pages");
    T.SplitHead("pages", slug + "." + leaf);
    T.SplitHead(slug, leaf);
    T.SplitAtom(leaf);
    assert "pages" + "." + (slug + "." + leaf) == T.FullKey(slug, leaf);
    assert ["pages"] + ([slug] + [leaf]) == ["pages", slug] + [leaf];
  }

  /** The slug has one place only. */
  lemma SamePlace(d: Document, p: nat, slug: Bytes, k: nat, j: nat)
    requires Tidy(d, p) && SlugAt(d, p, k, slug) && SlugAt(d, p, j, slug)
    ensures j == k
  {
    hide FirstOfEntry, WfBody, Wf, Canonical, StringOf;
    assert TidySlug(PagesOf(d, p).entries, k);
  }

  /** The leaves of a read-back doc are members of its slug block already. */
  lemma LeafSettled(d: Document, p: nat, lang: Bytes, page: Page, doc: T.EditableDoc, leaf: Bytes) returns (k: nat)
    requires Tidy(d, p) && FileName(lang) && Exportable(page, Data(d)) && ReadBack(doc, lang, page, Data(d))
    requires Shallow(page, Data(d)) && leaf in LeavesOf(doc)
    ensures SlugAt(d, p, k, page.slug) && WfBody(leaf)
    ensures var strings := Strings(SlugEntries(d, p, k, page.slug));
            leaf in strings && strings[leaf] == EncodeBody(LeavesOf(doc)[leaf])
  {
    hide Tidy, SlugAt, SlugEntries, Strings, Data, T.Shown, FileName, TextOk, ReadBack, LeavesOf, T.SplitLeaf, T.FullKey, T.NoDot, EncodeBody, WfBody;
    var full := T.FullKey(page.slug, leaf);
    LeafShown(doc, lang, page, Data(d), leaf);
    T.SplitLeafIff(full, page.slug, leaf);
    k := ShownIsMember(d, p, page.slug, leaf);
    LeafIsKey(page.slug, leaf);
  }

  lemma LeafIsKey(slug: Bytes, leaf: Bytes)
    requires IsKey(T.FullKey(slug, leaf))
    ensures WfBody(leaf)
  {
    hide WfBody;
    var full := T.FullKey(slug, leaf);
    var n := |full| - |leaf|;
    assert full[n..] == leaf;
    forall i | 0 <= i < |leaf| ensures IsKeyChar(leaf[i]) { assert leaf[i] == full[n + i]; }
    KeyBody(leaf);
  }

  lemma {:induction false} KeyBody(s: Bytes)
    requires forall i | 0 <= i < |s| :: IsKeyChar(s[i])
    ensures WfBody(s)
  {
    if s != "" {
      assert s[1..] != "" ==> forall i | 0 <= i < |s[1..]| :: s[1..][i] == s[i + 1];
      KeyBody(s[1..]);
      assert IsKeyChar(s[0]);
    }
  }

  /** Everything needed for a set of pages to be exported in one language and read back. */
  predicate AllReadBack(docs: seq<T.EditableDoc>, lang: Bytes, pages: seq<Page>, data: T.Json) {
    && FileName(lang) && |docs| == |pages|
    && forall i | 0 <= i < |pages| :: Exportable(pages[i], data) && Shallow(pages[i], data) && ReadBack(docs[i], lang, pages[i], data)
  }

  lemma GroupLeaf(d: Document, p: nat, lang: Bytes, pages: seq<Page>, docs: seq<T.EditableDoc>, slug: Bytes, leaf: Bytes) returns (k: nat)
    requires Tidy(d, p) && AllReadBack(docs, lang, pages, Data(d))
    requires slug in Grouped(docs) && leaf in Grouped(docs)[slug]
    ensures SlugAt(d, p, k, slug) && WfBody(leaf)
    ensures var strings := Strings(SlugEntries(d, p, k, slug));
            leaf in strings && strings[leaf] == EncodeBody(Grouped(docs)[slug][leaf])
  {
    hide Tidy, SlugAt, SlugEntries, Strings, Data, FileName, Exportable, Shallow, ReadBack, LeavesOf, Grouped, EncodeBody, WfBody;
    var i := LastGiver(docs, slug, leaf);
    DocSlug(docs[i], lang, pages[i], Data(d));
    k := LeafSettled(d, p, lang, pages[i], docs[i], leaf);
  }

  lemma DocSlug(doc: T.EditableDoc, lang: Bytes, page: Page, data: T.Json)
    requires FileName(lang) && Exportable(page, data) && ReadBack(doc, lang, page, data)
    ensures doc.slug == page.slug
  {
    hide FileName, Exportable, ReadBack, ReadValues;
    ReadBackIs(doc, lang, page, data);
  }

  /** Applying one group of read-back values changes nothing. */
  lemma GroupNoOp(d: Document, p: nat, lang: Bytes, pages: seq<Page>, docs: seq<T.EditableDoc>, slug: Bytes)
    requires Tidy(d, p) && AllReadBack(docs, lang, pages, Data(d)) && slug in Grouped(docs)
    ensures Apply(DocText(d), slug, Grouped(docs)[slug]) == Ok(DocText(d))
  {
    hide Tidy, SlugAt, SlugEntries, Strings, Data, AllReadBack, Grouped, EncodeBody, WfBody, DocText, FindSlug;
    var kv := Grouped(docs)[slug];
    if kv != map[] {
      var any :| any in kv;
      var k := GroupLeaf(d, p, lang, pages, docs, slug, any);
      forall leaf | leaf in kv
        ensures WfBody(leaf) && leaf in Strings(SlugEntries(d, p, k, slug))
        ensures Strings(SlugEntries(d, p, k, slug))[leaf] == EncodeBody(kv[leaf])
      {
        var j := GroupLeaf(d, p, lang, pages, docs, slug, leaf);
        SamePlace(d, p, slug, k, j);
      }
      AlreadyThere(d, p, k, slug, kv);
    }
  }

  lemma AlreadyThere(d: Document, p: nat, k: nat, slug: Bytes, kv: Updates)
    requires SlugAt(d, p, k, slug)
    requires forall leaf | leaf in kv :: WfBody(leaf) && leaf in Strings(SlugEntries(d, p, k, slug))
    requires forall leaf | leaf in kv :: Strings(SlugEntries(d, p, k, slug))[leaf] == EncodeBody(kv[leaf])
    ensures Apply(DocText(d), slug, kv) == Ok(DocText(d))
  {
    hide SlugAt, Strings, EncodeBody, WfBody, DocText, Apply, SlugOf;
    ApplyUnchangedIff(d, p, k, slug, kv);
  }

  /** Extract, then hydrate: for any pages of a tidy language file whose shown texts survive
      the editable form and sit directly in their slug blocks, hydration returns the very
      bytes of the file, in whatever order the slugs are visited. */
  lemma {:induction false} ExtractHydrate(d: Document, p: nat, lang: Bytes, pages: seq<Page>, docs: seq<T.EditableDoc>, order: seq<Bytes>)
    requires Tidy(d, p) && AllReadBack(docs, lang, pages, Data(d))
    requires forall k | 0 <= k < |order| :: order[k] in Grouped(docs)
    ensures HydrateInOrder(DocText(d), Grouped(docs), order) == Ok(DocText(d))
    decreases |order|
  {
    hide Tidy, Data, AllReadBack, Grouped, DocText, Apply;
    if order != [] {
      GroupNoOp(d, p, lang, pages, docs, order[0]);
      ExtractHydrate(d, p, lang, pages, docs, order[1..]);
    }
  }

  /** So that is the result of hydrating the language. */
  lemma HydratedUnchanged(d: Document, p: nat, lang: Bytes, pages: seq<Page>, docs: seq<T.EditableDoc>, r: Result<Bytes, EditError>)
    requires Tidy(d, p) && AllReadBack(docs, lang, pages, Data(d)) && Hydrated(DocText(d), Grouped(docs), r)
    ensures r == Ok(DocText(d))
  {
    hide Tidy, Data, AllReadBack, Grouped, DocText, Apply;
    var order :| Visits(Grouped(docs), order) && r == HydrateInOrder(DocText(d), Grouped(docs), order);
    ExtractHydrate(d, p, lang, pages, docs, order);
  }

  // ---------------------------------------------------------------- deeper keys

  predicate NoDottedNames(es: seq<Entry>) {
    forall j | 0 <= j < |es| && es[j].name.Name? :: T.NoDot(es[j].name.key)
  }

  lemma {:induction false} NoDottedString(es: seq<Entry>, leaf: Bytes)
    requires NoDottedNames(es) && !T.NoDot(leaf)
    ensures leaf !in Strings(es)
  {
    hide T.NoDot;
    if es != [] { NoDottedString(es[1..], leaf); }
  }

  /** A key of more than three parts is looked up inside nested blocks but written as one
      dotted member: hydration leaves the file as it is exactly when no such key is shown. */
  lemma DeepKeysIff(d: Document, p: nat, k: nat, lang: Bytes, page: Page, doc: T.EditableDoc)
    requires Tidy(d, p) && FileName(lang) && Exportable(page, Data(d)) && ReadBack(doc, lang, page, Data(d))
    requires SlugAt(d, p, k, page.slug) && NoDottedNames(SlugEntries(d, p, k, page.slug))
    ensures Apply(DocText(d), page.slug, LeavesOf(doc)) == Ok(DocText(d)) <==> Shallow(page, Data(d))
  {
    hide Tidy, SlugAt, SlugOf, Strings, Data, FileName, Exportable, Shallow, ReadBack, LeavesOf, EncodeBody, WfBody, DocText, Apply, NoDottedNames;
    var kv := LeavesOf(doc);
    forall leaf | leaf in kv ensures WfBody(leaf) { HydratedLeafWf(doc, lang, page, Data(d), leaf); }
    ApplyUnchangedIff(d, p, k, page.slug, kv);
    if Shallow(page, Data(d)) {
      forall leaf | leaf in kv
        ensures leaf in Strings(SlugEntries(d, p, k, page.slug))
        ensures Strings(SlugEntries(d, p, k, page.slug))[leaf] == EncodeBody(kv[leaf])
      {
        var j := LeafSettled(d, p, lang, page, doc, leaf);
        SamePlace(d, p, page.slug, k, j);
      }
    } else {
      var leaf := DeepLeaf(doc, lang, page, Data(d));
      NoDottedString(SlugEntries(d, p, k, page.slug), leaf);
    }
  }

  lemma HydratedLeafWf(doc: T.EditableDoc, lang: Bytes, page: Page, data: T.Json, leaf: Bytes)
    requires FileName(lang) && Exportable(page, data) && ReadBack(doc, lang, page, data) && leaf in LeavesOf(doc)
    ensures WfBody(leaf)
  {
    hide FileName, TextOk, ReadBack, LeavesOf, WfBody, T.FullKey, T.SplitLeaf, T.Shown;
    LeafShown(doc, lang, page, data, leaf);
    LeafIsKey(page.slug, leaf);
  }

  lemma DeepLeaf(doc: T.EditableDoc, lang: Bytes, page: Page, data: T.Json) returns (leaf: Bytes)
    requires FileName(lang) && Exportable(page, data) && ReadBack(doc, lang, page, data) && !Shallow(page, data)
    ensures leaf in LeavesOf(doc) && !T.NoDot(leaf)
  {
    hide FileName, TextOk, ReadBack, LeavesOf, T.FullKey, T.SplitLeaf, T.Shown, T.NoDot;
    var k :| k in page.keys && T.Shown(data, k) != T.MISSING && T.SplitLeaf(k, page.slug).Some?
          && !T.NoDot(T.SplitLeaf(k, page.slug).value);
    leaf := T.SplitLeaf(k, page.slug).value;
    T.SplitLeafIff(k, page.slug, leaf);
    LeafShown(doc, lang, page, data, leaf);
  }

  // ---------------------------------------------------------------- an instance with a deeper key

  function Member(key: Bytes, v: Value): Entry { Entry("", Name(key, "", ""), v, "") }

  function Block(key: Bytes, v: Value): Value { Node(Object, "", [Member(key, v)]) }

  /** `{"pages":{"home":{"a":{"b":"x"}}}}` */
  function DeepFile(): Document {
    Document("", Block("pages", Block("home", Block("a", Block("b", Str("x"))))), "")
  }

  function DeepPage(): Page {
    Page("home", [T.FullKey("home", "a.b")])
  }

  lemma BlockWf(key: Bytes, v: Value)
    requires WfBody(key) && Wf(v)
    ensures Wf(Block(key, v)) && IsObject(Block(key, v))
  {
    hide WfBody;
    var es := [Member(key, v)];
    assert WfEntry(Object, es[0]);
    WfEntriesFrom(Object, es);
    assert Block(key, v).entries == es;
  }

  lemma AsciiName(key: Bytes)
    requires forall i | 0 <= i < |key| :: IsKeyChar(key[i])
    ensures WfBody(key) && StringOf(key) == key
    decreases |key|
  {
    hide WfBody, Decode;
    if key == "" {
      EmptyWf();
      DecodeEmpty();
    } else {
      AsciiName(key[1..]);
      assert IsKeyChar(key[0]);
      DecodePlain(key[0], key[1..]);
      assert [key[0]] + key[1..] == key;
    }
  }

  lemma DeepFileTidy()
    ensures Tidy(DeepFile(), 0) && SlugAt(DeepFile(), 0, 0, "home")
    ensures NoDottedNames(SlugEntries(DeepFile(), 0, 0, "home"))
  {
    hide WfBody, StringOf, Wf;
    var x := Str("x");
    AsciiName("x"); AsciiName("b"); AsciiName("a"); AsciiName("home"); AsciiName("pages");
    assert Wf(x) by { StrWf("x"); }
    BlockWf("b", x);
    BlockWf("a", Block("b", x));
    BlockWf("home", Block("a", Block("b", x)));
    BlockWf("pages", Block("home", Block("a", Block("b", x))));
    var d := DeepFile();
    assert PagesAt(d, 0);
    assert PagesOf(d, 0).entries == [Member("home", Block("a", Block("b", x)))];
    assert TidySlug(PagesOf(d, 0).entries, 0);
    assert SlugEntries(d, 0, 0, "home") == [Member("a", Block("b", x))];
    assert T.NoDot("a");
  }

  lemma StrWf(s: Bytes)
    requires WfBody(s)
    ensures Wf(Str(s))
  {
  }

  lemma OneMember(key: Bytes, v: Value)
    requires StringOf(key) == key
    ensures Decoded(Block(key, v)) == T.Dict(map[key := Decoded(v)])
  {
    hide StringOf;
    var es := [Member(key, v)];
    assert es[1..] == [];
    assert Members([]) == map[];
    assert Members(es) == map[key := Decoded(v)];
  }

  /** In this file the text of `pages.home.a.b` is shown, so it is not shallow, and hydration
      writes a second copy of it under the dotted name. */
  lemma DeepKeyExample(lang: Bytes, doc: T.EditableDoc)
    requires FileName(lang) && ReadBack(doc, lang, DeepPage(), Data(DeepFile()))
    ensures Exportable(DeepPage(), Data(DeepFile())) && !Shallow(DeepPage(), Data(DeepFile()))
    ensures Apply(DocText(DeepFile()), "home", LeavesOf(doc)) != Ok(DocText(DeepFile()))
  {
    hide Tidy, SlugAt, SlugEntries, T.Split, T.SplitLeaf, T.FullKey, T.Parsed, T.Rendered, LeavesOf, Apply, DocText, NoDottedNames, TextOk, T.Shown;
    DeepFileTidy();
    DeepShown();
    assert T.NoDot("home");
    T.LeafOfFullKey("home", "a.b");
    assert !T.NoDot("a.b") by { assert "a.b"[1] == '.'; }
    DeepKeyChars();
    DeepKeysIff(DeepFile(), 0, 0, lang, DeepPage(), doc);
  }

  lemma DeepKeyChars()
    ensures IsKey(T.FullKey("home", "a.b")) && FileName("home")
  {
    assert T.FullKey("home", "a.b") == "pages.home.a.b";
  }

  lemma DeepShown()
    ensures T.Shown(Data(DeepFile()), T.FullKey("home", "a.b")) == "x" && TextOk("x") && "x" != T.MISSING
  {
    hide StringOf, T.Split, Decoded, T.LookupParts, TextOk;
    AsciiName("x"); AsciiName("b"); AsciiName("a"); AsciiName("home"); AsciiName("pages");
    var x := Str("x");
    OneMember("b", x);
    OneMember("a", Block("b", x));
    OneMember("home", Block("a", Block("b", x)));
    OneMember("pages", Block("home", Block("a", Block("b", x))));
    DeepParts();
    LookupEnd("x");
    LookupFour("pages", "home", "a", "b", Decoded(x), "x");
    assert "x" != T.MISSING by { assert |T.MISSING| != 1; }
    XTextOk();
  }

  lemma LookupFour(k1: Bytes, k2: Bytes, k3: Bytes, k4: Bytes, j: T.Json, v: Bytes)
    requires T.LookupParts(j, []) == Some(v)
    ensures T.LookupParts(T.Dict(map[k1 := T.Dict(map[k2 := T.Dict(map[k3 := T.Dict(map[k4 := j])])])]), [k1, k2, k3, k4]) == Some(v)
  {
    hide T.LookupParts;
    assert [k1] + [k2, k3, k4] == [k1, k2, k3, k4] && [k2] + [k3, k4] == [k2, k3, k4] && [k3] + [k4] == [k3, k4] && [k4] + [] == [k4];
    LookupStep(map[k1 := T.Dict(map[k2 := T.Dict(map[k3 := T.Dict(map[k4 := j])])])], k1, [k2, k3, k4]);
    LookupStep(map[k2 := T.Dict(map[k3 := T.Dict(map[k4 := j])])], k2, [k3, k4]);
    LookupStep(map[k3 := T.Dict(map[k4 := j])], k3, [k4]);
    LookupStep(map[k4 := j], k4, []);
  }

  lemma LookupEnd(s: Bytes)
    requires StringOf(s) == s
    ensures T.LookupParts(Decoded(Str(s)), []) == Some(s)
  {
    hide StringOf;
  }

  lemma XTextOk()
    ensures TextOk("x")
  {
    NoColon("x", 0);
    MarkersSkip("x", 0, 1);
  }

  lemma DeepParts()
    ensures T.Split(T.FullKey("home", "a.b")) == ["pages", "home", "a", "b"]
  {
    hide T.Split;
    assert T.NoDot("pages") && T.NoDot("home") && T.NoDot("a") && T.NoDot("b");
    T.SplitHead("pages", "home" + "." + "a.b");
    T.SplitHead("home", "a.b");
    T.SplitHead("a", "b");
    T.SplitAtom("b");
    assert "a" + "." + "b" == "a.b";
    assert "pages" + "." + ("home" + "." + "a.b") == T.FullKey("home", "a.b");
  }
}
