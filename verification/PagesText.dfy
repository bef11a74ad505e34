/** The editable markdown of cmd/pages.go: the printer `renderEditable`, the parser
    `parseEditable`, and key splitting. */
module PagesText {
  import opened Wrappers
  import opened Bytes

  // ---------------------------------------------------------------- dotted keys

  /** `strings.Split(s, ".")`. */
  function Split(s: Bytes): (parts: seq<Bytes>)
    ensures parts != []
    decreases |s|
  {
    var i := IndexOf(s, '.', 0);
    if i == |s| then [s] else [s[..i]] + Split(s[i + 1..])
  }

  /** `strings.Join(parts, ".")`. */
  function Join(parts: seq<Bytes>): Bytes {
    if parts == [] then "" else if |parts| == 1 then parts[0] else parts[0] + "." + Join(parts[1..])
  }

  predicate NoDot(s: Bytes) { forall k | 0 <= k < |s| :: s[k] != '.' }

  lemma {:induction false} JoinSplit(s: Bytes)
    ensures Join(Split(s)) == s
    decreases |s|
  {
    var i := IndexOf(s, '.', 0);
    if i < |s| {
      JoinSplit(s[i + 1..]);
      assert s == s[..i] + "." + s[i + 1..];
    }
  }

  /** A dot-free head is the first part. */
  lemma SplitHead(a: Bytes, s: Bytes)
    requires NoDot(a)
    ensures Split(a + "." + s) == [a] + Split(s)
  {
    var t := a + "." + s;
    assert t[|a|] == '.' && forall k | 0 <= k < |a| :: t[k] == a[k];
    assert IndexOf(t, '.', 0) == |a|;
    assert t[..|a|] == a && t[|a| + 1..] == s;
  }

  lemma SplitAtom(a: Bytes)
    requires NoDot(a)
    ensures Split(a) == [a]
  {
    assert IndexOf(a, '.', 0) == |a|;
  }

  lemma {:induction false} PartsNoDot(s: Bytes)
    ensures forall k | 0 <= k < |Split(s)| :: NoDot(Split(s)[k])
    decreases |s|
  {
    var i := IndexOf(s, '.', 0);
    if i < |s| { PartsNoDot(s[i + 1..]); }
  }

  function SplitLeaf(fullKey: Bytes, slug: Bytes): Option<Bytes> {
    var parts := Split(fullKey);
    if |parts| < 3 || parts[0] != "pages" || parts[1] != slug then None else Some(Join(parts[2..]))
  }

  function FullKey(slug: Bytes, leaf: Bytes): Bytes {
    "pages" + "." + (slug + "." + leaf)
  }

  /** `splitLeaf` accepts exactly the keys below `pages.<slug>`, and returns what follows;
      no key is below a slug with a dot. */
  lemma SplitLeafIff(fullKey: Bytes, slug: Bytes, leaf: Bytes)
    ensures SplitLeaf(fullKey, slug) == Some(leaf) <==> NoDot(slug) && fullKey == FullKey(slug, leaf)
  {
    hide *;
    if NoDot(slug) && fullKey == FullKey(slug, leaf) {
      LeafOfFullKey(slug, leaf);
    } else if SplitLeaf(fullKey, slug) == Some(leaf) {
      LeafIsFullKey(fullKey, slug, leaf);
    }
  }

  lemma LeafOfFullKey(slug: Bytes, leaf: Bytes)
    requires NoDot(slug)
    ensures SplitLeaf(FullKey(slug, leaf), slug) == Some(leaf)
  {
    hide Split, Join;
    assert NoDot("pages");
    SplitHead("pages", slug + "." + leaf);
    SplitHead(slug, leaf);
    assert FullKey(slug, leaf) == "pages" + "." + (slug + "." + leaf);
    var parts := ["pages"] + ([slug] + Split(leaf));
    assert Split(FullKey(slug, leaf)) == parts;
    assert parts[0] == "pages" && parts[1] == slug && parts[2..] == Split(leaf);
    JoinSplit(leaf);
  }

  lemma JoinTwo(parts: seq<Bytes>)
    requires |parts| >= 3
    ensures Join(parts) == parts[0] + "." + (parts[1] + "." + Join(parts[2..]))
  {
    assert parts[1..][1..] == parts[2..];
  }

  lemma LeafIsFullKey(fullKey: Bytes, slug: Bytes, leaf: Bytes)
    requires SplitLeaf(fullKey, slug) == Some(leaf)
    ensures NoDot(slug) && fullKey == FullKey(slug, leaf)
  {
    hide Split, Join, NoDot;
    PartsNoDot(fullKey);
    assert NoDot(Split(fullKey)[1]);
    JoinSplit(fullKey);
    JoinTwo(Split(fullKey));
  }

  // ---------------------------------------------------------------- decoded JSON

  /** A decoded JSON value, as far as `lookup` looks at it. */
  datatype Json = Text(text: Bytes) | Dict(members: map<Bytes, Json>) | Other

  function LookupParts(j: Json, parts: seq<Bytes>): Option<Bytes>
    decreases |parts|
  {
    if parts == [] then if j.Text? then Some(j.text) else None
    else if j.Dict? && parts[0] in j.members then LookupParts(j.members[parts[0]], parts[1..])
    else None
  }

  method Lookup(m: Json, dotted: Bytes) returns (r: Option<Bytes>)
    ensures r == LookupParts(m, Split(dotted))
  {
    var parts := Split(dotted);
    var cur := m;
    var i := 0;
    while i < |parts|
      invariant 0 <= i <= |parts|
      invariant LookupParts(m, parts) == LookupParts(cur, parts[i..])
    {
      if !cur.Dict? || parts[i] !in cur.members {
        return None;
      }
      assert parts[i..][1..] == parts[i + 1..];
      cur := cur.members[parts[i]];
      i := i + 1;
    }
    assert parts[i..] == [];
    return if cur.Text? then Some(cur.text) else None;
  }

  // ---------------------------------------------------------------- white space

  /** White space of Go's regular expressions. */
  predicate IsRegexpSpace(c: byte) {
    c == '\t' || c == '\n' || c == '\U{0C}' || c == '\r' || c == ' '
  }

  predicate IsAsciiSpace(c: byte) {
    IsRegexpSpace(c) || c == '\U{0B}'
  }

  /** The UTF-8 forms of the white space above ASCII. */
  predicate IsWideSpace(r: Bytes) {
    || r == "\U{C2}\U{85}" || r == "\U{C2}\U{A0}" || r == "\U{E1}\U{9A}\U{80}"
    || (|r| == 3 && r[0] == '\U{E2}' && r[1] == '\U{80}' && '\U{80}' <= r[2] <= '\U{8A}')
    || r == "\U{E2}\U{80}\U{A8}" || r == "\U{E2}\U{80}\U{A9}" || r == "\U{E2}\U{80}\U{AF}"
    || r == "\U{E2}\U{81}\U{9F}" || r == "\U{E3}\U{80}\U{80}"
  }

  /** The length of the white-space character `s` starts with, or 0. */
  function SpaceAtStart(s: Bytes): (n: nat)
    ensures n <= |s|
  {
    if s != "" && IsAsciiSpace(s[0]) then 1
    else if |s| >= 2 && IsWideSpace(s[..2]) then 2
    else if |s| >= 3 && IsWideSpace(s[..3]) then 3
    else 0
  }

  function SpaceAtEnd(s: Bytes): (n: nat)
    ensures n <= |s|
  {
    if s != "" && IsAsciiSpace(s[|s| - 1]) then 1
    else if |s| >= 2 && IsWideSpace(s[|s| - 2..]) then 2
    else if |s| >= 3 && IsWideSpace(s[|s| - 3..]) then 3
    else 0
  }

  function TrimLeft(s: Bytes): Bytes
    decreases |s|
  {
    if SpaceAtStart(s) == 0 then s else TrimLeft(s[SpaceAtStart(s)..])
  }

  function TrimRight(s: Bytes): Bytes
    decreases |s|
  {
    if SpaceAtEnd(s) == 0 then s else TrimRight(s[..|s| - SpaceAtEnd(s)])
  }

  /** `strings.TrimSpace`. */
  function TrimSpace(s: Bytes): Bytes {
    TrimRight(TrimLeft(s))
  }

  predicate Trimmed(s: Bytes) {
    s != "" && SpaceAtStart(s) == 0 && SpaceAtEnd(s) == 0
  }

  /** A trimmed text between line breaks is what trimming leaves. */
  lemma TrimLines(v: Bytes)
    requires Trimmed(v)
    ensures TrimSpace("\n" + (v + "\n\n")) == v
  {
    hide TrimLeft, TrimRight, SpaceAtStart, SpaceAtEnd;
    assert v != "" && SpaceAtStart(v) == 0 && SpaceAtEnd(v) == 0;
    SpaceStays(v, "\n\n");
    LeftLine(v + "\n\n");
    RightLine(v + "\n");
    RightLine(v);
    assert v + "\n\n" == (v + "\n") + "\n";
    TrimmedStays(v);
  }

  lemma TrimmedStays(v: Bytes)
    requires SpaceAtEnd(v) == 0
    ensures TrimRight(v) == v
  {
  }

  lemma LeftLine(s: Bytes)
    requires SpaceAtStart(s) == 0
    ensures TrimLeft("\n" + s) == s
  {
    var t := "\n" + s;
    assert SpaceAtStart(t) == 1 && t[1..] == s;
  }

  lemma RightLine(s: Bytes)
    ensures TrimRight(s + "\n") == TrimRight(s)
  {
    var t := s + "\n";
    assert SpaceAtEnd(t) == 1 && t[..|s|] == s;
  }

  lemma SpaceStays(v: Bytes, w: Bytes)
    requires v != "" && SpaceAtStart(v) == 0 && w != "" && w[0] == '\n'
    ensures SpaceAtStart(v + w) == 0
  {
    var s := v + w;
    assert forall k | 0 <= k < |v| :: s[k] == v[k];
    assert s[|v|] == '\n';
    if |v| >= 2 { assert s[..2] == v[..2]; }
    if |v| >= 3 { assert s[..3] == v[..3]; }
    if |v| == 2 { assert s[..3][2] == '\n'; }
    if |v| == 1 {
      assert s[..2][1] == '\n';
      if |s| >= 3 { assert s[..3][1] == '\n'; }
    }
  }

  // ---------------------------------------------------------------- the key marker

  const MARKER_OPEN: Bytes := "<!--key:"
  const MARKER_END: Bytes := "-->"
  const MISSING: Bytes := "<!--MISSING-->"

  /** A match of the expression `<!--key:(.+?)-->`: where it starts and where its key ends. */
  datatype Marker = Marker(start: nat, keyEnd: nat)

  /** The first `-->` at or after `i` on the same line. */
  function LazyEnd(s: Bytes, i: nat): (r: Option<nat>)
    ensures r.Some? ==> i <= r.value && r.value + 3 <= |s|
    decreases if i < |s| then |s| - i else 0
  {
    if i >= |s| then None
    else if At(s, i, MARKER_END) then Some(i)
    else if s[i] == '\n' then None
    else LazyEnd(s, i + 1)
  }

  function MarkerAt(s: Bytes, i: nat): (r: Option<nat>)
    ensures r.Some? ==> i + 9 <= r.value && r.value + 3 <= |s|
  {
    if !At(s, i, MARKER_OPEN) || i + 8 >= |s| || s[i + 8] == '\n' then None else LazyEnd(s, i + 9)
  }

  /** All matches from `i` on, leftmost first, none overlapping. */
  function Markers(s: Bytes, i: nat): (ms: seq<Marker>)
    ensures forall k | 0 <= k < |ms| :: i <= ms[k].start && ms[k].start + 9 <= ms[k].keyEnd && ms[k].keyEnd + 3 <= |s|
    ensures forall k | 0 < k < |ms| :: ms[k - 1].keyEnd + 3 <= ms[k].start
    decreases if i < |s| then |s| - i else 0
  {
    if i >= |s| then []
    else
      match MarkerAt(s, i)
      case None => Markers(s, i + 1)
      case Some(keyEnd) => [Marker(i, keyEnd)] + Markers(s, keyEnd + 3)
  }

  // ---------------------------------------------------------------- the header

  const HEADER: Bytes := "<!-- pletka-pages-edit v1"

  /** The first `-->` at or after `i`. */
  function FindEnd(s: Bytes, i: nat): (r: Option<nat>)
    ensures r.Some? ==> i <= r.value && r.value + 3 <= |s|
    decreases if i < |s| then |s| - i else 0
  {
    if i >= |s| then None else if At(s, i, MARKER_END) then Some(i) else FindEnd(s, i + 1)
  }

  /** The end of the run of white space, or of other characters, at `i`. */
  function RunEnd(s: Bytes, i: nat, space: bool): (j: nat)
    requires i <= |s|
    ensures i <= j <= |s|
    ensures forall k | i <= k < j :: IsRegexpSpace(s[k]) == space
    ensures j < |s| ==> IsRegexpSpace(s[j]) != space
    decreases |s| - i
  {
    if i < |s| && IsRegexpSpace(s[i]) == space then RunEnd(s, i + 1, space) else i
  }

  /** The group of a match of `^name:\s*(\S+)\s*$`, in multi-line mode, at position `i`. */
  function FieldAt(hdr: Bytes, i: nat, label_: Bytes): Option<Bytes> {
    if (i > 0 && i <= |hdr| && hdr[i - 1] != '\n') || !At(hdr, i, label_) then None
    else
      var start := RunEnd(hdr, i + |label_|, true);
      var end := RunEnd(hdr, start, false);
      var next := RunEnd(hdr, end, true);
      if start < end && (next == |hdr| || '\n' in hdr[end..next]) then Some(hdr[start..end]) else None
  }

  function Field(hdr: Bytes, i: nat, label_: Bytes): Option<Bytes>
    decreases if i < |hdr| then |hdr| - i else 0
  {
    if i >= |hdr| then None
    else if FieldAt(hdr, i, label_).Some? then FieldAt(hdr, i, label_)
    else Field(hdr, i + 1, label_)
  }

  // ---------------------------------------------------------------- parseEditable

  type Values = map<Bytes, Bytes>

  datatype EditableDoc = EditableDoc(slug: Bytes, lang: Bytes, values: Values)

  datatype ParseError = MissingHeader | UnterminatedHeader | HeaderIncomplete

  function Clean(raw: Bytes): Bytes {
    if TrimSpace(raw) == MISSING then "" else TrimSpace(raw)
  }

  /** The text between marker `k` and the next one, or the end. */
  function ValueText(body: Bytes, ms: seq<Marker>, k: nat): Bytes
    requires k < |ms| && ms[k].keyEnd + 3 <= |body|
    requires k + 1 < |ms| ==> ms[k].keyEnd + 3 <= ms[k + 1].start <= |body|
  {
    body[ms[k].keyEnd + 3..if k + 1 < |ms| then ms[k + 1].start else |body|]
  }

  predicate InBody(body: Bytes, ms: seq<Marker>) {
    && (forall k | 0 <= k < |ms| :: ms[k].start + 9 <= ms[k].keyEnd && ms[k].keyEnd + 3 <= |body|)
    && (forall k | 0 < k < |ms| :: ms[k - 1].keyEnd + 3 <= ms[k].start)
  }

  /** Key to cleaned value, for the markers from `k` on; a later one wins. */
  function ValuesFrom(body: Bytes, ms: seq<Marker>, k: nat): Values
    requires InBody(body, ms) && k <= |ms|
    decreases |ms| - k
  {
    if k == |ms| then map[]
    else map[body[ms[k].start + 8..ms[k].keyEnd] := Clean(ValueText(body, ms, k))] + ValuesFrom(body, ms, k + 1)
  }

  function BodyValues(body: Bytes): Values {
    ValuesFrom(body, Markers(body, 0), 0)
  }

  predicate HasHeader(src: Bytes) { At(src, 0, HEADER) }

  /** The two fields of the header, and the rest. */
  function ParsedFields(hdr: Bytes, body: Bytes): Result<EditableDoc, ParseError> {
    var slug, lang := Field(hdr, 0, "slug:"), Field(hdr, 0, "lang:");
    if slug.None? || lang.None? then Err(HeaderIncomplete)
    else Ok(EditableDoc(slug.value, lang.value, BodyValues(body)))
  }

  function Parsed(src: Bytes): Result<EditableDoc, ParseError> {
    if !HasHeader(src) then Err(MissingHeader)
    else
      match FindEnd(src, 0)
      case None => Err(UnterminatedHeader)
      case Some(hdrEnd) => ParsedFields(src[..hdrEnd], src[hdrEnd + 3..])
  }

  method ParseEditable(src: Bytes) returns (r: Result<EditableDoc, ParseError>)
    ensures r == Parsed(src)
  {
    hide Field, FindEnd, BodyValues, HasHeader, At;
    if !HasHeader(src) {
      return Err(MissingHeader);
    }
    var hdrEnd := FindEnd(src, 0);
    if hdrEnd == None {
      return Err(UnterminatedHeader);
    }
    var slug := Field(src[..hdrEnd.value], 0, "slug:");
    var lang := Field(src[..hdrEnd.value], 0, "lang:");
    if slug.None? || lang.None? {
      return Err(HeaderIncomplete);
    }
    var values := ReadValues(src[hdrEnd.value + 3..]);
    return Ok(EditableDoc(slug.value, lang.value, values));
  }

  method CleanValue(text: Bytes) returns (raw: Bytes)
    ensures raw == Clean(text)
  {
    hide TrimSpace;
    raw := TrimSpace(text);
    if raw == MISSING {
      raw := "";
    }
  }

  /** The loop over the matches of the marker. */
  method ReadValues(body: Bytes) returns (values: Values)
    ensures values == BodyValues(body)
  {
    hide Markers, Clean, At, TrimSpace;
    var matches := Markers(body, 0);
    values := map[];
    var i := 0;
    while i < |matches|
      invariant 0 <= i <= |matches|
      invariant values + ValuesFrom(body, matches, i) == BodyValues(body)
    {
      var key := body[matches[i].start + 8..matches[i].keyEnd];
      var valEnd := if i + 1 < |matches| then matches[i + 1].start else |body|;
      var raw := CleanValue(body[matches[i].keyEnd + 3..valEnd]);
      AddValue(values, key, raw, ValuesFrom(body, matches, i + 1));
      values := values[key := raw];
      i := i + 1;
    }
  }

  lemma AddValue(m: Values, k: Bytes, v: Bytes, rest: Values)
    ensures m + (map[k := v] + rest) == m[k := v] + rest
  {
  }

  // ---------------------------------------------------------------- renderEditable

  function Upper(c: byte): Bytes {
    if 'a' <= c <= 'z' then [(c as int - 32) as char]
    else if c < '\U{80}' then [c]
    else "\U{EF}\U{BF}\U{BD}"
  }

  function TitleSlug(s: Bytes): Bytes {
    if s == "" then s else Upper(s[0]) + s[1..]
  }

  const INTRO: Bytes := "Edit prose between the `"
  const OUTRO_1: Bytes := "` markers. Do not rename, reorder, or "
  const OUTRO_2: Bytes := "remove the markers. Run `pletka pages "
  const OUTRO_3: Bytes := "hydrate` to write changes back to the "
  const OUTRO_4: Bytes := "language JSON.\n\n"

  function Outro(): Bytes {
    OUTRO_1 + (OUTRO_2 + (OUTRO_3 + OUTRO_4))
  }

  function HeaderText(slug: Bytes, lang: Bytes): Bytes {
    HEADER + ("\nslug: " + (slug + ("\nlang: " + (lang + "\n"))))
  }

  /** The heading and the instructions, which quote a marker themselves. */
  function Preamble(slug: Bytes, lang: Bytes): Bytes {
    "\n\n# " + (TitleSlug(slug) + (" (" + (lang + (")\n\n" + INTRO))))
  }

  function Shown(data: Json, key: Bytes): Bytes {
    var v := LookupParts(data, Split(key));
    if v.None? || v.value == "" then MISSING else v.value
  }

  function Segment(key: Bytes, text: Bytes): Bytes {
    MARKER_OPEN + (key + (MARKER_END + ("\n" + text + "\n\n")))
  }

  function Segments(keys: seq<Bytes>, data: Json): Bytes {
    if keys == [] then "" else Segment(keys[0], Shown(data, keys[0])) + Segments(keys[1..], data)
  }

  function Rendered(slug: Bytes, lang: Bytes, keys: seq<Bytes>, data: Json): Bytes {
    HeaderText(slug, lang) + (MARKER_END +
      (Preamble(slug, lang) + (MARKER_OPEN + ("..." + (MARKER_END + (Outro() + Segments(keys, data)))))))
  }

  function Head(slug: Bytes, lang: Bytes): Bytes {
    HeaderText(slug, lang) + (MARKER_END + (Preamble(slug, lang) + (MARKER_OPEN + ("..." + (MARKER_END + Outro())))))
  }

  method RenderEditable(slug: Bytes, lang: Bytes, keys: seq<Bytes>, data: Json) returns (b: Bytes)
    ensures b == Rendered(slug, lang, keys, data)
  {
    hide Segment, LookupParts, Split, Head, Rendered;
    b := Head(slug, lang);
    var i := 0;
    while i < |keys|
      invariant 0 <= i <= |keys|
      invariant b + Segments(keys[i..], data) == Head(slug, lang) + Segments(keys, data)
    {
      var val := Lookup(data, keys[i]);
      var text := if val.None? || val.value == "" then MISSING else val.value;
      assert keys[i..][0] == keys[i] && keys[i..][1..] == keys[i + 1..];
      Append(b, Segment(keys[i], text), Segments(keys[i + 1..], data));
      b := b + Segment(keys[i], text);
      i := i + 1;
    }
    assert keys[i..] == [];
    assert b == b + Segments([], data);
    RenderedIs(slug, lang, keys, data);
  }

  lemma Append(a: Bytes, b: Bytes, c: Bytes)
    ensures a + (b + c) == (a + b) + c
  {
  }

  lemma RenderedIs(slug: Bytes, lang: Bytes, keys: seq<Bytes>, data: Json)
    ensures Head(slug, lang) + Segments(keys, data) == Rendered(slug, lang, keys, data)
  {
    hide Segments, HeaderText, Preamble, Outro;
    RegroupSeven(HeaderText(slug, lang), MARKER_END, Preamble(slug, lang), MARKER_OPEN, "...", Outro(), Segments(keys, data));
  }

  lemma RegroupSeven(a: Bytes, b: Bytes, c: Bytes, d: Bytes, e: Bytes, f: Bytes, g: Bytes)
    ensures (a + (b + (c + (d + (e + (b + f)))))) + g == a + (b + (c + (d + (e + (b + (f + g))))))
  {
  }
}
