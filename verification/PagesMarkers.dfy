/** `parseEditable` undoes `renderEditable`: it finds the header fields and, for every printed
    key, the cleaned text that was printed for it. */
module PagesMarkers {
  import opened Wrappers
  import opened Bytes
  import opened PagesText

  // ---------------------------------------------------------------- the header

  /** A slug or language name as file names give them. */
  predicate FileName(s: Bytes) {
    s != "" && forall k | 0 <= k < |s| :: !IsRegexpSpace(s[k]) && s[k] != '<' && s[k] != '>'
  }

  lemma {:induction false} FindEndAt(s: Bytes, i: nat, n: nat)
    requires i <= n && At(s, n, MARKER_END)
    requires forall k | i <= k < n + 2 :: s[k] != '>'
    ensures FindEnd(s, i) == Some(n)
    decreases n - i
  {
    hide At;
    if i < n {
      if At(s, i, MARKER_END) {
        AtChar(s, i, MARKER_END, 2);
        assert false;
      }
      FindEndAt(s, i + 1, n);
    }
  }

  lemma {:induction false} FieldSkip(hdr: Bytes, i: nat, j: nat, name: Bytes)
    requires i <= j <= |hdr|
    requires forall k | i <= k < j :: FieldAt(hdr, k, name) == None
    ensures Field(hdr, i, name) == Field(hdr, j, name)
    decreases j - i
  {
    hide FieldAt;
    if i < j { FieldSkip(hdr, i + 1, j, name); }
  }

  lemma RunEndIs(s: Bytes, i: nat, j: nat, space: bool)
    requires i <= j <= |s|
    requires forall k | i <= k < j :: IsRegexpSpace(s[k]) == space
    requires j < |s| ==> IsRegexpSpace(s[j]) != space
    ensures RunEnd(s, i, space) == j
  {
    hide IsRegexpSpace;
  }

  /** A field line right after a line break. */
  lemma FieldLine(hdr: Bytes, i: nat, name: Bytes, v: Bytes)
    requires FileName(v) && i > 0 && At(hdr, i, name) && hdr[i - 1] == '\n'
    requires var a := i + |name|;
             a + 1 + |v| < |hdr| && hdr[a] == ' ' && hdr[a + 1..a + 1 + |v|] == v && hdr[a + 1 + |v|] == '\n'
    ensures FieldAt(hdr, i, name) == Some(v)
  {
    hide At, RunEnd;
    var a := i + |name|;
    var end := a + 1 + |v|;
    forall k | a + 1 <= k < end ensures !IsRegexpSpace(hdr[k]) {
      assert hdr[k] == hdr[a + 1..end][k - a - 1];
    }
    RunEndIs(hdr, a, a + 1, true);
    RunEndIs(hdr, a + 1, end, false);
    var next := RunEnd(hdr, end, true);
    assert next > end;
    assert hdr[end..next][0] == '\n';
  }

  lemma FieldHere(left: Bytes, name: Bytes, v: Bytes, right: Bytes)
    requires left != "" && left[|left| - 1] == '\n' && FileName(v)
    ensures FieldAt(left + (name + (" " + (v + ("\n" + right)))), |left|, name) == Some(v)
  {
    hide At, FieldAt, FileName;
    var hdr := left + (name + (" " + (v + ("\n" + right))));
    var a := |left| + |name|;
    AtHere(left, name, " " + (v + ("\n" + right)));
    assert left + name + (" " + (v + ("\n" + right))) == hdr;
    assert hdr[a + 1..a + 1 + |v|] == v;
    FieldLine(hdr, |left|, name, v);
  }

  function AfterSlug(slug: Bytes): Bytes {
    HEADER + ("\nslug: " + (slug + "\n"))
  }

  lemma HeaderShapes(slug: Bytes, lang: Bytes)
    ensures HeaderText(slug, lang) == (HEADER + "\n") + ("slug:" + (" " + (slug + ("\n" + ("lang: " + (lang + "\n"))))))
    ensures HeaderText(slug, lang) == AfterSlug(slug) + ("lang:" + (" " + (lang + ("\n" + ""))))
  {
    var h := HeaderText(slug, lang);
    assert "\nslug: " == "\n" + ("slug:" + " ");
    assert "\nlang: " == "\n" + "lang: ";
    assert "lang: " == "lang:" + " ";
    assert h == (HEADER + "\n") + ("slug:" + (" " + (slug + ("\n" + ("lang: " + (lang + "\n"))))));
    assert h == AfterSlug(slug) + ("lang:" + (" " + (lang + ("\n" + ""))));
  }

  /** Header lines without a line break in them hold no field. */
  lemma NoFieldInside(hdr: Bytes, k: nat, name: Bytes)
    requires 0 < k <= |hdr| && hdr[k - 1] != '\n'
    ensures FieldAt(hdr, k, name) == None
  {
  }

  lemma OtherField(hdr: Bytes, k: nat, name: Bytes)
    requires name != "" && k < |hdr| && hdr[k] != name[0]
    ensures FieldAt(hdr, k, name) == None
  {
  }

  lemma HeaderChars()
    ensures |HEADER| == 25 && HEADER[0] == '<'
    ensures forall k | 0 <= k < |HEADER| :: HEADER[k] != '\n' && HEADER[k] != '>'
  {
  }

  lemma SlugField(slug: Bytes, lang: Bytes)
    requires FileName(slug)
    ensures Field(HeaderText(slug, lang), 0, "slug:") == Some(slug)
  {
    hide HeaderText, FieldAt, FileName;
    var h := HeaderText(slug, lang);
    HeaderChars();
    HeaderShapes(slug, lang);
    assert forall k | 0 <= k < 25 :: h[k] == HEADER[k];
    assert h[26] == 's';
    OtherField(h, 0, "slug:");
    forall k | 0 < k < 26 ensures FieldAt(h, k, "slug:") == None { NoFieldInside(h, k, "slug:"); }
    FieldSkip(h, 0, 26, "slug:");
    FieldHere(HEADER + "\n", "slug:", slug, "lang: " + (lang + "\n"));
  }

  lemma LangField(slug: Bytes, lang: Bytes)
    requires FileName(slug) && FileName(lang)
    ensures Field(HeaderText(slug, lang), 0, "lang:") == Some(lang)
  {
    hide HeaderText, FieldAt, IsRegexpSpace;
    var h := HeaderText(slug, lang);
    var n := |AfterSlug(slug)|;
    HeaderChars();
    HeaderShapes(slug, lang);
    AfterSlugChars(slug);
    forall k | 0 <= k < n ensures FieldAt(h, k, "lang:") == None {
      if k == 0 || k == 26 {
        OtherField(h, k, "lang:");
      } else {
        NoFieldInside(h, k, "lang:");
      }
    }
    FieldSkip(h, 0, n, "lang:");
    FieldHere(AfterSlug(slug), "lang:", lang, "");
  }

  lemma AfterSlugChars(slug: Bytes)
    requires FileName(slug)
    ensures var a := AfterSlug(slug);
            && |a| > 26 && a[0] == '<' && a[26] == 's' && a[|a| - 1] == '\n'
            && (forall k | 0 <= k < |a| - 1 :: k != 25 ==> a[k] != '\n')
            && (forall k | 0 <= k < |a| :: a[k] != '>')
  {
    HeaderChars();
    var a := AfterSlug(slug);
    assert a[..25] == HEADER;
    assert a[25..32] == "\nslug: ";
    assert a[32..32 + |slug|] == slug;
    forall k | 0 <= k < |a| - 1 ensures (k != 25 ==> a[k] != '\n') && a[k] != '>' {
      if k < 25 { assert a[k] == a[..25][k]; }
      else if k < 32 { assert a[k] == a[25..32][k - 25]; }
      else { assert a[k] == a[32..32 + |slug|][k - 32]; }
    }
  }

  lemma HeaderParses(slug: Bytes, lang: Bytes, body: Bytes)
    requires FileName(slug) && FileName(lang)
    ensures Parsed(HeaderText(slug, lang) + (MARKER_END + body)) == Ok(EditableDoc(slug, lang, BodyValues(body)))
  {
    hide Field, FindEnd, BodyValues, At, IsRegexpSpace, HeaderText;
    var h := HeaderText(slug, lang);
    var src := h + (MARKER_END + body);
    HeaderStarts(slug, lang, MARKER_END + body);
    NoAngle(slug, lang);
    AtHere(h, MARKER_END, body);
    assert h + MARKER_END + body == src;
    assert src[|h|] == '-' && src[|h| + 1] == '-';
    FindEndAt(src, 0, |h|);
    assert src[..|h|] == h && src[|h| + 3..] == body;
    SlugField(slug, lang);
    LangField(slug, lang);
  }

  lemma HeaderStarts(slug: Bytes, lang: Bytes, rest: Bytes)
    ensures HasHeader(HeaderText(slug, lang) + rest)
  {
    hide At;
    var tail := "\nslug: " + (slug + ("\nlang: " + (lang + "\n")));
    AtHere("", HEADER, tail + rest);
    assert "" + HEADER + (tail + rest) == HeaderText(slug, lang) + rest;
  }

  lemma NoAngle(slug: Bytes, lang: Bytes)
    requires FileName(slug) && FileName(lang)
    ensures forall k | 0 <= k < |HeaderText(slug, lang)| :: HeaderText(slug, lang)[k] != '>'
  {
    hide IsRegexpSpace, HeaderText;
    HeaderShapes(slug, lang);
    AfterSlugChars(slug);
    var h := HeaderText(slug, lang);
    var n := |AfterSlug(slug)|;
    assert h[n..n + 5] == "lang:" && h[n + 5] == ' ';
    assert h[n + 6..n + 6 + |lang|] == lang;
    forall k | 0 <= k < |h| ensures h[k] != '>' {
      if k < n { assert h[k] == AfterSlug(slug)[k]; }
      else if k < n + 5 { assert h[k] == h[n..n + 5][k - n]; }
      else if n + 6 <= k < n + 6 + |lang| { assert h[k] == h[n + 6..n + 6 + |lang|][k - n - 6]; }
    }
  }

  // ---------------------------------------------------------------- text without markers

  predicate NoOpen(t: Bytes) { forall k | 0 <= k < |t| :: t[k] != '<' }

  /** A text no marker starts in, whatever follows it: it ends a line, or has no `<`. */
  predicate Quiet(t: Bytes) {
    || NoOpen(t)
    || (t != "" && t[|t| - 1] == '\n' && forall k | 0 <= k < |t| :: MarkerAt(t, k) == None)
  }

  lemma AtShift(s: Bytes, i: nat, t: Bytes, k: nat, m: Bytes)
    requires At(s, i, t) && k + |m| <= |t|
    ensures At(t, k, m) <==> At(s, i + k, m)
  {
    hide At;
    AtSlice(s, i, t);
    AtSlice(t, k, m);
    AtSlice(s, i + k, m);
    var there, here := s[i + k..i + k + |m|], t[k..k + |m|];
    forall j | 0 <= j < |m| ensures there[j] == here[j] {
      assert s[i + k + j] == s[i..i + |t|][k + j];
    }
    assert there == here;
  }

  /** The end of a match does not depend on what follows the line. */
  lemma {:induction false} LazyEndLocal(s: Bytes, i: nat, t: Bytes, k: nat)
    requires At(s, i, t) && t != "" && t[|t| - 1] == '\n' && k < |t|
    requires LazyEnd(t, k) == None
    ensures LazyEnd(s, i + k) == None
    decreases |t| - k
  {
    hide At;
    AtChar(s, i, t, k);
    if k + 3 <= |t| {
      AtShift(s, i, t, k, MARKER_END);
    } else {
      NoMarkAcrossLine(s, i, t, k, MARKER_END);
    }
    if s[i + k] != '\n' && k + 1 < |t| {
      LazyEndLocal(s, i, t, k + 1);
    }
  }

  /** A mark without a line break does not reach over the end of a line. */
  lemma NoMarkAcrossLine(s: Bytes, i: nat, t: Bytes, k: nat, mark: Bytes)
    requires At(s, i, t) && t != "" && t[|t| - 1] == '\n' && k < |t| && |t| <= k + |mark|
    requires forall j | 0 <= j < |mark| :: mark[j] != '\n'
    ensures !At(s, i + k, mark)
  {
    hide At;
    AtChar(s, i, t, |t| - 1);
    if At(s, i + k, mark) {
      AtChar(s, i + k, mark, |t| - 1 - k);
      assert false;
    }
  }

  lemma OpenChars()
    ensures |MARKER_OPEN| == 8 && MARKER_OPEN[0] == '<' && forall j | 0 <= j < 8 :: MARKER_OPEN[j] != '\n'
  {
  }

  lemma MarkerLocal(s: Bytes, i: nat, t: Bytes, k: nat)
    requires At(s, i, t) && t != "" && t[|t| - 1] == '\n' && k < |t| && MarkerAt(t, k) == None
    ensures MarkerAt(s, i + k) == None
  {
    hide At, LazyEnd;
    OpenChars();
    if k + 8 > |t| {
      NoMarkAcrossLine(s, i, t, k, MARKER_OPEN);
    } else {
      AtShift(s, i, t, k, MARKER_OPEN);
      if At(s, i + k, MARKER_OPEN) {
        if k + 8 == |t| {
          AtChar(s, i, t, |t| - 1);
          AtChar(s, i + k, MARKER_OPEN, 7);
          assert false;
        } else {
          AtChar(s, i, t, k + 8);
          if k + 9 == |t| {
          } else if s[i + k + 8] != '\n' {
            LazyEndLocal(s, i, t, k + 9);
          }
        }
      }
    }
  }

  lemma QuietHere(s: Bytes, i: nat, t: Bytes, k: nat)
    requires At(s, i, t) && Quiet(t) && k < |t|
    ensures MarkerAt(s, i + k) == None
  {
    hide At, LazyEnd, MarkerAt;
    AtChar(s, i, t, k);
    if t[k] != '<' {
      NotOpen(s, i + k);
    } else {
      MarkerLocal(s, i, t, k);
    }
  }

  lemma NotOpen(s: Bytes, i: nat)
    requires i < |s| && s[i] != '<'
    ensures MarkerAt(s, i) == None
  {
    OpenChars();
  }

  lemma {:induction false} MarkersSkip(s: Bytes, i: nat, j: nat)
    requires i <= j <= |s|
    requires forall k | i <= k < j :: MarkerAt(s, k) == None
    ensures Markers(s, i) == Markers(s, j)
    decreases j - i
  {
    hide MarkerAt;
    if i < j { MarkersSkip(s, i + 1, j); }
  }

  lemma SkipQuiet(s: Bytes, i: nat, t: Bytes)
    requires At(s, i, t) && Quiet(t)
    ensures Markers(s, i) == Markers(s, i + |t|)
  {
    hide At, Quiet, MarkerAt, Markers;
    forall k | i <= k < i + |t| ensures MarkerAt(s, k) == None {
      QuietHere(s, i, t, k - i);
    }
    MarkersSkip(s, i, i + |t|);
  }

  // ---------------------------------------------------------------- a body of segments

  /** A marker and the text up to the next one. */
  datatype Seg = Seg(key: Bytes, tail: Bytes)

  function SegText(g: Seg): Bytes {
    MARKER_OPEN + (g.key + (MARKER_END + g.tail))
  }

  function SegsText(gs: seq<Seg>): Bytes {
    if gs == [] then "" else SegText(gs[0]) + SegsText(gs[1..])
  }

  predicate KeyOk(key: Bytes) {
    key != "" && forall k | 0 <= k < |key| :: key[k] != '>' && key[k] != '\n'
  }

  predicate SegsOk(gs: seq<Seg>) {
    forall k | 0 <= k < |gs| :: KeyOk(gs[k].key) && Quiet(gs[k].tail)
  }

  /** What a reader makes of the segments; a later one wins. */
  function DictOf(gs: seq<Seg>): Values {
    if gs == [] then map[] else map[gs[0].key := Clean(gs[0].tail)] + DictOf(gs[1..])
  }

  lemma {:induction false} LazyEndAt(s: Bytes, i: nat, n: nat)
    requires i <= n && At(s, n, MARKER_END)
    requires forall k | i <= k < n :: s[k] != '>' && s[k] != '\n'
    ensures LazyEnd(s, i) == Some(n)
    decreases n - i
  {
    hide At;
    if i < n {
      if At(s, i, MARKER_END) {
        AtChar(s, i, MARKER_END, 2);
        if i + 2 >= n {
          AtChar(s, n, MARKER_END, i + 2 - n);
        }
        assert false;
      }
      LazyEndAt(s, i + 1, n);
    }
  }

  lemma MarkerHere(s: Bytes, i: nat, key: Bytes)
    requires KeyOk(key) && At(s, i, MARKER_OPEN) && At(s, i + 8, key) && At(s, i + 8 + |key|, MARKER_END)
    ensures MarkerAt(s, i) == Some(i + 8 + |key|)
  {
    hide At;
    OpenChars();
    forall k | 0 <= k < |key| ensures s[i + 8 + k] == key[k] { AtChar(s, i + 8, key, k); }
    forall k | i + 8 <= k < i + 8 + |key| ensures s[k] != '>' && s[k] != '\n' {
      assert s[k] == key[k - i - 8];
    }
    LazyEndAt(s, i + 9, i + 8 + |key|);
  }

  lemma SegParts(s: Bytes, i: nat, g: Seg, rest: Bytes)
    requires At(s, i, SegText(g) + rest)
    ensures var e := i + 8 + |g.key|;
            && At(s, i, MARKER_OPEN) && At(s, i + 8, g.key) && At(s, e, MARKER_END)
            && At(s, e + 3, g.tail) && At(s, e + 3 + |g.tail|, rest)
            && |SegText(g)| == 8 + |g.key| + 3 + |g.tail|
  {
    hide At;
    OpenChars();
    AtSplit(s, i, SegText(g), rest);
    AtSplit(s, i, MARKER_OPEN, g.key + (MARKER_END + g.tail));
    AtSplit(s, i + 8, g.key, MARKER_END + g.tail);
    AtSplit(s, i + 8 + |g.key|, MARKER_END, g.tail);
  }

  lemma {:induction false} ValuesShift(body: Bytes, m: Marker, ms: seq<Marker>, k: nat)
    requires InBody(body, ms) && InBody(body, [m] + ms) && k <= |ms|
    ensures ValuesFrom(body, [m] + ms, k + 1) == ValuesFrom(body, ms, k)
    decreases |ms| - k
  {
    hide Clean;
    if k < |ms| {
      ValuesShift(body, m, ms, k + 1);
      assert ([m] + ms)[k + 1] == ms[k];
      assert k + 1 < |ms| ==> ([m] + ms)[k + 2] == ms[k + 1];
    }
  }

  /** The parser reads a body that ends in segments as their dictionary. */
  lemma {:induction false} ReadSegs(s: Bytes, i: nat, gs: seq<Seg>)
    requires At(s, i, SegsText(gs)) && i + |SegsText(gs)| == |s| && SegsOk(gs)
    ensures ValuesFrom(s, Markers(s, i), 0) == DictOf(gs)
    ensures gs == [] ==> Markers(s, i) == []
    ensures gs != [] ==> Markers(s, i) != [] && Markers(s, i)[0].start == i
    decreases |gs|
  {
    hide At, Quiet, KeyOk, Clean, MarkerAt, SegText;
    if gs != [] {
      var g := gs[0];
      SegParts(s, i, g, SegsText(gs[1..]));
      MarkerHere(s, i, g.key);
      var e := i + 8 + |g.key|;
      var next := e + 3 + |g.tail|;
      SkipQuiet(s, e + 3, g.tail);
      ReadSegs(s, next, gs[1..]);
      var ms := Markers(s, next);
      ReadFirst(s, i, e, g, next, ms);
    }
  }

  lemma ReadFirst(s: Bytes, i: nat, e: nat, g: Seg, next: nat, ms: seq<Marker>)
    requires i < |s| && MarkerAt(s, i) == Some(e) && Markers(s, e + 3) == ms && InBody(s, ms)
    requires At(s, i + 8, g.key) && e == i + 8 + |g.key| && At(s, e + 3, g.tail) && next == e + 3 + |g.tail|
    requires if ms == [] then next == |s| else ms[0].start == next
    ensures Markers(s, i) == [Marker(i, e)] + ms
    ensures ValuesFrom(s, Markers(s, i), 0) == map[g.key := Clean(g.tail)] + ValuesFrom(s, ms, 0)
  {
    hide At, Clean, MarkerAt, ValuesFrom, ValueText;
    var all := [Marker(i, e)] + ms;
    assert Markers(s, i) == all;
    SlicesAre(s, i, e, g, next);
    ValuesShift(s, Marker(i, e), ms, 0);
    FirstText(s, Marker(i, e), ms, next);
    FirstValue(s, all);
  }

  lemma SlicesAre(s: Bytes, i: nat, e: nat, g: Seg, next: nat)
    requires At(s, i + 8, g.key) && e == i + 8 + |g.key| && At(s, e + 3, g.tail) && next == e + 3 + |g.tail|
    ensures next <= |s| && s[i + 8..e] == g.key && s[e + 3..next] == g.tail
  {
    hide At;
    AtSlice(s, i + 8, g.key);
    AtSlice(s, e + 3, g.tail);
  }

  lemma FirstText(s: Bytes, m: Marker, ms: seq<Marker>, next: nat)
    requires InBody(s, [m] + ms) && m.keyEnd + 3 <= next <= |s|
    requires if ms == [] then next == |s| else ms[0].start == next
    ensures ([m] + ms)[0] == m
    ensures ms != [] ==> ([m] + ms)[1] == ms[0]
    ensures ValueText(s, [m] + ms, 0) == s[m.keyEnd + 3..next]
  {
  }

  lemma FirstValue(s: Bytes, ms: seq<Marker>)
    requires ms != [] && InBody(s, ms) && (1 < |ms| ==> ms[0].keyEnd + 3 <= ms[1].start <= |s|)
    ensures ValuesFrom(s, ms, 0) == map[s[ms[0].start + 8..ms[0].keyEnd] := Clean(ValueText(s, ms, 0))] + ValuesFrom(s, ms, 1)
  {
    hide Clean, ValueText;
  }

  // ---------------------------------------------------------------- the printed body

  function SegList(keys: seq<Bytes>, data: Json): (gs: seq<Seg>)
    ensures |gs| == |keys| && forall k | 0 <= k < |keys| :: gs[k] == Seg(keys[k], "\n" + (Shown(data, keys[k]) + "\n\n"))
  {
    seq(|keys|, k requires 0 <= k < |keys| => Seg(keys[k], "\n" + (Shown(data, keys[k]) + "\n\n")))
  }

  lemma {:induction false} SegmentsAre(keys: seq<Bytes>, data: Json)
    ensures Segments(keys, data) == SegsText(SegList(keys, data))
  {
    hide Shown;
    if keys != [] {
      SegmentsAre(keys[1..], data);
      assert SegList(keys, data)[1..] == SegList(keys[1..], data);
    }
  }

  /** The printed body, with the marker the instructions quote as a first segment. */
  function BodySegs(keys: seq<Bytes>, data: Json): seq<Seg> {
    [Seg("...", Outro())] + SegList(keys, data)
  }

  /** A value that survives printing and parsing: trimming leaves it, and the marker
      expression finds nothing in it. */
  predicate TextOk(v: Bytes) {
    Trimmed(v) && Markers(v, 0) == []
  }

  lemma {:induction false} NoneFound(v: Bytes, i: nat, k: nat)
    requires Markers(v, i) == [] && i <= k < |v|
    ensures MarkerAt(v, k) == None
    decreases k - i
  {
    hide MarkerAt;
    if i < k { NoneFound(v, i + 1, k); }
  }

  /** Where no marker ends, none ends after a line break is added. */
  lemma {:induction false} LazyEndLine(v: Bytes, k: nat)
    requires k <= |v| && LazyEnd(v, k) == None
    ensures LazyEnd(v + "\n", k) == None
    decreases |v| - k
  {
    hide At;
    var t := v + "\n";
    AtHere("", v, "\n");
    assert "" + v + "\n" == t;
    AtHere("", t, "");
    assert "" + t + "" == t;
    if k + 3 <= |v| {
      AtShift(t, 0, v, k, MARKER_END);
    } else if k < |v| {
      NoMarkAcrossLine(t, 0, t, k, MARKER_END);
    }
    if k < |v| && v[k] != '\n' {
      LazyEndLine(v, k + 1);
    }
  }

  lemma MarkerLine(v: Bytes, k: nat)
    requires k < |v| && MarkerAt(v, k) == None
    ensures MarkerAt(v + "\n", k) == None
  {
    hide At, LazyEnd;
    OpenChars();
    var t := v + "\n";
    AtHere("", v, "\n");
    assert "" + v + "\n" == t;
    AtHere("", t, "");
    assert "" + t + "" == t;
    if k + 8 <= |v| {
      AtShift(t, 0, v, k, MARKER_OPEN);
      if k + 8 < |v| && v[k + 8] != '\n' && At(v, k, MARKER_OPEN) { LazyEndLine(v, k + 9); }
    } else {
      NoMarkAcrossLine(t, 0, t, k, MARKER_OPEN);
    }
  }

  lemma NoMarkerAtBreak(s: Bytes, k: nat)
    requires k < |s| && s[k] == '\n'
    ensures MarkerAt(s, k) == None
  {
    NotOpen(s, k);
  }

  /** A sound value between line breaks starts no marker. */
  lemma LineQuiet(v: Bytes)
    requires Markers(v, 0) == []
    ensures Quiet("\n" + (v + "\n\n"))
  {
    hide MarkerAt, Markers, At;
    var t := "\n" + (v + "\n\n");
    AtHere("\n", v + "\n", "\n");
    assert "\n" + (v + "\n") + "\n" == t;
    forall k | 0 <= k < |t| ensures MarkerAt(t, k) == None {
      if 0 < k <= |v| {
        NoneFound(v, 0, k - 1);
        MarkerLine(v, k - 1);
        MarkerLocal(t, 1, v + "\n", k - 1);
      } else {
        NoMarkerAtBreak(t, k);
      }
    }
  }

  lemma MissingOk()
    ensures TextOk(MISSING) && Clean("\n" + (MISSING + "\n\n")) == ""
  {
    hide TrimSpace, Trimmed, Markers, MarkerAt;
    assert Trimmed(MISSING) by { MissingTrimmed(); }
    assert forall k | 0 <= k < |MISSING| :: MISSING[k] != ':';
    forall k | 0 <= k < |MISSING| ensures MarkerAt(MISSING, k) == None { NoColon(MISSING, k); }
    MarkersSkip(MISSING, 0, |MISSING|);
    assert Markers(MISSING, |MISSING|) == [] by { MarkersEnd(MISSING); }
    TrimLines(MISSING);
  }

  lemma MissingTrimmed()
    ensures Trimmed(MISSING)
  {
    assert MISSING[0] == '<' && MISSING[|MISSING| - 1] == '>';
    assert MISSING[|MISSING| - 2] == '-' && MISSING[|MISSING| - 3] == '-';
    assert MISSING[1] == '!' && MISSING[2] == '-';
    assert MISSING[..2] == "<!" && MISSING[..3] == "<!-";
    assert MISSING[|MISSING| - 2..] == "->" && MISSING[|MISSING| - 3..] == "-->";
  }

  lemma MarkersEnd(s: Bytes)
    ensures Markers(s, |s|) == []
  {
  }

  lemma NoColon(s: Bytes, k: nat)
    requires forall j | 0 <= j < |s| :: s[j] != ':'
    ensures MarkerAt(s, k) == None
  {
    hide At;
    assert MARKER_OPEN[7] == ':';
    if At(s, k, MARKER_OPEN) { AtChar(s, k, MARKER_OPEN, 7); }
  }

  // ---------------------------------------------------------------- the round trip

  /** What hydration sees of the printed values: a missing one is empty. */
  function Printed(keys: seq<Bytes>, data: Json): Values {
    map k | k in keys :: if Shown(data, k) == MISSING then "" else Shown(data, k)
  }

  lemma {:induction false} DictOfList(keys: seq<Bytes>, data: Json)
    requires forall k | k in keys :: TextOk(Shown(data, k))
    ensures DictOf(SegList(keys, data)) == Printed(keys, data)
  {
    hide Shown, TextOk, Clean, SegList, Printed;
    if keys == [] {
      PrintedNothing(data);
    } else {
      var v := Shown(data, keys[0]);
      assert SegList(keys, data)[1..] == SegList(keys[1..], data);
      assert SegList(keys, data)[0] == Seg(keys[0], "\n" + (v + "\n\n"));
      DictOfList(keys[1..], data);
      CleanShown(v);
      PrintedMore(keys, data);
    }
  }

  lemma PrintedNothing(data: Json)
    ensures Printed([], data) == map[]
  {
  }

  lemma PrintedMore(keys: seq<Bytes>, data: Json)
    requires keys != []
    ensures var v := Shown(data, keys[0]);
            Printed(keys, data) == map[keys[0] := if v == MISSING then "" else v] + Printed(keys[1..], data)
  {
    hide Shown;
    assert forall k :: k in keys <==> k == keys[0] || k in keys[1..];
  }

  lemma CleanShown(v: Bytes)
    requires TextOk(v)
    ensures Clean("\n" + (v + "\n\n")) == if v == MISSING then "" else v
  {
    hide TrimSpace, Trimmed, Markers;
    TrimLines(v);
  }

  lemma BodySegsOk(keys: seq<Bytes>, data: Json)
    requires forall k | k in keys :: KeyOk(k) && TextOk(Shown(data, k))
    ensures SegsOk(BodySegs(keys, data))
  {
    hide Shown, Trimmed, Quiet, Markers;
    OutroQuiet();
    forall k | 0 <= k < |keys| ensures Quiet("\n" + (Shown(data, keys[k]) + "\n\n")) {
      LineQuiet(Shown(data, keys[k]));
    }
  }

  lemma OutroQuiet()
    ensures Quiet(Outro())
  {
    hide NoOpen;
    OutroChars();
    OpenConcat(OUTRO_3, OUTRO_4);
    OpenConcat(OUTRO_2, OUTRO_3 + OUTRO_4);
    OpenConcat(OUTRO_1, OUTRO_2 + (OUTRO_3 + OUTRO_4));
  }

  lemma OpenConcat(a: Bytes, b: Bytes)
    requires NoOpen(a) && NoOpen(b)
    ensures NoOpen(a + b)
  {
  }

  lemma OutroChars()
    ensures NoOpen(OUTRO_1) && NoOpen(OUTRO_2) && NoOpen(OUTRO_3) && NoOpen(OUTRO_4)
  {
  }

  lemma PreambleChars(slug: Bytes, lang: Bytes)
    requires FileName(slug) && FileName(lang)
    ensures NoOpen("\n\n# ") && NoOpen(TitleSlug(slug)) && NoOpen(" (") && NoOpen(lang) && NoOpen(")\n\n") && NoOpen(INTRO)
  {
  }

  lemma PreambleQuiet(slug: Bytes, lang: Bytes)
    requires FileName(slug) && FileName(lang)
    ensures Quiet(Preamble(slug, lang))
  {
    hide NoOpen, FileName, TitleSlug;
    PreambleChars(slug, lang);
    OpenConcat(")\n\n", INTRO);
    OpenConcat(lang, ")\n\n" + INTRO);
    OpenConcat(" (", lang + (")\n\n" + INTRO));
    OpenConcat(TitleSlug(slug), " (" + (lang + (")\n\n" + INTRO)));
    OpenConcat("\n\n# ", TitleSlug(slug) + (" (" + (lang + (")\n\n" + INTRO))));
  }

  lemma RenderedParts(slug: Bytes, lang: Bytes, keys: seq<Bytes>, data: Json)
    ensures Rendered(slug, lang, keys, data)
         == HeaderText(slug, lang) + (MARKER_END + (Preamble(slug, lang) + SegsText(BodySegs(keys, data))))
  {
    hide HeaderText, Preamble, Outro, Segments, SegList;
    SegmentsAre(keys, data);
    assert BodySegs(keys, data)[1..] == SegList(keys, data);
    SegRegroup(MARKER_OPEN, "...", MARKER_END, Outro(), SegsText(SegList(keys, data)));
    assert SegText(Seg("...", Outro())) == MARKER_OPEN + ("..." + (MARKER_END + Outro()));
  }

  lemma SegRegroup(a: Bytes, b: Bytes, c: Bytes, d: Bytes, rest: Bytes)
    ensures (a + (b + (c + d))) + rest == a + (b + (c + (d + rest)))
  {
  }

  /** The printed values, and the instructions under the marker they quote. */
  function ReadValues(keys: seq<Bytes>, data: Json): Values {
    map["..." := Clean(Outro())] + Printed(keys, data)
  }

  /** `parseEditable` after `renderEditable` gives the slug, the language and the printed
      values, besides one key `...` from the instructions. */
  lemma ParseRendered(slug: Bytes, lang: Bytes, keys: seq<Bytes>, data: Json)
    requires FileName(slug) && FileName(lang)
    requires forall k | k in keys :: KeyOk(k) && TextOk(Shown(data, k))
    ensures Parsed(Rendered(slug, lang, keys, data))
         == Ok(EditableDoc(slug, lang, ReadValues(keys, data)))
  {
    hide Parsed, Rendered, HeaderText, Preamble, Outro, SegList, SegsText, Shown, TextOk, Markers, Quiet, FileName, Clean, KeyOk, At;
    var pre := Preamble(slug, lang);
    var gs := BodySegs(keys, data);
    var body := pre + SegsText(gs);
    RenderedParts(slug, lang, keys, data);
    HeaderParses(slug, lang, body);
    PreambleQuiet(slug, lang);
    AtHere("", pre, SegsText(gs));
    assert "" + pre + SegsText(gs) == body;
    SkipQuiet(body, 0, pre);
    AtHere(pre, SegsText(gs), "");
    assert pre + SegsText(gs) + "" == body;
    BodySegsOk(keys, data);
    ReadSegs(body, |pre|, gs);
    assert gs[1..] == SegList(keys, data);
    DictOfList(keys, data);
  }
}
