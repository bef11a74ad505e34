/** The patterns of the editable markdown, said as regular expressions say them: what a match
    is, not how it is found. */
module PagesPatterns {
  import opened Wrappers
  import opened Bytes
  import opened PagesText
  import J = JsonStrings
  import E = JsonEncoding

  // ---------------------------------------------------------------- key markers

  /** `<!--key:`, then a key of at least one character on one line, then `-->`. */
  predicate IsMarker(s: Bytes, i: nat, keyEnd: nat) {
    && i + 9 <= keyEnd && keyEnd + 3 <= |s|
    && s[i..i + 8] == MARKER_OPEN && s[keyEnd..keyEnd + 3] == MARKER_END
    && forall k | i + 8 <= k < keyEnd :: s[k] != '\n'
  }

  /** The shortest such match at `i`. */
  predicate IsShortest(s: Bytes, i: nat, keyEnd: nat) {
    IsMarker(s, i, keyEnd) && forall k | i + 9 <= k < keyEnd :: !IsMarker(s, i, k)
  }

  lemma {:induction false} LazyEndIff(s: Bytes, i: nat, e: nat)
    ensures LazyEnd(s, i) == Some(e) <==>
            i <= e && e + 3 <= |s| && At(s, e, MARKER_END) && (forall k | i <= k < e :: s[k] != '\n' && !At(s, k, MARKER_END))
    decreases if i < |s| then |s| - i else 0
  {
    hide At;
    if i < |s| && !At(s, i, MARKER_END) && s[i] != '\n' {
      LazyEndIff(s, i + 1, e);
    }
  }

  lemma EndAt(s: Bytes, e: nat)
    ensures At(s, e, MARKER_END) <==> e + 3 <= |s| && s[e..e + 3] == MARKER_END
  {
    hide At;
    AtSlice(s, e, MARKER_END);
  }

  lemma OpenAt(s: Bytes, i: nat)
    ensures At(s, i, MARKER_OPEN) <==> i + 8 <= |s| && s[i..i + 8] == MARKER_OPEN
  {
    hide At;
    AtSlice(s, i, MARKER_OPEN);
  }

  /** The scan for markers finds, at every position, the shortest match there or none. */
  lemma MarkerIff(s: Bytes, i: nat, keyEnd: nat)
    ensures MarkerAt(s, i) == Some(keyEnd) <==> IsShortest(s, i, keyEnd)
  {
    hide At, LazyEnd, IsMarker;
    LazyEndIff(s, i + 9, keyEnd);
    MarkerParts(s, i, keyEnd);
    if MarkerAt(s, i) == Some(keyEnd) {
      forall k | i + 9 <= k < keyEnd ensures !IsMarker(s, i, k) { MarkerParts(s, i, k); }
    }
    if IsShortest(s, i, keyEnd) {
      forall k | i + 9 <= k < keyEnd ensures s[k] != '\n' && !At(s, k, MARKER_END) {
        MarkerParts(s, i, k);
        assert !IsMarker(s, i, k);
      }
    }
  }

  lemma MarkerParts(s: Bytes, i: nat, keyEnd: nat)
    ensures IsMarker(s, i, keyEnd) <==>
            && i + 9 <= keyEnd && At(s, i, MARKER_OPEN) && i + 8 < |s| && s[i + 8] != '\n'
            && (forall k | i + 9 <= k < keyEnd && k < |s| :: s[k] != '\n') && At(s, keyEnd, MARKER_END)
  {
    hide At;
    OpenAt(s, i);
    EndAt(s, keyEnd);
  }

  // ---------------------------------------------------------------- header fields

  predicate AllSpace(s: Bytes) { forall k | 0 <= k < |s| :: s[k] == '\t' || s[k] == '\n' || s[k] == '\U{0C}' || s[k] == '\r' || s[k] == ' ' }

  predicate NoSpace(s: Bytes) { forall k | 0 <= k < |s| :: !AllSpace([s[k]]) }

  /** At the start of a line stands the label, then white space, the value, white space, and
      the end of a line. */
  predicate IsField(hdr: Bytes, i: nat, label_: Bytes, w1: Bytes, v: Bytes, w2: Bytes) {
    && (i == 0 || (i <= |hdr| && hdr[i - 1] == '\n'))
    && AllSpace(w1) && AllSpace(w2) && v != "" && NoSpace(v)
    && var end := i + |label_| + |w1| + |v| + |w2|;
       end <= |hdr| && hdr[i..end] == label_ + (w1 + (v + w2)) && (end == |hdr| || hdr[end] == '\n')
  }

  lemma {:induction false} FieldIff(hdr: Bytes, i: nat, label_: Bytes, v: Bytes)
    ensures FieldAt(hdr, i, label_) == Some(v) <==> exists w1, w2 :: IsField(hdr, i, label_, w1, v, w2)
  {
    hide At, RunEnd, IsField;
    if FieldAt(hdr, i, label_) == Some(v) {
      var w1, w2 := FieldParts(hdr, i, label_, v);
    }
    if w1, w2 :| IsField(hdr, i, label_, w1, v, w2) {
      FieldFound(hdr, i, label_, w1, v, w2);
    }
  }

  lemma AllSpaceIs(s: Bytes)
    ensures AllSpace(s) <==> forall k | 0 <= k < |s| :: IsRegexpSpace(s[k])
    ensures NoSpace(s) <==> forall k | 0 <= k < |s| :: !IsRegexpSpace(s[k])
  {
    forall k | 0 <= k < |s| ensures AllSpace([s[k]]) <==> IsRegexpSpace(s[k]) {
      assert [s[k]][0] == s[k];
    }
  }

  lemma FieldParts(hdr: Bytes, i: nat, label_: Bytes, v: Bytes) returns (w1: Bytes, w2: Bytes)
    requires FieldAt(hdr, i, label_) == Some(v)
    ensures IsField(hdr, i, label_, w1, v, w2)
  {
    hide At, RunEnd, AllSpace, NoSpace, IsRegexpSpace;
    AtSlice(hdr, i, label_);
    LineBreakIsSpace();
    var a := i + |label_|;
    var start := RunEnd(hdr, a, true);
    var end := RunEnd(hdr, start, false);
    var next := RunEnd(hdr, end, true);
    w1 := hdr[a..start];
    // the last line break of the run, or all of it at the end of the header
    var stop := next;
    if next < |hdr| {
      var k :| 0 <= k < next - end && hdr[end..next][k] == '\n';
      stop := end + k;
    }
    w2 := hdr[end..stop];
    IsSlice(hdr, a, start, w1);
    IsSlice(hdr, start, end, v);
    IsSlice(hdr, end, stop, w2);
    FourSlices(hdr, i, a, start, end, stop);
  }

  lemma IsSlice(hdr: Bytes, i: nat, j: nat, t: Bytes)
    requires i <= j <= |hdr| && t == hdr[i..j]
    ensures (forall k | i <= k < j :: IsRegexpSpace(hdr[k])) ==> AllSpace(t)
    ensures (forall k | i <= k < j :: !IsRegexpSpace(hdr[k])) ==> NoSpace(t)
  {
    hide IsRegexpSpace;
    AllSpaceIs(t);
    forall k | 0 <= k < |t| ensures t[k] == hdr[i + k] {}
  }

  lemma FourSlices(s: Bytes, i: nat, a: nat, b: nat, c: nat, d: nat)
    requires i <= a <= b <= c <= d <= |s|
    ensures s[i..d] == s[i..a] + (s[a..b] + (s[b..c] + s[c..d]))
  {
  }

  lemma RunEndIs(s: Bytes, i: nat, j: nat, space: bool)
    requires i <= j <= |s| && (forall k | i <= k < j :: IsRegexpSpace(s[k]) == space) && (j < |s| ==> IsRegexpSpace(s[j]) != space)
    ensures RunEnd(s, i, space) == j
  {
    hide IsRegexpSpace;
  }

  lemma FieldFound(hdr: Bytes, i: nat, label_: Bytes, w1: Bytes, v: Bytes, w2: Bytes)
    requires IsField(hdr, i, label_, w1, v, w2)
    ensures FieldAt(hdr, i, label_) == Some(v)
  {
    hide At, RunEnd, IsRegexpSpace, IsField;
    var a := i + |label_|;
    var start := a + |w1|;
    var end := start + |v|;
    var stop := end + |w2|;
    FieldRuns(hdr, i, label_, w1, v, w2);
    AtSlice(hdr, i, label_);
    RunEndIs(hdr, a, start, true);
    RunEndIs(hdr, start, end, false);
    var next := RunEnd(hdr, end, true);
    SpacesWithin(hdr, end, stop);
    if next < |hdr| { assert hdr[end..next][stop - end] == '\n'; }
  }

  /** The runs of white space and of other characters that a match is made of. */
  lemma FieldRuns(hdr: Bytes, i: nat, label_: Bytes, w1: Bytes, v: Bytes, w2: Bytes)
    requires IsField(hdr, i, label_, w1, v, w2)
    ensures var a := i + |label_|; var start := a + |w1|; var end := start + |v|; var stop := end + |w2|;
            && (i == 0 || hdr[i - 1] == '\n') && start < end && stop <= |hdr| && hdr[i..a] == label_ && hdr[start..end] == v
            && (forall k | a <= k < start :: IsRegexpSpace(hdr[k]))
            && (forall k | start <= k < end :: !IsRegexpSpace(hdr[k]))
            && (forall k | end <= k < stop :: IsRegexpSpace(hdr[k]))
            && (stop == |hdr| || hdr[stop] == '\n') && (end < |hdr| ==> IsRegexpSpace(hdr[end]))
  {
    hide AllSpace, NoSpace, IsRegexpSpace;
    AllSpaceIs(w1);
    AllSpaceIs(w2);
    AllSpaceIs(v);
    FieldSlices(hdr, i, label_, w1, v, w2);
    LineBreakIsSpace();
  }

  lemma LineBreakIsSpace()
    ensures IsRegexpSpace('\n')
  {
  }

  /** A run of white space, and a line break after it, are inside the run that starts there. */
  lemma SpacesWithin(s: Bytes, i: nat, j: nat)
    requires i <= j <= |s| && (forall k | i <= k < j :: IsRegexpSpace(s[k])) && (j == |s| || s[j] == '\n')
    ensures j <= RunEnd(s, i, true) && (j < |s| ==> j < RunEnd(s, i, true))
  {
    LineBreakIsSpace();
  }

  lemma FieldSlices(hdr: Bytes, i: nat, label_: Bytes, w1: Bytes, v: Bytes, w2: Bytes)
    requires IsField(hdr, i, label_, w1, v, w2)
    ensures var a := i + |label_|; var start := a + |w1|; var end := start + |v|; var stop := end + |w2|;
            && stop <= |hdr| && hdr[i..a] == label_ && hdr[start..end] == v
            && (forall k | a <= k < start :: hdr[k] == w1[k - a])
            && (forall k | start <= k < end :: hdr[k] == v[k - start])
            && (forall k | end <= k < stop :: hdr[k] == w2[k - end])
  {
    hide AllSpace, NoSpace;
    var a := i + |label_|;
    var start := a + |w1|;
    var end := start + |v|;
    var stop := end + |w2|;
    var t := label_ + (w1 + (v + w2));
    assert forall k | i <= k < stop :: hdr[k] == hdr[i..stop][k - i] == t[k - i];
    assert forall k | 0 <= k < |label_| :: t[k] == label_[k];
    assert forall k | 0 <= k < |w1| :: t[|label_| + k] == w1[k];
    assert forall k | 0 <= k < |v| :: t[|label_| + |w1| + k] == v[k];
    assert forall k | 0 <= k < |w2| :: t[|label_| + |w1| + |v| + k] == w2[k];
  }

  // ---------------------------------------------------------------- white space

  /** White space by code points: what `unicode.IsSpace` lists. */
  predicate IsSpaceCode(cp: nat) {
    || 0x09 <= cp <= 0x0D || cp == 0x20 || cp == 0x85 || cp == 0xA0 || cp == 0x1680 || 0x2000 <= cp <= 0x200A
    || cp == 0x2028 || cp == 0x2029 || cp == 0x202F || cp == 0x205F || cp == 0x3000
  }

  /** What is trimmed are the UTF-8 forms of exactly these. */
  lemma SpaceIff(cp: nat)
    requires E.IsScalar(cp)
    ensures IsSpaceCode(cp) <==> if cp < 0x80 then IsAsciiSpace(cp as char) else IsWideSpace(J.Utf8(cp))
  {
    hide J.Utf8, IsWideSpace;
    if cp >= 0x10000 {
      FarCodes(cp);
    } else if cp >= 0x800 {
      WideCodes(cp);
    } else if cp >= 0x80 {
      NearCodes(cp);
    }
  }

  lemma NearCodes(cp: nat)
    requires 0x80 <= cp < 0x800
    ensures IsSpaceCode(cp) <==> IsWideSpace(J.Utf8(cp))
  {
  }

  lemma WideCodes(cp: nat)
    requires 0x800 <= cp < 0x10000
    ensures IsSpaceCode(cp) <==> IsWideSpace(J.Utf8(cp))
  {
    var r := J.Utf8(cp);
    assert r[0] as nat == 0xE0 + cp / 4096 && r[1] as nat == 0x80 + cp / 64 % 64 && r[2] as nat == 0x80 + cp % 64;
  }

  lemma FarCodes(cp: nat)
    requires 0x10000 <= cp < 0x110000
    ensures !IsSpaceCode(cp) && !IsWideSpace(J.Utf8(cp))
  {
  }

  // ---------------------------------------------------------------- the printed file

  /** A file starts with a comment that names slug and language, each on its own line. */
  lemma HeaderIs(slug: Bytes, lang: Bytes)
    ensures HeaderText(slug, lang) + MARKER_END == "<!-- pletka-pages-edit v1\nslug: " + (slug + ("\nlang: " + (lang + "\n-->")))
  {
    var a: Bytes, b: Bytes, c: Bytes := "<!-- pletka-pages-edit v1", "\nslug: ", "\nlang: ";
    var ab: Bytes, end: Bytes := "<!-- pletka-pages-edit v1\nslug: ", "\n-->";
    assert a + b == ab && "\n" + MARKER_END == end && HEADER == a;
    HeaderRegroup(a, b, slug, c, lang, "\n", MARKER_END);
  }

  lemma HeaderRegroup(a: Bytes, b: Bytes, slug: Bytes, c: Bytes, lang: Bytes, d: Bytes, e: Bytes)
    ensures (a + (b + (slug + (c + (lang + d))))) + e == (a + b) + (slug + (c + (lang + (d + e))))
  {
  }

  /** A key is printed in a marker on a line of its own, followed by its text or, without one,
      by the mark for a missing value, and an empty line. */
  lemma SegmentIs(data: Json, key: Bytes)
    ensures var v := LookupParts(data, Split(key));
            Segment(key, Shown(data, key)) ==
            "<!--key:" + (key + ("-->\n" + ((if v.Some? && v.value != "" then v.value else "<!--MISSING-->") + "\n\n")))
  {
    hide Split, LookupParts;
    var text := Shown(data, key);
    var mark: Bytes := "-->\n";
    assert MARKER_END + "\n" == mark;
    assert MARKER_END + ("\n" + text + "\n\n") == mark + (text + "\n\n");
  }

  /** The heading starts with a capital letter. */
  lemma TitleIs(c: byte, rest: Bytes)
    requires c < '\U{80}'
    ensures TitleSlug([c] + rest) == [if 'a' <= c <= 'z' then (c as int - 'a' as int + 'A' as int) as char else c] + rest
    ensures TitleSlug("") == ""
  {
    assert ([c] + rest)[1..] == rest;
  }
}
