/** Which bytes `encodeJSONString` writes: what it copies, and what it escapes and how. */
module JsonEncoding {
  import opened Bytes
  import opened JsonGrammar
  import opened JsonStrings

  // ---------------------------------------------------------------- UTF-8, by code points

  /** A Unicode scalar value: a code point that is no surrogate. */
  predicate IsScalar(cp: nat) {
    cp < 0xD800 || 0xE000 <= cp < 0x110000
  }

  /** The code point of a sequence of that length, from the bits of its bytes. */
  function CodePoint(r: Bytes): nat
    requires r != "" && RuneLen(r) == |r|
  {
    if |r| == 1 then r[0] as nat
    else if |r| == 2 then (r[0] as nat - 0xC0) * 64 + (r[1] as nat - 0x80)
    else if |r| == 3 then (r[0] as nat - 0xE0) * 4096 + (r[1] as nat - 0x80) * 64 + (r[2] as nat - 0x80)
    else (r[0] as nat - 0xF0) * 262144 + (r[1] as nat - 0x80) * 4096 + (r[2] as nat - 0x80) * 64 + (r[3] as nat - 0x80)
  }

  /** What counts as one character is exactly the UTF-8 form of one scalar value: no overlong
      forms, no surrogates, nothing above U+10FFFF. */
  lemma RunesAreScalars(r: Bytes)
    requires r != "" && RuneLen(r) == |r|
    ensures IsScalar(CodePoint(r)) && Utf8(CodePoint(r)) == r
  {
    hide Utf8, CodePoint;
    if |r| == 1 {
      OneByte(r);
    } else if |r| == 2 {
      TwoBytes(r);
    } else if |r| == 3 {
      ThreeBytes(r);
    } else {
      FourBytes(r);
    }
  }

  lemma OneByte(r: Bytes)
    requires |r| == 1 && RuneLen(r) == 1
    ensures IsScalar(CodePoint(r)) && Utf8(CodePoint(r)) == r
  {
  }

  lemma TwoBytes(r: Bytes)
    requires |r| == 2 && RuneLen(r) == 2
    ensures IsScalar(CodePoint(r)) && Utf8(CodePoint(r)) == r
  {
  }

  /** The six-bit groups of a number. */
  lemma Groups(x: nat, y: nat, z: nat, w: nat)
    requires y < 64 && z < 64 && w < 64
    ensures (x * 4096 + y * 64 + z) / 4096 == x
    ensures (x * 4096 + y * 64 + z) / 64 % 64 == y && (x * 4096 + y * 64 + z) % 64 == z
    ensures (x * 262144 + y * 4096 + z * 64 + w) / 262144 == x
    ensures (x * 262144 + y * 4096 + z * 64 + w) / 4096 % 64 == y
    ensures (x * 262144 + y * 4096 + z * 64 + w) / 64 % 64 == z && (x * 262144 + y * 4096 + z * 64 + w) % 64 == w
  {
    assert (x * 4096 + y * 64 + z) / 64 == x * 64 + y;
    assert (x * 262144 + y * 4096 + z * 64 + w) / 64 == x * 4096 + y * 64 + z;
    assert (x * 262144 + y * 4096 + z * 64 + w) / 4096 == x * 64 + y;
  }

  lemma ThreeBytes(r: Bytes)
    requires |r| == 3 && RuneLen(r) == 3
    ensures IsScalar(CodePoint(r)) && Utf8(CodePoint(r)) == r
  {
    Groups(r[0] as nat - 0xE0, r[1] as nat - 0x80, r[2] as nat - 0x80, 0);
    assert r == [r[0], r[1], r[2]];
  }

  lemma FourBytes(r: Bytes)
    requires |r| == 4 && RuneLen(r) == 4
    ensures IsScalar(CodePoint(r)) && Utf8(CodePoint(r)) == r
  {
    Groups(r[0] as nat - 0xF0, r[1] as nat - 0x80, r[2] as nat - 0x80, r[3] as nat - 0x80);
    assert r == [r[0], r[1], r[2], r[3]];
  }

  lemma ScalarsAreRunes(cp: nat, b: Bytes)
    requires IsScalar(cp)
    ensures RuneLen(Utf8(cp) + b) == |Utf8(cp)|
  {
    hide RuneLen;
    var s := Utf8(cp) + b;
    assert forall k | 0 <= k < |Utf8(cp)| :: s[k] == Utf8(cp)[k];
    if cp < 0x80 {
      RuneOfOne(s, cp);
    } else if cp < 0x800 {
      RuneOfTwo(s, cp);
    } else if cp < 0x10000 {
      RuneOfThree(s, cp);
    } else {
      RuneOfFour(s, cp);
    }
  }

  lemma RuneOfOne(s: Bytes, cp: nat)
    requires cp < 0x80 && s != "" && s[0] as nat == cp
    ensures RuneLen(s) == 1
  {
  }

  lemma RuneOfTwo(s: Bytes, cp: nat)
    requires 0x80 <= cp < 0x800 && |s| >= 2 && s[0] as nat == 0xC0 + cp / 64 && s[1] as nat == 0x80 + cp % 64
    ensures RuneLen(s) == 2
  {
  }

  lemma RuneOfThree(s: Bytes, cp: nat)
    requires 0x800 <= cp < 0x10000 && IsScalar(cp) && |s| >= 3
    requires s[0] as nat == 0xE0 + cp / 4096 && s[1] as nat == 0x80 + cp / 64 % 64 && s[2] as nat == 0x80 + cp % 64
    ensures RuneLen(s) == 3
  {
  }

  lemma RuneOfFour(s: Bytes, cp: nat)
    requires 0x10000 <= cp < 0x110000 && |s| >= 4
    requires s[0] as nat == 0xF0 + cp / 262144 && s[1] as nat == 0x80 + cp / 4096 % 64
    requires s[2] as nat == 0x80 + cp / 64 % 64 && s[3] as nat == 0x80 + cp % 64
    ensures RuneLen(s) == 4
  {
  }

  // ---------------------------------------------------------------- texts put together

  lemma RuneAlone(s: Bytes)
    requires s != "" && RuneLen(s) > 0
    ensures var n := RuneLen(s); RuneLen(s[..n]) == n && s[..n] != "" && s == s[..n] + s[n..]
  {
    RunePrefix(s);
  }

  lemma RuneAppended(r: Bytes, b: Bytes)
    requires r != "" && RuneLen(r) == |r|
    ensures RuneLen(r + b) == |r| && (r + b)[..|r|] == r && (r + b)[|r|..] == b && (r + b)[0] == r[0]
  {
    var s := r + b;
    assert forall k | 0 <= k < |r| :: s[k] == r[k];
  }

  /** One character is encoded on its own. */
  lemma EncodeRune(r: Bytes, b: Bytes)
    requires r != "" && RuneLen(r) == |r|
    ensures EncodeBody(r + b) == EncodeBody(r) + EncodeBody(b)
  {
    hide RuneLen, EscapeAscii, EscapeRune;
    RuneAppended(r, b);
    RuneAppended(r, "");
    assert r + "" == r && r[|r|..] == "" && r[..|r|] == r;
    assert EncodeBody("") == "";
    if r[0] < '\U{80}' {
      AsciiLen(r);
      assert (r + b)[1..] == b && r[1..] == "";
      assert EncodeBody(r) == EscapeAscii(r[0]) + "";
    } else {
      assert EncodeBody(r) == EscapeRune(r) + "";
    }
  }

  lemma AsciiLen(r: Bytes)
    requires r != "" && RuneLen(r) == |r| && r[0] < '\U{80}'
    ensures |r| == 1
  {
  }

  /** After valid text, encoding goes on with what follows. */
  lemma {:induction false} EncodeConcat(a: Bytes, b: Bytes)
    requires ValidUtf8(a)
    ensures EncodeBody(a + b) == EncodeBody(a) + EncodeBody(b)
    decreases |a|
  {
    hide EncodeBody, RuneLen;
    if a == "" {
      assert a + b == b;
      assert EncodeBody("") == "" by { EncodeNothing(); }
    } else {
      var n := RuneLen(a);
      RuneAlone(a);
      var r, rest := a[..n], a[n..];
      assert a + b == r + (rest + b);
      EncodeRune(r, rest + b);
      EncodeRune(r, rest);
      EncodeConcat(rest, b);
    }
  }

  lemma EncodeNothing()
    ensures EncodeBody("") == ""
  {
  }

  // ---------------------------------------------------------------- the escapes

  const HEX: Bytes := "0123456789abcdef"

  /** What is written for each ASCII character. */
  lemma AsciiEscapes(c: byte)
    requires c < '\U{80}'
    ensures EncodeBody("\"") == "\\\"" && EncodeBody("\\") == "\\\\"
    ensures EncodeBody("\n") == "\\n" && EncodeBody("\r") == "\\r" && EncodeBody("\t") == "\\t"
    ensures EncodeBody("\U{08}") == "\\b" && EncodeBody("\U{0C}") == "\\f"
    ensures c < ' ' && !(c as int in {8, 9, 10, 12, 13}) ==> EncodeBody([c]) == "\\u00" + [if c as int < 16 then '0' else '1', HEX[c as int % 16]]
    ensures c >= ' ' && c != '"' && c != '\\' ==> EncodeBody([c]) == [c]
  {
    hide RuneLen;
    forall d: byte | d < '\U{80}' ensures EncodeBody([d]) == EscapeAscii(d) {
      assert [d][1..] == "" && EncodeBody("") == "";
      assert EscapeAscii(d) + "" == EscapeAscii(d);
    }
    assert "\"" == ['"'] && "\\" == ['\\'] && "\n" == ['\n'] && "\r" == ['\r'] && "\t" == ['\t'];
    assert "\U{08}" == ['\U{08}'] && "\U{0C}" == ['\U{0C}'];
    HexDigits();
  }

  lemma HexDigits()
    ensures forall n: nat :: n < 16 ==> HexDigit(n) == HEX[n]
  {
  }

  /** The two line separators are escaped as well. */
  lemma SeparatorEscapes()
    ensures EncodeBody(Utf8(0x2028)) == "\\u2028" && EncodeBody(Utf8(0x2029)) == "\\u2029"
  {
    hide RuneLen, Utf8;
    var a: Bytes, b: Bytes := "\U{E2}\U{80}\U{A8}", "\U{E2}\U{80}\U{A9}";
    SeparatorBytes(a, b);
    assert a[..3] == a && a[3..] == "" && b[..3] == b && b[3..] == "";
    assert EncodeBody("") == "";
    assert EncodeBody(a) == EscapeRune(a) + "" && EncodeBody(b) == EscapeRune(b) + "";
  }

  lemma SeparatorBytes(a: Bytes, b: Bytes)
    requires a == "\U{E2}\U{80}\U{A8}" && b == "\U{E2}\U{80}\U{A9}"
    ensures Utf8(0x2028) == a && Utf8(0x2029) == b && RuneLen(a) == 3 && RuneLen(b) == 3
  {
  }

  /** A byte that starts no character is written as an escaped replacement character. */
  lemma InvalidEscape(s: Bytes)
    requires s != "" && RuneLen(s) == 0
    ensures EncodeBody(s) == "\\ufffd" + EncodeBody(s[1..])
  {
  }

  // ---------------------------------------------------------------- what is copied

  /** At `k` stands a quotation mark, a backslash, a control character or a line separator. */
  predicate Special(s: Bytes, k: nat)
    requires k < |s|
  {
    || s[k] == '"' || s[k] == '\\' || s[k] < '\U{20}'
    || (k + 2 < |s| && s[k] == '\U{E2}' && s[k + 1] == '\U{80}' && (s[k + 2] == '\U{A8}' || s[k + 2] == '\U{A9}'))
  }

  predicate NoSpecial(s: Bytes) { forall k | 0 <= k < |s| :: !Special(s, k) }

  /** No byte inside a character is special. */
  lemma InsideRune(s: Bytes, k: nat)
    requires s != "" && 0 < k < RuneLen(s)
    ensures !Special(s, k)
  {
    assert s[k] <= '\U{BF}';
  }

  lemma SpecialShift(s: Bytes, n: nat, k: nat)
    requires n + k < |s|
    ensures Special(s[n..], k) <==> Special(s, n + k)
  {
  }

  lemma NoSpecialSplit(s: Bytes)
    requires s != "" && RuneLen(s) > 0
    ensures NoSpecial(s) <==> !Special(s, 0) && NoSpecial(s[RuneLen(s)..])
  {
    hide Special, RuneLen;
    var n := RuneLen(s);
    if NoSpecial(s) {
      forall k | 0 <= k < |s| - n ensures !Special(s[n..], k) { SpecialShift(s, n, k); }
    }
    if !Special(s, 0) && NoSpecial(s[n..]) {
      forall k | 0 <= k < |s| ensures !Special(s, k) {
        if 0 < k < n {
          InsideRune(s, k);
        } else if k >= n {
          SpecialShift(s, n, k - n);
        }
      }
    }
  }

  lemma RuneCopied(s: Bytes)
    requires s != "" && RuneLen(s) > 0
    ensures var r := s[..RuneLen(s)];
            |EncodeBody(r)| >= |r| && (EncodeBody(r) == r <==> !Special(s, 0)) && (EncodeBody(r) != r ==> |EncodeBody(r)| > |r|)
  {
    hide RuneLen;
    var n := RuneLen(s);
    var r := s[..n];
    RuneAlone(s);
    assert r[n..] == "" && r[..n] == r && EncodeBody("") == "";
    if r[0] < '\U{80}' {
      AsciiLen(r);
      assert r == [r[0]];
      assert EncodeBody(r) == EscapeAscii(r[0]) + "";
    } else {
      assert EncodeBody(r) == EscapeRune(r) + "";
      WideSpecial(s);
    }
  }

  lemma WideSpecial(s: Bytes)
    requires s != "" && RuneLen(s) > 0 && s[0] >= '\U{80}'
    ensures Special(s, 0) <==> EscapeRune(s[..RuneLen(s)]) != s[..RuneLen(s)]
    ensures EscapeRune(s[..RuneLen(s)]) != s[..RuneLen(s)] ==> RuneLen(s) == 3 && |EscapeRune(s[..RuneLen(s)])| == 6
  {
    var n := RuneLen(s);
    var r := s[..n];
    assert forall k | 0 <= k < n :: r[k] == s[k];
    if n == 3 { assert r == [s[0], s[1], s[2]]; }
    assert EscapeRune(r) != r <==> r == "\U{E2}\U{80}\U{A8}" || r == "\U{E2}\U{80}\U{A9}" by {
      assert "\\u2028"[0] == '\\' && "\\u2029"[0] == '\\';
    }
  }

  /** Encoding copies a text exactly when it is valid UTF-8 without quotation marks,
      backslashes, control characters and line separators; otherwise the result is longer. */
  lemma {:induction false} CopiedIff(s: Bytes)
    ensures EncodeBody(s) == s <==> ValidUtf8(s) && NoSpecial(s)
    ensures EncodeBody(s) != s ==> |EncodeBody(s)| > |s|
    decreases |s|
  {
    hide EncodeBody, RuneLen, Special;
    if s == "" {
      EncodeNothing();
    } else if RuneLen(s) == 0 {
      InvalidEscape(s);
      CopiedIff(s[1..]);
    } else {
      var n := RuneLen(s);
      RuneAlone(s);
      RuneCopied(s);
      NoSpecialSplit(s);
      EncodeRune(s[..n], s[n..]);
      CopiedIff(s[n..]);
      SameParts(EncodeBody(s[..n]), EncodeBody(s[n..]), s[..n], s[n..]);
    }
  }

  lemma SameParts(a: Bytes, b: Bytes, x: Bytes, y: Bytes)
    requires |a| >= |x| && |b| >= |y|
    ensures a + b == x + y <==> a == x && b == y
  {
    if a + b == x + y {
      assert |a| + |b| == |x| + |y|;
      assert (a + b)[..|a|] == a && (x + y)[..|x|] == x && (a + b)[|a|..] == b && (x + y)[|x|..] == y;
    }
  }

  /** The bytes HTML would escape are copied. */
  lemma MarkupIsCopied(s: Bytes)
    requires forall k | 0 <= k < |s| :: s[k] == '<' || s[k] == '>' || s[k] == '&' || 'a' <= s[k] <= 'z'
    ensures EncodeJsonString(s) == "\"" + s + "\""
  {
    hide EncodeBody;
    CopiedIff(s);
    AsciiIsValid(s);
  }

  lemma {:induction false} AsciiIsValid(s: Bytes)
    requires forall k | 0 <= k < |s| :: s[k] < '\U{80}'
    ensures ValidUtf8(s)
    decreases |s|
  {
    if s != "" { AsciiIsValid(s[1..]); }
  }

  // ---------------------------------------------------------------- what a decoder yields

  lemma ValidMore(cp: nat, b: Bytes)
    requires IsScalar(cp) && ValidUtf8(b)
    ensures ValidUtf8(Utf8(cp) + b)
  {
    hide RuneLen, Utf8;
    ScalarsAreRunes(cp, b);
    assert (Utf8(cp) + b)[|Utf8(cp)|..] == b;
  }

  lemma ReplacementIsRune()
    ensures Utf8(0xFFFD) == REPLACEMENT
  {
  }

  lemma AsciiIsRune(c: byte)
    requires c < '\U{80}'
    ensures Utf8(c as nat) == [c]
  {
  }

  /** Decoding a string yields valid UTF-8, whatever surrogates and bytes are in it. */
  lemma {:induction false} DecodedIsValid(b: Bytes)
    requires WfBody(b)
    ensures ValidUtf8(Decode(b))
    decreases |b|
  {
    hide RuneLen, Utf8, ValidUtf8, Unit;
    ReplacementIsRune();
    if b == "" {
      assert ValidUtf8("") by { AsciiIsValid(""); }
    } else if StartsUnit(b) {
      var unit, rest := Unit(b), b[6..];
      DecodedIsValid(rest);
      if unit < 0xD800 || unit >= 0xE000 {
        ValidMore(unit, Decode(rest));
      } else if unit < 0xDC00 && StartsUnit(rest) && 0xDC00 <= Unit(rest) < 0xE000 {
        DecodedIsValid(rest[6..]);
        ValidMore(0x10000 + (unit - 0xD800) * 1024 + (Unit(rest) - 0xDC00), Decode(rest[6..]));
      } else {
        ValidMore(0xFFFD, Decode(rest));
      }
    } else if b[0] == '\\' {
      DecodedIsValid(b[2..]);
      AsciiIsRune(ShortEscape(b[1]));
      ValidMore(ShortEscape(b[1]) as nat, Decode(b[2..]));
    } else if b[0] < '\U{80}' {
      DecodedIsValid(b[1..]);
      AsciiIsRune(b[0]);
      ValidMore(b[0] as nat, Decode(b[1..]));
    } else if RuneLen(b) == 0 {
      DecodedIsValid(b[1..]);
      ValidMore(0xFFFD, Decode(b[1..]));
    } else {
      RuneRest(b);
      RuneAlone(b);
      DecodedIsValid(b[RuneLen(b)..]);
      RunesAreScalars(b[..RuneLen(b)]);
      ValidMore(CodePoint(b[..RuneLen(b)]), Decode(b[RuneLen(b)..]));
    }
  }
}
