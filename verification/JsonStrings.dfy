/** `encodeJSONString` and the decoding of a JSON string, byte by byte: section 7 of
    RFC 8259 with the choices of Go's encoder when HTML escaping is off. */
module JsonStrings {
  import opened Bytes
  import opened JsonGrammar

  // ---------------------------------------------------------------- UTF-8

  predicate Within(s: Bytes, k: nat, lo: byte, hi: byte) {
    k < |s| && lo <= s[k] <= hi
  }

  predicate Continues(s: Bytes, k: nat) {
    Within(s, k, '\U{80}', '\U{BF}')
  }

  /** The length of the UTF-8 sequence `s` starts with, or 0 when it is not valid. */
  function RuneLen(s: Bytes): (n: nat)
    requires s != ""
    ensures n <= |s| && n <= 4
    ensures s[0] < '\U{80}' ==> n == 1
    ensures s[0] >= '\U{80}' ==> n != 1
    ensures forall k | 0 <= k < n :: s[k] >= '\U{80}' || k == 0
  {
    var c := s[0];
    if c < '\U{80}' then 1
    else if c < '\U{C2}' then 0
    else if c < '\U{E0}' then if Continues(s, 1) then 2 else 0
    else if c < '\U{F0}' then
      var lo := if c == '\U{E0}' then '\U{A0}' else '\U{80}';
      var hi := if c == '\U{ED}' then '\U{9F}' else '\U{BF}';
      if Within(s, 1, lo, hi) && Continues(s, 2) then 3 else 0
    else if c < '\U{F5}' then
      var lo := if c == '\U{F0}' then '\U{90}' else '\U{80}';
      var hi := if c == '\U{F4}' then '\U{8F}' else '\U{BF}';
      if Within(s, 1, lo, hi) && Continues(s, 2) && Continues(s, 3) then 4 else 0
    else 0
  }

  predicate ValidUtf8(s: Bytes) {
    s == "" || (RuneLen(s) > 0 && ValidUtf8(s[RuneLen(s)..]))
  }

  function ToByte(n: nat): byte
    requires n < 256
  {
    n as char
  }

  /** The UTF-8 form of a code point. */
  function Utf8(cp: nat): Bytes
    requires cp < 0x110000
  {
    if cp < 0x80 then [ToByte(cp)]
    else if cp < 0x800 then [ToByte(0xC0 + cp / 64), ToByte(0x80 + cp % 64)]
    else if cp < 0x10000 then
      [ToByte(0xE0 + cp / 4096), ToByte(0x80 + cp / 64 % 64), ToByte(0x80 + cp % 64)]
    else
      [ToByte(0xF0 + cp / 262144), ToByte(0x80 + cp / 4096 % 64), ToByte(0x80 + cp / 64 % 64), ToByte(0x80 + cp % 64)]
  }

  const REPLACEMENT: Bytes := "\U{EF}\U{BF}\U{BD}"

  // ---------------------------------------------------------------- encoding

  function HexDigit(n: nat): byte
    requires n < 16
  {
    ToByte(if n < 10 then '0' as nat + n else 'a' as nat + n - 10)
  }

  function EscapeAscii(c: byte): Bytes
    requires c < '\U{80}'
  {
    if c == '"' then "\\\""
    else if c == '\\' then "\\\\"
    else if c == '\U{08}' then "\\b"
    else if c == '\U{0C}' then "\\f"
    else if c == '\n' then "\\n"
    else if c == '\r' then "\\r"
    else if c == '\t' then "\\t"
    else if c < ' ' then "\\u00" + [HexDigit(c as nat / 16), HexDigit(c as nat % 16)]
    else [c]
  }

  /** One valid sequence of more than one byte: copied, except the two line separators. */
  function EscapeRune(r: Bytes): Bytes {
    if r == "\U{E2}\U{80}\U{A8}" then "\\u2028"
    else if r == "\U{E2}\U{80}\U{A9}" then "\\u2029"
    else r
  }

  /** What the encoder writes between the quotation marks. */
  function EncodeBody(s: Bytes): Bytes {
    if s == "" then ""
    else if s[0] < '\U{80}' then EscapeAscii(s[0]) + EncodeBody(s[1..])
    else if RuneLen(s) == 0 then "\\ufffd" + EncodeBody(s[1..])
    else EscapeRune(s[..RuneLen(s)]) + EncodeBody(s[RuneLen(s)..])
  }

  function EncodeJsonString(s: Bytes): Bytes {
    Quoted(EncodeBody(s))
  }

  // ---------------------------------------------------------------- decoding

  function HexValue(c: byte): (n: nat)
    requires IsHex(c)
    ensures n < 16
  {
    if IsDigit(c) then c as nat - '0' as nat
    else if c >= 'a' then c as nat - 'a' as nat + 10
    else c as nat - 'A' as nat + 10
  }

  /** The four hex digits of a well-formed `\uXXXX` at the start of `b`. */
  function Unit(b: Bytes): (n: nat)
    requires WfBody(b) && |b| >= 2 && b[0] == '\\' && b[1] == 'u'
    ensures n < 0x10000
  {
    HexValue(b[2]) * 4096 + HexValue(b[3]) * 256 + HexValue(b[4]) * 16 + HexValue(b[5])
  }

  predicate StartsUnit(b: Bytes) {
    |b| >= 2 && b[0] == '\\' && b[1] == 'u'
  }

  function ShortEscape(c: byte): byte
    requires IsShortEscape(c)
  {
    if c == 'b' then '\U{08}' else if c == 'f' then '\U{0C}' else if c == 'n' then '\n'
    else if c == 'r' then '\r' else if c == 't' then '\t' else c
  }

  /** The text a string stands for; unpaired surrogates and invalid bytes become U+FFFD. */
  function Decode(b: Bytes): Bytes
    requires WfBody(b)
    decreases |b|
  {
    if b == "" then ""
    else if StartsUnit(b) then
      var unit := Unit(b);
      var rest := b[6..];
      if unit < 0xD800 || unit >= 0xE000 then Utf8(unit) + Decode(rest)
      else if unit < 0xDC00 && StartsUnit(rest) && 0xDC00 <= Unit(rest) < 0xE000 then
        Utf8(0x10000 + (unit - 0xD800) * 1024 + (Unit(rest) - 0xDC00)) + Decode(rest[6..])
      else REPLACEMENT + Decode(rest)
    else if b[0] == '\\' then [ShortEscape(b[1])] + Decode(b[2..])
    else if b[0] < '\U{80}' then [b[0]] + Decode(b[1..])
    else if RuneLen(b) == 0 then REPLACEMENT + Decode(b[1..])
    else
      RuneRest(b);
      b[..RuneLen(b)] + Decode(b[RuneLen(b)..])
  }

  /** A sequence of bytes above ASCII is part of a body as it is. */
  lemma RuneRest(b: Bytes)
    requires WfBody(b) && b != "" && b[0] >= '\U{80}' && RuneLen(b) > 0
    ensures WfBody(b[RuneLen(b)..])
  {
    HighRest(b, RuneLen(b));
  }

  lemma {:induction false} HighRest(b: Bytes, n: nat)
    requires WfBody(b) && n <= |b| && forall k | 0 <= k < n :: b[k] >= '\U{80}'
    ensures WfBody(b[n..])
    decreases n
  {
    if n > 0 {
      assert b[n..] == b[1..][n - 1..];
      HighRest(b[1..], n - 1);
    } else {
      assert b[0..] == b;
    }
  }

  lemma {:induction false} HighFront(r: Bytes, b: Bytes)
    requires WfBody(b) && forall k | 0 <= k < |r| :: r[k] >= '\U{80}'
    ensures WfBody(r + b)
    decreases |r|
  {
    if r == "" {
      assert r + b == b;
    } else {
      HighFront(r[1..], b);
      assert (r + b)[1..] == r[1..] + b;
    }
  }

  // ---------------------------------------------------------------- the two agree

  /** Every printed string is well-formed, whatever bytes it was printed from. */
  lemma {:induction false} EncodeWf(s: Bytes)
    ensures WfBody(EncodeBody(s))
    decreases |s|
  {
    if s == "" {
    } else if s[0] < '\U{80}' {
      EncodeWf(s[1..]);
      EscapeAsciiWf(s[0], EncodeBody(s[1..]));
    } else if RuneLen(s) == 0 {
      EncodeWf(s[1..]);
      UnitFront("\\ufffd", EncodeBody(s[1..]));
    } else {
      EncodeWf(s[RuneLen(s)..]);
      EscapeRuneWf(s[..RuneLen(s)], EncodeBody(s[RuneLen(s)..]));
    }
  }

  lemma UnitFront(u: Bytes, b: Bytes)
    requires |u| == 6 && StartsUnit(u) && IsHex(u[2]) && IsHex(u[3]) && IsHex(u[4]) && IsHex(u[5])
    requires WfBody(b)
    ensures WfBody(u + b) && (u + b)[6..] == b
  {
    assert (u + b)[6..] == b;
  }

  lemma EscapeAsciiWf(c: byte, b: Bytes)
    requires c < '\U{80}' && WfBody(b)
    ensures WfBody(EscapeAscii(c) + b)
  {
    var e := EscapeAscii(c);
    if |e| == 6 {
      UnitFront(e, b);
    } else if |e| == 2 {
      assert (e + b)[2..] == b;
    } else {
      assert (e + b)[1..] == b;
    }
  }

  lemma EscapeRuneWf(r: Bytes, b: Bytes)
    requires WfBody(b) && forall k | 0 <= k < |r| :: r[k] >= '\U{80}'
    ensures WfBody(EscapeRune(r) + b)
  {
    if |EscapeRune(r)| == 6 && EscapeRune(r)[0] == '\\' {
      UnitFront(EscapeRune(r), b);
    } else {
      HighFront(r, b);
    }
  }

  /** Decoding undoes encoding, for every text that is valid UTF-8. */
  lemma {:induction false} DecodeEncode(s: Bytes)
    requires ValidUtf8(s)
    ensures WfBody(EncodeBody(s)) && Decode(EncodeBody(s)) == s
    decreases |s|
  {
    hide WfBody, Decode, EscapeAscii, EscapeRune;
    EncodeWf(s);
    if s == "" {
      DecodeEmpty();
    } else {
      var n := RuneLen(s);
      RunePrefix(s);
      DecodeEncode(s[n..]);
      if n == 1 {
        DecodeAscii(s[0], EncodeBody(s[1..]));
        assert s == [s[0]] + s[1..];
      } else {
        DecodeRune(s[..n], EncodeBody(s[n..]));
        assert s == s[..n] + s[n..];
      }
    }
  }

  lemma DecodeEmpty()
    ensures Decode("") == ""
  {
  }

  lemma RunePrefix(s: Bytes)
    requires s != "" && RuneLen(s) > 0
    ensures RuneLen(s[..RuneLen(s)]) == RuneLen(s)
  {
  }

  lemma DecodeAscii(c: byte, b: Bytes)
    requires c < '\U{80}' && WfBody(b)
    ensures WfBody(EscapeAscii(c) + b) && Decode(EscapeAscii(c) + b) == [c] + Decode(b)
  {
    hide WfBody, Decode;
    EscapeAsciiWf(c, b);
    var e := EscapeAscii(c);
    if |e| == 6 {
      ControlUnit(c);
      DecodeUnit(e, b);
    } else if |e| == 2 {
      DecodeShort(e, b);
    } else {
      DecodePlain(c, b);
    }
  }

  /** The six-character escape of a control character names that character. */
  lemma ControlUnit(c: byte)
    requires c < ' ' && |EscapeAscii(c)| == 6
    ensures var e := EscapeAscii(c);
            StartsUnit(e) && IsHex(e[2]) && IsHex(e[3]) && IsHex(e[4]) && IsHex(e[5]) &&
            WfBody(e) && Unit(e) == c as nat
  {
    var e := EscapeAscii(c);
    assert e[6..] == "";
    assert HexValue(e[4]) == c as nat / 16 && HexValue(e[5]) == c as nat % 16;
  }

  lemma DecodeUnit(u: Bytes, b: Bytes)
    requires |u| == 6 && StartsUnit(u) && IsHex(u[2]) && IsHex(u[3]) && IsHex(u[4]) && IsHex(u[5])
    requires WfBody(b) && WfBody(u) && (Unit(u) < 0xD800 || Unit(u) >= 0xE000)
    ensures WfBody(u + b) && Decode(u + b) == Utf8(Unit(u)) + Decode(b)
  {
    UnitFront(u, b);
    assert Unit(u + b) == Unit(u);
  }

  lemma DecodeShort(e: Bytes, b: Bytes)
    requires |e| == 2 && e[0] == '\\' && IsShortEscape(e[1]) && WfBody(b)
    ensures WfBody(e + b) && Decode(e + b) == [ShortEscape(e[1])] + Decode(b)
  {
    assert (e + b)[2..] == b;
  }

  lemma DecodePlain(c: byte, b: Bytes)
    requires ' ' <= c < '\U{80}' && c != '"' && c != '\\' && WfBody(b)
    ensures WfBody([c] + b) && Decode([c] + b) == [c] + Decode(b)
  {
    assert ([c] + b)[1..] == b;
  }

  lemma DecodeRune(r: Bytes, b: Bytes)
    requires |r| > 1 && RuneLen(r) == |r| && WfBody(b)
    ensures WfBody(EscapeRune(r) + b) && Decode(EscapeRune(r) + b) == r + Decode(b)
  {
    EscapeRuneWf(r, b);
    if EscapeRune(r) != r {
      DecodeUnit(EscapeRune(r), b);
    } else {
      assert RuneLen(r + b) == |r|;
      assert (r + b)[|r|..] == b && (r + b)[..|r|] == r;
    }
  }
}
