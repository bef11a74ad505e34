/** JSON texts by the grammar of RFC 8259, sections 2 to 7, as concrete syntax
    trees: every tree keeps its own white space and the escaped form of its strings,
    so that `Text` prints it back byte for byte. */
module JsonGrammar {
  import opened Bytes

  datatype Kind = Object | Array

  /** The `"key" :` in front of an object member; array elements have none. */
  datatype Name = NoName | Name(key: Bytes, before: Bytes, after: Bytes)

  /** A string by its escaped body, a number or literal name by its text,
      an object or array by its entries (`pad` is its inside when it has none). */
  datatype Value =
    | Str(body: Bytes)
    | Atom(text: Bytes)
    | Node(kind: Kind, pad: Bytes, entries: seq<Entry>)

  datatype Entry = Entry(pre: Bytes, name: Name, value: Value, post: Bytes)

  function Quoted(body: Bytes): Bytes {
    "\"" + body + "\""
  }

  function NameText(n: Name): Bytes {
    match n
    case NoName => ""
    case Name(key, before, after) => Quoted(key) + (before + (":" + after))
  }

  function Open(k: Kind): Bytes { if k == Object then "{" else "[" }

  function Close(k: Kind): Bytes { if k == Object then "}" else "]" }

  function Text(v: Value): Bytes {
    match v
    case Str(body) => Quoted(body)
    case Atom(text) => text
    case Node(kind, pad, entries) => Open(kind) + (Inside(pad, entries) + Close(kind))
  }

  function Inside(pad: Bytes, es: seq<Entry>): Bytes
    decreases es, 1
  {
    if es == [] then pad else Entries(es)
  }

  function EntryText(e: Entry): Bytes {
    e.pre + (NameText(e.name) + (Text(e.value) + e.post))
  }

  /** Entries with a comma between neighbours. */
  function Entries(es: seq<Entry>): Bytes
    decreases es, 0
  {
    if es == [] then ""
    else if |es| == 1 then EntryText(es[0])
    else EntryText(es[0]) + ("," + Entries(es[1..]))
  }

  // ---------------------------------------------------------------- well-formedness

  predicate IsDigit(c: byte) { '0' <= c <= '9' }

  predicate IsHex(c: byte) {
    IsDigit(c) || 'a' <= c <= 'f' || 'A' <= c <= 'F'
  }

  predicate IsShortEscape(c: byte) {
    c == '"' || c == '\\' || c == '/' || c == 'b' || c == 'f' || c == 'n' || c == 'r' || c == 't'
  }

  /** Section 7: the characters between the quotation marks of a string. */
  predicate WfBody(b: Bytes) {
    if b == "" then true
    else if b[0] == '\\' then
      |b| >= 2 &&
      if b[1] == 'u' then |b| >= 6 && IsHex(b[2]) && IsHex(b[3]) && IsHex(b[4]) && IsHex(b[5]) && WfBody(b[6..])
      else IsShortEscape(b[1]) && WfBody(b[2..])
    else b[0] != '"' && b[0] >= ' ' && WfBody(b[1..])
  }

  /** The number of digits `s` starts with. */
  function Digits(s: Bytes): (n: nat)
    ensures n <= |s|
    ensures forall k | 0 <= k < n :: IsDigit(s[k])
    ensures n < |s| ==> !IsDigit(s[n])
  {
    if s == "" || !IsDigit(s[0]) then 0 else 1 + Digits(s[1..])
  }

  /** Section 6: `exp` as a whole, or nothing. */
  predicate WfExponent(s: Bytes) {
    s == "" ||
    ((s[0] == 'e' || s[0] == 'E') && |s| >= 2 &&
     var digits := if s[1] == '+' || s[1] == '-' then s[2..] else s[1..];
     digits != "" && Digits(digits) == |digits|)
  }

  /** Section 6: an optional fraction and an optional exponent. */
  predicate WfFraction(s: Bytes) {
    if s != "" && s[0] == '.' then
      var n := Digits(s[1..]);
      n > 0 && WfExponent(s[1 + n..])
    else WfExponent(s)
  }

  /** Section 6: a number without its minus sign; no leading zero. */
  predicate WfMagnitude(s: Bytes) {
    s != "" && IsDigit(s[0]) && WfFraction(if s[0] == '0' then s[1..] else s[Digits(s)..])
  }

  predicate WfAtom(t: Bytes) {
    || t == "true" || t == "false" || t == "null"
    || WfMagnitude(if t != "" && t[0] == '-' then t[1..] else t)
  }

  predicate WfName(k: Kind, n: Name) {
    match n
    case NoName => k == Array
    case Name(key, before, after) => k == Object && WfBody(key) && AllWs(before) && AllWs(after)
  }

  predicate Wf(v: Value) {
    match v
    case Str(body) => WfBody(body)
    case Atom(text) => WfAtom(text)
    case Node(kind, pad, entries) => AllWs(pad) && (entries != [] ==> pad == "") && WfEntries(kind, entries)
  }

  predicate WfEntry(k: Kind, e: Entry)
    decreases e
  {
    AllWs(e.pre) && AllWs(e.post) && WfName(k, e.name) && Wf(e.value)
  }

  predicate WfEntries(k: Kind, es: seq<Entry>)
    ensures WfEntries(k, es) ==> forall j | 0 <= j < |es| :: WfEntry(k, es[j])
    decreases es
  {
    es == [] || (WfEntry(k, es[0]) && WfEntries(k, es[1..]))
  }

  lemma {:induction false} WfEntriesFrom(k: Kind, es: seq<Entry>)
    requires forall j | 0 <= j < |es| :: WfEntry(k, es[j])
    ensures WfEntries(k, es)
  {
    if es != [] { WfEntriesFrom(k, es[1..]); }
  }

  predicate IsAtomChar(c: byte) {
    IsDigit(c) || 'a' <= c <= 'z' || c == '+' || c == '-' || c == '.' || c == 'E'
  }

  /** Numbers and literal names never contain a structural character, a quotation mark
      or white space. */
  lemma AtomChars(t: Bytes)
    requires WfAtom(t)
    ensures t != "" && forall k | 0 <= k < |t| :: IsAtomChar(t[k])
  {
    if t != "true" && t != "false" && t != "null" {
      var s := if t[0] == '-' then t[1..] else t;
      MagnitudeChars(s);
      forall k | 0 <= k < |t| ensures IsAtomChar(t[k]) {
        if t[0] == '-' && k > 0 { assert t[k] == s[k - 1]; }
      }
    }
  }

  lemma MagnitudeChars(s: Bytes)
    requires WfMagnitude(s)
    ensures forall k | 0 <= k < |s| :: IsAtomChar(s[k])
  {
    var n := if s[0] == '0' then 1 else Digits(s);
    var f := s[n..];
    if f != "" && f[0] == '.' {
      var m := Digits(f[1..]);
      ExponentChars(f[1 + m..]);
      forall k | 0 <= k < |f| ensures IsAtomChar(f[k]) {
        if k == 0 {
        } else if k <= m { assert f[k] == f[1..][k - 1]; }
        else { assert f[k] == f[1 + m..][k - 1 - m]; }
      }
    } else {
      ExponentChars(f);
    }
    forall k | 0 <= k < |s| ensures IsAtomChar(s[k]) {
      if k >= n { assert s[k] == f[k - n]; }
    }
  }

  lemma ExponentChars(s: Bytes)
    requires WfExponent(s)
    ensures forall k | 0 <= k < |s| :: IsAtomChar(s[k])
  {
    if s != "" {
      var n := if s[1] == '+' || s[1] == '-' then 2 else 1;
      forall k | n <= k < |s| ensures IsDigit(s[k]) { assert s[k] == s[n..][k - n]; }
    }
  }
}
