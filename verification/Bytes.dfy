/** Byte strings: a Go `string` or `[]byte` is a sequence of chars below 256. */
module Bytes {

  type byte = c: char | c <= '\U{FF}'
  type Bytes = seq<byte>

  predicate IsWs(c: byte) {
    c == ' ' || c == '\t' || c == '\n' || c == '\r'
  }

  predicate AllWs(s: Bytes) {
    forall k | 0 <= k < |s| :: IsWs(s[k])
  }

  /** `s` stands in `data` at position `i`. */
  predicate At(data: Bytes, i: nat, s: Bytes): (r: bool)
    ensures r ==> i + |s| <= |data|
    decreases s
  {
    if s == "" then i <= |data| else i < |data| && data[i] == s[0] && At(data, i + 1, s[1..])
  }

  lemma {:induction false} AtSlice(data: Bytes, i: nat, s: Bytes)
    ensures At(data, i, s) <==> i + |s| <= |data| && data[i..i + |s|] == s
    decreases s
  {
    if s != "" {
      AtSlice(data, i + 1, s[1..]);
      if i + |s| <= |data| {
        assert data[i..i + |s|] == [data[i]] + data[i + 1..i + |s|];
        assert s == [s[0]] + s[1..];
      }
    }
  }

  lemma AtChar(data: Bytes, i: nat, s: Bytes, k: nat)
    requires At(data, i, s) && k < |s|
    ensures data[i + k] == s[k]
  {
    AtSlice(data, i, s);
    assert data[i..i + |s|][k] == s[k];
  }

  lemma {:induction false} AtSplit(data: Bytes, i: nat, a: Bytes, b: Bytes)
    requires At(data, i, a + b)
    ensures At(data, i, a) && At(data, i + |a|, b)
    decreases a
  {
    if a == "" {
      assert a + b == b;
    } else {
      assert (a + b)[1..] == a[1..] + b;
      AtSplit(data, i + 1, a[1..], b);
    }
  }

  lemma AtHere(a: Bytes, s: Bytes, b: Bytes)
    ensures At(a + s + b, |a|, s)
  {
    AtSlice(a + s + b, |a|, s);
    assert (a + s + b)[|a|..|a| + |s|] == s;
  }

  /** What stands below `n` also stands in the prefix of length `n`. */
  lemma AtPrefix(data: Bytes, i: nat, s: Bytes, n: nat)
    requires At(data, i, s) && i + |s| <= n <= |data|
    ensures At(data[..n], i, s)
  {
    AtSlice(data, i, s);
    AtSlice(data[..n], i, s);
    assert data[..n][i..i + |s|] == data[i..i + |s|];
  }

  /** The first position at or after `i` where `c` stands, or the end. */
  function IndexOf(s: Bytes, c: byte, i: nat): (j: nat)
    requires i <= |s|
    ensures i <= j <= |s| && (j < |s| ==> s[j] == c)
    ensures forall k | i <= k < j :: s[k] != c
    decreases |s| - i
  {
    if i < |s| && s[i] != c then IndexOf(s, c, i + 1) else i
  }

  /** The last position of `c`. */
  function LastIndex(s: Bytes, c: byte): (r: int)
    ensures -1 <= r < |s| && (r >= 0 ==> s[r] == c) && forall k | r < k < |s| :: s[k] != c
    decreases |s|
  {
    if s == "" then -1
    else if s[|s| - 1] == c then |s| - 1
    else LastIndex(s[..|s| - 1], c)
  }

  lemma IndexOfIs(s: Bytes, c: byte, j: nat)
    requires j <= |s| && (j < |s| ==> s[j] == c) && forall k | 0 <= k < j :: s[k] != c
    ensures IndexOf(s, c, 0) == j
  {
  }

  lemma LastIndexIs(s: Bytes, c: byte, j: nat)
    requires j < |s| && s[j] == c && forall k | j < k < |s| :: s[k] != c
    ensures LastIndex(s, c) == j
  {
  }

  /** `strings.ReplaceAll`: every occurrence of `what` from left to right, none overlapping. */
  function ReplaceAll(s: Bytes, what: Bytes, with: Bytes): Bytes
    requires what != ""
    decreases |s|
  {
    if s == "" then ""
    else if At(s, 0, what) then with + ReplaceAll(s[|what|..], what, with)
    else [s[0]] + ReplaceAll(s[1..], what, with)
  }
}
