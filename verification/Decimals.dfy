/** Decimal numbers as strconv prints and reads them, in 64 bits. */
module Decimals {
  import opened Bytes

  const MAX: nat := 0x7FFF_FFFF_FFFF_FFFF

  predicate IsDigit(c: byte) { '0' <= c <= '9' }

  function Digit(d: nat): byte
    requires d < 10
  {
    (d + '0' as nat) as char
  }

  /** `strconv.Itoa` for a number that is not negative. */
  function Itoa(n: nat): (r: Bytes)
    ensures r != "" && forall k | 0 <= k < |r| :: IsDigit(r[k])
  {
    if n < 10 then [Digit(n)] else Itoa(n / 10) + [Digit(n % 10)]
  }

  predicate AllDigits(s: Bytes) {
    s != "" && forall k | 0 <= k < |s| :: IsDigit(s[k])
  }

  /** The number some digits stand for. */
  function ValueOf(s: Bytes): nat
    requires forall k | 0 <= k < |s| :: IsDigit(s[k])
    decreases |s|
  {
    if s == "" then 0
    else
      assert IsDigit(s[|s| - 1]);
      ValueOf(s[..|s| - 1]) * 10 + (s[|s| - 1] as int - '0' as int)
  }

  /** What a parse yields: a number, also when it is out of range and the nearest one is taken,
      and whether that was without error. */
  datatype Parsed = Parsed(number: int, ok: bool)

  /** `strconv.ParseInt(s, 10, 64)` and `strconv.Atoi`: an optional sign, digits, no more. */
  function ParseInt(s: Bytes): Parsed {
    var negative := s != "" && s[0] == '-';
    var digits := if s != "" && (s[0] == '-' || s[0] == '+') then s[1..] else s;
    if !AllDigits(digits) then Parsed(0, false)
    else
      var n := ValueOf(digits);
      if negative then if n > MAX + 1 then Parsed(0 - MAX - 1, false) else Parsed(0 - n, true)
      else if n > MAX then Parsed(MAX, false) else Parsed(n, true)
  }

  lemma {:induction false} ValueOfItoa(n: nat)
    ensures ValueOf(Itoa(n)) == n
  {
    if n >= 10 {
      ValueOfItoa(n / 10);
      assert Itoa(n)[..|Itoa(n)| - 1] == Itoa(n / 10);
    } else {
      assert [Digit(n)][..0] == "";
    }
  }

  /** Reading what was printed gives the number back. */
  lemma ParseItoa(n: nat)
    requires n <= MAX
    ensures ParseInt(Itoa(n)) == Parsed(n, true)
  {
    ValueOfItoa(n);
    assert IsDigit(Itoa(n)[0]);
  }

  /** A sign is read, and numbers beyond 64 bits become the nearest one, with an error. */
  lemma ParseSigned(n: nat)
    ensures ParseInt("+" + Itoa(n)) == ParseInt(Itoa(n))
    ensures ParseInt("-" + Itoa(n)) == if n <= 0x8000_0000_0000_0000 then Parsed(0 - n, true) else Parsed(0 - 0x8000_0000_0000_0000, false)
    ensures n > MAX ==> ParseInt(Itoa(n)) == Parsed(MAX, false)
  {
    var d := Itoa(n);
    ValueOfItoa(n);
    assert IsDigit(d[0]);
    assert ("+" + d)[1..] == d && ("-" + d)[1..] == d;
  }

  /** A printed number has no leading zero. */
  lemma {:induction false} NoLeadingZero(n: nat)
    ensures n > 0 ==> Itoa(n)[0] != '0'
    ensures Itoa(0) == "0"
  {
    if n >= 10 { NoLeadingZero(n / 10); }
  }
}
