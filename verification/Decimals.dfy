/** Decimal numerals as bytes, as Go's strconv prints them, and 64-bit wrap-around. */
module Decimals {
  import opened Bytes

  const MINUS: byte := 45
  const ZERO: byte := 48

  /** The numeral of `n`: no sign, no leading zero. */
  function Decimal(n: nat): (s: Str)
    ensures |s| > 0
  {
    if n < 10 then [ZERO + n] else Decimal(n / 10) + [ZERO + n % 10]
  }

  function Itoa(i: int): Str {
    if i < 0 then [MINUS] + Decimal(-i) else Decimal(i)
  }

  predicate IsDigit(c: byte) {
    ZERO <= c <= ZERO + 9
  }

  predicate AllDigits(s: Str) {
    forall i | 0 <= i < |s| :: IsDigit(s[i])
  }

  /** The number a row of digits spells. */
  function DigitsValue(s: Str): int {
    if s == [] then 0 else 10 * DigitsValue(s[..|s| - 1]) + (s[|s| - 1] - ZERO)
  }

  lemma {:induction false} DecimalMeans(n: nat)
    ensures AllDigits(Decimal(n)) && DigitsValue(Decimal(n)) == n
  {
    if n < 10 {
      assert [ZERO + n][..0] == [];
    } else {
      DecimalMeans(n / 10);
      var init := Decimal(n / 10);
      assert Decimal(n)[..|Decimal(n)| - 1] == init;
    }
  }

  function Pow10(k: nat): nat {
    if k == 0 then 1 else 10 * Pow10(k - 1)
  }

  lemma {:induction false} DecimalLength(n: nat, k: nat)
    requires n < Pow10(k) && k > 0
    ensures |Decimal(n)| <= k
  {
    if n >= 10 { DecimalLength(n / 10, k - 1); }
  }

  const PLUS: byte := 43

  /** Parsing with an optional sign, refused when empty, when not all digits, and when beyond 64 bits. */
  function Atoi(s: Str): Option<int64> {
    var signed := s != [] && (s[0] == MINUS || s[0] == PLUS);
    var digits := if signed then s[1..] else s;
    if digits == [] || !AllDigits(digits) then None
    else
      var n := if s[0] == MINUS then -DigitsValue(digits) else DigitsValue(digits);
      if IsInt64(n) then Some(n) else None
  }

  lemma AtoiItoa(i: int64)
    ensures Atoi(Itoa(i)) == Some(i)
  {
    var n: nat := if i < 0 then -(i as int) else i;
    DecimalMeans(n);
    assert i < 0 ==> Itoa(i)[1..] == Decimal(n);
    assert IsDigit(Decimal(n)[0]);
  }

  /** A plus sign is accepted and changes nothing; a number beyond 64 bits is refused. */
  lemma AtoiOfDecimal(n: nat)
    ensures Atoi([PLUS] + Decimal(n)) == Atoi(Decimal(n)) == if IsInt64(n) then Some(n) else None
  {
    DecimalMeans(n);
    assert ([PLUS] + Decimal(n))[1..] == Decimal(n);
    assert IsDigit(Decimal(n)[0]);
  }

  // ---------------------------------------------------------------- Signed 64-bit arithmetic

  /** Go's int on a 64-bit platform. */
  type int64 = x: int | IsInt64(x)

  const WORD64: int := 0x1_0000_0000_0000_0000

  predicate IsInt64(x: int) {
    -0x8000_0000_0000_0000 <= x < 0x8000_0000_0000_0000
  }

  /** What is left of a number in a signed 64-bit variable. */
  function Wrap(x: int): (r: int)
    ensures IsInt64(r)
    ensures IsInt64(x) ==> r == x
  {
    var m := x % WORD64;
    if m >= 0x8000_0000_0000_0000 then m - WORD64 else m
  }

  lemma WrapShift(x: int, k: int)
    ensures Wrap(x + WORD64 * k) == Wrap(x)
  {
  }

  ghost function Turns(x: int): (k: int)
    ensures x == Wrap(x) + WORD64 * k
  {
    var q := x / WORD64;
    if x % WORD64 >= 0x8000_0000_0000_0000 then q + 1 else q
  }

  /** Wrapping at every step is wrapping once at the end. */
  lemma WrapAccumulates(m: int, d: int)
    ensures Wrap(Wrap(m) * 10 + d) == Wrap(10 * m + d) && Wrap(-Wrap(m)) == Wrap(-m)
  {
    var k := Turns(m);
    WrapShift(Wrap(m) * 10 + d, 10 * k);
    WrapShift(-Wrap(m), -k);
  }
}
