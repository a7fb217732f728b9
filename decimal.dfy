/**
 * Decimal text: `std::stoi`, which reads every count, length and expiry of a
 * request, and `std::to_string`, which writes the length of a bulk reply.
 * Throughout the model a `char` stands for one byte of the C++ `char`
 * buffers, so every length counts bytes.
 */
module Decimal {
  import opened Wrappers

  const INT_MIN: int := -0x8000_0000
  const INT_MAX: int := 0x7fff_ffff

  /** The values of a C++ `int`. */
  type Int32 = x: int | INT_MIN <= x <= INT_MAX

  predicate IsDigit(c: char) {
    '0' <= c <= '9'
  }

  /** The characters `isspace` accepts in the C locale: space, \t, \n, \v, \f, \r. */
  predicate IsSpace(c: char) {
    c == ' ' || '\t' <= c <= '\r'
  }

  predicate AllDigits(s: string) {
    forall i :: 0 <= i < |s| ==> IsDigit(s[i])
  }

  function DigitValue(c: char): (d: nat)
    requires IsDigit(c)
    ensures d < 10
  {
    c as int - '0' as int
  }

  function DigitChar(d: nat): (c: char)
    requires d < 10
    ensures IsDigit(c) && DigitValue(c) == d
  {
    ('0' as int + d) as char
  }

  /** The value of a string of decimal digits, most significant first. */
  function DigitsValue(s: string): nat
    requires AllDigits(s)
  {
    if s == [] then 0 else DigitsValue(s[..|s| - 1]) * 10 + DigitValue(s[|s| - 1])
  }

  /** `std::to_string` of a non-negative value: its shortest decimal spelling. */
  function NatToString(n: nat): (s: string)
    ensures s != [] && AllDigits(s) && DigitsValue(s) == n
    ensures |s| > 1 ==> s[0] != '0'
  {
    if n < 10 then [DigitChar(n)]
    else
      var s := NatToString(n / 10) + [DigitChar(n % 10)];
      assert s[..|s| - 1] == NatToString(n / 10);
      s
  }

  /** The decimal spelling of a signed value, with a leading '-' when negative. */
  function IntToString(i: int): (s: string)
  {
    if i < 0 then "-" + NatToString(-i) else NatToString(i)
  }

  /**
   * `std::stoi(s)` with base 10: leading white space is skipped, one sign is
   * allowed, then at least one digit must follow; the digits after it are read
   * up to the first non-digit and the rest of the string is ignored. Where
   * `stoi` throws (no digit, or a value outside `int`) the result is None.
   */
  function Stoi(s: string): (r: Option<Int32>)
  {
    Scan(s, 0, Blank, 0, false)
  }

  /** A plain run of digits reads as its decimal value when an `int` holds it; a string without a digit fails. */
  lemma StoiOfPlainText(s: string)
    ensures s != [] && AllDigits(s) ==> Stoi(s) == InRange(DigitsValue(s))
    ensures NoDigit(s) ==> Stoi(s) == None
  {
    ScanWithoutDigits(s, 0, Blank, false);
    if s != [] && AllDigits(s) {
      assert s[0..] == s;
      StoiOfDigits(s, 0, false);
    }
  }

  predicate NoDigit(s: string) {
    forall i :: 0 <= i < |s| ==> !IsDigit(s[i])
  }

  /** Where `stoi`'s scan stands: in the leading white space, before the first digit, or among the digits. */
  datatype Stage = Blank | FirstDigit | Digits

  /**
   * `stoi`'s scan from position `k`, one character at a time; `acc` is the
   * value of the digits read so far and `negative` whether a '-' was read.
   */
  function Scan(s: string, k: nat, stage: Stage, acc: nat, negative: bool): Option<Int32>
    requires k <= |s|
    decreases |s| - k, if stage == Blank then 2 else if stage == FirstDigit then 1 else 0
  {
    match stage
    case Blank =>
      if k < |s| && IsSpace(s[k]) then Scan(s, k + 1, Blank, 0, false)
      else if k < |s| && s[k] == '-' then Scan(s, k + 1, FirstDigit, 0, true)
      else if k < |s| && s[k] == '+' then Scan(s, k + 1, FirstDigit, 0, false)
      else Scan(s, k, FirstDigit, 0, false)
    case FirstDigit =>
      if k < |s| && IsDigit(s[k]) then Scan(s, k + 1, Digits, DigitValue(s[k]), negative) else None
    case Digits =>
      if k < |s| && IsDigit(s[k]) then Scan(s, k + 1, Digits, acc * 10 + DigitValue(s[k]), negative)
      else InRange(Signed(acc, negative))
  }

  function Signed(magnitude: nat, negative: bool): int
  {
    if negative then -(magnitude as int) else magnitude
  }

  /** The value, when a C++ `int` holds it. */
  function InRange(v: int): (r: Option<Int32>)
    ensures r.Some? <==> INT_MIN <= v <= INT_MAX
    ensures r.Some? ==> r.value == v
  {
    if INT_MIN <= v <= INT_MAX then Some(v) else None
  }

  /** A strict reading of a length: a non-empty run of digits and nothing else. */
  function ParseDecimal(s: string): (r: Option<nat>)
    ensures r.Some? <==> s != [] && AllDigits(s)
  {
    if s != [] && AllDigits(s) then Some(DigitsValue(s)) else None
  }

  /** Without a digit from position `k` on, the scan fails before it reaches the digits stage. */
  lemma {:induction false} ScanWithoutDigits(s: string, k: nat, stage: Stage, negative: bool)
    requires k <= |s|
    ensures stage != Digits && (forall i :: k <= i < |s| ==> !IsDigit(s[i])) ==> Scan(s, k, stage, 0, negative) == None
    decreases |s| - k, if stage == Blank then 2 else if stage == FirstDigit then 1 else 0
  {
    if stage == Blank {
      if k < |s| && IsSpace(s[k]) {
        ScanWithoutDigits(s, k + 1, Blank, false);
      } else if k < |s| && s[k] == '-' {
        ScanWithoutDigits(s, k + 1, FirstDigit, true);
      } else if k < |s| && s[k] == '+' {
        ScanWithoutDigits(s, k + 1, FirstDigit, false);
      } else {
        ScanWithoutDigits(s, k, FirstDigit, false);
      }
    }
  }

  /** Reading the rest of a run of digits adds those digits to the value read so far. */
  lemma {:induction false} ScanDigits(s: string, k: nat, negative: bool)
    requires 0 < k <= |s| && AllDigits(s)
    ensures Scan(s, k, Digits, DigitsValue(s[..k]), negative) == InRange(Signed(DigitsValue(s), negative))
    decreases |s| - k
  {
    if k < |s| {
      assert s[..k + 1][..k] == s[..k];
      ScanDigits(s, k + 1, negative);
    } else {
      assert s[..k] == s;
    }
  }

  /** `stoi`'s scan only looks at the characters from the position it stands at. */
  lemma {:induction false} ScanShift(s: string, k: nat, d: string, i: nat, acc: nat, negative: bool)
    requires k <= |s| && d == s[k..] && i <= |d|
    ensures Scan(d, i, Digits, acc, negative) == Scan(s, k + i, Digits, acc, negative)
    decreases |d| - i
  {
    if i < |d| && IsDigit(d[i]) {
      assert d[i] == s[k + i];
      ScanShift(s, k, d, i + 1, acc * 10 + DigitValue(d[i]), negative);
    }
  }

  /** After the sign, `stoi` reads a run of digits as its decimal value. */
  lemma StoiOfDigits(s: string, k: nat, negative: bool)
    requires k < |s| && AllDigits(s[k..])
    ensures Scan(s, k, FirstDigit, 0, negative) == InRange(Signed(DigitsValue(s[k..]), negative))
  {
    var d := s[k..];
    assert DigitsValue(d[..1]) == DigitValue(d[0]) by {
      assert d[..1][..0] == [];
    }
    ScanDigits(d, 1, negative);
    ScanShift(s, k, d, 1, DigitValue(d[0]), negative);
  }

  /** `stoi` reads back every value `to_string` writes, within the range of `int`. */
  lemma StoiOfNatToString(n: nat)
    requires n <= INT_MAX
    ensures Stoi(NatToString(n)) == Some(n)
  {
    var s := NatToString(n);
    assert s[0..] == s;
    StoiOfDigits(s, 0, false);
    assert Stoi(s) == Scan(s, 0, FirstDigit, 0, false);
  }

  /** `stoi` reads back every signed spelling of an `int`. */
  lemma StoiOfIntToString(i: Int32)
    ensures Stoi(IntToString(i)) == Some(i)
  {
    if i < 0 {
      var d := NatToString(-(i as int));
      var s := "-" + d;
      assert s[1..] == d;
      StoiOfDigits(s, 1, true);
      assert Stoi(s) == Scan(s, 1, FirstDigit, 0, true);
    } else {
      StoiOfNatToString(i);
    }
  }

  /** A decimal spelling is short: at most one digit more than a tenth of the value. */
  lemma {:induction false} NatToStringLength(n: nat)
    ensures |NatToString(n)| <= n / 10 + 1
  {
    if n >= 10 {
      NatToStringLength(n / 10);
      assert n / 10 / 10 + 1 <= n / 10;
    }
  }

  /** The spelling of an `int` fits the length field of a bulk string. */
  lemma IntToStringLength(i: Int32)
    ensures |IntToString(i)| <= INT_MAX
  {
    if i < 0 {
      NatToStringLength(-(i as int));
    } else {
      NatToStringLength(i);
    }
  }
}
