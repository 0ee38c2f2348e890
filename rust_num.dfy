/** Rust's fixed-width integers and `str::parse` for `i32` and `u32`.
    The parser is written the way Rust's `from_str_radix` works (strip one sign,
    then accumulate digit by digit with overflow-checked multiply and add) and is
    proved equal to a plain statement of what it accepts: an optional sign, then
    one or more ASCII decimal digits, whose value fits the target type. */
module RustNum {

  datatype Option<+T> = None | Some(value: T) {
    /** Rust's `Option::unwrap_or` / `Result::unwrap_or` once the error is dropped. */
    function GetOr(default: T): T {
      match this
      case Some(v) => v
      case None => default
    }
  }

  const I32_MIN: int := -0x8000_0000
  const I32_MAX: int := 0x7fff_ffff
  const U32_MAX: int := 0xffff_ffff
  const I64_MIN: int := -0x8000_0000_0000_0000
  const I64_MAX: int := 0x7fff_ffff_ffff_ffff

  type i32 = x: int | I32_MIN <= x <= I32_MAX
  type u32 = x: int | 0 <= x <= U32_MAX
  type i64 = x: int | I64_MIN <= x <= I64_MAX

  // ---------------------------------------------------------------------------
  // Decimal notation, stated on its own

  predicate IsDigit(c: char) {
    '0' <= c <= '9'
  }

  function DigitValue(c: char): (d: nat)
    requires IsDigit(c)
    ensures d <= 9
  {
    c as int - '0' as int
  }

  predicate AllDigits(s: string) {
    forall i :: 0 <= i < |s| ==> IsDigit(s[i])
  }

  function Pow10(k: nat): (p: nat)
    ensures p >= 1
  {
    if k == 0 then 1 else 10 * Pow10(k - 1)
  }

  /** Positional value of a digit string: the first digit weighs 10^(length-1). */
  function DecimalValue(s: string): nat
    requires AllDigits(s)
  {
    if s == [] then 0 else DigitValue(s[0]) * Pow10(|s| - 1) + DecimalValue(s[1..])
  }

  /** Length of the sign Rust strips: a `+`, or for a signed type a `-`. */
  function SignLength(s: string, signed: bool): nat {
    if |s| > 0 && (s[0] == '+' || (signed && s[0] == '-')) then 1 else 0
  }

  /** The text Rust's integer parser accepts before any range check. */
  predicate IsNumeral(s: string, signed: bool) {
    var k := SignLength(s, signed);
    |s| > k && AllDigits(s[k..])
  }

  /** The value such a text denotes. */
  function NumeralValue(s: string, signed: bool): int
    requires IsNumeral(s, signed)
  {
    var k := SignLength(s, signed);
    if k == 1 && s[0] == '-' then -(DecimalValue(s[1..]) as int) else DecimalValue(s[k..])
  }

  // ---------------------------------------------------------------------------
  // The parser as Rust runs it

  /** One digit at a time: `acc * 10` then `+ d` (or `- d` for a negative
      number), each step checked against the target range. */
  function Accumulate(digits: string, acc: int, negative: bool, lo: int, hi: int): Option<int>
    decreases |digits|
  {
    if digits == [] then Some(acc)
    else if !IsDigit(digits[0]) then None
    else
      var shifted := acc * 10;
      if shifted < lo || hi < shifted then None
      else
        var next := if negative then shifted - DigitValue(digits[0]) else shifted + DigitValue(digits[0]);
        if next < lo || hi < next then None
        else Accumulate(digits[1..], next, negative, lo, hi)
  }

  /** `from_str_radix(s, 10)` for a type with range `lo..=hi`. */
  function FromStr(s: string, signed: bool, lo: int, hi: int): Option<int> {
    if s == [] then None
    else if |s| == 1 && (s[0] == '+' || s[0] == '-') then None
    else if s[0] == '+' then Accumulate(s[1..], 0, false, lo, hi)
    else if s[0] == '-' && signed then Accumulate(s[1..], 0, true, lo, hi)
    else Accumulate(s, 0, false, lo, hi)
  }

  /** `s.parse::<i32>().ok()` */
  function ParseI32(s: string): (r: Option<i32>)
    ensures r == if IsNumeral(s, true) && I32_MIN <= NumeralValue(s, true) <= I32_MAX
                 then Some(NumeralValue(s, true)) else None
  {
    FromStrMeaning(s, true, I32_MIN, I32_MAX);
    match FromStr(s, true, I32_MIN, I32_MAX)
    case Some(v) => Some(v)
    case None => None
  }

  /** `s.parse::<u32>().ok()` */
  function ParseU32(s: string): (r: Option<u32>)
    ensures r == if IsNumeral(s, false) && NumeralValue(s, false) <= U32_MAX
                 then Some(NumeralValue(s, false)) else None
  {
    FromStrMeaning(s, false, 0, U32_MAX);
    match FromStr(s, false, 0, U32_MAX)
    case Some(v) => Some(v)
    case None => None
  }

  // ---------------------------------------------------------------------------
  // The checked accumulation computes the positional value

  /** What `acc` followed by `digits` denotes once every digit is appended. */
  function Extend(acc: int, digits: string, negative: bool): int
    requires AllDigits(digits)
  {
    acc * Pow10(|digits|) + (if negative then -(DecimalValue(digits) as int) else DecimalValue(digits))
  }

  /** Taking the first digit into the accumulator does not change the value denoted. */
  lemma ExtendStep(acc: int, digits: string, negative: bool)
    requires digits != [] && AllDigits(digits)
    ensures var d := DigitValue(digits[0]);
            Extend(acc, digits, negative)
            == Extend(if negative then acc * 10 - d else acc * 10 + d, digits[1..], negative)
  {
  }

  /** Appending digits moves a number away from zero, never back towards it. */
  lemma ExtendMonotone(acc: int, digits: string, negative: bool)
    requires AllDigits(digits)
    ensures !negative && acc >= 0 ==> Extend(acc, digits, negative) >= acc
    ensures negative && acc <= 0 ==> Extend(acc, digits, negative) <= acc
  {
  }

  lemma {:induction false} AccumulateMeaning(digits: string, acc: int, negative: bool, lo: int, hi: int)
    requires lo <= acc <= hi
    requires if negative then acc <= 0 else acc >= 0
    ensures Accumulate(digits, acc, negative, lo, hi)
            == if AllDigits(digits) && lo <= Extend(acc, digits, negative) <= hi
               then Some(Extend(acc, digits, negative)) else None
    decreases |digits|
  {
    if digits == [] {
    } else if !IsDigit(digits[0]) {
    } else {
      var d := DigitValue(digits[0]);
      var rest := digits[1..];
      var shifted := acc * 10;
      var next := if negative then shifted - d else shifted + d;
      assert AllDigits(digits) <==> AllDigits(rest) by {
        assert forall i :: 0 <= i < |rest| ==> rest[i] == digits[i + 1];
      }
      if AllDigits(digits) {
        ExtendStep(acc, digits, negative);
        ExtendMonotone(next, rest, negative);
        ExtendMonotone(shifted, [], negative);
      }
      if shifted < lo || hi < shifted {
        if AllDigits(digits) {
          // shifted is already out of range on the side the digits move towards
          assert Extend(acc, digits, negative) == Extend(next, rest, negative);
        }
      } else if next < lo || hi < next {
      } else {
        AccumulateMeaning(rest, next, negative, lo, hi);
      }
    }
  }

  lemma FromStrMeaning(s: string, signed: bool, lo: int, hi: int)
    requires lo <= 0 <= hi
    ensures FromStr(s, signed, lo, hi)
            == if IsNumeral(s, signed) && lo <= NumeralValue(s, signed) <= hi
               then Some(NumeralValue(s, signed)) else None
  {
    if s == [] || (|s| == 1 && (s[0] == '+' || s[0] == '-')) {
      assert !IsNumeral(s, signed) by {
        if |s| == 1 && SignLength(s, signed) == 0 { assert !IsDigit(s[0]); }
      }
    } else if s[0] == '+' || (s[0] == '-' && signed) {
      AccumulateMeaning(s[1..], 0, s[0] == '-', lo, hi);
    } else {
      AccumulateMeaning(s, 0, false, lo, hi);
    }
  }

  // ---------------------------------------------------------------------------
  // Round trip with decimal formatting

  function DigitChar(d: nat): (c: char)
    requires d <= 9
    ensures IsDigit(c) && DigitValue(c) == d
  {
    ('0' as int + d) as char
  }

  /** The plain decimal text of a non-negative number, as `to_string` writes it. */
  function Decimal(n: nat): (s: string)
    ensures |s| >= 1 && AllDigits(s)
  {
    if n < 10 then [DigitChar(n)] else Decimal(n / 10) + [DigitChar(n % 10)]
  }

  /** Decimal text of a signed number: a `-` only when negative. */
  function SignedDecimal(n: int): string {
    if n < 0 then "-" + Decimal(-n) else Decimal(n)
  }

  lemma {:induction false} DecimalValueAppend(s: string, c: char)
    requires AllDigits(s) && IsDigit(c)
    ensures AllDigits(s + [c])
    ensures DecimalValue(s + [c]) == 10 * DecimalValue(s) + DigitValue(c)
    decreases |s|
  {
    if s != [] {
      var t := s + [c];
      assert t[1..] == s[1..] + [c];
      DecimalValueAppend(s[1..], c);
      assert DigitValue(s[0]) * Pow10(|s|) == 10 * (DigitValue(s[0]) * Pow10(|s| - 1));
    }
  }

  lemma {:induction false} DecimalValueOfDecimal(n: nat)
    ensures DecimalValue(Decimal(n)) == n
  {
    if n >= 10 {
      DecimalValueOfDecimal(n / 10);
      DecimalValueAppend(Decimal(n / 10), DigitChar(n % 10));
    }
  }

  /** An integer written in decimal is read back as itself exactly when it
      fits in an `i32`; otherwise the parse fails. */
  lemma ParseI32RoundTrip(n: int)
    ensures ParseI32(SignedDecimal(n)) == if I32_MIN <= n <= I32_MAX then Some(n) else None
  {
    var s := SignedDecimal(n);
    if n < 0 {
      var t := Decimal(-n);
      DecimalValueOfDecimal(-n);
      assert s[1..] == t;
      assert SignLength(s, true) == 1;
      assert IsNumeral(s, true) && NumeralValue(s, true) == n;
    } else {
      DecimalValueOfDecimal(n);
      assert SignLength(s, true) == 0 by { assert IsDigit(s[0]); }
      assert s[0..] == s;
      assert IsNumeral(s, true) && NumeralValue(s, true) == n;
    }
  }

  /** A natural number written in decimal is read back as itself exactly when
      it fits in a `u32`; otherwise the parse fails. */
  lemma ParseU32RoundTrip(n: nat)
    ensures ParseU32(Decimal(n)) == if n <= U32_MAX then Some(n) else None
  {
    DecimalValueOfDecimal(n);
    assert SignLength(Decimal(n), false) == 0 by { assert IsDigit(Decimal(n)[0]); }
    assert Decimal(n)[0..] == Decimal(n);
  }
}
