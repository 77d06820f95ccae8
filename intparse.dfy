/** Rust's `u32::from_str` / `i32::from_str` (radix 10) and the decimal
    rendering `format!("{}", n)` of an unsigned integer. */
module IntParse {
  import opened Results
  import opened Bytes

  /** `std::num::IntErrorKind`; the nightly toolchains the code needs call
      the two overflow kinds `Overflow` and `Underflow`. */
  datatype IntErrorKind = Empty | InvalidDigit | PosOverflow | NegOverflow

  /** The `Display` text of a `ParseIntError` of each kind. */
  function Description(k: IntErrorKind): string {
    match k
    case Empty => "cannot parse integer from empty string"
    case InvalidDigit => "invalid digit found in string"
    case PosOverflow => "number too large to fit in target type"
    case NegOverflow => "number too small to fit in target type"
  }

  /** The first and the twelfth character of a description, which differ
      between any two kinds. */
  lemma DescriptionKey(k: IntErrorKind)
    ensures |Description(k)| > 11
    ensures Description(k)[0] == (if k.Empty? then 'c' else if k.InvalidDigit? then 'i' else 'n')
    ensures Description(k)[11] == (if k.PosOverflow? then 'l' else if k.NegOverflow? then 's' else Description(k)[11])
  {
  }

  predicate IsDigit(c: char) { '0' <= c <= '9' }

  function DigitValue(c: char): nat
    requires IsDigit(c)
  {
    c as int - '0' as int
  }

  function DigitChar(d: nat): (c: char)
    requires d < 10
    ensures IsDigit(c) && DigitValue(c) == d
  {
    ('0' as int + d) as char
  }

  predicate AllDigits(d: string) {
    forall i :: 0 <= i < |d| ==> IsDigit(d[i])
  }

  function Pow10(k: nat): nat {
    if k == 0 then 1 else 10 * Pow10(k - 1)
  }

  /** Positional value of a digit string, most significant digit first. */
  function Value(d: string): nat
    requires AllDigits(d)
  {
    if d == [] then 0 else Value(d[..|d| - 1]) * 10 + DigitValue(d[|d| - 1])
  }

  /** The accumulation loop of `from_str_radix`: digits are taken left to
      right; a non-digit fails with InvalidDigit, and a partial value that
      leaves `lo..=hi` fails with an overflow, whichever comes first. */
  function Accumulate(digits: string, acc: int, negative: bool, lo: int, hi: int): (r: Result<int, IntErrorKind>)
    requires lo <= acc <= hi
    requires if negative then acc <= 0 else acc >= 0
    ensures r.Ok? ==> lo <= r.value <= hi
    decreases |digits|
  {
    if digits == [] then Ok(acc)
    else if !IsDigit(digits[0]) then Err(InvalidDigit)
    else if negative then
      var next := acc * 10 - DigitValue(digits[0]);
      if next < lo then Err(NegOverflow) else Accumulate(digits[1..], next, negative, lo, hi)
    else
      var next := acc * 10 + DigitValue(digits[0]);
      if next > hi then Err(PosOverflow) else Accumulate(digits[1..], next, negative, lo, hi)
  }

  /** `from_str_radix(s, 10)` for an integer type with range `lo..=hi`, as
      the nightly toolchains with `NoneError` have it: a leading '-' is a
      sign only for signed types, and a sign with no digits after it is an
      empty number. */
  function ParseInt(s: string, signed: bool, lo: int, hi: int): (r: Result<int, IntErrorKind>)
    requires lo <= 0 <= hi
    ensures r.Ok? ==> lo <= r.value <= hi
  {
    if s == [] then Err(Empty)
    else if s[0] == '+' || (s[0] == '-' && signed) then
      if |s| == 1 then Err(Empty) else Accumulate(s[1..], 0, s[0] == '-', lo, hi)
    else Accumulate(s, 0, false, lo, hi)
  }

  /** `u32::from_str` */
  function ParseU32(s: string): Result<u32, IntErrorKind> {
    match ParseInt(s, false, 0, U32_MAX)
    case Ok(n) => Ok(n)
    case Err(k) => Err(k)
  }

  /** `i32::from_str` */
  function ParseI32(s: string): (r: Result<int, IntErrorKind>)
    ensures r.Ok? ==> -0x8000_0000 <= r.value <= 0x7FFF_FFFF
  {
    ParseInt(s, true, -0x8000_0000, 0x7FFF_FFFF)
  }

  /** The digits `u32::from_str` reads: everything after an optional '+'. */
  function Unsigned(s: string): string {
    if |s| > 0 && s[0] == '+' then s[1..] else s
  }

  /** The words `u32::from_str` accepts: an optional '+', then one or more
      ASCII digits whose value fits in 32 bits. */
  predicate IsU32Literal(s: string) {
    var d := Unsigned(s);
    |d| > 0 && AllDigits(d) && Value(d) <= U32_MAX
  }

  /** `format!("{}", n)`: decimal digits without leading zeros. */
  function Decimal(n: nat): (s: string)
    ensures |s| > 0 && AllDigits(s)
  {
    if n < 10 then [DigitChar(n)] else Decimal(n / 10) + [DigitChar(n % 10)]
  }

  // ---- properties ----

  lemma {:induction false} ValueSnoc(d: string, c: char)
    requires AllDigits(d) && IsDigit(c)
    ensures AllDigits(d + [c]) && Value(d + [c]) == Value(d) * 10 + DigitValue(c)
  {
    assert (d + [c])[..|d|] == d;
  }

  /** A non-empty digit string split after its first digit. */
  lemma {:induction false} ValueCons(d: string)
    requires |d| > 0 && AllDigits(d)
    ensures Value(d) == DigitValue(d[0]) * Pow10(|d| - 1) + Value(d[1..])
    decreases |d|
  {
    if |d| > 1 {
      var n := |d|;
      var p, t := d[..n - 1], d[1..];
      var first, last := DigitValue(d[0]), DigitValue(d[n - 1]);
      assert p[0] == d[0];
      assert p[1..] == t[..n - 2];
      assert t[n - 2] == d[n - 1];
      var q, v := Pow10(n - 2), Value(p[1..]);
      ValueCons(p);
      assert Value(p) == first * q + v;
      assert Value(t) == v * 10 + last;
      assert Value(d) == Value(p) * 10 + last;
      assert Pow10(n - 1) == 10 * q;
      ScaleSum(first, q, v, last);
    } else {
      assert d[1..] == [];
      assert d[..0] == [];
    }
  }

  lemma {:induction false} ValueBound(d: string)
    requires AllDigits(d)
    ensures Value(d) < Pow10(|d|)
    decreases |d|
  {
    if d != [] {
      ValueBound(d[..|d| - 1]);
    }
  }

  /** Over a digit string the accumulation succeeds exactly when the full
      value fits, and then yields it. */
  lemma {:induction false} AccumulateDigits(d: string, acc: int, hi: int)
    requires AllDigits(d) && 0 <= acc <= hi
    ensures Accumulate(d, acc, false, 0, hi) ==
      (if acc * Pow10(|d|) + Value(d) <= hi then Ok(acc * Pow10(|d|) + Value(d)) else Err(PosOverflow))
    decreases |d|
  {
    if d != [] {
      ValueCons(d);
      var p := Pow10(|d| - 1);
      var dv := DigitValue(d[0]);
      var next := acc * 10 + dv;
      var rest := Value(d[1..]);
      assert Pow10(|d|) == 10 * p;
      assert |d[1..]| == |d| - 1;
      PowPositive(|d| - 1);
      Shift(acc, dv, p, rest);
      MulAtLeast(next, p);
      if next <= hi {
        AccumulateDigits(d[1..], next, hi);
      }
    }
  }

  lemma ScaleSum(a: int, q: int, v: int, c: int)
    ensures (a * q + v) * 10 + c == a * (10 * q) + (v * 10 + c)
  {
  }

  lemma Shift(acc: int, dv: int, p: int, rest: int)
    ensures acc * (10 * p) + (dv * p + rest) == (acc * 10 + dv) * p + rest
  {
  }

  lemma MulAtLeast(a: int, b: int)
    requires a >= 0 && b >= 1
    ensures a * b >= a
  {
    assert a * b == a * (b - 1) + a;
  }

  lemma {:induction false} PowPositive(k: nat)
    ensures Pow10(k) >= 1
  {
    if k > 0 { PowPositive(k - 1); }
  }

  /** A string holding a non-digit never accumulates to a value. */
  lemma {:induction false} AccumulateNonDigit(d: string, acc: int, negative: bool, lo: int, hi: int)
    requires lo <= acc <= hi && !AllDigits(d)
    requires if negative then acc <= 0 else acc >= 0
    ensures Accumulate(d, acc, negative, lo, hi).Err?
    decreases |d|
  {
    if IsDigit(d[0]) {
      assert !AllDigits(d[1..]) by {
        var i :| 0 <= i < |d| && !IsDigit(d[i]);
        assert d[1..][i - 1] == d[i];
      }
      var next := if negative then acc * 10 - DigitValue(d[0]) else acc * 10 + DigitValue(d[0]);
      if negative && next >= lo {
        AccumulateNonDigit(d[1..], next, negative, lo, hi);
      } else if !negative && next <= hi {
        AccumulateNonDigit(d[1..], next, negative, lo, hi);
      }
    }
  }

  /** `u32::from_str` accepts exactly the u32 literals, and yields their value. */
  lemma ParseU32Spec(s: string)
    ensures ParseU32(s).Ok? <==> IsU32Literal(s)
    ensures ParseU32(s).Ok? ==> ParseU32(s).value == Value(Unsigned(s))
  {
    var d := Unsigned(s);
    if s == [] || (s[0] == '+' && |s| == 1) {
      assert !IsU32Literal(s);
    } else {
      assert ParseInt(s, false, 0, U32_MAX) == Accumulate(d, 0, false, 0, U32_MAX);
      if AllDigits(d) {
        AccumulateDigits(d, 0, U32_MAX);
      } else {
        AccumulateNonDigit(d, 0, false, 0, U32_MAX);
      }
    }
  }

  /** A word whose first character is neither a digit nor a sign fails with
      InvalidDigit, whatever the integer type. */
  lemma ParseBadStart(s: string, signed: bool, lo: int, hi: int)
    requires lo <= 0 <= hi
    requires |s| > 0 && !IsDigit(s[0]) && s[0] != '+' && s[0] != '-'
    ensures ParseInt(s, signed, lo, hi) == Err(InvalidDigit)
  {
  }

  /** A sign alone is an empty number; for an unsigned type '-' is no sign
      and fails as a bad digit. */
  lemma ParseLoneSign(signed: bool, lo: int, hi: int)
    requires lo <= 0 <= hi
    ensures ParseInt("+", signed, lo, hi) == Err(Empty)
    ensures ParseInt("-", signed, lo, hi) == Err(if signed then Empty else InvalidDigit)
  {
    if !signed {
      assert !IsDigit('-');
    }
  }

  lemma {:induction false} DecimalValue(n: nat)
    ensures Value(Decimal(n)) == n
  {
    if n >= 10 {
      DecimalValue(n / 10);
      ValueSnoc(Decimal(n / 10), DigitChar(n % 10));
    }
  }

  /** Decimal rendering and `u32::from_str` are inverse: a rendered u32 is
      always read back as itself. */
  lemma ParseDecimal(n: u32)
    ensures ParseU32(Decimal(n)) == Ok(n)
  {
    DecimalValue(n);
    var s := Decimal(n);
    assert s[0] != '+';
    assert Unsigned(s) == s;
    ParseU32Spec(s);
  }
}
