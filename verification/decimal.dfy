/** Base-10 integer parsing and formatting as used by the limiter's Update step:
    strconv.ParseInt(s, 10, 64), strconv.Atoi (the same on a 64-bit platform) and
    strconv.FormatInt(v, 10) / strconv.Itoa.

    The reference meaning of a literal is `WellFormed` + `Denotation`; `ParseInt`
    follows Go's accumulate-and-check-cutoff loop and is proved to agree with it. */
module Decimal {
  import opened Wrappers

  const MinInt64: int := -0x8000_0000_0000_0000
  const MaxInt64: int := 0x7fff_ffff_ffff_ffff
  const MaxUint64: int := 0xffff_ffff_ffff_ffff

  /** Go's ParseUint refuses to multiply once the accumulator reaches this value. */
  const Cutoff: int := MaxUint64 / 10 + 1

  predicate IsInt64(v: int) {
    MinInt64 <= v <= MaxInt64
  }

  predicate IsDigit(c: char) {
    '0' <= c <= '9'
  }

  function DigitValue(c: char): (d: nat)
    requires IsDigit(c)
    ensures d < 10
  {
    (c as int) - ('0' as int)
  }

  function DigitChar(d: nat): (c: char)
    requires d < 10
    ensures IsDigit(c) && DigitValue(c) == d
  {
    (('0' as int) + d) as char
  }

  predicate AllDigits(s: string) {
    forall i :: 0 <= i < |s| ==> IsDigit(s[i])
  }

  /** The number `acc` followed by the decimal digits `ds`: acc * 10^|ds| + value(ds). */
  function Shift(acc: nat, ds: string): nat
    requires AllDigits(ds)
    decreases |ds|
  {
    if ds == [] then acc else Shift(acc * 10 + DigitValue(ds[0]), ds[1..])
  }

  /** The value of a string of decimal digits (leading zeros allowed). */
  function DigitsValue(ds: string): nat
    requires AllDigits(ds)
  {
    Shift(0, ds)
  }

  /** The digits after an optional leading '+' or '-'. */
  function Magnitude(s: string): string {
    if |s| > 0 && (s[0] == '+' || s[0] == '-') then s[1..] else s
  }

  /** The syntax base-10 parsing accepts: an optional sign, then one or more ASCII digits. */
  predicate WellFormed(s: string) {
    |Magnitude(s)| > 0 && AllDigits(Magnitude(s))
  }

  /** The integer a well-formed literal stands for. */
  function Denotation(s: string): int
    requires WellFormed(s)
  {
    if s[0] == '-' then -(DigitsValue(Magnitude(s)) as int) else DigitsValue(Magnitude(s))
  }

  /** A literal that ParseInt(s, 10, 64) accepts: well formed and within the int64 range. */
  predicate IsInt64Literal(s: string) {
    WellFormed(s) && IsInt64(Denotation(s))
  }

  lemma {:induction false} ShiftAtLeast(acc: nat, ds: string)
    ensures AllDigits(ds) ==> Shift(acc, ds) >= acc
    decreases |ds|
  {
    if ds != [] && AllDigits(ds) {
      assert AllDigits(ds[1..]) by {
        forall i | 0 <= i < |ds[1..]| ensures IsDigit(ds[1..][i]) {
          assert ds[1..][i] == ds[i + 1];
        }
      }
      ShiftAtLeast(acc * 10 + DigitValue(ds[0]), ds[1..]);
    }
  }

  /** Go's ParseUint digit loop from accumulator `n`: a non-digit is a syntax error, an
      accumulator at or above the cutoff or a step past MaxUint64 is a range error. */
  function Accumulate(n: nat, ds: string): (r: Option<nat>)
    requires n <= MaxUint64
    ensures r == if AllDigits(ds) && Shift(n, ds) <= MaxUint64 then Some(Shift(n, ds)) else None
    decreases |ds|
  {
    if ds == [] then Some(n)
    else if !IsDigit(ds[0]) then None
    else
      var n1 := n * 10 + DigitValue(ds[0]);
      ShiftAtLeast(n1, ds[1..]);
      if n >= Cutoff then None
      else if n1 > MaxUint64 then None
      else Accumulate(n1, ds[1..])
  }

  /** strconv.ParseUint(s, 10, 64), reduced to success or failure. */
  function ParseUint(s: string): (r: Option<nat>)
    ensures r.Some? <==> |s| > 0 && AllDigits(s) && DigitsValue(s) <= MaxUint64
    ensures r.Some? ==> r.value == DigitsValue(s)
  {
    if s == [] then None else Accumulate(0, s)
  }

  /** strconv.ParseInt(s, 10, 64) (and strconv.Atoi on a 64-bit platform), reduced to
      success or failure: the sign is split off, the digits parsed as unsigned, and the
      magnitude checked against the int64 bounds for the sign. */
  function ParseInt(s: string): (r: Option<int>)
    ensures r.Some? <==> IsInt64Literal(s)
    ensures r.Some? ==> r.value == Denotation(s)
  {
    if s == [] then None
    else
      var neg := s[0] == '-';
      var body := if s[0] == '+' || s[0] == '-' then s[1..] else s;
      match ParseUint(body)
      case None => None
      case Some(un) =>
        if !neg && un >= -MinInt64 then None
        else if neg && un > -MinInt64 then None
        else Some(if neg then -(un as int) else un)
  }

  /** Decimal digits of `n` without leading zeros ("0" for zero). */
  function Digits(n: nat): (s: string)
    ensures |s| > 0 && AllDigits(s)
    decreases n
  {
    if n < 10 then [DigitChar(n)] else Digits(n / 10) + [DigitChar(n % 10)]
  }

  /** strconv.FormatInt(v, 10) / strconv.Itoa(v). */
  function FormatInt(v: int): string {
    if v < 0 then "-" + Digits(-v) else Digits(v)
  }

  lemma {:induction false} ShiftAppend(acc: nat, a: string, b: string)
    requires AllDigits(a) && AllDigits(b)
    ensures AllDigits(a + b)
    ensures Shift(acc, a + b) == Shift(Shift(acc, a), b)
    decreases |a|
  {
    assert AllDigits(a + b) by {
      forall i | 0 <= i < |a + b| ensures IsDigit((a + b)[i]) {
        if i < |a| { assert (a + b)[i] == a[i]; } else { assert (a + b)[i] == b[i - |a|]; }
      }
    }
    if a != [] {
      assert (a + b)[0] == a[0];
      assert (a + b)[1..] == a[1..] + b;
      assert AllDigits(a[1..]) by {
        forall i | 0 <= i < |a[1..]| ensures IsDigit(a[1..][i]) {
          assert a[1..][i] == a[i + 1];
        }
      }
      ShiftAppend(acc * 10 + DigitValue(a[0]), a[1..], b);
    } else {
      assert a + b == b;
    }
  }

  lemma {:induction false} DigitsRoundTrip(n: nat)
    ensures DigitsValue(Digits(n)) == n
    decreases n
  {
    if n >= 10 {
      var d := DigitChar(n % 10);
      DigitsRoundTrip(n / 10);
      ShiftAppend(0, Digits(n / 10), [d]);
      assert Shift(n / 10, [d]) == (n / 10) * 10 + n % 10 by {
        assert [d][1..] == [];
      }
    } else {
      var d := DigitChar(n);
      assert [d][1..] == [];
      assert Shift(0, [d]) == Shift(DigitValue(d), []);
    }
  }

  /** Formatting then parsing gives back every int64 value: the headers the tests build
      with FormatInt / Itoa are read back exactly by Update. */
  lemma FormatParseRoundTrip(v: int)
    requires IsInt64(v)
    ensures IsInt64Literal(FormatInt(v))
    ensures ParseInt(FormatInt(v)) == Some(v)
  {
    var s := FormatInt(v);
    if v < 0 {
      DigitsRoundTrip(-v);
      assert s[0] == '-';
      assert Magnitude(s) == Digits(-v);
    } else {
      DigitsRoundTrip(v);
      assert IsDigit(s[0]);
      assert Magnitude(s) == Digits(v);
    }
  }
}
