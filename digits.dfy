/**
 * ASCII decimal digits: the values of digit strings (what `int(...)` and
 * `strptime` read), the zero-padded and plain decimal renderings that
 * f-strings produce, and the rounding of a decimal fraction to microseconds.
 */
module Digits {

  predicate IsDigit(c: char) {
    '0' <= c <= '9'
  }

  predicate AllDigits(s: seq<char>) {
    forall i :: 0 <= i < |s| ==> IsDigit(s[i])
  }

  function DigitValue(c: char): nat
    requires IsDigit(c)
  {
    c as int - '0' as int
  }

  function DigitChar(n: nat): (c: char)
    requires n < 10
    ensures IsDigit(c) && DigitValue(c) == n
  {
    ('0' as int + n) as char
  }

  lemma DigitCharOfValue(c: char)
    requires IsDigit(c)
    ensures DigitValue(c) < 10 && DigitChar(DigitValue(c)) == c
  {
  }

  function Pow10(k: nat): (p: nat)
    ensures p >= 1
  {
    if k == 0 then 1 else 10 * Pow10(k - 1)
  }

  /** The number a string of decimal digits denotes (leading zeros allowed). */
  function Value(s: seq<char>): nat
    requires AllDigits(s)
  {
    if s == [] then 0 else Value(s[..|s| - 1]) * 10 + DigitValue(s[|s| - 1])
  }

  lemma {:induction false} ValueLowerBound(s: seq<char>)
    requires AllDigits(s) && |s| >= 1 && s[0] != '0'
    ensures Value(s) >= Pow10(|s| - 1)
  {
    if |s| > 1 {
      ValueLowerBound(s[..|s| - 1]);
    }
  }

  lemma ValueAppend(s: seq<char>, c: char)
    requires AllDigits(s) && IsDigit(c)
    ensures AllDigits(s + [c]) && Value(s + [c]) == Value(s) * 10 + DigitValue(c)
  {
    assert (s + [c])[..|s|] == s;
  }

  /** A two-digit zero-padded field, as the format `{n:02d}` renders `0 <= n < 100`. */
  function Pad2(n: nat): (r: string)
    requires n < 100
    ensures |r| == 2 && AllDigits(r) && Value(r) == n
  {
    ValueAppend([DigitChar(n / 10)], DigitChar(n % 10));
    [DigitChar(n / 10), DigitChar(n % 10)]
  }

  /** Every two-digit string is the padded rendering of its own value. */
  lemma Pad2OfValue(s: string)
    requires |s| == 2 && AllDigits(s)
    ensures Value(s) < 100 && Pad2(Value(s)) == s
  {
    assert [s[0]][..0] == [];
    ValueAppend([s[0]], s[1]);
    assert [s[0]] + [s[1]] == s;
  }

  /** A digit string without superfluous leading zeros, as `str(n)` renders `n`. */
  predicate Canonical(s: string) {
    |s| >= 1 && AllDigits(s) && (|s| > 1 ==> s[0] != '0')
  }

  /** The decimal rendering of a natural number (`f"{n}"`). */
  function Decimal(n: nat): (r: string)
    ensures Canonical(r) && Value(r) == n
    decreases n
  {
    if n < 10 then [DigitChar(n)]
    else
      var prefix := Decimal(n / 10);
      ValueAppend(prefix, DigitChar(n % 10));
      prefix + [DigitChar(n % 10)]
  }

  /** Reading a canonical digit string and rendering it again gives it back. */
  lemma {:induction false} DecimalOfValue(s: string)
    requires Canonical(s)
    ensures Decimal(Value(s)) == s
    decreases |s|
  {
    if |s| == 1 {
      assert Value(s) == DigitValue(s[0]);
      assert s == [s[0]];
    } else {
      var prefix := s[..|s| - 1];
      assert Canonical(prefix);
      ValueLowerBound(s);
      assert Value(s) >= 10;
      assert Value(s) / 10 == Value(prefix);
      DecimalOfValue(prefix);
      assert s == prefix + [s[|s| - 1]];
    }
  }

  /**
   * Microseconds nearest to the decimal fraction `0.f`, halfway cases to
   * even, as `timedelta(seconds = ...)` rounds.
   */
  function FractionMicros(f: seq<char>): (us: nat)
    requires AllDigits(f)
    ensures |f| <= 6 ==> us * Pow10(|f|) == Value(f) * 1_000_000
    ensures |f| > 6 ==> 2 * Dist(us * Pow10(|f| - 6), Value(f)) <= Pow10(|f| - 6)
    ensures |f| > 6 && 2 * Dist(us * Pow10(|f| - 6), Value(f)) == Pow10(|f| - 6) ==> us % 2 == 0
  {
    if |f| <= 6 then
      ExactScale(Value(f), |f|);
      Value(f) * Pow10(6 - |f|)
    else
      RoundHalfEven(Value(f), Pow10(|f| - 6))
  }

  function Dist(a: int, b: int): nat {
    if a < b then b - a else a - b
  }

  lemma ExactScale(v: nat, k: nat)
    requires k <= 6
    ensures v * Pow10(6 - k) * Pow10(k) == v * 1_000_000
  {
    Pow10Split(6 - k, k);
    assert Pow10(6) == 1_000_000;
    assert v * Pow10(6 - k) * Pow10(k) == v * (Pow10(6 - k) * Pow10(k));
  }

  /** The multiple of `unit` nearest to `v`, divided by `unit`; halfway cases go to the even quotient. */
  function RoundHalfEven(v: nat, unit: nat): (q: nat)
    requires unit >= 1
    ensures 2 * Dist(q * unit, v) <= unit
    ensures 2 * Dist(q * unit, v) == unit ==> q % 2 == 0
  {
    var q := v / unit;
    var r := v % unit;
    var up := 2 * r > unit || (2 * r == unit && q % 2 == 1);
    DivMod(v, unit);
    RoundingDistance(v, unit, q, r, up);
    if up then q + 1 else q
  }

  lemma DivMod(v: nat, unit: nat)
    requires unit >= 1
    ensures v == v / unit * unit + v % unit && v % unit < unit
  {
  }

  lemma RoundingDistance(v: nat, unit: nat, q: nat, r: nat, up: bool)
    requires unit >= 1 && v == q * unit + r && r < unit
    requires up <==> 2 * r > unit || (2 * r == unit && q % 2 == 1)
    ensures var p := if up then q + 1 else q;
      2 * Dist(p * unit, v) <= unit && (2 * Dist(p * unit, v) == unit ==> p % 2 == 0)
  {
    if up {
      assert (q + 1) * unit == q * unit + unit;
      assert Dist((q + 1) * unit, v) == unit - r;
    } else {
      assert Dist(q * unit, v) == r;
    }
  }

  lemma {:induction false} Pow10Split(a: nat, b: nat)
    ensures Pow10(a + b) == Pow10(a) * Pow10(b)
    decreases a
  {
    if a > 0 {
      Pow10Split(a - 1, b);
      assert Pow10(a + b) == 10 * Pow10(a - 1 + b);
    }
  }
}
