/**
 Decimal rendering and the integer arithmetic that replaces the source's
 float computations: ceiling division, rounding half up, and numbers kept in
 tenths where the source rounds a float to one decimal.
 */
module Numerals {
  import opened Text

  predicate IsDigit(c: char) {
    '0' <= c <= '9'
  }

  predicate AllDigits(s: string) {
    forall k :: 0 <= k < |s| ==> IsDigit(s[k])
  }

  function Digit(d: nat): (c: char)
    requires d < 10
    ensures IsDigit(c) && DigitValue(c) == d
  {
    ('0' as int + d) as char
  }

  /** The value of a decimal digit; other characters read as 0. */
  function DigitValue(c: char): nat {
    if IsDigit(c) then c as int - '0' as int else 0
  }

  /** Ruby's `Integer#to_s` (also what `"#{n}"` interpolates) for a non-negative integer. */
  function Dec(n: nat): (r: string)
    ensures |r| >= 1 && AllDigits(r)
    ensures r[0] == '0' ==> n == 0
  {
    if n < 10 then [Digit(n)] else Dec(n / 10) + [Digit(n % 10)]
  }

  /** Reads a string of decimal digits back as a number. */
  function ParseNat(s: string): nat {
    if s == [] then 0 else ParseNat(s[..|s| - 1]) * 10 + DigitValue(s[|s| - 1])
  }

  /** `ParseNat` inverts `Dec`. */
  lemma {:induction false} ParseDec(n: nat)
    ensures ParseNat(Dec(n)) == n
    decreases n
  {
    if n >= 10 {
      var d := Dec(n);
      assert d[..|d| - 1] == Dec(n / 10);
      ParseDec(n / 10);
    }
  }

  /** Distinct numbers render differently. */
  lemma DecInjective(m: nat, n: nat)
    requires Dec(m) == Dec(n)
    ensures m == n
  {
    ParseDec(m);
    ParseDec(n);
  }

  /** The three digits of `m < 1000`, zero-padded. */
  function Pad3(m: nat): (r: string)
    requires m < 1000
    ensures |r| == 3 && AllDigits(r)
  {
    [Digit(m / 100), Digit(m / 10 % 10), Digit(m % 10)]
  }

  /** The decimal form of `n >= 1000` is that of `n / 1000` followed by the last three digits. */
  lemma DecSplitThousands(n: nat)
    requires n >= 1000
    ensures Dec(n) == Dec(n / 1000) + Pad3(n % 1000)
  {
    var q := n / 1000;
    var r := n % 1000;
    assert n / 10 == 100 * q + r / 10;
    assert n / 100 == 10 * q + r / 100;
    assert n / 10 / 10 == n / 100;
    assert n / 100 / 10 == q;
    assert n / 10 % 10 == r / 10 % 10;
    assert n / 100 % 10 == r / 100;
    assert n % 10 == r % 10;
    calc {
      Dec(n);
      Dec(n / 10) + [Digit(n % 10)];
      Dec(n / 100) + [Digit(n / 10 % 10)] + [Digit(n % 10)];
      Dec(q) + [Digit(n / 100 % 10)] + [Digit(n / 10 % 10)] + [Digit(n % 10)];
      Dec(q) + Pad3(r);
    }
  }

  /** `s` left-padded with zeros to at least `width` characters, as `strftime`'s `%Y`, `%m`, `%d` do. */
  function PadZeros(s: string, width: nat): (r: string)
    ensures |r| == if |s| < width then width else |s|
    ensures r[|r| - |s|..] == s
    ensures forall k :: 0 <= k < |r| - |s| ==> r[k] == '0'
  {
    if |s| < width then Repeat('0', width - |s|) + s else s
  }

  lemma MulSucc(n: nat, k: nat)
    ensures (n + 1) * k == n * k + k
  {
  }

  lemma MulMono(a: nat, b: nat, n: nat)
    requires a <= b
    ensures a * n <= b * n
  {
    var d := b - a;
    assert b * n == a * n + d * n;
  }

  /** A product comparison by a common positive factor compares the other factors. */
  lemma MulLtCancel(a: nat, b: nat, m: nat)
    requires a * m < b * m
    ensures a < b
  {
    if b <= a {
      MulMono(b, a, m);
    }
  }

  /** Ceiling of `a / b`: `(a / b.to_f).ceil` for values a float holds exactly. */
  function DivCeil(a: nat, b: nat): (r: nat)
    requires b > 0
    ensures a <= r * b < a + b
  {
    var q := (a + b - 1) / b;
    assert a + b - 1 == q * b + (a + b - 1) % b;
    q
  }

  /** `a / b` rounded to the nearest integer, halves upward: Ruby's `Float#round` on a non-negative quotient. */
  function RoundHalfUp(a: nat, b: nat): (r: nat)
    requires b > 0
    ensures 2 * r * b <= 2 * a + b < 2 * r * b + 2 * b
  {
    var q := (2 * a + b) / (2 * b);
    assert 2 * a + b == q * (2 * b) + (2 * a + b) % (2 * b);
    q
  }

  /** A number held in tenths, printed with one decimal as `Float#to_s` prints a value rounded to one decimal. */
  function Tenths(t: nat): (r: string)
  {
    Dec(t / 10) + "." + [Digit(t % 10)]
  }

  /** Reads `"<digits>.<digit>"` back as a number of tenths. */
  function ParseTenths(s: string): nat {
    var i := Find(s, '.');
    if i == |s| then ParseNat(s) * 10 else ParseNat(s[..i]) * 10 + ParseNat(s[i + 1..])
  }

  /** `ParseTenths` inverts `Tenths`. */
  lemma TenthsRoundTrip(t: nat)
    ensures ParseTenths(Tenths(t)) == t
  {
    var w := Dec(t / 10);
    var s := Tenths(t);
    assert '.' !in w by {
      assert forall k :: 0 <= k < |w| ==> IsDigit(w[k]);
    }
    FindAfterPrefix(w, '.', [Digit(t % 10)]);
    assert s[..|w|] == w;
    assert s[|w| + 1..] == [Digit(t % 10)];
    ParseDec(t / 10);
    assert ParseNat([Digit(t % 10)]) == t % 10 by {
      assert [Digit(t % 10)][..0] == [];
    }
  }
}
