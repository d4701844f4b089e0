/** Digit strings in a radix from 2 to 16: the digit alphabet, reading a
    string of digits as an unsigned number, writing a number with the fewest
    digits, and left-padding with zeros. */
module Digits {

  type Radix = r: int | 2 <= r <= 16 witness 2

  function Pow(r: nat, k: nat): (p: nat)
    ensures r > 0 ==> p > 0
  {
    if k == 0 then 1 else r * Pow(r, k - 1)
  }

  /** The value of a digit character; letters count in either case.
      Any other character has the value -1. */
  function DigitValue(c: char): int {
    if '0' <= c <= '9' then c as int - '0' as int
    else if 'A' <= c <= 'F' then c as int - 'A' as int + 10
    else if 'a' <= c <= 'f' then c as int - 'a' as int + 10
    else -1
  }

  predicate IsDigit(c: char, r: Radix) {
    0 <= DigitValue(c) < r
  }

  predicate AllDigits(s: string, r: Radix) {
    forall i :: 0 <= i < |s| ==> IsDigit(s[i], r)
  }

  predicate IsLower(c: char) {
    'a' <= c <= 'f'
  }

  /** No lower-case hexadecimal letter anywhere in `s`. */
  predicate UpperCase(s: string) {
    forall i :: 0 <= i < |s| ==> !IsLower(s[i])
  }

  /** The shortest form of a number: at least one digit, upper-case
      letters, and no leading zero unless the number is zero. */
  predicate Canonical(s: string, r: Radix) {
    && |s| >= 1
    && AllDigits(s, r)
    && UpperCase(s)
    && (s[0] == '0' ==> |s| == 1)
  }

  /** The upper-case character for a digit value. */
  function DigitChar(d: nat): (c: char)
    requires d < 16
    ensures DigitValue(c) == d && !IsLower(c)
  {
    if d < 10 then ('0' as int + d) as char else ('A' as int + d - 10) as char
  }

  lemma DigitCharOfValue(c: char, r: Radix)
    requires IsDigit(c, r) && !IsLower(c)
    ensures DigitChar(DigitValue(c)) == c
  {
  }

  /** The unsigned number a digit string denotes, most significant digit
      first; `n` digits denote less than `r^n`. */
  function Parse(s: string, r: Radix): (p: nat)
    requires AllDigits(s, r)
    ensures p < Pow(r, |s|)
    decreases |s|
  {
    if s == [] then 0
    else
      var q, d := Parse(s[..|s| - 1], r), DigitValue(s[|s| - 1]);
      DigitStep(q, d, Pow(r, |s| - 1), r);
      q * r + d
  }

  /** The digits of `u` in radix `r`, without leading zeros. */
  function ToDigits(u: nat, r: Radix): (s: string)
    ensures Canonical(s, r)
    ensures s[0] == '0' <==> u == 0
    decreases u
  {
    if u < r then [DigitChar(u)]
    else DivBasics(u, r); ToDigits(u / r, r) + [DigitChar(u % r)]
  }

  function Zeros(k: nat): (z: string)
    ensures |z| == k && forall i :: 0 <= i < k ==> z[i] == '0'
  {
    if k == 0 then [] else Zeros(k - 1) + ['0']
  }

  /** `s` left-padded with '0' to `width` characters; unchanged when it is
      already that long. */
  function Pad(s: string, width: int): (t: string)
    ensures |t| == if |s| >= width then |s| else width
    ensures t[|t| - |s|..] == s
    ensures forall i :: 0 <= i < |t| - |s| ==> t[i] == '0'
  {
    if |s| >= width then s else Zeros(width - |s|) + s
  }

  lemma {:induction false} PowAdd(r: nat, i: nat, j: nat)
    ensures Pow(r, i + j) == Pow(r, i) * Pow(r, j)
    decreases i
  {
    if i > 0 {
      PowAdd(r, i - 1, j);
      assert Pow(r, i + j) == r * Pow(r, i - 1 + j);
    }
  }

  lemma {:induction false} PowMul(r: nat, m: nat, k: nat)
    ensures Pow(Pow(r, m), k) == Pow(r, m * k)
    decreases k
  {
    if k > 0 {
      PowMul(r, m, k - 1);
      PowAdd(r, m, m * (k - 1));
      assert m + m * (k - 1) == m * k;
    }
  }

  lemma {:induction false} PowMono(r: Radix, i: nat, j: nat)
    requires i <= j
    ensures Pow(r, i) <= Pow(r, j)
    decreases j
  {
    if i < j {
      PowMono(r, i, j - 1);
    }
  }

  lemma DivBasics(u: int, r: int)
    requires u >= 0 && r >= 2
    ensures u == (u / r) * r + u % r && 0 <= u % r < r && 0 <= u / r <= u
    ensures u >= r ==> 1 <= u / r < u
  {
    var q := u / r;
    if u >= r {
      assert q >= 1;
      MulLe(2, r, q);
    }
  }

  lemma MulLe(a: int, b: int, c: int)
    requires a <= b && c >= 0
    ensures a * c <= b * c
  {
    assert b * c == a * c + (b - a) * c;
    assert (b - a) * c >= 0;
  }

  lemma MulAtLeast(a: int, r: int)
    requires a >= 1 && r > 0
    ensures a * r >= r
  {
    MulLe(1, a, r);
  }

  /** Quotient and remainder are unique. */
  lemma DivModUnique(x: int, r: int, q: int, d: int)
    requires r > 0 && 0 <= d < r && x == q * r + d
    ensures x / r == q && x % r == d
  {
    var q', d' := x / r, x % r;
    assert x == q' * r + d';
    assert (q - q') * r == q * r - q' * r;
    if q > q' {
      MulAtLeast(q - q', r);
    } else if q < q' {
      MulAtLeast(q' - q, r);
    }
  }

  /** One more digit keeps a number below the next power. */
  lemma DigitStep(q: int, d: int, m: int, r: int)
    requires 0 <= q < m && 0 <= d < r
    ensures q * r + d < m * r
  {
    MulLe(q, m - 1, r);
  }

  /** The last digit of a string is its units digit. */
  lemma ParseLast(s: string, r: Radix)
    requires AllDigits(s, r) && s != []
    ensures AllDigits(s[..|s| - 1], r)
    ensures Parse(s, r) == Parse(s[..|s| - 1], r) * r + DigitValue(s[|s| - 1])
    ensures 0 <= DigitValue(s[|s| - 1]) < r
  {
  }

  lemma {:induction false} ParseLowerBound(s: string, r: Radix)
    requires AllDigits(s, r) && |s| >= 1 && s[0] != '0'
    ensures Parse(s, r) >= Pow(r, |s| - 1)
    decreases |s|
  {
    if |s| > 1 {
      var p := s[..|s| - 1];
      ParseLowerBound(p, r);
      MulLe(Pow(r, |p| - 1), Parse(p, r), r);
      assert Pow(r, |p| - 1) * r == Pow(r, |s| - 1);
    }
  }

  /** Reading back the digits of a number gives the number. */
  lemma {:induction false} ParseToDigits(u: nat, r: Radix)
    ensures Parse(ToDigits(u, r), r) == u
    decreases u
  {
    if u >= r {
      var s := ToDigits(u, r);
      DivBasics(u, r);
      ParseToDigits(u / r, r);
      assert s[..|s| - 1] == ToDigits(u / r, r);
    }
  }

  /** Strings whose digits have the same values, such as the upper- and
      lower-case spelling of a hexadecimal number, denote the same number. */
  lemma {:induction false} ParseSameValues(s: string, t: string, r: Radix)
    requires AllDigits(s, r) && |s| == |t|
    requires forall i :: 0 <= i < |s| ==> DigitValue(s[i]) == DigitValue(t[i])
    ensures AllDigits(t, r) && Parse(t, r) == Parse(s, r)
    decreases |s|
  {
    if s != [] {
      ParseSameValues(s[..|s| - 1], t[..|t| - 1], r);
    }
  }

  /** A number of two or more digits is its quotient's digits followed by
      its last digit. */
  lemma ToDigitsStep(x: nat, r: Radix)
    requires x >= r
    ensures ToDigits(x, r) == ToDigits(x / r, r) + [DigitChar(x % r)]
  {
  }

  /** Writing out the number a canonical string denotes gives that string. */
  lemma {:induction false} ToDigitsParse(s: string, r: Radix)
    requires Canonical(s, r)
    ensures ToDigits(Parse(s, r), r) == s
    decreases |s|
  {
    var last := s[|s| - 1];
    var p := s[..|s| - 1];
    DigitCharOfValue(last, r);
    if |s| == 1 {
      assert p == [];
      assert s == [last];
    } else {
      ParseLast(s, r);
      var x, q, d := Parse(s, r), Parse(p, r), DigitValue(last);
      assert Canonical(p, r);
      ParseLowerBound(p, r);
      MulAtLeast(q, r);
      DivModUnique(x, r, q, d);
      ToDigitsParse(p, r);
      ToDigitsStep(x, r);
      assert s == p + [last];
    }
  }

  /** Two canonical strings denoting the same number are the same string. */
  lemma CanonicalUnique(s: string, t: string, r: Radix)
    requires Canonical(s, r) && Canonical(t, r) && Parse(s, r) == Parse(t, r)
    ensures s == t
  {
    ToDigitsParse(s, r);
    ToDigitsParse(t, r);
  }

  /** The shortest form of `u` fits in `k` digits exactly when `u < r^k`
      and at least one digit is allowed. */
  lemma DigitsLength(u: nat, r: Radix, k: int)
    ensures |ToDigits(u, r)| <= k <==> 1 <= k && u < Pow(r, k)
  {
    var s := ToDigits(u, r);
    ParseToDigits(u, r);
    if k >= 1 {
      if |s| <= k {
        PowMono(r, |s|, k);
      } else if u > 0 {
        ParseLowerBound(s, r);
        PowMono(r, k, |s| - 1);
      }
    }
  }

  lemma {:induction false} ParseZeros(k: nat, r: Radix)
    ensures AllDigits(Zeros(k), r) && Parse(Zeros(k), r) == 0
    decreases k
  {
    if k > 0 {
      var z := Zeros(k);
      ParseZeros(k - 1, r);
      assert z[..k - 1] == Zeros(k - 1);
      assert IsDigit(z[k - 1], r);
      assert AllDigits(z, r);
      ParseLast(z, r);
    }
  }

  /** Leading zeros do not change the number a string denotes. */
  lemma {:induction false} ParseLeadingZeros(k: nat, s: string, r: Radix)
    requires AllDigits(s, r)
    ensures AllDigits(Zeros(k) + s, r) && Parse(Zeros(k) + s, r) == Parse(s, r)
    decreases |s|
  {
    ParseZeros(k, r);
    if s == [] {
      assert Zeros(k) + s == Zeros(k);
    } else {
      var p := s[..|s| - 1];
      ParseLeadingZeros(k, p, r);
      assert (Zeros(k) + s)[..|Zeros(k) + s| - 1] == Zeros(k) + p;
    }
  }

  /** Padding keeps the digits, their case and their value and reaches the
      width asked for. */
  lemma PadDigits(s: string, width: int, r: Radix)
    requires AllDigits(s, r) && |s| <= width
    ensures |Pad(s, width)| == width && AllDigits(Pad(s, width), r)
    ensures UpperCase(s) ==> UpperCase(Pad(s, width))
    ensures Parse(Pad(s, width), r) == Parse(s, r)
  {
    if |s| < width {
      ParseLeadingZeros(width - |s|, s, r);
    }
  }
}
