/**
 Decimal digit sequences, most significant digit first, and the integers they denote.

 A value is read off by Horner's rule. `Horner` keeps an accumulator, so a digit loop that
 has produced only the low digits `s` of its result, with `acc` still to come above them, is
 described by `Horner(acc, s)`, and each step of the loop is a linear identity.
 */
module Decimal {

  ghost predicate Digits(s: seq<int>) {
    forall i :: 0 <= i < |s| ==> 0 <= s[i] <= 9
  }

  function Pow10(n: nat): (p: int)
    ensures p >= 1
  {
    if n == 0 then 1 else 10 * Pow10(n - 1)
  }

  // x * 10^n, by repeated multiplication.
  function Scale(x: int, n: nat): int {
    if n == 0 then x else 10 * Scale(x, n - 1)
  }

  function Horner(acc: int, s: seq<int>): int
    decreases |s|
  {
    if s == [] then acc else Horner(10 * acc + s[0], s[1..])
  }

  function Value(s: seq<int>): int {
    Horner(0, s)
  }

  function Zeros(n: nat): (z: seq<int>)
    ensures |z| == n
    ensures forall i :: 0 <= i < n ==> z[i] == 0
  {
    seq(n, _ => 0)
  }

  function Abs(x: int): int {
    if x < 0 then -x else x
  }

  function Sign(x: int): int {
    if x < 0 then -1 else if x > 0 then 1 else 0
  }

  function Signed(sign: int, magnitude: int): int {
    if sign < 0 then -magnitude else magnitude
  }

  lemma {:induction false} HornerConcat(acc: int, s: seq<int>, t: seq<int>)
    ensures Horner(acc, s + t) == Horner(Horner(acc, s), t)
    decreases |s|
  {
    if s == [] {
      assert s + t == t;
    } else {
      assert (s + t)[1..] == s[1..] + t;
      HornerConcat(10 * acc + s[0], s[1..], t);
    }
  }

  lemma HornerSnoc(acc: int, s: seq<int>, d: int)
    ensures Horner(acc, s + [d]) == 10 * Horner(acc, s) + d
  {
    HornerConcat(acc, s, [d]);
    assert Horner(Horner(acc, s), [d]) == Horner(10 * Horner(acc, s) + d, []);
  }

  // The last digit of a non-empty prefix is its units digit.
  lemma ValuePrefix(s: seq<int>, i: nat)
    requires i < |s|
    ensures Value(s[..i + 1]) == 10 * Value(s[..i]) + s[i]
  {
    assert s[..i + 1] == s[..i] + [s[i]];
    HornerSnoc(0, s[..i], s[i]);
  }

  lemma {:induction false} ScaleIsMul(x: int, n: nat)
    ensures Scale(x, n) == x * Pow10(n)
  {
    if n > 0 {
      ScaleIsMul(x, n - 1);
      MulAssoc(10, x, Pow10(n - 1));
      MulAssoc(x, 10, Pow10(n - 1));
    }
  }

  lemma {:induction false} ScaleLinear(x: int, y: int, n: nat)
    ensures Scale(10 * x + y, n) == Scale(x, n + 1) + Scale(y, n)
    ensures Scale(x + y, n) == Scale(x, n) + Scale(y, n)
    ensures Scale(-x, n) == -Scale(x, n)
  {
    if n > 0 {
      ScaleLinear(x, y, n - 1);
    }
  }

  lemma {:induction false} ScaleMonotone(x: int, y: int, n: nat)
    ensures x < y ==> Scale(x, n) + Pow10(n) <= Scale(y, n)
    ensures x <= y ==> Scale(x, n) <= Scale(y, n)
    ensures Scale(1, n) == Pow10(n) && Scale(0, n) == 0
  {
    if n > 0 {
      ScaleMonotone(x, y, n - 1);
    }
  }

  lemma {:induction false} ScaleAdd(x: int, m: nat, n: nat)
    ensures Scale(x, m + n) == Scale(Scale(x, m), n)
  {
    if n > 0 {
      ScaleAdd(x, m, n - 1);
    }
  }

  lemma MulAssoc(a: int, b: int, c: int)
    ensures a * (b * c) == (a * b) * c
  {
  }

  // The accumulator weighs 10 to the power of the digits below it.
  lemma {:induction false} HornerWeight(acc: int, s: seq<int>)
    ensures Horner(acc, s) == Scale(acc, |s|) + Value(s)
    decreases |s|
  {
    if s != [] {
      HornerWeight(10 * acc + s[0], s[1..]);
      HornerWeight(s[0], s[1..]);
      ScaleLinear(acc, s[0], |s| - 1);
    }
  }

  lemma ValueConcat(s: seq<int>, t: seq<int>)
    ensures Value(s + t) == Scale(Value(s), |t|) + Value(t)
  {
    HornerConcat(0, s, t);
    HornerWeight(Value(s), t);
  }

  lemma {:induction false} ValueBounds(s: seq<int>)
    requires Digits(s)
    ensures 0 <= Value(s) < Pow10(|s|)
    decreases |s|
  {
    if s != [] {
      var k := |s| - 1;
      ValueBounds(s[..k]);
      ValuePrefix(s, k);
      assert s[..k + 1] == s;
    }
  }

  lemma {:induction false} ZerosValue(n: nat)
    ensures Value(Zeros(n)) == 0
  {
    if n > 0 {
      assert Zeros(n)[1..] == Zeros(n - 1);
      ZerosValue(n - 1);
    }
  }

  lemma LeadingZeros(n: nat, s: seq<int>)
    ensures Value(Zeros(n) + s) == Value(s)
  {
    ZerosValue(n);
    ValueConcat(Zeros(n), s);
    ScaleMonotone(0, 0, |s|);
  }

  // A digit sequence denotes zero exactly when every digit is zero.
  lemma {:induction false} ZeroIffAllZero(s: seq<int>)
    requires Digits(s)
    ensures Value(s) == 0 <==> forall i :: 0 <= i < |s| ==> s[i] == 0
    decreases |s|
  {
    if s != [] {
      var k := |s| - 1;
      ZeroIffAllZero(s[..k]);
      ValueBounds(s[..k]);
      ValuePrefix(s, k);
      assert s[..k + 1] == s;
    }
  }

  // Splitting a digit sequence is division with remainder.
  lemma SplitIsDivMod(high: seq<int>, low: seq<int>)
    requires Digits(high) && Digits(low)
    ensures Value(high + low) / Pow10(|low|) == Value(high)
    ensures Value(high + low) % Pow10(|low|) == Value(low)
  {
    ValueConcat(high, low);
    ValueBounds(low);
    ScaleIsMul(Value(high), |low|);
    DivModUnique(Value(high + low), Pow10(|low|), Value(high), Value(low));
  }

  lemma DivModUnique(n: int, d: int, q: int, r: int)
    requires d > 0 && n == q * d + r && 0 <= r < d
    ensures n / d == q && n % d == r
  {
    var k := n / d - q;
    assert n == (n / d) * d + n % d;
    assert (n / d) * d == q * d + k * d;
    assert k * d == r - n % d;
    if k >= 1 {
      MulAtLeast(k, d);
    } else if k <= -1 {
      assert (-k) * d == -(k * d);
      MulAtLeast(-k, d);
    }
  }

  lemma MulAtLeast(k: int, d: int)
    requires k >= 1 && d > 0
    ensures k * d >= d
  {
  }

  // The first differing digit decides.
  lemma FirstDifferenceDecides(s: seq<int>, t: seq<int>, k: nat)
    requires |s| == |t| && Digits(s) && Digits(t)
    requires k < |s| && s[..k] == t[..k] && s[k] < t[k]
    ensures Value(s) < Value(t)
  {
    assert s == s[..k + 1] + s[k + 1..] && t == t[..k + 1] + t[k + 1..];
    ValueConcat(s[..k + 1], s[k + 1..]);
    ValueConcat(t[..k + 1], t[k + 1..]);
    ValuePrefix(s, k);
    ValuePrefix(t, k);
    ValueBounds(s[k + 1..]);
    ValueBounds(t[k + 1..]);
    ScaleMonotone(Value(s[..k + 1]), Value(t[..k + 1]), |s| - k - 1);
  }

  // Digit strings of one length with one value are the same.
  lemma {:induction false} ValueInjective(s: seq<int>, t: seq<int>)
    requires |s| == |t| && Digits(s) && Digits(t) && Value(s) == Value(t)
    ensures s == t
    decreases |s|
  {
    if s != [] {
      var n := |s| - 1;
      assert s == s[..n] + [s[n]] && t == t[..n] + [t[n]];
      HornerSnoc(0, s[..n], s[n]);
      HornerSnoc(0, t[..n], t[n]);
      ValueInjective(s[..n], t[..n]);
    }
  }

  lemma {:induction false} Pow10Monotone(m: nat, n: nat)
    requires m <= n
    ensures Pow10(m) <= Pow10(n)
    decreases n
  {
    if m < n {
      Pow10Monotone(m, n - 1);
    }
  }

  // Appending n zero digits multiplies by 10^n.
  lemma TrailingZeros(s: seq<int>, n: nat)
    ensures Value(s + Zeros(n)) == Scale(Value(s), n)
  {
    ValueConcat(s, Zeros(n));
    ZerosValue(n);
  }
}
