/**
 COMD: signed comparison of two decimal operands aligned on their decimal points.
 */
module DecimalCompare {
  import opened Words
  import opened Decimal
  import opened DigitBuffers
  import opened DecimalField

  function Max(x: int, y: int): int {
    if x > y then x else y
  }

  // The comparison of n1 / 10^dp1 with n2 / 10^dp2, over integers scaled to the larger point.
  function CompareScaled(n1: int, dp1: nat, n2: int, dp2: nat): int {
    var maxDp := Max(dp1, dp2);
    Sign(Scale(n1, maxDp - dp1) - Scale(n2, maxDp - dp2))
  }

  // The operand's magnitude in a buffer of the given width, moved left by `shift` digits.
  method LoadScaled(op: Operand, width: nat, shift: nat) returns (a: array<int>)
    requires op.Valid() && op.Proper() && op.Width() + shift <= width
    ensures fresh(a) && a.Length == width
    ensures Digits(a[..width]) && Value(a[..width]) == Scale(op.Magnitude(), shift)
  {
    a := new int[width];
    op.ExtractMagnitude(a, width - shift);
    ghost var high := a[..width - shift];
    var i := width - shift;
    while i < width
      invariant width - shift <= i <= width
      invariant a[..width - shift] == high
      invariant forall j :: width - shift <= j < i ==> a[j] == 0
    {
      a[i] := 0;
      i := i + 1;
    }
    assert a[..width] == high + Zeros(shift);
    TrailingZeros(high, shift);
  }

  lemma {:induction false} ScaleSign(x: int, n: nat)
    ensures Sign(Scale(x, n)) == Sign(x)
  {
    if n > 0 {
      ScaleSign(x, n - 1);
    }
  }

  // Signed comparison of two buffers under their signs.
  method CompareBuffers(a: array<int>, b: array<int>, width: nat, s1: int, s2: int) returns (cmp: int)
    requires width <= a.Length && width <= b.Length
    requires Digits(a[..width]) && Digits(b[..width])
    requires (s1 == 1 || s1 == -1) && (s2 == 1 || s2 == -1)
    ensures cmp == Sign(Signed(s1, Value(a[..width])) - Signed(s2, Value(b[..width])))
  {
    ZeroIffAllZero(a[..width]);
    ZeroIffAllZero(b[..width]);
    ValueBounds(a[..width]);
    ValueBounds(b[..width]);
    var z1, z2 := s1, s2;
    var aNonZero := AnyNonZero(a, width);
    if !aNonZero {
      z1 := 0;
    }
    var bNonZero := AnyNonZero(b, width);
    if !bNonZero {
      z2 := 0;
    }
    if z1 != z2 {
      cmp := if z1 < z2 then -1 else 1;
    } else {
      cmp := CmpMagnitude(a, b, width);
      if z1 < 0 {
        cmp := -cmp;
      }
    }
  }

  method Compare(op1: Operand, op2: Operand) returns (cmp: int)
    requires op1.Valid() && op2.Valid() && op1.Proper() && op2.Proper()
    ensures cmp == CompareScaled(op1.Number(), op1.decimalPoint, op2.Number(), op2.decimalPoint)
  {
    var s1, u1 := op1.DecodeSign();
    var s2, u2 := op2.DecodeSign();
    var maxDp := Max(op1.decimalPoint, op2.decimalPoint);
    var width := 2 * (MAX_NIBBLES + 2);
    ScaleSigned(s1, op1.Magnitude(), maxDp - op1.decimalPoint);
    ScaleSigned(s2, op2.Magnitude(), maxDp - op2.decimalPoint);
    var a := LoadScaled(op1, width, maxDp - op1.decimalPoint);
    var b := LoadScaled(op2, width, maxDp - op2.decimalPoint);
    cmp := CompareBuffers(a, b, width, s1, s2);
  }

  lemma ScaleSigned(sign: int, magnitude: int, n: nat)
    ensures Scale(Signed(sign, magnitude), n) == Signed(sign, Scale(magnitude, n))
  {
    ScaleLinear(magnitude, 0, n);
  }

  // Any common scale gives the same answer.
  lemma CompareAtScale(n1: int, dp1: nat, n2: int, dp2: nat, scale: nat)
    requires dp1 <= scale && dp2 <= scale
    ensures CompareScaled(n1, dp1, n2, dp2) == Sign(Scale(n1, scale - dp1) - Scale(n2, scale - dp2))
  {
    var maxDp := Max(dp1, dp2);
    var x, y, up := Scale(n1, maxDp - dp1), Scale(n2, maxDp - dp2), scale - maxDp;
    ScaleAdd(n1, maxDp - dp1, up);
    ScaleAdd(n2, maxDp - dp2, up);
    ScaleLinear(x, -y, up);
    ScaleLinear(y, 0, up);
    ScaleSign(x - y, up);
  }

  // It is the comparison of the two quotients, by cross-multiplication.
  lemma CompareCross(n1: int, dp1: nat, n2: int, dp2: nat)
    ensures var u, v := n1 * Pow10(dp2), n2 * Pow10(dp1);
            CompareScaled(n1, dp1, n2, dp2) == if u > v then 1 else if u < v then -1 else 0
  {
    CompareAtScale(n1, dp1, n2, dp2, dp1 + dp2);
    ScaleIsMul(n1, dp2);
    ScaleIsMul(n2, dp1);
  }

  // The comparison is a total preorder on decimal numbers of any length and point: every pair
  // is comparable, swapping the operands negates the answer, and "not above" is transitive.
  lemma CompareIsTotalPreorder(x: int, dx: nat, y: int, dy: nat, z: int, dz: nat)
    ensures CompareScaled(y, dy, x, dx) == -CompareScaled(x, dx, y, dy)
    ensures CompareScaled(x, dx, x, dx) == 0
    ensures CompareScaled(x, dx, y, dy) <= 0 && CompareScaled(y, dy, z, dz) <= 0 ==> CompareScaled(x, dx, z, dz) <= 0
    ensures CompareScaled(x, dx, y, dy) == 0 && CompareScaled(y, dy, z, dz) == 0 ==> CompareScaled(x, dx, z, dz) == 0
  {
    var scale := Max(dx, Max(dy, dz));
    CompareAtScale(x, dx, y, dy, scale);
    CompareAtScale(y, dy, z, dz, scale);
    CompareAtScale(x, dx, z, dz, scale);
  }

  // With equal points, comparing predicts the sign of the difference that a subtraction
  // stores when it neither overflows nor forces the unsigned code.
  lemma SubtractAgreesWithCompare(op1: Operand, before: seq<nibble>, n1: int, n2: int, sign1: int, dp: nat)
    requires op1.Valid() && |before| == 40 && !op1.unsigned
    requires Abs(n1 - n2) < Pow10(Capacity(op1.fieldLength))
    requires op1.Stores(before, Abs(n1 - n2), SignCode(false, if n1 == n2 then sign1 else Sign(n1 - n2)))
    ensures op1.Number() == n1 - n2
    ensures CompareScaled(n1, dp, n2, dp) == Sign(op1.Number())
  {
    QuotientZero(Abs(n1 - n2), Pow10(Capacity(op1.fieldLength)));
  }
}
