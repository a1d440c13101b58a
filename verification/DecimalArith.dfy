/**
 ADDD and SUBD on decoded operands: exact integer arithmetic by digit loops.
 */
module DecimalArith {
  import opened Words
  import opened Decimal
  import opened DigitBuffers
  import opened DecimalField

  lemma GuardDigitAbsorbsCarry(sum: int, carry: int, r: seq<int>)
    requires |r| > 0 && 0 <= sum < 2 * Pow10(|r| - 1)
    requires 0 <= carry <= 1 && Digits(r) && Horner(carry, r) == sum
    ensures carry == 0 && Value(r) == sum
  {
    HornerWeight(carry, r);
    ValueBounds(r);
    ScaleMonotone(0, carry, |r|);
  }

  // a := |s1 a + s2 b|. Like signs add; unlike signs subtract the smaller magnitude from the
  // larger and take the larger one's sign. The top position of both buffers is a guard digit.
  method AddSigned(a: array<int>, b: array<int>, len: nat, s1: int, s2: int) returns (sign: int)
    requires a != b && 0 < len <= a.Length && len <= b.Length
    requires Digits(a[..len]) && Digits(b[..len])
    requires Value(a[..len]) < Pow10(len - 1) && Value(b[..len]) < Pow10(len - 1)
    requires (s1 == 1 || s1 == -1) && (s2 == 1 || s2 == -1)
    modifies a, b
    ensures Digits(a[..len]) && (sign == 1 || sign == -1)
    ensures Signed(sign, Value(a[..len])) == Signed(s1, Value(old(a[..len]))) + Signed(s2, Value(old(b[..len])))
  {
    ValueBounds(a[..len]);
    ValueBounds(b[..len]);
    if s1 == s2 {
      ghost var sum := Value(a[..len]) + Value(b[..len]);
      var carry := AddMagnitude(a, b, len);
      GuardDigitAbsorbsCarry(sum, carry, a[..len]);
      return s1;
    }
    var cmp := CmpMagnitude(a, b, len);
    if cmp >= 0 {
      SubMagnitude(a, b, len);
      return s1;
    }
    SubMagnitude(b, a, len);
    CopyDigits(a, b, len);
    return s2;
  }

  // The same, with a zero result taking the first sign.
  method SumBuffers(a: array<int>, b: array<int>, len: nat, s1: int, s2: int) returns (sign: int)
    requires a != b && 0 < len <= a.Length && len <= b.Length
    requires Digits(a[..len]) && Digits(b[..len])
    requires Value(a[..len]) < Pow10(len - 1) && Value(b[..len]) < Pow10(len - 1)
    requires (s1 == 1 || s1 == -1) && (s2 == 1 || s2 == -1)
    modifies a, b
    ensures Digits(a[..len])
    ensures var r := Signed(s1, Value(old(a[..len]))) + Signed(s2, Value(old(b[..len])));
            Value(a[..len]) == Abs(r) && sign == if r == 0 then s1 else Sign(r)
  {
    sign := AddSigned(a, b, len, s1, s2);
    ValueBounds(a[..len]);
    ZeroIffAllZero(a[..len]);
    var nonZero := AnyNonZero(a, len);
    if !nonZero {
      sign := s1;
    }
  }

  // Both magnitudes right adjusted in buffers with one guard digit above the longer one.
  method LoadMagnitudes(op1: Operand, op2: Operand) returns (a: array<int>, b: array<int>, cap: nat)
    requires op1.Valid() && op2.Valid() && op1.Proper() && op2.Proper()
    ensures fresh(a) && fresh(b) && a != b && 0 < cap <= a.Length && cap <= b.Length
    ensures Digits(a[..cap]) && Value(a[..cap]) == op1.Magnitude() < Pow10(cap - 1)
    ensures Digits(b[..cap]) && Value(b[..cap]) == op2.Magnitude() < Pow10(cap - 1)
  {
    var op1Dig := if op1.fieldLength == 0 then 0 else Extent(op1.fieldLength) - 1;
    var op2Dig := if op2.fieldLength == 0 then 0 else Extent(op2.fieldLength) - 1;
    cap := (if op1Dig > op2Dig then op1Dig else op2Dig) + 1;
    a := LoadMagnitude(op1, cap);
    b := LoadMagnitude(op2, cap);
  }

  method LoadMagnitude(op: Operand, cap: nat) returns (a: array<int>)
    requires op.Valid() && op.Proper() && op.Width() < cap <= MAX_NIBBLES + 2
    ensures fresh(a) && cap <= a.Length
    ensures Digits(a[..cap]) && Value(a[..cap]) == op.Magnitude() < Pow10(cap - 1)
  {
    a := new int[MAX_NIBBLES + 2];
    op.ExtractMagnitude(a, cap);
    op.MagnitudeBounds();
    Pow10Monotone(op.Width(), cap - 1);
  }

  // The magnitude of op1 + op2, or for a flipped sign of op1 - op2, and its sign; a zero result takes
  // op1's sign.
  method SignedSum(op1: Operand, op2: Operand, flip: int) returns (a: array<int>, cap: nat, sign: int)
    requires op1.Valid() && op2.Valid() && op1.Proper() && op2.Proper()
    requires flip == 1 || flip == -1
    ensures fresh(a) && cap <= a.Length && Digits(a[..cap])
    ensures var r := if flip == 1 then op1.Number() + op2.Number() else op1.Number() - op2.Number();
            Value(a[..cap]) == Abs(r) && sign == if r == 0 then op1.FieldSign() else Sign(r)
  {
    ghost var n1, n2 := op1.Number(), op2.Number();
    var s1, unsigned1 := op1.DecodeSign();
    var s2, unsigned2 := op2.DecodeSign();
    var b;
    a, b, cap := LoadMagnitudes(op1, op2);
    var effS2 := if flip < 0 then -s2 else s2;
    assert Signed(s1, Value(a[..cap])) == n1 && Signed(effS2, Value(b[..cap])) == if flip == 1 then n2 else -n2;
    sign := SumBuffers(a, b, cap, s1, effS2);
  }

  // op1 := op1 + op2 for a flip of 1 and op1 - op2 for -1. The result is false exactly when it does
  // not fit op1.
  method AddSub(op1: Operand, op2: Operand, flip: int) returns (ok: bool)
    requires op1.Valid() && op2.Valid() && op1.words != op2.words
    requires op1.Proper() && op2.Proper()
    requires flip == 1 || flip == -1
    modifies op1.words
    ensures var n1, n2 := old(op1.Number()), old(op2.Number());
            var r := if flip == 1 then n1 + n2 else n1 - n2;
            && (ok <==> Abs(r) < Pow10(Capacity(op1.fieldLength)))
            && op1.Stores(old(op1.Buffer()), Abs(r),
                          SignCode(op1.unsigned, if r == 0 then old(op1.FieldSign()) else Sign(r)))
  {
    var a, cap, sign := SignedSum(op1, op2, flip);
    var outSign := SignCode(op1.unsigned, sign);
    var overflow := op1.PackMagnitude(a, cap, outSign);
    op1.PackedStores(old(op1.Buffer()), a[..cap], outSign);
    return !overflow;
  }
}
