/**
 The schoolbook digit loops of the decimal engine: in-place addition, subtraction and
 comparison of two magnitude buffers of equal length, most significant digit first.
 */
module DigitBuffers {
  import opened Decimal

  // One column of a digit loop: the digit moves from the part above to the part below.
  lemma ColumnStep(above: int, high: int, digit: int, low: seq<int>)
    requires above == 10 * high + digit
    ensures Horner(high, [digit] + low) == Horner(above, low)
  {
  }

  lemma EmptyPrefix(s: seq<int>, k: int)
    requires k == 0
    ensures Value(s[..k]) == 0
  {
  }

  lemma ColumnsDone(high: int, carry: int, low: seq<int>)
    requires high == carry
    ensures Horner(high, low) == Horner(carry, low)
  {
  }

  // a += b over the first len digits. The carry out of the top position is returned.
  method AddMagnitude(a: array<int>, b: array<int>, len: nat) returns (carry: int)
    requires a != b && len <= a.Length && len <= b.Length
    requires Digits(a[..len]) && Digits(b[..len])
    modifies a
    ensures Digits(a[..len]) && 0 <= carry <= 1
    ensures Horner(carry, a[..len]) == Value(old(a[..len])) + Value(b[..len])
  {
    ghost var oa, ob, low := a[..len], b[..len], [];
    ghost var total, high := Value(oa) + Value(ob), Value(oa) + Value(ob);
    assert oa[..len] == oa && ob[..len] == ob;
    carry := 0;
    var i := len;
    while i > 0
      invariant 0 <= i <= len && 0 <= carry <= 1
      invariant forall j :: 0 <= j < i ==> a[j] == oa[j]
      invariant low == a[i..len] && Digits(low)
      invariant high == Value(oa[..i]) + Value(ob[..i]) + carry
      invariant Horner(high, low) == total
    {
      i := i - 1;
      ghost var above := high;
      ValuePrefix(oa, i);
      ValuePrefix(ob, i);
      assert b[i] == ob[i];
      var s := a[i] + b[i] + carry;
      if s >= 10 {
        s := s - 10;
        carry := 1;
      } else {
        carry := 0;
      }
      a[i] := s;
      high := Value(oa[..i]) + Value(ob[..i]) + carry;
      ColumnStep(above, high, s, low);
      low := [s] + low;
    }
    EmptyPrefix(oa, i);
    EmptyPrefix(ob, i);
    assert low == a[..len];
    ColumnsDone(high, carry, low);
  }

  // a -= b over the first len digits, where a is at least b: no borrow is left over.
  method SubMagnitude(a: array<int>, b: array<int>, len: nat)
    requires a != b && len <= a.Length && len <= b.Length
    requires Digits(a[..len]) && Digits(b[..len])
    requires Value(a[..len]) >= Value(b[..len])
    modifies a
    ensures Digits(a[..len])
    ensures Value(a[..len]) == Value(old(a[..len])) - Value(b[..len])
  {
    ghost var oa, ob, low := a[..len], b[..len], [];
    ghost var total, high := Value(oa) - Value(ob), Value(oa) - Value(ob);
    assert oa[..len] == oa && ob[..len] == ob;
    var borrow := 0;
    var i := len;
    while i > 0
      invariant 0 <= i <= len && 0 <= borrow <= 1
      invariant forall j :: 0 <= j < i ==> a[j] == oa[j]
      invariant low == a[i..len] && Digits(low)
      invariant high == Value(oa[..i]) - Value(ob[..i]) - borrow
      invariant Horner(high, low) == total
    {
      i := i - 1;
      ghost var above := high;
      ValuePrefix(oa, i);
      ValuePrefix(ob, i);
      assert b[i] == ob[i];
      var s := a[i] - b[i] - borrow;
      if s < 0 {
        s := s + 10;
        borrow := 1;
      } else {
        borrow := 0;
      }
      a[i] := s;
      high := Value(oa[..i]) - Value(ob[..i]) - borrow;
      ColumnStep(above, high, s, low);
      low := [s] + low;
    }
    EmptyPrefix(oa, i);
    EmptyPrefix(ob, i);
    assert low == a[..len];
    NoFinalBorrow(borrow, high, low);
  }

  lemma NoFinalBorrow(borrow: int, high: int, r: seq<int>)
    requires 0 <= borrow <= 1 && high == -borrow && Digits(r)
    requires Horner(high, r) >= 0
    ensures Horner(high, r) == Value(r)
  {
    if borrow == 1 {
      HornerWeight(-1, r);
      ValueBounds(r);
      ScaleLinear(1, 0, |r|);
      ScaleMonotone(0, 1, |r|);
    }
  }

  // -1, 0 or 1 as the first buffer is below, equal to or above the second.
  method CmpMagnitude(a: array<int>, b: array<int>, len: nat) returns (cmp: int)
    requires len <= a.Length && len <= b.Length
    requires Digits(a[..len]) && Digits(b[..len])
    ensures cmp == Sign(Value(a[..len]) - Value(b[..len]))
  {
    var i := 0;
    while i < len
      invariant 0 <= i <= len
      invariant a[..i] == b[..i]
    {
      if a[i] != b[i] {
        ghost var s, t := a[..len], b[..len];
        assert s[..i] == a[..i] && t[..i] == b[..i];
        if a[i] < b[i] {
          FirstDifferenceDecides(s, t, i);
          return -1;
        } else {
          FirstDifferenceDecides(t, s, i);
          return 1;
        }
      }
      i := i + 1;
    }
    return 0;
  }

  // Copy the first n digits of src into dst.
  method CopyDigits(dst: array<int>, src: array<int>, n: nat)
    requires dst != src && n <= dst.Length && n <= src.Length
    modifies dst
    ensures dst[..n] == src[..n]
  {
    var i := 0;
    while i < n
      invariant 0 <= i <= n
      invariant forall j :: 0 <= j < i ==> dst[j] == src[j]
    {
      dst[i] := src[i];
      i := i + 1;
    }
  }

  // Zero the first len digits.
  method Clear(a: array<int>, len: nat)
    requires len <= a.Length
    modifies a
    ensures forall j :: 0 <= j < len ==> a[j] == 0
  {
    var k := 0;
    while k < len
      invariant 0 <= k <= len
      invariant forall j :: 0 <= j < k ==> a[j] == 0
    {
      a[k] := 0;
      k := k + 1;
    }
  }

  // Whether one of the first n digits is not zero.
  method AnyNonZero(digits: array<int>, n: nat) returns (any: bool)
    requires n <= digits.Length
    ensures any <==> exists i :: 0 <= i < n && digits[i] != 0
  {
    any := false;
    var i := n;
    while i > 0
      invariant 0 <= i <= n
      invariant any <==> exists j :: i <= j < n && digits[j] != 0
    {
      i := i - 1;
      if digits[i] != 0 {
        any := true;
      }
    }
  }
}
