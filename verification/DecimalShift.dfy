/**
 SHDE: a decimal operand moved into another field, scaled by a power of ten.
 */
module DecimalShift {
  import opened Words
  import opened Decimal
  import opened DigitBuffers
  import opened DecimalField

  // v scaled by 10^-count: a left shift multiplies, a right shift divides and may round
  // half up.
  function Shifted(v: int, count: int, rounding: bool): int {
    if count <= 0 then v * Pow10(-count)
    else if rounding then (v + 5 * Pow10(count - 1)) / Pow10(count)
    else v / Pow10(count)
  }

  lemma ShiftedNat(v: nat, count: int, rounding: bool)
    ensures Shifted(v, count, rounding) >= 0
  {
    if count <= 0 {
      MulMonotone(0, v, Pow10(-count));
    } else {
      NatQuotient(v + 5 * Pow10(count - 1), Pow10(count));
      NatQuotient(v, Pow10(count));
    }
  }

  // A left shift appends zeros; a right shift takes the largest integer that times the power is not
  // above the number, and with rounding the one nearest to the quotient, a half going up.
  lemma ShiftedBounds(v: nat, k: int, digits: seq<int>)
    requires k >= 0
    ensures v == Value(digits) ==> Shifted(v, -k, false) == Shifted(v, -k, true) == Value(digits + Zeros(k))
    ensures var q, p := Shifted(v, k, false), Pow10(k); q * p <= v < q * p + p
    ensures var q, p := Shifted(v, k, true), Pow10(k); 2 * (q * p) - p <= 2 * v < 2 * (q * p) + p
  {
    if v == Value(digits) {
      ValueConcat(digits, Zeros(k));
      ZerosValue(k);
      ScaleIsMul(v, k);
    }
    if k > 0 {
      FloorBounds(v, Pow10(k));
      FloorBounds(v + 5 * Pow10(k - 1), Pow10(k));
    }
  }

  lemma FloorBounds(n: int, p: int)
    requires p > 0
    ensures n / p * p <= n < n / p * p + p
  {
  }

  lemma NatQuotient(n: nat, p: int)
    requires p > 0
    ensures n / p >= 0
  {
  }

  lemma MulMonotone(x: int, y: int, p: int)
    requires x <= y && p > 0
    ensures x * p <= y * p
  {
  }

  lemma RoundHalfUp(q: int, d: int, r: int, p: int)
    requires 0 <= d <= 9 && 0 <= r < p
    ensures ((10 * q + d) * p + r + 5 * p) / (10 * p) == q + (if d >= 5 then 1 else 0)
  {
    DigitProducts(q, d, p);
    DigitBounds(d, p);
    if d >= 5 {
      DivModUnique((10 * q + d) * p + r + 5 * p, 10 * p, q + 1, d * p + r - 5 * p);
    } else {
      DivModUnique((10 * q + d) * p + r + 5 * p, 10 * p, q, d * p + r + 5 * p);
    }
  }

  lemma DigitProducts(q: int, d: int, p: int)
    ensures (10 * q + d) * p == q * (10 * p) + d * p && (q + 1) * (10 * p) == q * (10 * p) + 10 * p
  {
  }

  lemma DigitBounds(d: int, p: int)
    requires 0 <= d <= 9 && p > 0
    ensures 0 <= d * p <= 9 * p && (if d >= 5 then 5 * p <= d * p else d * p <= 4 * p)
  {
    MulMonotone(0, d, p);
    MulMonotone(d, 9, p);
    if d >= 5 {
      MulMonotone(5, d, p);
    } else {
      MulMonotone(d, 4, p);
    }
  }

  // Rounding is decided by the most significant discarded digit alone.
  lemma RoundOnDigit(high: seq<int>, d: int, low: seq<int>)
    requires Digits(high) && 0 <= d <= 9 && Digits(low)
    ensures Shifted(Value(high + [d] + low), |low| + 1, true) == Value(high) + (if d >= 5 then 1 else 0)
  {
    ValueConcat(high + [d], low);
    HornerSnoc(0, high, d);
    ScaleIsMul(10 * Value(high) + d, |low|);
    ValueBounds(low);
    RoundHalfUp(Value(high), d, Value(low), Pow10(|low|));
  }

  // A value with fewer digits than the shift rounds to zero.
  lemma RoundToZero(digits: seq<int>, count: nat)
    requires Digits(digits) && |digits| < count
    ensures Shifted(Value(digits), count, true) == 0 && Shifted(Value(digits), count, false) == 0
  {
    ValueBounds(digits);
    Pow10Monotone(|digits|, count - 1);
    DivModUnique(Value(digits) + 5 * Pow10(count - 1), Pow10(count), 0, Value(digits) + 5 * Pow10(count - 1));
    DivModUnique(Value(digits), Pow10(count), 0, Value(digits));
  }

  // A carry into the lowest k digits still to do, above digits already done, makes up the sum.
  ghost predicate Carried(w0: seq<int>, w: seq<int>, k: nat, carry: int) {
    && k <= |w0| == |w| && 0 <= carry <= 1 && Digits(w) && w[..k] == w0[..k]
    && Horner(Value(w0[..k]) + carry, w[k..]) == Value(w0) + 1
  }

  lemma CarryBegins(w0: seq<int>)
    requires Digits(w0)
    ensures Carried(w0, w0, |w0|, 1)
  {
    assert w0[..|w0|] == w0 && w0[|w0|..] == [];
  }

  // One digit done, and the carry out of it.
  lemma CarryStep(w0: seq<int>, w: seq<int>, k: nat, carry: int)
    requires Carried(w0, w, k, carry) && 0 < k
    ensures Carried(w0, w[k - 1 := (w[k - 1] + carry) % 10], k - 1, (w[k - 1] + carry) / 10)
  {
    var s := w[k - 1] + carry;
    var w' := w[k - 1 := s % 10];
    assert w[k - 1] == w[..k][k - 1] == w0[k - 1];
    ValuePrefix(w0, k - 1);
    CarryIntoDigit(Value(w0[..k - 1]), w[k - 1], carry, w[k..]);
    assert w'[k - 1..] == [s % 10] + w[k..];
    assert w'[..k - 1] == w[..k][..k - 1] == w0[..k][..k - 1] == w0[..k - 1];
  }

  lemma CarryEnds(w0: seq<int>, w: seq<int>, k: nat, carry: int)
    requires Carried(w0, w, k, carry) && (carry == 0 || k == 0)
    ensures 0 <= carry <= 1 && Digits(w) && Horner(carry, w) == Value(w0) + 1
  {
    CarryStopped(w0, w, k, carry);
  }

  // Add one to the first len digits; a carry out of the top is returned.
  method Increment(work: array<int>, len: nat) returns (carry: int)
    requires len <= work.Length && Digits(work[..len])
    modifies work
    ensures 0 <= carry <= 1 && Digits(work[..len])
    ensures Horner(carry, work[..len]) == Value(old(work[..len])) + 1
  {
    ghost var w0 := work[..len];
    CarryBegins(w0);
    carry := 1;
    var k := len;
    while k > 0 && carry != 0
      invariant 0 <= k <= len && Carried(w0, work[..len], k, carry)
    {
      carry := IncrementDigit(work, len, k, carry, w0);
      k := k - 1;
    }
    CarryEnds(w0, work[..len], k, carry);
  }

  // The carry into the k-th digit, and the carry out of it.
  method IncrementDigit(work: array<int>, len: nat, k: nat, carry: int, ghost w0: seq<int>) returns (out: int)
    requires 0 < k <= len <= work.Length && Carried(w0, work[..len], k, carry)
    modifies work
    ensures Carried(w0, work[..len], k - 1, out)
  {
    ghost var w := work[..len];
    CarryStep(w0, w, k, carry);
    var s := work[k - 1] + carry;
    work[k - 1] := s % 10;
    out := s / 10;
    assert work[..len] == w[k - 1 := s % 10];
  }

  lemma CarryIntoDigit(above: int, digit: int, carry: int, low: seq<int>)
    ensures Horner(above + (digit + carry) / 10, [(digit + carry) % 10] + low)
         == Horner(10 * above + digit + carry, low)
  {
    var r := [(digit + carry) % 10] + low;
    assert r[1..] == low && r[0] == (digit + carry) % 10;
  }

  // Once the carry is used up (or no digit is left) the untouched prefix is part of the result.
  lemma CarryStopped(w0: seq<int>, w: seq<int>, k: nat, carry: int)
    requires |w| == |w0| && k <= |w| && w[..k] == w0[..k]
    requires carry == 0 || k == 0
    ensures Horner(Value(w0[..k]) + carry, w[k..]) == Horner(carry, w)
  {
    if k > 0 {
      HornerConcat(0, w[..k], w[k..]);
      assert w == w[..k] + w[k..];
    } else {
      assert w0[..0] == [] && w[0..] == w;
    }
  }

  // Move the first len digits one place down and put a leading digit above them.
  method Prepend(work: array<int>, len: nat, d: int)
    requires len < work.Length
    modifies work
    ensures work[..len + 1] == [d] + old(work[..len])
  {
    ghost var w0 := work[..len];
    var i := len;
    while i > 0
      invariant 0 <= i <= len
      invariant forall j :: 0 <= j < i ==> work[j] == w0[j]
      invariant forall j :: i < j <= len ==> work[j] == w0[j - 1]
    {
      work[i] := work[i - 1];
      i := i - 1;
    }
    work[0] := d;
  }

  // Keeping all but the lowest `count` digits is division; the digit below decides rounding.
  lemma DropIsDivision(ds: seq<int>, count: nat)
    requires Digits(ds) && 0 < count <= |ds|
    ensures var keep := |ds| - count;
            && Shifted(Value(ds), count, false) == Value(ds[..keep])
            && Shifted(Value(ds), count, true) == Value(ds[..keep]) + (if ds[keep] >= 5 then 1 else 0)
  {
    var keep := |ds| - count;
    assert ds == ds[..keep] + ds[keep..];
    SplitIsDivMod(ds[..keep], ds[keep..]);
    assert ds == ds[..keep] + [ds[keep]] + ds[keep + 1..];
    RoundOnDigit(ds[..keep], ds[keep], ds[keep + 1..]);
  }

  // One more than the first len digits, one digit longer when a carry leaves the top.
  method RoundUp(work: array<int>, len: nat) returns (wlen: nat)
    requires len < work.Length && Digits(work[..len])
    modifies work
    ensures wlen <= len + 1 && Digits(work[..wlen])
    ensures Value(work[..wlen]) == Value(old(work[..len])) + 1
  {
    var carry := Increment(work, len);
    wlen := len;
    if carry != 0 {
      Prepend(work, len, carry);
      wlen := len + 1;
    }
  }

  // Right shift: keep the digits above the lowest `count`, rounding once.
  method ShiftRight(work: array<int>, digits: array<int>, n: nat, count: nat, rounding: bool) returns (wlen: nat)
    requires work != digits && n <= digits.Length && n < work.Length && count > 0
    requires Digits(digits[..n])
    modifies work
    ensures wlen <= n + 1 && wlen <= work.Length && Digits(work[..wlen])
    ensures Value(work[..wlen]) == Shifted(Value(digits[..n]), count, rounding)
  {
    ghost var ds := digits[..n];
    wlen := if n >= count then n - count else 0;
    CopyDigits(work, digits, wlen);
    assert work[..wlen] == ds[..wlen];
    if count > n {
      RoundToZero(ds, count);
      return;
    }
    DropIsDivision(ds, count);
    if rounding && digits[wlen] >= 5 {
      wlen := RoundUp(work, wlen);
    }
  }

  // Left shift: append zeros, as far as the work buffer reaches.
  method ShiftLeft(work: array<int>, digits: array<int>, n: nat, k: nat) returns (wlen: nat)
    requires work != digits && n <= digits.Length && n + k <= work.Length
    requires Digits(digits[..n])
    modifies work
    ensures wlen == n + k && Digits(work[..wlen])
    ensures Value(work[..wlen]) == Value(digits[..n]) * Pow10(k)
  {
    CopyDigits(work, digits, n);
    ghost var ds := digits[..n];
    wlen := n;
    var i := 0;
    while i < k && wlen < work.Length
      invariant 0 <= i <= k && wlen == n + i
      invariant work[..wlen] == ds + Zeros(i)
    {
      work[wlen] := 0;
      assert work[..wlen + 1] == work[..wlen] + [0];
      wlen := wlen + 1;
      i := i + 1;
    }
    TrailingZeros(ds, k);
    ScaleIsMul(Value(ds), k);
  }

  // The digits of `digits`, moved by count places, in the work buffer.
  method ShiftDigits(work: array<int>, digits: array<int>, n: nat, count: int, rounding: bool) returns (wlen: nat)
    requires work != digits && n <= digits.Length && n < work.Length && n - count <= work.Length
    requires Digits(digits[..n])
    modifies work
    ensures wlen <= work.Length && Digits(work[..wlen])
    ensures Value(work[..wlen]) == Shifted(Value(digits[..n]), count, rounding)
  {
    if count == 0 {
      CopyDigits(work, digits, n);
      wlen := n;
    } else if count > 0 {
      wlen := ShiftRight(work, digits, n, count, rounding);
    } else {
      wlen := ShiftLeft(work, digits, n, -count);
    }
  }

  // The source's significant digits, most significant first.
  method LoadSignificant(src: Operand) returns (digits: array<int>, n: nat)
    requires src.Valid()
    ensures fresh(digits) && n == Capacity(src.fieldLength) <= digits.Length == MAX_NIBBLES + 2
    ensures digits[..n] == src.SignificantDigits()
  {
    digits := new int[MAX_NIBBLES + 2];
    var pad := Extent(src.fieldLength) - src.fieldLength;
    n := if src.fieldLength == 0 then 0 else src.fieldLength - 1;
    ghost var ds := src.SignificantDigits();
    var i := 0;
    while i < n
      invariant 0 <= i <= n
      invariant src.SignificantDigits() == ds
      invariant forall j :: 0 <= j < i ==> digits[j] == ds[j]
    {
      var v := src.GetNibble(pad + i);
      assert v == ds[i];
      digits[i] := v;
      i := i + 1;
    }
  }

  // Right adjust the work digits below dst's sign, the low ones within its capacity.
  method StoreWork(dst: Operand, work: array<int>, wlen: nat)
    requires dst.Valid() && dst.fieldLength > 0 && wlen <= work.Length && work as object != dst.words
    requires Digits(work[..wlen])
    modifies dst.words
    ensures dst.Buffer()
         == Splice(old(dst.Buffer()), dst.Skew(), Fit(work[..wlen], Capacity(dst.fieldLength), dst.Width()))
  {
    var mdst := Extent(dst.fieldLength);
    var cap := dst.fieldLength - 1;
    ghost var ws, b0, skew := work[..wlen], dst.Buffer(), dst.Skew();
    ghost var slots := Fit(ws, cap, mdst - 1);
    var pos := mdst - 2;
    while pos >= 0
      invariant -1 <= pos <= mdst - 2
      invariant forall j :: 0 <= j < 40 ==>
                  dst.Buffer()[j] == if skew + pos < j < skew + mdst - 1 then slots[j - skew] else b0[j]
    {
      var slotFromLsd := mdst - 2 - pos;
      var d := 0;
      if slotFromLsd < cap {
        var wi := wlen - 1 - slotFromLsd;
        if wi >= 0 {
          d := work[wi];
        }
      }
      assert slots[pos] == Slot(ws, cap, slotFromLsd) == d;
      dst.SetNibble(pos, d);
      pos := pos - 1;
    }
  }

  // Store src scaled by the difference of the decimal points. The result is false exactly
  // when the destination is empty or a significant digit is lost.
  method Shift(dst: Operand, src: Operand) returns (ok: bool)
    requires dst.Valid() && src.Valid() && dst.words != src.words
    requires Digits(src.SignificantDigits())
    modifies dst.words
    ensures dst.fieldLength == 0 ==> !ok && dst.Buffer() == old(dst.Buffer())
    ensures dst.fieldLength > 0 ==>
              var count := src.decimalPoint - dst.decimalPoint;
              var r := Shifted(Value(old(src.SignificantDigits())), count, dst.roundingOn);
              && (ok <==> r < Pow10(Capacity(dst.fieldLength)))
              && dst.Stores(old(dst.Buffer()), r, SignCode(dst.unsigned, old(src.FieldSign())))
  {
    if dst.fieldLength == 0 {
      return false;
    }
    var srcSign, srcUnsigned := src.DecodeSign();
    var work, wlen := LoadShifted(dst, src);
    ok := PackWork(dst, work, wlen, SignCode(dst.unsigned, srcSign));
  }

  method LoadShifted(dst: Operand, src: Operand) returns (work: array<int>, wlen: nat)
    requires dst.Valid() && src.Valid() && Digits(src.SignificantDigits())
    ensures fresh(work) && wlen <= work.Length && Digits(work[..wlen])
    ensures Value(work[..wlen])
         == Shifted(Value(src.SignificantDigits()), src.decimalPoint - dst.decimalPoint, dst.roundingOn)
  {
    var digits, n := LoadSignificant(src);
    work := new int[2 * MAX_NIBBLES + 4];
    wlen := ShiftDigits(work, digits, n, src.decimalPoint - dst.decimalPoint, dst.roundingOn);
  }

  method PackWork(dst: Operand, work: array<int>, wlen: nat, outSign: nibble) returns (ok: bool)
    requires dst.Valid() && dst.fieldLength > 0 && wlen <= work.Length && work as object != dst.words
    requires Digits(work[..wlen])
    modifies dst.words
    ensures ok <==> Value(work[..wlen]) < Pow10(Capacity(dst.fieldLength))
    ensures dst.Stores(old(dst.Buffer()), Value(work[..wlen]), outSign)
  {
    var cap := dst.fieldLength - 1;
    var lost := false;
    if wlen > cap {
      lost := AnyNonZero(work, wlen - cap);
    }
    FitValue(work[..wlen], cap, dst.Width());
    StoreSigned(dst, work, wlen, outSign);
    return !lost;
  }

  // The low digits of the work buffer, and then the sign.
  method StoreSigned(dst: Operand, work: array<int>, wlen: nat, outSign: nibble)
    requires dst.Valid() && dst.fieldLength > 0 && wlen <= work.Length && work as object != dst.words
    requires Digits(work[..wlen])
    modifies dst.words
    ensures dst.Stores(old(dst.Buffer()), Value(work[..wlen]), outSign)
  {
    ghost var slots := Fit(work[..wlen], Capacity(dst.fieldLength), dst.Width());
    StoreWork(dst, work, wlen);
    dst.SetNibble(Extent(dst.fieldLength) - 1, outSign);
    SpliceThen(old(dst.Buffer()), dst.Skew(), slots, outSign);
    dst.PackedStores(old(dst.Buffer()), work[..wlen], outSign);
  }

  lemma SpliceThen<T>(b: seq<T>, lo: nat, mid: seq<T>, v: T)
    requires lo + |mid| < |b|
    ensures Splice(b, lo, mid)[lo + |mid| := v] == Splice(b, lo, mid + [v])
  {
  }
}
