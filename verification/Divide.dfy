/**
 RDIV: the 32-bit signed double accumulator divided by a 16-bit signed register, by magnitudes.
 */
module Divide {
  import opened Words

  const D: nat := 1
  const A: nat := 5

  function Signed16(w: word): int {
    if w < 0x8000 then w else w - 0x10000
  }

  function Signed32(high: word, low: word): int {
    Signed16(high) * 0x10000 + low
  }

  function Wrap16(n: int): word {
    n % 0x10000
  }

  function Abs(n: int): nat {
    if n < 0 then -n else n
  }

  // Division truncated toward zero; the remainder takes the dividend's sign.
  function Quotient(n: int, m: int): int
    requires m != 0
  {
    var q := Abs(n) / Abs(m);
    if (n < 0) != (m < 0) then -q else q
  }

  function Remainder(n: int, m: int): int
    requires m != 0
  {
    var r := Abs(n) % Abs(m);
    if n < 0 then -r else r
  }

  // What a remainder of a truncated division is: smaller than the divisor, with the sign of the
  // dividend, and what the product leaves.
  predicate Divides(n: int, m: int, q: int, r: int) {
    n == q * m + r && Abs(r) < Abs(m) && (n >= 0 ==> r >= 0) && (n <= 0 ==> r <= 0)
  }

  lemma DivMod(n: nat, m: nat)
    requires m > 0
    ensures n == (n / m) * m + n % m && 0 <= n % m < m && 0 <= n / m
  {
  }

  lemma SignedProduct(q: int, m: int)
    ensures (-q) * m == -(q * m) && q * (-m) == -(q * m) && (-q) * (-m) == q * m
  {
  }

  lemma TruncatedDivides(n: int, m: int)
    requires m != 0
    ensures Divides(n, m, Quotient(n, m), Remainder(n, m))
  {
    var q := Abs(n) / Abs(m);
    DivMod(Abs(n), Abs(m));
    SignedProduct(q, Abs(m));
  }

  // No other quotient and remainder do.
  lemma OnlyOneDivides(n: int, m: int, q: int, r: int)
    requires m != 0 && Divides(n, m, q, r)
    ensures q == Quotient(n, m) && r == Remainder(n, m)
  {
    TruncatedDivides(n, m);
    SameSide(m, q, r, Quotient(n, m), Remainder(n, m));
  }

  lemma SameSide(m: int, q: int, r: int, q': int, r': int)
    requires q * m + r == q' * m + r' && Abs(r) < Abs(m) && Abs(r') < Abs(m)
    requires (r >= 0 && r' >= 0) || (r <= 0 && r' <= 0)
    ensures q == q' && r == r'
  {
    var k := q - q';
    assert k * m == q * m - q' * m == r' - r;
    if k >= 1 {
      MultipleTooLarge(k, m);
    } else if k <= -1 {
      SignedProduct(k, m);
      MultipleTooLarge(-k, m);
    }
  }

  lemma MultipleTooLarge(k: int, m: int)
    requires k >= 1
    ensures Abs(k * m) >= Abs(m)
  {
    if m >= 0 {
      MulGrows(k, m);
    } else {
      SignedProduct(k, -m);
      MulGrows(k, -m);
    }
  }

  lemma MulGrows(k: int, m: nat)
    requires k >= 1
    ensures k * m >= m
  {
  }

  // The quotient a 16-bit accumulator can hold.
  predicate Fits(q: int) {
    -0x8000 <= q <= 0x7FFF
  }

  predicate Overflows(n: int, m: int) {
    m == 0 || !Fits(Quotient(n, m))
  }

  // Overflow is the absence of a 16-bit quotient: none of -32768 to 32767 divides with a remainder.
  lemma OverflowsIff(n: int, m: int)
    ensures Overflows(n, m) <==> m == 0 || !exists q, r :: -32768 <= q <= 32767 && Divides(n, m, q, r)
  {
    if m != 0 {
      TruncatedDivides(n, m);
      forall q, r | Divides(n, m, q, r)
        ensures q == Quotient(n, m)
      {
        OnlyOneDivides(n, m, q, r);
      }
    }
  }

  // The signed readings of one word and of two are those of two's complement.
  lemma TwosComplement(high: word, low: word)
    ensures -0x8000 <= Signed16(low) < 0x8000 && Wrap16(Signed16(low)) == low
    ensures var n := Signed32(high, low);
            -0x8000_0000 <= n < 0x8000_0000 && (n - (high * 0x10000 + low)) % 0x1_0000_0000 == 0
  {
  }

  // The pre-check on the high word lets through exactly the magnitudes whose quotient is below
  // 2^16.
  lemma PreCheckExact(n: nat, m: nat)
    requires m > 0
    ensures n / 0x10000 < m <==> n / m < 0x10000
  {
    DivMod(n, m);
    if n / 0x10000 < m {
      assert n < m * 0x10000;
      if n / m >= 0x10000 {
        MulMonotone(0x10000, n / m, m);
      }
    } else if n / m < 0x10000 {
      MulMonotone(n / m, 0xFFFF, m);
    }
  }

  lemma MulMonotone(a: int, b: int, m: nat)
    requires a <= b
    ensures a * m <= b * m
  {
  }

  // Signed16 undoes Wrap16 on what fits.
  lemma WrapSigned(n: int)
    ensures Fits(n) ==> Signed16(Wrap16(n)) == n
  {
  }

  // The division by magnitudes. On overflow of the pre-check the high word is left with the
  // divisor's magnitude taken from it, and no quotient is computed.
  method DivideMagnitudes(n: int, m: int) returns (high: word, low: word, overflow: bool)
    requires -0x8000_0000 <= n < 0x8000_0000 && -0x8000 <= m < 0x8000
    ensures overflow == Overflows(n, m)
    ensures (if m == 0 || Abs(n) / 0x10000 >= Abs(m)
             then high == Abs(n) / 0x10000 - Abs(m) && low == Abs(n) % 0x10000
             else high == Wrap16(Quotient(n, m)) && Signed16(low) == Remainder(n, m))
  {
    var mag, divisorMag := Abs(n), Abs(m);
    if divisorMag == 0 || mag / 0x10000 >= divisorMag {
      if divisorMag != 0 {
        PreCheckExact(mag, divisorMag);
      }
      return mag / 0x10000 - divisorMag, mag % 0x10000, true;
    }
    DivMod(mag, divisorMag);
    var quotient: int, remainder: int := mag / divisorMag, mag % divisorMag;
    var negative := (n < 0) != (m < 0);
    high := Wrap16(if negative then -quotient else quotient);
    low := Wrap16(if n < 0 then -remainder else remainder);
    WrapSigned(Remainder(n, m));
    overflow := if negative then quotient > 0x8000 else quotient > 0x7FFF;
  }

  // What the result means: without overflow the signed accumulator and remainder divide the
  // dividend, for every dividend and divisor, -2^31 and -2^15 included.
  lemma ResultDivides(n: int, m: int, a: word, d: word)
    requires m != 0 && !Overflows(n, m)
    requires a == Wrap16(Quotient(n, m)) && Signed16(d) == Remainder(n, m)
    ensures Divides(n, m, Signed16(a), Signed16(d))
  {
    TruncatedDivides(n, m);
    WrapSigned(Quotient(n, m));
  }

  // A division that does not overflow always passes the pre-check.
  lemma FittingPassesPreCheck(n: int, m: int)
    requires m != 0 && Fits(Quotient(n, m))
    ensures Abs(n) / 0x10000 < Abs(m)
  {
    PreCheckExact(Abs(n), Abs(m));
  }

  // The magnitude of a dividend, split into words, is the dividend's own two words exactly when it
  // is not negative or is the one whose magnitude wraps.
  lemma MagnitudeWordsSameIff(high: word, low: word)
    ensures var n := Signed32(high, low);
            (Abs(n) / 0x10000 == high && Abs(n) % 0x10000 == low) <==> n >= 0 || n == -0x8000_0000
  {
    var n := Signed32(high, low);
    assert n >= 0 <==> high < 0x8000;
    if n < 0 {
      assert Abs(n) == (0x10000 - high) * 0x10000 - low;
    }
  }

  // The manual's "A and D unchanged" on a division by zero fails for a dividend of -1, which
  // leaves 0 and 1.
  lemma DivisionByZeroChanges()
    ensures Signed32(0xFFFF, 0xFFFF) == -1
    ensures Abs(Signed32(0xFFFF, 0xFFFF)) / 0x10000 == 0 && Abs(Signed32(0xFFFF, 0xFFFF)) % 0x10000 == 1
  {
  }

  class Cpu {
    const reg: array<word>
    var z: bool
    var c: bool
    var o: bool
    var q: bool

    ghost predicate Valid() { reg.Length == 8 }

    // A register field of 0 names no register and stands for 0.
    function Source(field: nat): word
      requires Valid() && field < 8
      reads reg
    {
      if field == 0 then 0 else reg[field]
    }

    ghost function Dividend(): int
      requires Valid()
      reads reg
    {
      Signed32(reg[A], reg[D])
    }

    method SetFlagsOfNegation(low: word)
      modifies this
      ensures c == (low == 0) && q == (low == 0x8000) && o == (old(o) || low == 0x8000) && z == old(z)
    {
      c, q := low == 0, low == 0x8000;
      if low == 0x8000 {
        o := true;
      }
    }

    method Rdiv(field: nat)
      requires Valid() && field < 8
      modifies this, reg
      // The error indicator is set exactly on a zero divisor or an unrepresentable quotient.
      ensures z == (old(z) || Overflows(old(Dividend()), Signed16(old(Source(field)))))
      // The loop runs exactly when the magnitude of the quotient is below 2^16, and then the
      // quotient is exact modulo 2^16 and the remainder exact.
      ensures var n, m := old(Dividend()), Signed16(old(Source(field)));
              (if m == 0 || Abs(n) / 0x10000 >= Abs(m)
               then reg[A] == Abs(n) / 0x10000 - Abs(m) && reg[D] == Abs(n) % 0x10000
               else reg[A] == Wrap16(Quotient(n, m)) && Signed16(reg[D]) == Remainder(n, m))
      // Without overflow the signed results divide the dividend.
      ensures (var n, m := old(Dividend()), Signed16(old(Source(field)));
               !Overflows(n, m) ==> Divides(n, m, Signed16(reg[A]), Signed16(reg[D])))
      // A division by zero leaves A and D as they were exactly for these dividends.
      ensures (Signed16(old(Source(field))) == 0 ==>
                 ((reg[A] == old(reg[A]) && reg[D] == old(reg[D]))
                  <==> old(Dividend()) >= 0 || old(Dividend()) == -0x8000_0000))
      // Only the negation of a negative dividend touches carry and overflow.
      ensures old(Dividend()) >= 0 ==> c == old(c) && o == old(o) && q == old(q)
      ensures old(Dividend()) < 0 ==> c == (old(reg[D]) == 0) && q == (old(reg[D]) == 0x8000)
      ensures old(Dividend()) < 0 ==> o == (old(o) || old(reg[D]) == 0x8000)
      // Only registers 1, which is D, and 5, which is A, are written.
      ensures forall k :: 0 <= k < 8 && k != 1 && k != 5 ==> reg[k] == old(reg[k])
    {
      var dividend := Signed32(reg[A], reg[D]);
      var divisor := Signed16(if field == 0 then 0 else reg[field]);
      MagnitudeWordsSameIff(reg[A], reg[D]);
      if dividend < 0 {
        SetFlagsOfNegation(reg[D]);
      }
      var quotient, remainder, overflow := DivideMagnitudes(dividend, divisor);
      reg[A], reg[D] := quotient, remainder;
      if !overflow {
        FittingPassesPreCheck(dividend, divisor);
        ResultDivides(dividend, divisor, quotient, remainder);
      }
      if overflow {
        z := true;
      }
    }
  }
}
