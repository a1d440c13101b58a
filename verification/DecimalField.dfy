/**
 One decoded decimal operand: a descriptor and the buffer of memory words its field covers.

 Packed fields are byte aligned. A descriptor length L (sign included) occupies
 M = L + L % 2 nibbles; the sign is the last of them and the magnitude stands right adjusted
 below it. The digit capacity stays L - 1, so for odd L the leading nibble is a zero pad.
 */
module DecimalField {
  import opened Words
  import opened Decimal
  import opened DigitBuffers

  const MAX_NIBBLES: nat := 32
  const MAX_WORDS: nat := 10
  const SIGN_POS: nibble := 12
  const SIGN_NEG: nibble := 13
  const SIGN_UNS: nibble := 15

  // Nibble extent M of a packed field of descriptor length l.
  function Extent(l: nat): nat {
    l + l % 2
  }

  // Significant digits a packed field of descriptor length l can hold.
  function Capacity(l: nat): nat {
    if l == 0 then 0 else l - 1
  }

  // Sign codes B and D are minus; every other code counts as plus.
  function SignOf(code: nibble): int {
    if code == 11 || code == 13 then -1 else 1
  }

  function SignCode(unsigned: bool, sign: int): nibble {
    if unsigned then SIGN_UNS else if sign < 0 then SIGN_NEG else SIGN_POS
  }

  // The digit for the slot q places above the lowest, when only `cap` slots take digits.
  function Slot(digits: seq<int>, cap: nat, q: nat): int {
    if q < cap && q < |digits| then digits[|digits| - 1 - q] else 0
  }

  // The low `cap` of the given digits, right adjusted in `width` slots.
  function Fit(digits: seq<int>, cap: nat, width: nat): (slots: seq<int>)
    ensures |slots| == width
  {
    seq(width, j requires 0 <= j < width => Slot(digits, cap, width - 1 - j))
  }

  lemma FitIsSuffix(digits: seq<int>, cap: nat, width: nat)
    requires cap <= width
    ensures cap <= |digits| ==> Fit(digits, cap, width) == Zeros(width - cap) + digits[|digits| - cap..]
    ensures |digits| <= cap ==> Fit(digits, cap, width) == Zeros(width - |digits|) + digits
  {
    var n := if cap <= |digits| then cap else |digits|;
    var slots, r := Fit(digits, cap, width), Zeros(width - n) + digits[|digits| - n..];
    forall j | 0 <= j < width
      ensures slots[j] == r[j]
    {
      assert slots[j] == Slot(digits, cap, width - 1 - j);
    }
  }

  // Storing the low digits is taking the value modulo the capacity, and what is lost is zero
  // exactly when the value fits.
  lemma FitValue(digits: seq<int>, cap: nat, width: nat)
    requires cap <= width && Digits(digits)
    ensures Digits(Fit(digits, cap, width))
    ensures Value(Fit(digits, cap, width)) == Value(digits) % Pow10(cap)
    ensures (exists i :: 0 <= i < |digits| - cap && digits[i] != 0) <==> Value(digits) >= Pow10(cap)
  {
    ValueBounds(digits);
    if cap <= |digits| {
      FitLow(digits, cap, width);
      HighDigits(digits, |digits| - cap);
    } else {
      FitIsSuffix(digits, cap, width);
      LeadingZeros(width - |digits|, digits);
      Pow10Monotone(|digits|, cap);
      QuotientZero(Value(digits), Pow10(cap));
    }
  }

  lemma FitLow(digits: seq<int>, cap: nat, width: nat)
    requires cap <= width && cap <= |digits| && Digits(digits)
    ensures Digits(Fit(digits, cap, width))
    ensures Value(Fit(digits, cap, width)) == Value(digits) % Pow10(cap)
  {
    var high, low := digits[..|digits| - cap], digits[|digits| - cap..];
    assert digits == high + low;
    FitIsSuffix(digits, cap, width);
    LeadingZeros(width - cap, low);
    SplitIsDivMod(high, low);
  }

  // The first k digits hold something exactly when the value reaches the weight of the rest.
  lemma HighDigits(digits: seq<int>, k: nat)
    requires k <= |digits| && Digits(digits)
    ensures (exists i :: 0 <= i < k && digits[i] != 0) <==> Value(digits) >= Pow10(|digits| - k)
  {
    var high, low := digits[..k], digits[k..];
    assert digits == high + low;
    SplitIsDivMod(high, low);
    ZeroIffAllZero(high);
    ValueBounds(high);
    ValueBounds(digits);
    QuotientZero(Value(digits), Pow10(|digits| - k));
    assert (exists i :: 0 <= i < k && digits[i] != 0) <==> (exists i :: 0 <= i < |high| && high[i] != 0);
  }

  lemma QuotientZero(n: int, d: int)
    requires n >= 0 && d > 0
    ensures n < d ==> n / d == 0 && n % d == n
    ensures n / d == 0 <==> n < d
  {
    assert n == (n / d) * d + n % d;
    if n < d {
      DivModUnique(n, d, 0, n);
    }
  }

  // b with the stretch starting at lo replaced by mid.
  function Splice<T>(b: seq<T>, lo: nat, mid: seq<T>): (r: seq<T>)
    requires lo + |mid| <= |b|
    ensures |r| == |b|
  {
    seq(|b|, j requires 0 <= j < |b| => if lo <= j < lo + |mid| then mid[j - lo] else b[j])
  }

  // Writing the position just above a stretch before the stretch itself.
  lemma SpliceLast<T>(b: seq<T>, lo: nat, mid: seq<T>, v: T)
    requires lo + |mid| < |b|
    ensures Splice(b[lo + |mid| := v], lo, mid) == Splice(b, lo, mid + [v])
  {
  }

  class Operand {
    const addr: word
    const isAscii: bool
    const words: array<word>

    const startsInRightByte: bool
    const asciiFormat: nat
    const roundingOn: bool
    const decimalPoint: nat
    const fieldLength: nat
    const unsigned: bool

    ghost predicate Valid() {
      && words.Length == MAX_WORDS
      && fieldLength < MAX_NIBBLES
      && decimalPoint < MAX_NIBBLES
      && asciiFormat < 8
      && (unsigned <==> asciiFormat >= 4)
    }

    // The fields are those of descriptor d2: bit 15, bits 13-11, bit 10, bits 9-5, bits 4-0,
    // and bit 13, the top bit of the format, which asks for an unsigned result.
    ghost predicate Describes(d2: word) {
      && startsInRightByte == (d2 / 0x8000 == 1)
      && asciiFormat == d2 / 0x800 % 8
      && roundingOn == (d2 / 0x400 % 2 == 1)
      && decimalPoint == d2 / 0x20 % 32
      && fieldLength == d2 % 32
    }

    constructor (d1: word, d2: word, isAscii: bool)
      ensures Valid() && Describes(d2) && fresh(words)
      ensures addr == d1 && this.isAscii == isAscii
      ensures forall i :: 0 <= i < MAX_WORDS ==> words[i] == 0
    {
      addr := d1;
      this.isAscii := isAscii;
      startsInRightByte := d2 / 0x8000 == 1;
      asciiFormat := d2 / 0x800 % 8;
      roundingOn := d2 / 0x400 % 2 == 1;
      decimalPoint := d2 / 0x20 % 32;
      fieldLength := d2 % 32;
      unsigned := d2 / 0x2000 % 2 == 1;
      words := new word[MAX_WORDS](_ => 0);
      new;
      UnsignedBit(d2);
    }

    static lemma UnsignedBit(d2: word)
      ensures d2 / 0x2000 % 2 == 1 <==> d2 / 0x800 % 8 >= 4
    {
      assert d2 / 0x2000 == d2 / 0x800 / 4;
    }

    // Nibbles the field is shifted right by when it starts in a right byte.
    function Skew(): nat {
      if startsInRightByte then 2 else 0
    }

    // The whole buffer as a nibble string.
    ghost function Buffer(): (ns: seq<nibble>)
      reads words
      requires Valid()
      ensures |ns| == 40
    {
      Nibbles(words[..])
    }

    // Nibbles below the sign.
    function Width(): nat {
      if fieldLength == 0 then 0 else Extent(fieldLength) - 1
    }

    ghost function MagnitudeDigits(): (ds: seq<nibble>)
      reads words
      requires Valid()
      ensures |ds| == Width()
    {
      Buffer()[Skew()..Skew() + Width()]
    }

    // The digits within the capacity: all but the pad nibble of an odd-length field.
    ghost function SignificantDigits(): (ds: seq<nibble>)
      reads words
      requires Valid()
      ensures |ds| == Capacity(fieldLength)
    {
      MagnitudeDigits()[Width() - Capacity(fieldLength)..]
    }

    ghost function SignNibble(): nibble
      reads words
      requires Valid()
    {
      Buffer()[Skew() + Width()]
    }

    // The magnitude nibbles are all decimal digits.
    ghost predicate Proper()
      reads words
      requires Valid()
    {
      Digits(MagnitudeDigits())
    }

    ghost function Magnitude(): int
      reads words
      requires Valid()
    {
      Value(MagnitudeDigits())
    }

    ghost function FieldSign(): int
      reads words
      requires Valid()
    {
      if fieldLength == 0 then 1 else SignOf(SignNibble())
    }

    ghost predicate IsUnsigned()
      reads words
      requires Valid()
    {
      fieldLength > 0 && SignNibble() == SIGN_UNS
    }

    // The integer the field denotes.
    ghost function Number(): int
      reads words
      requires Valid()
    {
      Signed(FieldSign(), Magnitude())
    }

    method GetNibble(i: nat) returns (v: nibble)
      requires Valid() && i + Skew() < 40
      ensures v == Buffer()[i + Skew()]
    {
      var p := i + Skew();
      NibbleAt(words[..], p / 4, p % 4);
      return NibbleOf(words[p / 4], p % 4);
    }

    method SetNibble(i: nat, v: nibble)
      requires Valid() && i + Skew() < 40
      modifies words
      ensures Buffer() == old(Buffer())[i + Skew() := v]
    {
      var p := i + Skew();
      NibbleStore(words[..], p / 4, p % 4, v);
      words[p / 4] := WithNibble(words[p / 4], p % 4, v);
      assert words[..] == old(words[..])[p / 4 := WithNibble(old(words[p / 4]), p % 4, v)];
    }

    // The buffer as a byte string, for ASCII operands.
    ghost function ByteBuffer(): (bs: seq<byte>)
      reads words
      requires Valid()
      ensures |bs| == 20
    {
      Bytes(words[..])
    }

    function ByteSkew(): nat {
      if startsInRightByte then 1 else 0
    }

    // The bytes of an ASCII field.
    ghost function FieldBytes(): (bs: seq<byte>)
      reads words
      requires Valid() && fieldLength + ByteSkew() <= 20
      ensures |bs| == fieldLength
    {
      ByteBuffer()[ByteSkew()..ByteSkew() + fieldLength]
    }

    method GetByte(i: int) returns (b: byte)
      requires Valid() && 0 <= i + ByteSkew() < 20
      ensures b == ByteBuffer()[i + ByteSkew()]
    {
      var p := i + ByteSkew();
      ByteAt(words[..], p / 2, p % 2);
      return ByteOf(words[p / 2], p % 2);
    }

    method SetByte(i: nat, b: byte)
      requires Valid() && i + ByteSkew() < 20
      modifies words
      ensures ByteBuffer() == old(ByteBuffer())[i + ByteSkew() := b]
    {
      var p := i + ByteSkew();
      ByteStore(words[..], p / 2, p % 2, b);
      words[p / 2] := WithByte(words[p / 2], p % 2, b);
      assert words[..] == old(words[..])[p / 2 := WithByte(old(words[p / 2]), p % 2, b)];
    }

    // The sign of the operand and whether its code is the unsigned one.
    method DecodeSign() returns (sign: int, isUnsigned: bool)
      requires Valid()
      ensures sign == FieldSign()
      ensures isUnsigned == IsUnsigned()
    {
      sign, isUnsigned := 1, false;
      if fieldLength == 0 {
        return;
      }
      var code := GetNibble(Extent(fieldLength) - 1);
      if code == 11 || code == 13 {
        sign := -1;
      } else if code == 15 {
        isUnsigned := true;
      }
    }

    // Copy the magnitude digits into dst, right adjusted below leading zeros.
    method ExtractMagnitude(dst: array<int>, dstLen: nat)
      requires Valid() && dstLen <= dst.Length && dst as object != words
      modifies dst
      ensures var n := Min(Width(), dstLen); dst[..dstLen] == Zeros(dstLen - n) + MagnitudeDigits()[..n]
      ensures Width() <= dstLen && Proper() ==> Digits(dst[..dstLen]) && Value(dst[..dstLen]) == Magnitude()
    {
      Clear(dst, dstLen);
      var digits := if fieldLength == 0 then 0 else Extent(fieldLength) - 1;
      if digits > dstLen {
        digits := dstLen;
      }
      var base := dstLen - digits;
      ghost var ds, buffer := MagnitudeDigits(), Buffer();
      var i := 0;
      while i < digits
        invariant 0 <= i <= digits
        invariant Buffer() == buffer
        invariant forall j :: 0 <= j < base ==> dst[j] == 0
        invariant forall j :: base <= j < base + i ==> dst[j] == ds[j - base]
      {
        var v := GetNibble(i);
        assert v == ds[i];
        dst[base + i] := v;
        i := i + 1;
      }
      assert dst[..dstLen] == Zeros(base) + ds[..digits];
      LeadingZeros(base, ds);
      assert digits == Width() ==> ds[..digits] == ds;
    }

    // Store the low digits of a magnitude right adjusted below the sign, with zeros above
    // them. The result is the index of the first digit left over, or -1.
    method StoreDigits(digits: array<int>, len: nat) returns (di: int)
      requires Valid() && fieldLength > 0 && len <= digits.Length && digits as object != words
      requires Digits(digits[..len])
      modifies words
      ensures Buffer() == Splice(old(Buffer()), Skew(), Fit(digits[..len], Capacity(fieldLength), Width()))
      ensures di == Remaining(len, Capacity(fieldLength))
    {
      var m := Extent(fieldLength);
      var cap := fieldLength - 1;
      ghost var ds, b0, skew := digits[..len], Buffer(), Skew();
      ghost var slots := Fit(ds, cap, m - 1);
      di := len - 1;
      var pos := m - 2;
      while pos >= 0
        invariant -1 <= pos <= m - 2
        invariant di == Remaining(len, Min(m - 2 - pos, cap))
        invariant forall j :: 0 <= j < 40 ==>
                    Buffer()[j] == if skew + pos < j < skew + m - 1 then slots[j - skew] else b0[j]
      {
        var slotFromLsd := m - 2 - pos;
        var d := 0;
        if slotFromLsd < cap && di >= 0 {
          d := digits[di];
          di := di - 1;
        }
        assert slots[pos] == Slot(ds, cap, slotFromLsd) == d;
        SetNibble(pos, d);
        pos := pos - 1;
      }
    }

    // Store the low digits of a magnitude right adjusted in the field and set the sign.
    // An empty field holds no digit, so only zero fits it and nothing is written.
    method PackMagnitude(digits: array<int>, len: nat, outSign: nibble) returns (overflow: bool)
      requires Valid() && len <= digits.Length && digits as object != words
      requires Digits(digits[..len])
      modifies words
      ensures overflow <==> Value(digits[..len]) >= Pow10(Capacity(fieldLength))
      ensures Buffer() == Packed(old(Buffer()), digits[..len], outSign)
    {
      if fieldLength == 0 {
        overflow := AnyNonZero(digits, len);
        FitValue(digits[..len], 0, 0);
        return;
      }
      var m := Extent(fieldLength);
      ghost var slots := Fit(digits[..len], fieldLength - 1, m - 1);
      SetNibble(m - 1, outSign);
      var di := StoreDigits(digits, len);
      SpliceLast(old(Buffer()), Skew(), slots, outSign);
      overflow := AnyNonZero(digits, di + 1);
      FitValue(digits[..len], fieldLength - 1, m);
    }

    // The buffer after a magnitude and a sign are stored in the field.
    ghost function Packed(buffer: seq<nibble>, ds: seq<int>, outSign: nibble): (r: seq<int>)
      requires Valid() && |buffer| == 40
    {
      if fieldLength == 0 then buffer
      else Splice(buffer, Skew(), Fit(ds, Capacity(fieldLength), Width()) + [outSign])
    }

    // The field holds the low digits of a magnitude under a sign code, the pad nibble of an
    // odd-length field is zero, and the rest of the buffer is as it was before.
    ghost predicate Stores(before: seq<nibble>, magnitude: int, code: nibble)
      reads words
      requires Valid() && |before| == 40
    {
      if fieldLength == 0 then Buffer() == before
      else
        && Proper()
        && Magnitude() == magnitude % Pow10(Capacity(fieldLength))
        && SignNibble() == code
        && (fieldLength % 2 == 1 ==> Buffer()[Skew()] == 0)
        && forall j :: 0 <= j < Skew() || Skew() + Extent(fieldLength) <= j < 40 ==> Buffer()[j] == before[j]
    }

    lemma PackedStores(before: seq<nibble>, ds: seq<int>, code: nibble)
      requires Valid() && |before| == 40 && Digits(ds)
      requires Buffer() == Packed(before, ds, code)
      ensures Stores(before, Value(ds), code)
    {
      if fieldLength > 0 {
        var slots := Fit(ds, Capacity(fieldLength), Width());
        FitValue(ds, Capacity(fieldLength), Width());
        assert MagnitudeDigits() == slots;
        if fieldLength % 2 == 1 {
          assert slots[0] == Slot(ds, Capacity(fieldLength), Width() - 1);
          assert Buffer()[Skew()] == slots[0];
        }
      }
    }

    lemma MagnitudeBounds()
      requires Valid() && Proper()
      ensures 0 <= Magnitude() < Pow10(Width())
    {
      ValueBounds(MagnitudeDigits());
    }
  }

  function Min(a: int, b: int): int {
    if a < b then a else b
  }

  // The index of the last of len digits once k have been taken from the end, or -1.
  function Remaining(len: nat, k: nat): int {
    if len > k then len - k - 1 else -1
  }
}
