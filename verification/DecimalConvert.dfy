/**
 PACK and UPACK: conversion between packed decimal fields and ASCII decimal strings in the
 four signed formats and the unsigned one.
 */
module DecimalConvert {
  import opened Words
  import opened Decimal
  import opened DecimalField

  const EMBEDDED_TRAILING: nat := 0
  const SEPARATE_TRAILING: nat := 1
  const EMBEDDED_LEADING: nat := 2
  const SEPARATE_LEADING: nat := 3

  datatype Outcome = Converted | IllegalCode | Overflow

  // What an ASCII string denotes: its sign and its digits, or nothing.
  datatype Decoded = Illegal | Number(sign: int, digits: seq<int>)

  predicate Separate(format: nat) {
    format == SEPARATE_TRAILING || format == SEPARATE_LEADING
  }

  predicate Embedded(format: nat) {
    format == EMBEDDED_TRAILING || format == EMBEDDED_LEADING
  }

  // The byte that carries the sign; -1 when the format has none.
  function SignByte(format: nat, len: nat): int {
    if format == EMBEDDED_TRAILING || format == SEPARATE_TRAILING then len - 1
    else if format == EMBEDDED_LEADING || format == SEPARATE_LEADING then 0
    else -1
  }

  function First(format: nat): int {
    if format == SEPARATE_LEADING then 1 else 0
  }

  function Last(format: nat, len: nat): int {
    if format == SEPARATE_TRAILING then len - 2 else len - 1
  }

  // Overpunched digits: '{' and 'A'-'I' are plus, '}' and 'J'-'R' are minus.
  function Overpunch(sign: int, digit: int): byte
    requires 0 <= digit <= 9
  {
    if sign < 0 then (if digit == 0 then 0x7D else 0x49 + digit)
    else if digit == 0 then 0x7B else 0x40 + digit
  }

  predicate IsPlain(b: byte) {
    0x30 <= b <= 0x39
  }

  predicate IsOverpunch(b: byte) {
    b == 0x7B || b == 0x7D || 0x41 <= b <= 0x52
  }

  predicate LegalDigit(b: byte, carriesSign: bool) {
    IsPlain(b) || (carriesSign && IsOverpunch(b))
  }

  function DigitOf(b: byte): int
    requires IsPlain(b) || IsOverpunch(b)
    ensures 0 <= DigitOf(b) <= 9
  {
    if b == 0x7B || b == 0x7D then 0
    else if b >= 0x4A then b - 0x49
    else if b >= 0x41 then b - 0x40
    else b - 0x30
  }

  function EmbeddedSign(b: byte): int {
    if b == 0x7D || 0x4A <= b <= 0x52 then -1 else 1
  }

  predicate LegalString(format: nat, bs: seq<byte>) {
    && (Separate(format) ==> 0 <= SignByte(format, |bs|) < |bs| && bs[SignByte(format, |bs|)] in {0x2B, 0x2D})
    && forall i :: First(format) <= i <= Last(format, |bs|) ==>
                     LegalDigit(bs[i], Embedded(format) && i == SignByte(format, |bs|))
  }

  function StringSign(format: nat, bs: seq<byte>): int {
    var s := SignByte(format, |bs|);
    if !(0 <= s < |bs|) then 1
    else if Separate(format) then (if bs[s] == 0x2D then -1 else 1)
    else EmbeddedSign(bs[s])
  }

  // The reading of an ASCII decimal string.
  function Decode(format: nat, bs: seq<byte>): Decoded {
    if !LegalString(format, bs) then Illegal
    else
      var n := Last(format, |bs|) - First(format) + 1;
      Number(StringSign(format, bs),
             seq(if n < 0 then 0 else n, k requires 0 <= k < n => DigitOf(bs[First(format) + k])))
  }

  lemma DecodedDigits(format: nat, bs: seq<byte>)
    requires Decode(format, bs).Number?
    ensures Digits(Decode(format, bs).digits)
  {
    var d := Decode(format, bs).digits;
    forall k | 0 <= k < |d|
      ensures 0 <= d[k] <= 9
    {
      assert d[k] == DigitOf(bs[First(format) + k]);
    }
  }

  // The byte of a sign that stands alone.
  function LoneSign(unsigned: bool, sign: int): byte {
    if unsigned then 0x30 else if sign < 0 then 0x2D else 0x2B
  }

  // The byte written for one digit.
  function DigitByte(carriesSign: bool, sign: int, digit: int): byte
    requires 0 <= digit <= 9
  {
    if carriesSign then Overpunch(sign, digit) else 0x30 + digit
  }

  // The byte at position i of the string written for a sign and digits, right adjusted with
  // '0' above them.
  function StringByte(format: nat, len: nat, unsigned: bool, sign: int, digits: seq<int>, i: int): byte
    requires Digits(digits) && 0 <= i < len
  {
    var s := SignByte(format, len);
    if Separate(format) && i == s then LoneSign(unsigned, sign)
    else
      var q := Last(format, len) - i;
      DigitByte(Embedded(format) && !unsigned && i == s, sign, if q < 0 then 0 else Slot(digits, |digits|, q))
  }

  function Encode(format: nat, len: nat, unsigned: bool, sign: int, digits: seq<int>): (bs: seq<byte>)
    requires Digits(digits)
    ensures |bs| == len
  {
    seq(len, i requires 0 <= i < len => StringByte(format, len, unsigned, sign, digits, i))
  }

  // Digit positions of a string of len bytes.
  function Room(format: nat, len: nat): int {
    Last(format, len) - First(format) + 1
  }

  // Reading back what was written gives the sign and the digits, below leading zeros, as long
  // as the digits fit the string. The one exception is an unsigned number written in a
  // separate-sign format: its sign byte is '0', which is no sign, and the string is refused.
  lemma DecodeOfEncode(format: nat, len: nat, unsigned: bool, sign: int, digits: seq<int>)
    requires Digits(digits) && |digits| <= Room(format, len) && len > 0
    requires (sign == 1 || sign == -1) && (unsigned ==> sign == 1)
    ensures unsigned && Separate(format) <==> Decode(format, Encode(format, len, unsigned, sign, digits)) == Illegal
    ensures var d := Decode(format, Encode(format, len, unsigned, sign, digits));
            !(unsigned && Separate(format)) ==>
              && d.Number? && d.sign == (if format > SEPARATE_LEADING then 1 else sign)
              && d.digits == Zeros(Room(format, len) - |digits|) + digits
  {
    var bs := Encode(format, len, unsigned, sign, digits);
    if Separate(format) {
      EncodedSign(format, len, unsigned, sign, digits);
    }
    if !(unsigned && Separate(format)) {
      forall i | First(format) <= i <= Last(format, len)
        ensures LegalDigit(bs[i], Embedded(format) && i == SignByte(format, len))
        ensures Embedded(format) && i == SignByte(format, len) ==> EmbeddedSign(bs[i]) == sign
      {
        EncodedDigit(format, len, unsigned, sign, digits, i);
      }
      assert LegalString(format, bs);
      DecodedSlots(format, len, unsigned, sign, digits);
    }
  }

  // The sign byte of a separate-sign string.
  lemma EncodedSign(format: nat, len: nat, unsigned: bool, sign: int, digits: seq<int>)
    requires Digits(digits) && len > 0 && Separate(format)
    ensures Encode(format, len, unsigned, sign, digits)[SignByte(format, len)] == LoneSign(unsigned, sign)
  {
    var s := SignByte(format, len);
    assert Encode(format, len, unsigned, sign, digits)[s] == StringByte(format, len, unsigned, sign, digits, s);
  }

  // A digit byte of an encoded string.
  lemma EncodedDigit(format: nat, len: nat, unsigned: bool, sign: int, digits: seq<int>, i: int)
    requires Digits(digits) && First(format) <= i <= Last(format, len) && |digits| <= Room(format, len)
    requires (sign == 1 || sign == -1) && (unsigned ==> sign == 1)
    ensures var b := Encode(format, len, unsigned, sign, digits)[i];
            var carriesSign := Embedded(format) && i == SignByte(format, len);
            && LegalDigit(b, carriesSign) && DigitOf(b) == Slot(digits, |digits|, Last(format, len) - i)
            && (carriesSign ==> EmbeddedSign(b) == sign)
  {
    assert Encode(format, len, unsigned, sign, digits)[i] == StringByte(format, len, unsigned, sign, digits, i);
    DigitByteReads(Embedded(format) && !unsigned && i == SignByte(format, len), sign,
                   Slot(digits, |digits|, Last(format, len) - i));
  }

  lemma DigitByteReads(carriesSign: bool, sign: int, digit: int)
    requires 0 <= digit <= 9 && (sign == 1 || sign == -1)
    ensures var b := DigitByte(carriesSign, sign, digit);
            && LegalDigit(b, carriesSign) && DigitOf(b) == digit
            && EmbeddedSign(b) == if carriesSign then sign else 1
  {
  }

  // The digits an encoded string decodes to.
  lemma DecodedSlots(format: nat, len: nat, unsigned: bool, sign: int, digits: seq<int>)
    requires Digits(digits) && |digits| <= Room(format, len)
    requires (sign == 1 || sign == -1) && (unsigned ==> sign == 1)
    requires LegalString(format, Encode(format, len, unsigned, sign, digits))
    ensures Decode(format, Encode(format, len, unsigned, sign, digits)).digits
         == Zeros(Room(format, len) - |digits|) + digits
  {
    var bs := Encode(format, len, unsigned, sign, digits);
    var d, e := Decode(format, bs).digits, Zeros(Room(format, len) - |digits|) + digits;
    forall k | 0 <= k < |d|
      ensures d[k] == e[k]
    {
      EncodedDigit(format, len, unsigned, sign, digits, First(format) + k);
    }
    assert d == e;
  }

  // UPACK then PACK: the packed target gets the source's magnitude and its plus or minus
  // class, negative zero included, when both targets have room and the string is not the one
  // that is refused.
  lemma UnpackThenPack(format: nat, len: nat, unsigned: bool, sign: int, digits: seq<int>, target: nat)
    requires format <= SEPARATE_LEADING && len > 0 && !(unsigned && Separate(format))
    requires Digits(digits) && |digits| <= Room(format, len) && |digits| <= Capacity(target)
    requires (sign == 1 || sign == -1) && (unsigned ==> sign == 1)
    ensures var d := Decode(format, Encode(format, len, unsigned, sign, digits));
            && d.Number? && d.sign == sign
            && Value(d.digits) == Value(digits) < Pow10(Capacity(target))
            && Value(Fit(d.digits, Capacity(target), Extent(target))) == Value(digits)
  {
    DecodeOfEncode(format, len, unsigned, sign, digits);
    var padded := Zeros(Room(format, len) - |digits|) + digits;
    LeadingZeros(Room(format, len) - |digits|, digits);
    ValueBounds(digits);
    Pow10Monotone(|digits|, Capacity(target));
    FitValue(padded, Capacity(target), Extent(target));
    QuotientZero(Value(digits), Pow10(Capacity(target)));
  }

  // Significant digit k stands k nibbles past the pad.
  method ReadDigit(src: Operand, k: nat) returns (v: nibble)
    requires src.Valid() && k < Capacity(src.fieldLength)
    ensures v == src.SignificantDigits()[k]
  {
    var pad := Extent(src.fieldLength) - src.fieldLength;
    assert pad == src.Width() - Capacity(src.fieldLength);
    assert src.SignificantDigits()[k] == src.MagnitudeDigits()[pad + k];
    v := src.GetNibble(pad + k);
  }

  // The source's significant digits, or a refusal at the first nibble above 9.
  method ReadDigits(src: Operand) returns (legal: bool, digits: array<int>, n: nat)
    requires src.Valid()
    ensures fresh(digits) && n <= digits.Length
    ensures legal <==> Digits(src.SignificantDigits())
    ensures legal ==> digits[..n] == src.SignificantDigits()
  {
    digits := new int[MAX_NIBBLES];
    n := 0;
    ghost var ds := src.SignificantDigits();
    while n < Capacity(src.fieldLength) && n < digits.Length
      invariant n <= |ds|
      invariant src.SignificantDigits() == ds
      invariant forall j :: 0 <= j < n ==> digits[j] == ds[j] <= 9
    {
      var v := ReadDigit(src, n);
      if v > 9 {
        assert !Digits(ds);
        return false, digits, n;
      }
      digits[n] := v;
      n := n + 1;
    }
    assert digits[..n] == ds;
    legal := true;
  }

  // Write the digits right adjusted into the digit bytes of dst.
  method WriteDigits(dst: Operand, digits: array<int>, n: nat, unsigned: bool, sign: int)
    requires dst.Valid() && n <= digits.Length && digits as object != dst.words
    requires dst.fieldLength + dst.ByteSkew() <= 20
    requires Digits(digits[..n])
    modifies dst.words
    ensures var f, bs := dst.asciiFormat, Encode(dst.asciiFormat, dst.fieldLength, unsigned, sign, digits[..n]);
            forall j :: 0 <= j < 20 ==>
              dst.ByteBuffer()[j]
              == if First(f) <= j - dst.ByteSkew() <= Last(f, dst.fieldLength) then bs[j - dst.ByteSkew()]
                 else old(dst.ByteBuffer())[j]
  {
    var f, len, skew := dst.asciiFormat, dst.fieldLength, dst.ByteSkew();
    ghost var ds, b0 := digits[..n], dst.ByteBuffer();
    ghost var bs := Encode(f, len, unsigned, sign, ds);
    var first, last, signByte := First(f), Last(f, len), SignByte(f, len);
    var di := n - 1;
    var pos := last;
    while pos >= first
      invariant first - 1 <= pos <= last || pos == last
      invariant di == Remaining(n, last - pos)
      invariant forall j :: 0 <= j < 20 ==>
                  dst.ByteBuffer()[j] == if pos < j - skew <= last then bs[j - skew] else b0[j]
    {
      var digit := 0;
      if di >= 0 {
        digit := digits[di];
        assert digit == ds[di];
        di := di - 1;
      }
      assert digit == Slot(ds, n, last - pos);
      var b := DigitByte(Embedded(f) && !unsigned && pos == signByte, sign, digit);
      assert bs[pos] == StringByte(f, len, unsigned, sign, ds, pos) == b;
      dst.SetByte(pos, b);
      pos := pos - 1;
    }
  }

  // The buffer after a string is written. An empty field has no digit byte, and a sign byte in
  // the separate-leading format only, which no store carries to memory.
  ghost function Written(dst: Operand, buffer: seq<byte>, unsigned: bool, sign: int, digits: seq<int>): (r: seq<byte>)
    requires dst.Valid() && |buffer| == 20 && dst.fieldLength + dst.ByteSkew() <= 20 && Digits(digits)
    ensures |r| == 20
  {
    if dst.fieldLength > 0
    then Splice(buffer, dst.ByteSkew(), Encode(dst.asciiFormat, dst.fieldLength, unsigned, sign, digits))
    else if dst.asciiFormat == SEPARATE_LEADING then buffer[dst.ByteSkew() := LoneSign(unsigned, sign)]
    else buffer
  }

  // Write the whole string, sign byte included.
  method WriteString(dst: Operand, digits: array<int>, n: nat, unsigned: bool, sign: int)
    requires dst.Valid() && n <= digits.Length && digits as object != dst.words
    requires dst.fieldLength + dst.ByteSkew() <= 20
    requires Digits(digits[..n])
    modifies dst.words
    ensures dst.ByteBuffer() == Written(dst, old(dst.ByteBuffer()), unsigned, sign, digits[..n])
  {
    var f, s := dst.asciiFormat, SignByte(dst.asciiFormat, dst.fieldLength);
    ghost var b0 := dst.ByteBuffer();
    WriteDigits(dst, digits, n, unsigned, sign);
    if s >= 0 && Separate(f) {
      dst.SetByte(s, LoneSign(unsigned, sign));
    }
    StringWritten(dst, b0, dst.ByteBuffer(), unsigned, sign, digits[..n]);
  }

  // Digit bytes, a sign that stands alone, and everything else as before make the string.
  lemma StringWritten(dst: Operand, b0: seq<byte>, b1: seq<byte>, unsigned: bool, sign: int, digits: seq<int>)
    requires dst.Valid() && |b0| == |b1| == 20 && dst.fieldLength + dst.ByteSkew() <= 20 && Digits(digits)
    requires var f, len, skew := dst.asciiFormat, dst.fieldLength, dst.ByteSkew();
             var bs := Encode(f, len, unsigned, sign, digits);
             forall j :: 0 <= j < 20 ==>
               b1[j] == if First(f) <= j - skew <= Last(f, len) then bs[j - skew]
                        else if Separate(f) && 0 <= SignByte(f, len) == j - skew then LoneSign(unsigned, sign)
                        else b0[j]
    ensures b1 == Written(dst, b0, unsigned, sign, digits)
  {
    var f, len, skew := dst.asciiFormat, dst.fieldLength, dst.ByteSkew();
    var bs, r := Encode(f, len, unsigned, sign, digits), Written(dst, b0, unsigned, sign, digits);
    forall j | 0 <= j < 20
      ensures b1[j] == r[j]
    {
      if len > 0 && skew <= j < skew + len {
        assert bs[j - skew] == StringByte(f, len, unsigned, sign, digits, j - skew);
      }
    }
  }

  // The sign and the significant digits of a packed source, or a refusal.
  method ReadSource(src: Operand) returns (legal: bool, digits: array<int>, n: nat, sign: int, isUnsigned: bool)
    requires src.Valid()
    ensures fresh(digits) && n <= digits.Length
    ensures legal <==> src.fieldLength == 0 || (src.SignNibble() > 9 && Digits(src.SignificantDigits()))
    ensures legal ==> digits[..n] == src.SignificantDigits() && Digits(src.SignificantDigits())
    ensures legal ==> sign == src.FieldSign() && isUnsigned == src.IsUnsigned()
  {
    sign, isUnsigned := src.DecodeSign();
    if src.fieldLength > 0 {
      var code := src.GetNibble(Extent(src.fieldLength) - 1);
      if code <= 9 {
        return false, new int[0], 0, sign, isUnsigned;
      }
    }
    legal, digits, n := ReadDigits(src);
  }

  // Every packed field that an instruction stores has a sign code and digits that UPACK accepts.
  lemma StoredIsLegal(op: Operand, before: seq<nibble>, magnitude: int, unsigned: bool, sign: int)
    requires op.Valid() && |before| == 40 && op.fieldLength > 0
    requires op.Stores(before, magnitude, SignCode(unsigned, sign))
    ensures op.SignNibble() > 9 && Digits(op.SignificantDigits())
  {
  }

  // The conversion of UPACK: an illegal sign or digit changes nothing; otherwise the string is
  // written, and digits beyond its room are reported. The instruction turns back before it for an
  // empty destination, whose room is 0 or, in a separate-sign format, -1.
  method Unpack(dst: Operand, src: Operand) returns (outcome: Outcome)
    requires dst.Valid() && src.Valid() && dst.words != src.words
    requires dst.fieldLength + dst.ByteSkew() <= 20
    modifies dst.words
    ensures outcome == IllegalCode <==>
            src.fieldLength > 0 && (src.SignNibble() <= 9
                                    || exists k :: 0 <= k < src.fieldLength - 1 && src.SignificantDigits()[k] > 9)
    ensures outcome == IllegalCode ==> dst.ByteBuffer() == old(dst.ByteBuffer())
    ensures outcome != IllegalCode ==>
              && Digits(src.SignificantDigits())
              && (outcome == Overflow <==> Capacity(src.fieldLength) > Room(dst.asciiFormat, dst.fieldLength))
              && dst.ByteBuffer() == Written(dst, old(dst.ByteBuffer()), dst.unsigned || src.IsUnsigned(),
                                             src.FieldSign(), src.SignificantDigits())
    ensures outcome != IllegalCode && dst.fieldLength == 0 ==>
              (outcome == Overflow <==> Separate(dst.asciiFormat) || Capacity(src.fieldLength) > 0)
  {
    var legal, digits, n, sign, isUnsigned := ReadSource(src);
    if !legal {
      return IllegalCode;
    }
    WriteString(dst, digits, n, dst.unsigned || isUnsigned, sign);
    return if n > Room(dst.asciiFormat, dst.fieldLength) then Overflow else Converted;
  }

  lemma FieldByte(src: Operand, i: nat)
    requires src.Valid() && src.fieldLength + src.ByteSkew() <= 20 && i < src.fieldLength
    ensures src.FieldBytes()[i] == src.ByteBuffer()[i + src.ByteSkew()]
  {
  }

  // Read the digit bytes of an ASCII operand and the sign embedded in them, refusing the
  // first byte that is no digit.
  method ReadString(src: Operand) returns (legal: bool, digits: array<int>, n: nat, sign: int)
    requires src.Valid() && src.fieldLength + src.ByteSkew() <= 20
    ensures fresh(digits) && n <= digits.Length
    ensures var f, bs := src.asciiFormat, src.FieldBytes();
            && (legal <==> forall i :: First(f) <= i <= Last(f, |bs|) ==>
                             LegalDigit(bs[i], Embedded(f) && i == SignByte(f, |bs|)))
            && (legal ==> n == (if Room(f, |bs|) < 0 then 0 else Room(f, |bs|))
                          && (forall k :: 0 <= k < n ==> digits[k] == DigitOf(bs[First(f) + k]))
                          && sign == if Embedded(f) && |bs| > 0 then EmbeddedSign(bs[SignByte(f, |bs|)]) else 1)
  {
    var f, first, last := src.asciiFormat, First(src.asciiFormat), Last(src.asciiFormat, src.fieldLength);
    var signByte := SignByte(f, src.fieldLength);
    ghost var bs := src.FieldBytes();
    digits := new int[MAX_NIBBLES];
    n, sign := 0, 1;
    var i := first;
    while i <= last && n < digits.Length
      invariant first <= i && n == i - first && (i <= last + 1 || n == 0)
      invariant src.FieldBytes() == bs
      invariant forall j :: first <= j < i ==> LegalDigit(bs[j], Embedded(f) && j == signByte)
      invariant forall k :: 0 <= k < n ==> digits[k] == DigitOf(bs[first + k])
      invariant sign == if Embedded(f) && first <= signByte < i then EmbeddedSign(bs[signByte]) else 1
    {
      FieldByte(src, i);
      var b := src.GetByte(i);
      var carriesSign := Embedded(f) && i == signByte;
      assert b == bs[i];
      if !LegalDigit(b, carriesSign) {
        assert !LegalDigit(bs[i], Embedded(f) && i == signByte);
        return false, digits, n, sign;
      }
      if carriesSign {
        sign := EmbeddedSign(b);
      }
      digits[n] := DigitOf(b);
      n := n + 1;
      i := i + 1;
    }
    legal := true;
  }

  // Read the sign byte of a separate-sign string, which lies outside the digit bytes.
  method ReadSeparateSign(src: Operand) returns (legal: bool, sign: int)
    requires src.Valid() && src.fieldLength + src.ByteSkew() <= 20
    requires Separate(src.asciiFormat) && Readable(src)
    ensures var bs, s := src.FieldBytes(), SignByte(src.asciiFormat, src.fieldLength);
            && (legal <==> 0 <= s < |bs| && bs[s] in {0x2B, 0x2D})
            && (legal ==> sign == StringSign(src.asciiFormat, bs))
  {
    var s := SignByte(src.asciiFormat, src.fieldLength);
    var b := src.GetByte(s);
    assert src.fieldLength > 0 ==> b == src.FieldBytes()[s];
    return b == 0x2B || b == 0x2D, if b == 0x2D then -1 else 1;
  }

  // An empty operand's buffer is zero, and its separate trailing sign, the byte before its
  // first, lies in the buffer when it starts in a right byte.
  ghost predicate Readable(src: Operand)
    requires src.Valid() && src.fieldLength + src.ByteSkew() <= 20
    reads src.words
  {
    src.fieldLength == 0 ==>
      && (src.asciiFormat == SEPARATE_TRAILING ==> src.startsInRightByte)
      && src.ByteBuffer()[0] == 0 && src.ByteBuffer()[src.ByteSkew()] == 0
  }

  // Read the whole string.
  method ReadNumber(src: Operand) returns (legal: bool, digits: array<int>, n: nat, sign: int)
    requires src.Valid() && src.fieldLength + src.ByteSkew() <= 20 && Readable(src)
    ensures fresh(digits) && n <= digits.Length
    ensures var d := Decode(src.asciiFormat, src.FieldBytes());
            && (legal <==> d.Number?)
            && (legal ==> digits[..n] == d.digits && sign == d.sign)
  {
    var separateSign := 1;
    if Separate(src.asciiFormat) {
      legal, separateSign := ReadSeparateSign(src);
      if !legal {
        digits, n, sign := new int[0], 0, 1;
        return;
      }
    }
    legal, digits, n, sign := ReadString(src);
    if Separate(src.asciiFormat) {
      sign := separateSign;
    }
    if legal {
      DecodesTo(src.asciiFormat, src.FieldBytes(), digits[..n], sign);
    }
  }

  // What a legal string decodes to.
  lemma DecodesTo(f: nat, bs: seq<byte>, digits: seq<int>, sign: int)
    requires LegalString(f, bs) && sign == StringSign(f, bs)
    requires |digits| == if Room(f, |bs|) < 0 then 0 else Room(f, |bs|)
    requires forall k :: 0 <= k < |digits| ==> digits[k] == DigitOf(bs[First(f) + k])
    ensures Decode(f, bs) == Number(sign, digits)
  {
    assert Decode(f, bs).digits == digits;
  }

  // PACK: an illegal string changes nothing; otherwise the digits are stored under the sign,
  // and digits beyond the capacity are reported.
  method Pack(dst: Operand, src: Operand) returns (outcome: Outcome)
    requires dst.Valid() && src.Valid() && dst.words != src.words
    requires src.fieldLength + src.ByteSkew() <= 20 && Readable(src)
    modifies dst.words
    ensures var d := old(Decode(src.asciiFormat, src.FieldBytes()));
            && (outcome == IllegalCode <==> d == Illegal)
            && (d == Illegal ==> dst.Buffer() == old(dst.Buffer()))
            && (d.Number? ==> (outcome == Overflow <==> Value(d.digits) >= Pow10(Capacity(dst.fieldLength)))
                              && dst.Stores(old(dst.Buffer()), Value(d.digits), SignCode(dst.unsigned, d.sign)))
  {
    ghost var d := Decode(src.asciiFormat, src.FieldBytes());
    var legal, digits, n, sign := ReadNumber(src);
    if !legal {
      return IllegalCode;
    }
    DecodedDigits(src.asciiFormat, src.FieldBytes());
    var outSign := SignCode(dst.unsigned, sign);
    var overflow := dst.PackMagnitude(digits, n, outSign);
    dst.PackedStores(old(dst.Buffer()), d.digits, outSign);
    return if overflow then Overflow else Converted;
  }

  // The bytes of an ASCII field hold an encoded number.
  ghost predicate HoldsString(ascii: Operand, was: seq<byte>, unsigned: bool, sign: int, digits: seq<int>)
    requires ascii.Valid() && ascii.fieldLength + ascii.ByteSkew() <= 20 && |was| == 20 && Digits(digits)
    reads ascii.words
  {
    ascii.ByteBuffer() == Splice(was, ascii.ByteSkew(),
                                 Encode(ascii.asciiFormat, ascii.fieldLength, unsigned, sign, digits))
  }

  // The two conversions on operands: what PACK stores of a field that UPACK wrote is the source's
  // digits below leading zeros, under the source's sign; an unsigned target counts as plus.
  lemma PackAfterUnpack(ascii: Operand, was: seq<byte>, unsigned: bool, sign: int, digits: seq<int>,
                        target: Operand, before: seq<nibble>)
    requires ascii.Valid() && ascii.asciiFormat <= SEPARATE_LEADING && |was| == 20
    requires 0 < ascii.fieldLength && ascii.fieldLength + ascii.ByteSkew() <= 20
    requires Digits(digits) && |digits| <= Room(ascii.asciiFormat, ascii.fieldLength)
    requires (sign == 1 || sign == -1) && (unsigned ==> sign == 1) && !(unsigned && Separate(ascii.asciiFormat))
    requires HoldsString(ascii, was, unsigned, sign, digits)
    requires target.Valid() && |before| == 40 && target.fieldLength > 0 && |digits| <= Capacity(target.fieldLength)
    ensures Decode(ascii.asciiFormat, ascii.FieldBytes()).Number?
    ensures (var d := Decode(ascii.asciiFormat, ascii.FieldBytes());
             target.Stores(before, Value(d.digits), SignCode(target.unsigned, d.sign)) ==>
               && target.FieldSign() == (if target.unsigned then 1 else sign)
               && target.MagnitudeDigits() == Zeros(target.Width() - |digits|) + digits)
  {
    var bs := Encode(ascii.asciiFormat, ascii.fieldLength, unsigned, sign, digits);
    StringHeld(ascii, was, unsigned, sign, digits);
    UnpackThenPack(ascii.asciiFormat, ascii.fieldLength, unsigned, sign, digits, target.fieldLength);
    var d := Decode(ascii.asciiFormat, bs);
    if target.Stores(before, Value(d.digits), SignCode(target.unsigned, d.sign)) {
      DigitsStored(target, before, digits, sign);
    }
  }

  // A field that stores the value of digits that fit holds those digits.
  lemma DigitsStored(target: Operand, before: seq<nibble>, digits: seq<int>, sign: int)
    requires target.Valid() && |before| == 40 && target.fieldLength > 0 && (sign == 1 || sign == -1)
    requires Digits(digits) && |digits| <= Capacity(target.fieldLength)
    requires target.Stores(before, Value(digits), SignCode(target.unsigned, sign))
    ensures target.FieldSign() == if target.unsigned then 1 else sign
    ensures target.MagnitudeDigits() == Zeros(target.Width() - |digits|) + digits
  {
    ValueBounds(digits);
    Pow10Monotone(|digits|, Capacity(target.fieldLength));
    QuotientZero(Value(digits), Pow10(Capacity(target.fieldLength)));
    LeadingZeros(target.Width() - |digits|, digits);
    ValueInjective(target.MagnitudeDigits(), Zeros(target.Width() - |digits|) + digits);
  }

  // UPACK into a string with room and PACK of it: both succeed, and the target holds the source's
  // digits below leading zeros, under the source's sign or, when it is to be unsigned, as plus.
  method ThereAndBack(ascii: Operand, src: Operand, target: Operand) returns (there: Outcome, back: Outcome)
    requires ascii.Valid() && src.Valid() && target.Valid()
    requires ascii.words != src.words && ascii.words != target.words && src.words != target.words
    requires 0 < ascii.fieldLength && ascii.fieldLength + ascii.ByteSkew() <= 20
    requires ascii.asciiFormat <= SEPARATE_LEADING && !(src.IsUnsigned() && Separate(ascii.asciiFormat))
    requires src.fieldLength > 0 ==> src.SignNibble() > 9 && Digits(src.SignificantDigits())
    requires Capacity(src.fieldLength) <= Room(ascii.asciiFormat, ascii.fieldLength)
    requires target.fieldLength > 0 && Capacity(src.fieldLength) <= Capacity(target.fieldLength)
    modifies ascii.words, target.words
    ensures there == Converted && back == Converted
    ensures target.FieldSign() == if target.unsigned then 1 else src.FieldSign()
    ensures target.MagnitudeDigits()
         == Zeros(target.Width() - Capacity(src.fieldLength)) + src.SignificantDigits()
  {
    ghost var was := ascii.ByteBuffer();
    there := UnpackFitting(ascii, src);
    back := PackWritten(target, ascii, was, src.IsUnsigned(), src.FieldSign(), src.SignificantDigits());
  }

  // UPACK of a proper source into a string with room.
  method UnpackFitting(ascii: Operand, src: Operand) returns (there: Outcome)
    requires ascii.Valid() && src.Valid() && ascii.words != src.words && !ascii.unsigned
    requires 0 < ascii.fieldLength && ascii.fieldLength + ascii.ByteSkew() <= 20
    requires src.fieldLength > 0 ==> src.SignNibble() > 9 && Digits(src.SignificantDigits())
    requires Capacity(src.fieldLength) <= Room(ascii.asciiFormat, ascii.fieldLength)
    modifies ascii.words
    ensures there == Converted && Digits(src.SignificantDigits())
    ensures HoldsString(ascii, old(ascii.ByteBuffer()), src.IsUnsigned(), src.FieldSign(), src.SignificantDigits())
  {
    there := Unpack(ascii, src);
  }

  // PACK of a string that holds an encoded number.
  method PackWritten(target: Operand, ascii: Operand, ghost was: seq<byte>, ghost unsigned: bool,
                     ghost sign: int, ghost digits: seq<int>) returns (back: Outcome)
    requires ascii.Valid() && target.Valid() && ascii.words != target.words && |was| == 20
    requires 0 < ascii.fieldLength && ascii.fieldLength + ascii.ByteSkew() <= 20
    requires ascii.asciiFormat <= SEPARATE_LEADING && !(unsigned && Separate(ascii.asciiFormat))
    requires Digits(digits) && |digits| <= Room(ascii.asciiFormat, ascii.fieldLength)
    requires (sign == 1 || sign == -1) && (unsigned ==> sign == 1)
    requires HoldsString(ascii, was, unsigned, sign, digits)
    requires target.fieldLength > 0 && |digits| <= Capacity(target.fieldLength)
    modifies target.words
    ensures back == Converted
    ensures target.FieldSign() == if target.unsigned then 1 else sign
    ensures target.MagnitudeDigits() == Zeros(target.Width() - |digits|) + digits
  {
    ghost var before := target.Buffer();
    StringHeld(ascii, was, unsigned, sign, digits);
    UnpackThenPack(ascii.asciiFormat, ascii.fieldLength, unsigned, sign, digits, target.fieldLength);
    back := Pack(target, ascii);
    PackAfterUnpack(ascii, was, unsigned, sign, digits, target, before);
  }

  lemma StringHeld(ascii: Operand, was: seq<byte>, unsigned: bool, sign: int, digits: seq<int>)
    requires ascii.Valid() && ascii.fieldLength + ascii.ByteSkew() <= 20 && |was| == 20 && Digits(digits)
    requires HoldsString(ascii, was, unsigned, sign, digits)
    ensures ascii.FieldBytes() == Encode(ascii.asciiFormat, ascii.fieldLength, unsigned, sign, digits)
  {
  }
}
