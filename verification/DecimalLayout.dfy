/**
 Decimal operands as plain numbers in memory: the fields of a descriptor, the digits of a packed
 field in the words it spans, the characters of a string, and the codes an instruction reports.
 */
module DecimalLayout {
  import opened Words
  import opened Decimal
  import opened DecimalField
  import opened DecimalInstructions
  import opened ConvertInstructions
  import Convert = DecimalConvert

  // ---- Descriptors ----

  // Bit 15 starts the field in a right byte, bits 13-11 are the format, whose top bit asks for an
  // unsigned result, bit 10 asks for rounding, bits 9-5 are the decimal point and bits 4-0 the length.
  lemma DescriptorFields(right: nat, bit14: nat, format: nat, rounding: nat, point: nat, length: nat)
    requires right < 2 && bit14 < 2 && format < 8 && rounding < 2 && point < 32 && length < 32
    ensures var d2: word := 0x8000 * right + 0x4000 * bit14 + 0x800 * format + 0x400 * rounding + 0x20 * point + length;
            && LengthOf(d2) == length && PointOf(d2) == point && FormatOf(d2) == format
            && LeadOf(d2) == 2 * right && ByteLead(d2) == right
            && (WantsRounding(d2) <==> rounding == 1) && (WantsUnsigned(d2) <==> format >= 4)
            && (Legal(d2) <==> point == 0 || point < length)
  {
    var d2: word := 0x8000 * right + 0x4000 * bit14 + 0x800 * format + 0x400 * rounding + 0x20 * point + length;
    assert d2 / 0x20 == 0x400 * right + 0x200 * bit14 + 0x40 * format + 0x20 * rounding + point;
    assert d2 / 0x400 == 0x20 * right + 0x10 * bit14 + 2 * format + rounding;
    assert d2 / 0x800 == 0x10 * right + 8 * bit14 + format;
    assert d2 / 0x8000 == right;
  }

  // ---- Packed fields ----

  // The digit of weight 16^(3 - k) in a word.
  function HexDigit(w: word, k: nat): nibble
    requires k < 4
  {
    if k == 0 then w / 0x1000 else if k == 1 then w / 0x100 % 0x10 else if k == 2 then w / 0x10 % 0x10 else w % 0x10
  }

  lemma NibbleIsHexDigit(w: word, k: nat)
    requires k < 4
    ensures NibbleOf(w, k) == HexDigit(w, k)
  {
    NibbleWeights(w);
    HexDigits(w, NibbleOf(w, 0), NibbleOf(w, 1), NibbleOf(w, 2), NibbleOf(w, 3));
  }

  lemma HexDigits(w: word, n0: nibble, n1: nibble, n2: nibble, n3: nibble)
    requires w == 0x1000 * n0 + 0x100 * n1 + 0x10 * n2 + n3
    ensures w / 0x1000 == n0 && w / 0x100 % 0x10 == n1 && w / 0x10 % 0x10 == n2 && w % 0x10 == n3
  {
    assert w / 0x10 == 0x100 * n0 + 0x10 * n1 + n2;
    assert w / 0x100 == 0x10 * n0 + n1;
  }

  lemma FromHexDigits(w: word)
    ensures w == 0x1000 * (w / 0x1000) + 0x100 * (w / 0x100 % 0x10) + 0x10 * (w / 0x10 % 0x10) + w % 0x10
  {
    NibbleWeights(w);
    HexDigits(w, NibbleOf(w, 0), NibbleOf(w, 1), NibbleOf(w, 2), NibbleOf(w, 3));
  }

  // A loaded nibble, from the start of the field's first word, two further for a right byte.
  lemma NibbleInMemory(mem: memory, d1: word, d2: word, i: nat, k: nat)
    requires i < SpannedWords(LengthOf(d2)) && k < 4
    ensures SpannedWords(LengthOf(d2)) <= MAX_WORDS
    ensures Nibbles(View(mem, d1, d2))[4 * i + k] == HexDigit(mem[(d1 + i) % 0x10000], k)
  {
    SpannedFits(d2);
    NibbleAt(View(mem, d1, d2), i, k);
    NibbleIsHexDigit(mem[(d1 + i) % 0x10000], k);
  }

  // The digits of a field from a left byte are the nibbles of its words in order, the last of them,
  // which is the right half of a byte, its sign code.
  lemma DigitsInMemory(mem: memory, d1: word, d2: word, i: nat, k: nat)
    requires LeadOf(d2) == 0 && 4 * i + k < (LengthOf(d2) + 1) / 2 * 2 && k < 4
    ensures if 4 * i + k == (LengthOf(d2) + 1) / 2 * 2 - 1
            then CodeIn(View(mem, d1, d2), d2) == HexDigit(mem[(d1 + i) % 0x10000], k)
            else DigitsIn(View(mem, d1, d2), d2)[4 * i + k] == HexDigit(mem[(d1 + i) % 0x10000], k)
  {
    NibbleInMemory(mem, d1, d2, i, k);
  }

  // ---- Fields of one word ----

  // A word as a three-digit number with its sign code last: C and D are written, and read back
  // together with A, B, E and F.
  function WordMagnitude(w: word): int {
    w / 0x1000 * 100 + w / 0x100 % 0x10 * 10 + w / 0x10 % 0x10
  }

  predicate OneWord(d2: word) {
    LengthOf(d2) == 4 && LeadOf(d2) == 0
  }

  lemma ThreeDigits(x: int, y: int, z: int)
    ensures Value([x, y, z]) == 100 * x + 10 * y + z
  {
    assert [x, y, z] == [] + [x] + [y] + [z];
    HornerSnoc(0, [] + [x] + [y], z);
    HornerSnoc(0, [] + [x], y);
    HornerSnoc(0, [], x);
  }

  lemma OneWordReads(mem: memory, d1: word, d2: word)
    requires OneWord(d2)
    ensures var w := mem[d1];
            && DigitsIn(View(mem, d1, d2), d2) == [w / 0x1000, w / 0x100 % 0x10, w / 0x10 % 0x10]
            && CodeIn(View(mem, d1, d2), d2) == w % 0x10
            && Number(mem, d1, d2) == if w % 0x10 == 11 || w % 0x10 == 13 then -WordMagnitude(w) else WordMagnitude(w)
  {
    var w := mem[d1];
    OneWordDigits(mem, d1, d2);
    ThreeDigits(w / 0x1000, w / 0x100 % 0x10, w / 0x10 % 0x10);
  }

  lemma OneWordDigits(mem: memory, d1: word, d2: word)
    requires OneWord(d2)
    ensures var w := mem[d1];
            && DigitsIn(View(mem, d1, d2), d2) == [w / 0x1000, w / 0x100 % 0x10, w / 0x10 % 0x10]
            && CodeIn(View(mem, d1, d2), d2) == w % 0x10
  {
    DigitsInMemory(mem, d1, d2, 0, 0);
    DigitsInMemory(mem, d1, d2, 0, 1);
    DigitsInMemory(mem, d1, d2, 0, 2);
    DigitsInMemory(mem, d1, d2, 0, 3);
  }

  // A result stored in such a field: three decimal digits and C for plus, D for minus, F for unsigned.
  lemma OneWordStored(mem0: memory, mem1: memory, d1: word, d2: word, m: nat, unsigned: bool, sign: int)
    requires OneWord(d2) && Result(mem0, mem1, d1, d2, m, SignCode(unsigned, sign))
    ensures mem1[d1] == 0x1000 * (m / 100 % 10) + 0x100 * (m / 10 % 10) + 0x10 * (m % 10)
                        + (if unsigned then 15 else if sign < 0 then 13 else 12)
  {
    var w := mem1[d1];
    OneWordHolds(mem0, mem1, d1, d2, m, SignCode(unsigned, sign));
    DigitsOf(m, w / 0x1000, w / 0x100 % 0x10, w / 0x10 % 0x10);
    FromHexDigits(w);
  }

  lemma OneWordHolds(mem0: memory, mem1: memory, d1: word, d2: word, m: nat, code: nibble)
    requires OneWord(d2) && Result(mem0, mem1, d1, d2, m, code)
    ensures var w := mem1[d1];
            && w / 0x1000 <= 9 && w / 0x100 % 0x10 <= 9 && w / 0x10 % 0x10 <= 9
            && WordMagnitude(w) == m % 1000 && w % 0x10 == code
  {
    var w := mem1[d1];
    var ds := DigitsIn(View(mem1, d1, d2), d2);
    OneWordDigits(mem1, d1, d2);
    ThreeDigits(w / 0x1000, w / 0x100 % 0x10, w / 0x10 % 0x10);
    assert Pow10(3) == 1000;
    assert ds[0] <= 9 && ds[1] <= 9 && ds[2] <= 9;
  }

  lemma DigitsOf(m: nat, x: nat, y: nat, z: nat)
    requires x <= 9 && y <= 9 && z <= 9 && 100 * x + 10 * y + z == m % 1000
    ensures x == m / 100 % 10 && y == m / 10 % 10 && z == m % 10
  {
    var q := m / 1000;
    assert m == 1000 * q + 100 * x + 10 * y + z;
    assert m / 10 == 100 * q + 10 * x + y && m / 100 == 10 * q + x;
  }

  // ADDD and SUBD of fields of one word, with the exact result r: success when r has three digits,
  // and a zero keeps the sign code's class of the first field.
  lemma OneWordSum(mem0: memory, mem1: memory, a: word, d: word, ok: bool, r: int)
    requires OneWord(d) && !WantsUnsigned(d) && SumStored(mem0, mem1, a, d, ok, r)
    ensures ok <==> -999 <= r <= 999
    ensures var m, code := Abs(r), mem0[a] % 0x10;
            var minus := r < 0 || (r == 0 && (code == 11 || code == 13));
            mem1[a] == 0x1000 * (m / 100 % 10) + 0x100 * (m / 10 % 10) + 0x10 * (m % 10) + (if minus then 13 else 12)
  {
    assert Pow10(3) == 1000;
    OneWordReads(mem0, a, d);
    OneWordStored(mem0, mem1, a, d, Abs(r), false, if r == 0 then SignIn(View(mem0, a, d), d) else Sign(r));
  }

  // ---- Strings ----

  // Byte h of a word, the left one first.
  function HalfWord(w: word, h: nat): byte
    requires h < 2
  {
    if h == 0 then w / 0x100 else w % 0x100
  }

  lemma ByteIsHalfWord(w: word, h: nat)
    requires h < 2
    ensures ByteOf(w, h) == HalfWord(w, h)
  {
    NibbleWeights(w);
  }

  // The characters of a covered string are the bytes of its words in order, from the right byte of the
  // first word if the descriptor says so.
  lemma StringInMemory(mem: memory, d1: word, d2: word, i: nat, h: nat)
    requires Fits(d2) && h < 2 && (ByteLead(d2) == 0 || LengthOf(d2) % 2 == 1)
    requires ByteLead(d2) <= 2 * i + h < ByteLead(d2) + LengthOf(d2)
    ensures StringIn(mem, d1, d2)[2 * i + h - ByteLead(d2)] == HalfWord(mem[(d1 + i) % 0x10000], h)
  {
    StringCoveredIff(d2);
    ByteAt(AsciiView(mem, d1, d2), i, h);
    ByteIsHalfWord(mem[(d1 + i) % 0x10000], h);
  }

  function Ascii(ds: seq<int>): (cs: seq<int>)
    ensures |cs| == |ds|
  {
    seq(|ds|, i requires 0 <= i < |ds| => '0' as int + ds[i])
  }

  // Digits below leading zeros, as characters.
  function Padded(digits: seq<int>, room: nat): (cs: seq<int>)
    requires |digits| <= room
    ensures |cs| == room
  {
    Ascii(Zeros(room - |digits|) + digits)
  }

  lemma PaddedAt(digits: seq<int>, room: nat, j: nat)
    requires Digits(digits) && |digits| <= room && j < room
    ensures Padded(digits, room)[j] == 48 + Slot(digits, |digits|, room - 1 - j)
    ensures 48 <= Padded(digits, room)[j] <= 57
  {
    var z := Zeros(room - |digits|) + digits;
    assert z[j] == Slot(digits, |digits|, room - 1 - j);
  }

  // The strings written have the digits below leading zeros, with the sign as the format has it.
  // Format 1 puts '+' or '-' last and format 3 first; '0' stands there when the result is unsigned.
  lemma SeparateString(format: nat, len: nat, unsigned: bool, sign: int, digits: seq<int>)
    requires Digits(digits) && len > 0 && |digits| <= len - 1 && (format == 1 || format == 3)
    ensures var lone := if unsigned then '0' else if sign < 0 then '-' else '+';
            Convert.Encode(format, len, unsigned, sign, digits)
            == if format == 1 then Padded(digits, len - 1) + [lone as int] else [lone as int] + Padded(digits, len - 1)
  {
    var bs, plain := Convert.Encode(format, len, unsigned, sign, digits), Padded(digits, len - 1);
    var lone := if unsigned then '0' else if sign < 0 then '-' else '+';
    var r := if format == 1 then plain + [lone as int] else [lone as int] + plain;
    forall i | 0 <= i < len
      ensures bs[i] == r[i]
    {
      assert bs[i] == Convert.StringByte(format, len, unsigned, sign, digits, i);
      var j := if format == 1 then i else i - 1;
      if 0 <= j < len - 1 {
        PaddedAt(digits, len - 1, j);
      }
    }
  }

  // Formats from 4 on have no sign, nor do 0 and 2 when the result is unsigned.
  lemma PlainString(format: nat, len: nat, unsigned: bool, sign: int, digits: seq<int>)
    requires Digits(digits) && |digits| <= len && (format >= 4 || (unsigned && (format == 0 || format == 2)))
    ensures Convert.Encode(format, len, unsigned, sign, digits) == Padded(digits, len)
  {
    var bs, plain := Convert.Encode(format, len, unsigned, sign, digits), Padded(digits, len);
    forall i | 0 <= i < len
      ensures bs[i] == plain[i]
    {
      assert bs[i] == Convert.StringByte(format, len, unsigned, sign, digits, i);
      PaddedAt(digits, len, i);
    }
  }

  // Otherwise format 0 punches the sign over the last digit, and format 2 over the first.
  lemma PunchedString(format: nat, len: nat, sign: int, digits: seq<int>)
    requires Digits(digits) && len > 0 && |digits| <= len && (format == 0 || format == 2)
    ensures var plain, k := Padded(digits, len), if format == 0 then len - 1 else 0;
            && 48 <= plain[k] <= 57
            && Convert.Encode(format, len, false, sign, digits)
               == plain[k := (if sign < 0 then "}JKLMNOPQR" else "{ABCDEFGHI")[plain[k] - 48] as int]
  {
    var plain, k := Padded(digits, len), if format == 0 then len - 1 else 0;
    var bs := Convert.Encode(format, len, false, sign, digits);
    PaddedAt(digits, len, k);
    PunchedDigit(sign, plain[k] - 48);
    forall i | 0 <= i < len
      ensures bs[i] == if i == k then Convert.Overpunch(sign, plain[k] - 48) else plain[i]
    {
      assert bs[i] == Convert.StringByte(format, len, false, sign, digits, i);
      PaddedAt(digits, len, i);
    }
  }

  lemma PunchedDigit(sign: int, digit: int)
    requires 0 <= digit <= 9
    ensures Convert.Overpunch(sign, digit) == (if sign < 0 then "}JKLMNOPQR" else "{ABCDEFGHI")[digit] as int
  {
  }

  predicate IsDigit(b: byte) {
    '0' as int <= b <= '9' as int
  }

  // A string is read as a number exactly when its separate sign is '+' or '-' and every other
  // character a digit.
  lemma DecodesSeparate(format: nat, bs: seq<byte>)
    requires |bs| > 0 && (format == 1 || format == 3)
    ensures var k, number := if format == 1 then |bs| - 1 else 0, Convert.Decode(format, bs);
            && (number.Number? <==>
                  && (bs[k] == '+' as int || bs[k] == '-' as int)
                  && (forall i :: 0 <= i < |bs| && i != k ==> IsDigit(bs[i])))
            && (number.Number? ==> number.sign == if bs[k] == '-' as int then -1 else 1)
  {
  }

  // Without a separate sign, exactly when its characters are digits, but for the one of formats 0 and
  // 2 that may be punched and then has the sign.
  lemma DecodesOther(format: nat, bs: seq<byte>)
    requires |bs| > 0 && format != 1 && format != 3
    ensures var k := if format == 0 then |bs| - 1 else if format == 2 then 0 else -1;
            var number := Convert.Decode(format, bs);
            && (number.Number? <==>
                  forall i :: 0 <= i < |bs| ==> IsDigit(bs[i]) || (i == k && Convert.LegalDigit(bs[k], true)))
            && (number.Number? ==> number.sign == if k < 0 then 1 else Convert.EmbeddedSign(bs[k]))
  {
  }

  // The characters read: the ten digits, and where the sign is punched the twenty punched ones too.
  lemma ReadCharacters(b: byte, k: nat)
    requires k < 10
    ensures Convert.LegalDigit(b, false) <==> '0' as int <= b <= '9' as int
    ensures Convert.LegalDigit(b, true) <==>
            '0' as int <= b <= '9' as int || 'A' as int <= b <= 'R' as int || b == '{' as int || b == '}' as int
    ensures Convert.DigitOf('0' as int + k) == k && Convert.EmbeddedSign('0' as int + k) == 1
    ensures Convert.DigitOf("{ABCDEFGHI"[k] as int) == k && Convert.EmbeddedSign("{ABCDEFGHI"[k] as int) == 1
    ensures Convert.DigitOf("}JKLMNOPQR"[k] as int) == k && Convert.EmbeddedSign("}JKLMNOPQR"[k] as int) == -1
  {
  }

  // ---- Reports ----

  // What PACK reports: code 2 for a string that is no number, code 3 for one that does not fit.
  lemma PackReports(mem0: memory, mem1: memory, a: word, d: word, x: word, t: word, r: Report)
    requires Fits(d) && PackDone(mem0, mem1, a, d, x, t, r)
    ensures var number := Source(mem0, a, d);
            if number.Illegal?
            then ReportedD(d, r) % 0x20 == 2 && ReportedD(d, r) >= 0x8000 && ReportedA(a, r) >= 0x8000
            else if Value(number.digits) >= Pow10(Capacity(LengthOf(t)))
            then ReportedD(d, r) == d / 0x20 * 0x20 + 3 && ReportedA(a, r) == a
            else r == Done && ReportedD(d, r) == d && ReportedA(a, r) == a
  {
    ReportedWords(a, d);
  }

  // What UPACK reports: nothing for no destination, code 2 for a source that is no packed number, code
  // 3 for more digits than the destination has characters for digits.
  lemma UnpackReports(mem0: memory, mem1: memory, a: word, d: word, x: word, t: word, r: Report)
    requires UnpackDone(mem0, mem1, a, d, x, t, r)
    ensures var room := if FormatOf(t) == 1 || FormatOf(t) == 3 then LengthOf(t) - 1 else LengthOf(t);
            if LengthOf(t) == 0 then r != Done && ReportedD(d, r) == d && ReportedA(a, r) == a
            else if !Convertible(mem0, a, d)
            then ReportedD(d, r) % 0x20 == 2 && ReportedD(d, r) >= 0x8000 && ReportedA(a, r) >= 0x8000
            else if LengthOf(d) - 1 > room then ReportedD(d, r) == d / 0x20 * 0x20 + 3 && ReportedA(a, r) == a
            else r == Done && ReportedD(d, r) == d && ReportedA(a, r) == a
  {
    ReportedWords(a, d);
  }

  // Code 2 or 3 stands in the low five bits of D; an illegal code also sets bit 15 of A and D; the
  // other bits stay.
  lemma ReportedWords(a: word, d: word)
    ensures ReportedD(d, ILLEGAL) == 0x8000 + d % 0x8000 / 0x20 * 0x20 + 2
    ensures ReportedA(a, ILLEGAL) == 0x8000 + a % 0x8000
    ensures ReportedD(d, OVERFLOW) == d / 0x20 * 0x20 + 3 && ReportedA(a, OVERFLOW) == a
    ensures ReportedD(d, Silent) == ReportedD(d, Done) == d && ReportedA(a, Silent) == ReportedA(a, Done) == a
  {
    LowFive(d);
    LowFive(d % 0x8000);
    HighBit(d);
    HighBit(a);
  }

  lemma LowFive(d: word)
    ensures d == d / 0x20 * 0x20 + d % 0x20
  {
  }

  lemma HighBit(d: word)
    ensures d % 0x8000 == if d < 0x8000 then d else d - 0x8000
    ensures d % 0x8000 % 0x20 == d % 0x20
  {
    if d >= 0x8000 {
      assert d % 0x8000 == d - 0x8000;
      assert (d - 0x8000) % 0x20 == d % 0x20;
    }
  }
}
