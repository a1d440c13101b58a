/**
 PACK and UPACK as instructions: operands loaded from memory, the converted field stored back,
 the error code in D, and the skip that reports success.
 */
module ConvertInstructions {
  import opened Words
  import opened Decimal
  import opened DecimalField
  import opened DecimalInstructions
  import Convert = DecimalConvert

  // ---- ASCII fields in memory ----

  // Words a field of this many bytes spans, the start in a right byte not counted, as far as the
  // buffer goes.
  function AsciiWords(l: nat): nat {
    if (l + 1) / 2 > MAX_WORDS then MAX_WORDS else (l + 1) / 2
  }

  function ByteLead(d2: word): nat { if d2 / 0x8000 == 1 then 1 else 0 }

  function FormatOf(d2: word): nat { d2 / 0x800 % 8 }

  // The buffer holds the whole string.
  predicate Fits(d2: word) {
    LengthOf(d2) + ByteLead(d2) <= 20
  }

  function AsciiView(mem: memory, d1: word, d2: word): (ws: seq<word>)
    ensures |ws| == MAX_WORDS
  {
    seq(MAX_WORDS, i requires 0 <= i < MAX_WORDS => if i < AsciiWords(LengthOf(d2)) then mem[Place(d1, i)] else 0)
  }

  function AsciiStored(mem: memory, d1: word, d2: word, ws: seq<word>): memory
    requires |ws| == MAX_WORDS
  {
    seq(0x10000, w requires 0 <= w < 0x10000 =>
      if OffsetOf(d1, w) < AsciiWords(LengthOf(d2)) then ws[OffsetOf(d1, w)] else mem[w])
  }

  // The string of a field as it is loaded.
  ghost function StringIn(mem: memory, d1: word, d2: word): (bs: seq<byte>)
    requires Fits(d2)
    ensures |bs| == LengthOf(d2)
  {
    Bytes(AsciiView(mem, d1, d2))[ByteLead(d2)..ByteLead(d2) + LengthOf(d2)]
  }

  // The byte of memory a field's byte position names, counted from its first word.
  function BytePosition(d1: word, w: word, h: nat): nat { 2 * OffsetOf(d1, w) + h }

  // Memory after a string is stored in a field: its bytes, as far as the spanned words hold them,
  // and every other byte as it was.
  ghost predicate StringStored(mem0: memory, mem1: memory, d1: word, d2: word, bs: seq<byte>)
    requires |bs| == LengthOf(d2)
  {
    forall w: word, h | 0 <= h < 2 :: ByteOf(mem1[w], h) == StoredByte(mem0, d1, d2, bs, w, h)
  }

  function StoredByte(mem0: memory, d1: word, d2: word, bs: seq<byte>, w: word, h: nat): byte
    requires |bs| == LengthOf(d2) && h < 2
  {
    var q := BytePosition(d1, w, h);
    if q < 2 * AsciiWords(LengthOf(d2)) && ByteLead(d2) <= q < ByteLead(d2) + LengthOf(d2)
    then bs[q - ByteLead(d2)]
    else ByteOf(mem0[w], h)
  }

  // A string in the buffer is, once stored, in memory.
  lemma BufferStored(mem: memory, d1: word, d2: word, vs: seq<word>, bs: seq<byte>)
    requires |vs| == MAX_WORDS && |bs| == LengthOf(d2) && Fits(d2)
    requires Bytes(vs) == Splice(Bytes(AsciiView(mem, d1, d2)), ByteLead(d2), bs)
    ensures StringStored(mem, AsciiStored(mem, d1, d2, vs), d1, d2, bs)
  {
    var mem1 := AsciiStored(mem, d1, d2, vs);
    forall w: word, h | 0 <= h < 2
      ensures ByteOf(mem1[w], h) == StoredByte(mem, d1, d2, bs, w, h)
    {
      var i := OffsetOf(d1, w);
      if i < AsciiWords(LengthOf(d2)) {
        PlaceOffset(d1, w, i);
        ByteAt(vs, i, h);
        ByteAt(AsciiView(mem, d1, d2), i, h);
      }
    }
  }

  // The whole string is in memory exactly when the field does not start in a right byte and fill
  // whole words; else its last byte is not stored.
  lemma StringCoveredIff(d2: word)
    requires Fits(d2)
    ensures ByteLead(d2) + LengthOf(d2) <= 2 * AsciiWords(LengthOf(d2))
       <==> ByteLead(d2) == 0 || LengthOf(d2) % 2 == 1
  {
  }

  ghost predicate LoadedAscii(m: Machine, op: Operand, d1: word, d2: word)
    requires m.Valid()
    reads m.mem, op.words
  {
    op.Valid() && op.Describes(d2) && op.addr == d1 && op.isAscii && op.words != m.mem
    && op.words[..] == AsciiView(m.Memory(), d1, d2)
  }

  lemma AsciiReads(m: Machine, op: Operand, d1: word, d2: word)
    requires m.Valid() && LoadedAscii(m, op, d1, d2)
    ensures op.fieldLength == LengthOf(d2) && op.ByteSkew() == ByteLead(d2)
    ensures op.asciiFormat == FormatOf(d2) && op.unsigned == WantsUnsigned(d2)
    ensures op.ByteBuffer() == Bytes(AsciiView(m.Memory(), d1, d2))
    ensures Fits(d2) ==> op.FieldBytes() == StringIn(m.Memory(), d1, d2)
  {
  }

  method AsciiMemWords(l: nat) returns (n: nat)
    ensures n == AsciiWords(l)
  {
    n := l / 2;
    if n * 2 != l {
      n := n + 1;
    }
    if n > MAX_WORDS {
      n := MAX_WORDS;
    }
  }

  method GetAscii(m: Machine, d1: word, d2: word) returns (ok: bool, op: Operand)
    requires m.Valid()
    ensures fresh(op.words) && (ok <==> Legal(d2)) && (ok ==> LoadedAscii(m, op, d1, d2))
  {
    op := new Operand(d1, d2, true);
    if op.decimalPoint >= op.fieldLength && op.decimalPoint != 0 {
      return false, op;
    }
    var n := AsciiMemWords(op.fieldLength);
    m.LoadWords(op, n);
    return true, op;
  }

  method StoreAscii(m: Machine, op: Operand, ghost d2: word)
    requires m.Valid() && op.Valid() && op.Describes(d2) && op.words != m.mem
    modifies m.mem
    ensures m.Memory() == AsciiStored(old(m.Memory()), op.addr, d2, op.words[..])
  {
    var n := AsciiMemWords(op.fieldLength);
    m.StoreWords(op, n);
  }

  // ---- What an instruction reports ----

  datatype Report = Done | Silent | Code(code: nat, illegal: bool)

  const ILLEGAL := Code(2, true)
  const OVERFLOW := Code(3, false)

  // The code in the low five bits of D, and for an illegal code bit 15 of A and D.
  function ReportedD(d: word, r: Report): word
    requires r.Code? ==> r.code < 32
  {
    if !r.Code? then d
    else WithBit15((d as int) - (d as int) % 32 + r.code, r.illegal)
  }

  function ReportedA(a: word, r: Report): word {
    if r.Code? then WithBit15(a, r.illegal) else a
  }

  function WithBit15(w: word, on: bool): word {
    if on && w < 0x8000 then w + 0x8000 else w
  }

  method ReportError(m: Machine, r: Report)
    requires r.Code? ==> r.code < 32
    modifies m`a, m`d
    ensures m.a == ReportedA(old(m.a), r) && m.d == ReportedD(old(m.d), r)
  {
    if r.Code? {
      m.d := m.d - m.d % 32 + r.code;
      if r.illegal {
        m.a := WithBit15(m.a, true);
        m.d := WithBit15(m.d, true);
      }
    }
  }

  // ---- The string in memory read back ----

  // A covered string that was stored is the string of the field.
  lemma StoredStringReads(mem0: memory, mem1: memory, d1: word, d2: word, bs: seq<byte>)
    requires Fits(d2) && |bs| == LengthOf(d2) && (ByteLead(d2) == 0 || LengthOf(d2) % 2 == 1)
    requires StringStored(mem0, mem1, d1, d2, bs)
    ensures StringIn(mem1, d1, d2) == bs
  {
    StringCoveredIff(d2);
    var r := StringIn(mem1, d1, d2);
    forall k | 0 <= k < LengthOf(d2)
      ensures r[k] == bs[k]
    {
      StoredByteReads(mem0, mem1, d1, d2, bs, (k + ByteLead(d2)) / 2, (k + ByteLead(d2)) % 2);
    }
  }

  lemma StoredByteReads(mem0: memory, mem1: memory, d1: word, d2: word, bs: seq<byte>, i: nat, h: nat)
    requires Fits(d2) && |bs| == LengthOf(d2) && i < AsciiWords(LengthOf(d2)) && h < 2
    requires StringStored(mem0, mem1, d1, d2, bs)
    requires ByteLead(d2) <= 2 * i + h < ByteLead(d2) + LengthOf(d2)
    ensures Bytes(AsciiView(mem1, d1, d2))[2 * i + h] == bs[2 * i + h - ByteLead(d2)]
  {
    var w := Place(d1, i);
    PlaceOffset(d1, w, i);
    ByteAt(AsciiView(mem1, d1, d2), i, h);
    assert ByteOf(mem1[w], h) == StoredByte(mem0, d1, d2, bs, w, h);
  }

  // The last byte of a string that is not covered is loaded as zero, which no format admits:
  // PACK refuses every such string.
  lemma UncoveredRefused(mem: memory, d1: word, d2: word)
    requires Fits(d2) && LengthOf(d2) > 0 && ByteLead(d2) == 1 && LengthOf(d2) % 2 == 0
    ensures Source(mem, d1, d2) == Convert.Illegal
  {
    var bs, n := StringIn(mem, d1, d2), LengthOf(d2);
    ByteAt(AsciiView(mem, d1, d2), n / 2, 0);
    assert bs[n - 1] == 0;
    assert Convert.Last(FormatOf(d2), n) == n - 1 || Convert.SignByte(FormatOf(d2), n) == n - 1;
  }

  // What PACK reads of an ASCII field.
  ghost function Source(mem: memory, d1: word, d2: word): Convert.Decoded
    requires Fits(d2)
  {
    Convert.Decode(FormatOf(d2), StringIn(mem, d1, d2))
  }

  // ---- UPACK ----

  // The packed source has a sign code and decimal digits; an empty one is zero.
  ghost predicate Convertible(mem: memory, d1: word, d2: word) {
    LengthOf(d2) > 0 ==>
      && CodeIn(View(mem, d1, d2), d2) > 9
      && Digits(SignificantIn(View(mem, d1, d2), d2))
  }

  // What ADDD, SUBD, SHDE and PACK leave in a field UPACK accepts, whatever the sign, exactly when the
  // loaded words cover the field or there is none: else the sign code is loaded as zero.
  lemma ResultConvertibleIff(mem0: memory, mem1: memory, d1: word, d2: word, m: int, unsigned: bool, sign: int)
    requires Result(mem0, mem1, d1, d2, m, SignCode(unsigned, sign))
    ensures Convertible(mem1, d1, d2) <==> Covered(d2)
  {
  }

  // The string written for the packed source at d1, d2 in the format of the field at x, t.
  ghost function Unpacked(mem: memory, d1: word, d2: word, t: word): (bs: seq<byte>)
    requires Convertible(mem, d1, d2)
    ensures |bs| == LengthOf(t)
  {
    var ws := View(mem, d1, d2);
    var unsigned := WantsUnsigned(t) || (LengthOf(d2) > 0 && CodeIn(ws, d2) == SIGN_UNS);
    Convert.Encode(FormatOf(t), LengthOf(t), unsigned, SignIn(ws, d2), SignificantIn(ws, d2))
  }

  // What UPACK makes of memory and what it reports, for two legal descriptors.
  ghost predicate UnpackDone(mem0: memory, mem1: memory, a: word, d: word, x: word, t: word, r: Report) {
    if LengthOf(t) == 0 then r == Silent && mem1 == mem0
    else if !Convertible(mem0, a, d) then r == ILLEGAL && mem1 == mem0
    else
      && StringStored(mem0, mem1, x, t, Unpacked(mem0, a, d, t))
      && r == if Capacity(LengthOf(d)) > Convert.Room(FormatOf(t), LengthOf(t)) then OVERFLOW else Done
  }

  // What UPACK of loaded operands reads, told of memory.
  lemma UnpackReads(m: Machine, op2: Operand, op1: Operand)
    requires m.Valid() && m.Loaded(op1, m.a, m.d) && LoadedAscii(m, op2, m.x, m.t) && Fits(m.t)
    ensures op1.fieldLength == LengthOf(m.d)
    ensures op1.SignificantDigits() == SignificantIn(View(m.Memory(), m.a, m.d), m.d)
    ensures op1.SignNibble() == CodeIn(View(m.Memory(), m.a, m.d), m.d)
    ensures op1.FieldSign() == SignIn(View(m.Memory(), m.a, m.d), m.d)
    ensures op2.fieldLength == LengthOf(m.t) && op2.ByteSkew() == ByteLead(m.t) && op2.asciiFormat == FormatOf(m.t)
    ensures op2.unsigned == WantsUnsigned(m.t) && op2.ByteBuffer() == Bytes(AsciiView(m.Memory(), m.x, m.t))
    ensures (Convertible(m.Memory(), m.a, m.d)
             <==> (op1.fieldLength > 0 ==> op1.SignNibble() > 9 && Digits(op1.SignificantDigits())))
  {
    OperandReads(op1, View(m.Memory(), m.a, m.d), m.d);
    AsciiReads(m, op2, m.x, m.t);
  }

  lemma SomeBad(ds: seq<nibble>)
    ensures Digits(ds) <==> !exists k :: 0 <= k < |ds| && ds[k] > 9
  {
  }

  // bcd_convert_to_unpacked up to the store.
  method UnpackBuffers(m: Machine, op2: Operand, op1: Operand) returns (outcome: Convert.Outcome)
    requires m.Valid() && m.Loaded(op1, m.a, m.d) && LoadedAscii(m, op2, m.x, m.t) && op1.words != op2.words
    requires Fits(m.t) && LengthOf(m.t) > 0
    modifies op2.words
    ensures outcome == Convert.IllegalCode <==> !Convertible(m.Memory(), m.a, m.d)
    ensures Convertible(m.Memory(), m.a, m.d) ==>
              && (outcome == Convert.Overflow
                  <==> Capacity(LengthOf(m.d)) > Convert.Room(FormatOf(m.t), LengthOf(m.t)))
              && op2.ByteBuffer() == Splice(Bytes(AsciiView(m.Memory(), m.x, m.t)), ByteLead(m.t),
                                            Unpacked(m.Memory(), m.a, m.d, m.t))
  {
    UnpackReads(m, op2, op1);
    ghost var code, ds := op1.SignNibble(), op1.SignificantDigits();
    SomeBad(ds);
    outcome := Convert.Unpack(op2, op1);
    assert op1.SignNibble() == code && op1.SignificantDigits() == ds;
  }

  // The conversion of loaded operands, with the store of the second.
  method UnpackLoaded(m: Machine, op2: Operand, op1: Operand) returns (r: Report)
    requires m.Valid() && m.Loaded(op1, m.a, m.d) && LoadedAscii(m, op2, m.x, m.t) && op1.words != op2.words
    requires Fits(m.t) && LengthOf(m.t) > 0
    modifies m.mem, op2.words
    ensures UnpackDone(old(m.Memory()), m.Memory(), m.a, m.d, m.x, m.t, r)
  {
    ghost var mem0 := m.Memory();
    var outcome := UnpackBuffers(m, op2, op1);
    if outcome == Convert.IllegalCode {
      return ILLEGAL;
    }
    BufferStored(mem0, m.x, m.t, op2.words[..], Unpacked(mem0, m.a, m.d, m.t));
    StoreAscii(m, op2, m.t);
    return if outcome == Convert.Overflow then OVERFLOW else Done;
  }

  // UPACK. A bad descriptor and a source that is no packed number report an illegal code; an empty
  // destination reports nothing; else the string is stored, and the skip reports that the source's
  // digits have room in it.
  method UnpackDecimal(m: Machine) returns (r: Report)
    requires m.Valid() && (Legal(m.d) && Legal(m.t) ==> Fits(m.t))
    modifies m.mem, m`p, m`a, m`d
    ensures !Legal(old(m.d)) || !Legal(m.t) ==> r == ILLEGAL && m.Memory() == old(m.Memory())
    ensures Legal(old(m.d)) && Legal(m.t) ==>
              UnpackDone(old(m.Memory()), m.Memory(), old(m.a), old(m.d), m.x, m.t, r)
    ensures Legal(old(m.d)) && Legal(m.t) && LengthOf(m.t) == 0 ==>
              m.Memory() == old(m.Memory()) && m.a == old(m.a) && m.d == old(m.d) && m.p == old(m.p)
    ensures m.a == ReportedA(old(m.a), r) && m.d == ReportedD(old(m.d), r)
    ensures m.p == if r == Done then Place(old(m.p), 1) else old(m.p)
  {
    r := UnpackFields(m);
    ReportError(m, r);
    if r == Done {
      m.p := Place(m.p, 1);
    }
  }

  method UnpackFields(m: Machine) returns (r: Report)
    requires m.Valid() && (Legal(m.d) && Legal(m.t) ==> Fits(m.t))
    modifies m.mem
    ensures !Legal(m.d) || !Legal(m.t) ==> r == ILLEGAL && m.Memory() == old(m.Memory())
    ensures Legal(m.d) && Legal(m.t) ==> UnpackDone(old(m.Memory()), m.Memory(), m.a, m.d, m.x, m.t, r)
    ensures r.Code? ==> r.code < 32
  {
    var ok1, op1 := m.GetOperand(m.a, m.d);
    if !ok1 {
      return ILLEGAL;
    }
    var ok2, op2 := GetAscii(m, m.x, m.t);
    if !ok2 {
      return ILLEGAL;
    }
    if op2.fieldLength == 0 {
      return Silent;
    }
    r := UnpackLoaded(m, op2, op1);
  }

  // ---- PACK ----

  // What PACK makes of memory and what it reports, for two legal descriptors.
  ghost predicate PackDone(mem0: memory, mem1: memory, a: word, d: word, x: word, t: word, r: Report)
    requires Fits(d)
  {
    var number := Source(mem0, a, d);
    if number.Illegal? then r == ILLEGAL && mem1 == mem0
    else
      && Result(mem0, mem1, x, t, Value(number.digits), SignCode(WantsUnsigned(t), number.sign))
      && r == if Value(number.digits) >= Pow10(Capacity(LengthOf(t))) then OVERFLOW else Done
  }

  // The source can be read: the string fits the buffer, and the separate trailing sign of an
  // empty one lies in it.
  predicate SourceReadable(d2: word) {
    Fits(d2) && (LengthOf(d2) == 0 && FormatOf(d2) == Convert.SEPARATE_TRAILING ==> ByteLead(d2) == 1)
  }

  // What PACK of loaded operands reads, told of memory.
  lemma PackReads(m: Machine, op2: Operand, op1: Operand)
    requires m.Valid() && m.Loaded(op2, m.x, m.t) && LoadedAscii(m, op1, m.a, m.d) && SourceReadable(m.d)
    ensures op2.fieldLength == LengthOf(m.t) && op2.unsigned == WantsUnsigned(m.t)
    ensures op2.Buffer() == Nibbles(View(m.Memory(), m.x, m.t))
    ensures op1.fieldLength + op1.ByteSkew() <= 20 && Convert.Readable(op1)
    ensures Convert.Decode(op1.asciiFormat, op1.FieldBytes()) == Source(m.Memory(), m.a, m.d)
  {
    OperandReads(op2, View(m.Memory(), m.x, m.t), m.t);
    AsciiReads(m, op1, m.a, m.d);
    EmptyBuffer(m.Memory(), m.a, m.d);
  }

  // bcd_convert_to_packed up to the store.
  method PackBuffers(m: Machine, op2: Operand, op1: Operand) returns (outcome: Convert.Outcome)
    requires m.Valid() && m.Loaded(op2, m.x, m.t) && LoadedAscii(m, op1, m.a, m.d) && op1.words != op2.words
    requires SourceReadable(m.d)
    modifies op2.words
    ensures var number := Source(m.Memory(), m.a, m.d);
            && (outcome == Convert.IllegalCode <==> number.Illegal?)
            && (number.Number? ==>
                  && (outcome == Convert.Overflow <==> Value(number.digits) >= Pow10(Capacity(LengthOf(m.t))))
                  && op2.Stores(Nibbles(View(m.Memory(), m.x, m.t)), Value(number.digits),
                                SignCode(WantsUnsigned(m.t), number.sign)))
  {
    PackReads(m, op2, op1);
    outcome := Convert.Pack(op2, op1);
  }

  method PackLoaded(m: Machine, op2: Operand, op1: Operand) returns (r: Report)
    requires m.Valid() && m.Loaded(op2, m.x, m.t) && LoadedAscii(m, op1, m.a, m.d) && op1.words != op2.words
    requires SourceReadable(m.d)
    modifies m.mem, op2.words
    ensures PackDone(old(m.Memory()), m.Memory(), m.a, m.d, m.x, m.t, r)
  {
    ghost var mem0 := m.Memory();
    ghost var number := Source(mem0, m.a, m.d);
    var outcome := PackBuffers(m, op2, op1);
    if outcome == Convert.IllegalCode {
      return ILLEGAL;
    }
    SourceValue(mem0, m.a, m.d);
    SpannedFits(m.t);
    m.StoreOperand(op2, m.t);
    ResultInMemory(op2, View(mem0, m.x, m.t), mem0, m.t, Value(number.digits),
                   SignCode(WantsUnsigned(m.t), number.sign));
    return if outcome == Convert.Overflow then OVERFLOW else Done;
  }

  lemma SourceValue(mem: memory, d1: word, d2: word)
    requires Fits(d2) && Source(mem, d1, d2).Number?
    ensures Value(Source(mem, d1, d2).digits) >= 0
  {
    Convert.DecodedDigits(FormatOf(d2), StringIn(mem, d1, d2));
    ValueBounds(Source(mem, d1, d2).digits);
  }

  // An empty field is loaded as zeros.
  lemma EmptyBuffer(mem: memory, d1: word, d2: word)
    ensures LengthOf(d2) == 0 ==>
              Bytes(AsciiView(mem, d1, d2))[0] == 0 && Bytes(AsciiView(mem, d1, d2))[1] == 0
  {
    ByteAt(AsciiView(mem, d1, d2), 0, 0);
    ByteAt(AsciiView(mem, d1, d2), 0, 1);
  }

  // PACK. A bad descriptor reports nothing, a string that is no number an illegal code; else the
  // packed number is stored, and the skip reports that it fits the field.
  method PackDecimal(m: Machine) returns (r: Report)
    requires m.Valid() && (Legal(m.d) && Legal(m.t) ==> SourceReadable(m.d))
    modifies m.mem, m`p, m`a, m`d
    ensures !Legal(old(m.d)) || !Legal(m.t) ==> r == Silent && m.Memory() == old(m.Memory())
    ensures Legal(old(m.d)) && Legal(m.t) ==>
              PackDone(old(m.Memory()), m.Memory(), old(m.a), old(m.d), m.x, m.t, r)
    ensures m.a == ReportedA(old(m.a), r) && m.d == ReportedD(old(m.d), r)
    ensures m.p == if r == Done then Place(old(m.p), 1) else old(m.p)
  {
    r := PackFields(m);
    ReportError(m, r);
    if r == Done {
      m.p := Place(m.p, 1);
    }
  }

  method PackFields(m: Machine) returns (r: Report)
    requires m.Valid() && (Legal(m.d) && Legal(m.t) ==> SourceReadable(m.d))
    modifies m.mem
    ensures !Legal(m.d) || !Legal(m.t) ==> r == Silent && m.Memory() == old(m.Memory())
    ensures Legal(m.d) && Legal(m.t) ==> PackDone(old(m.Memory()), m.Memory(), m.a, m.d, m.x, m.t, r)
    ensures r.Code? ==> r.code < 32
  {
    var ok2, op2 := m.GetOperand(m.x, m.t);
    if !ok2 {
      return Silent;
    }
    var ok1, op1 := GetAscii(m, m.a, m.d);
    if !ok1 {
      return Silent;
    }
    r := PackLoaded(m, op2, op1);
  }

  // ---- UPACK, then PACK of the string it stored ----

  // The number is the source's, in every signed format and for every covered string with room for
  // its digits, unless an unsigned number went into a separate-sign format.
  lemma UnpackedReadsBack(mem0: memory, mem1: memory, a: word, d: word, x: word, t: word)
    requires Fits(t) && LengthOf(t) > 0 && FormatOf(t) <= Convert.SEPARATE_LEADING
    requires ByteLead(t) == 0 || LengthOf(t) % 2 == 1
    requires Convertible(mem0, a, d) && UnpackDone(mem0, mem1, a, d, x, t, Done)
    ensures var unsigned := LengthOf(d) > 0 && CodeIn(View(mem0, a, d), d) == SIGN_UNS;
            var number := Source(mem1, x, t);
            if unsigned && Convert.Separate(FormatOf(t)) then number == Convert.Illegal
            else
              && number.Number? && number.sign == SignIn(View(mem0, a, d), d)
              && Value(number.digits) == Value(SignificantIn(View(mem0, a, d), d))
  {
    var ws := View(mem0, a, d);
    var ds, unsigned := SignificantIn(ws, d), LengthOf(d) > 0 && CodeIn(ws, d) == SIGN_UNS;
    StoredStringReads(mem0, mem1, x, t, Unpacked(mem0, a, d, t));
    Convert.DecodeOfEncode(FormatOf(t), LengthOf(t), unsigned, SignIn(ws, d), ds);
    LeadingZeros(Convert.Room(FormatOf(t), LengthOf(t)) - |ds|, ds);
  }

  // PACK of that string into a field of any length and place: the skip reports that the source's
  // value fits it, and the field is left with the value and the sign.
  lemma PackedAgain(mem0: memory, mem1: memory, mem2: memory, a: word, d: word, x: word, t: word,
                    x2: word, t2: word, r: Report)
    requires Fits(t) && LengthOf(t) > 0 && FormatOf(t) <= Convert.SEPARATE_LEADING
    requires ByteLead(t) == 0 || LengthOf(t) % 2 == 1
    requires Convertible(mem0, a, d) && UnpackDone(mem0, mem1, a, d, x, t, Done)
    requires !(LengthOf(d) > 0 && CodeIn(View(mem0, a, d), d) == SIGN_UNS && Convert.Separate(FormatOf(t)))
    requires PackDone(mem1, mem2, x, t, x2, t2, r)
    ensures var ws := View(mem0, a, d);
            var v := Value(SignificantIn(ws, d));
            && r == (if v < Pow10(Capacity(LengthOf(t2))) then Done else OVERFLOW)
            && Result(mem1, mem2, x2, t2, v, SignCode(WantsUnsigned(t2), SignIn(ws, d)))
  {
    UnpackedReadsBack(mem0, mem1, a, d, x, t);
  }

  // ---- PACK, then UPACK of the field it stored ----

  // Whatever the string and its sign, UPACK of a covered field that PACK stored never refuses it.
  lemma PackedNeverRefused(mem0: memory, mem1: memory, mem2: memory, a: word, d: word, x: word, t: word,
                           x2: word, t2: word, r: Report, r2: Report)
    requires Fits(d) && Covered(t) && LengthOf(t2) > 0
    requires PackDone(mem0, mem1, a, d, x, t, r) && r != ILLEGAL && UnpackDone(mem1, mem2, x, t, x2, t2, r2)
    ensures r2 == Done || r2 == OVERFLOW
  {
    var source := Source(mem0, a, d);
    ResultConvertibleIff(mem0, mem1, x, t, Value(source.digits), WantsUnsigned(t), source.sign);
  }

  // A covered string in a signed format.
  predicate SignedString(t: word) {
    Fits(t) && LengthOf(t) > 0 && FormatOf(t) <= Convert.SEPARATE_LEADING && (ByteLead(t) == 0 || LengthOf(t) % 2 == 1)
  }

  // If neither overflows, the string written is read as the number that was packed.
  lemma UnpackedAgain(mem0: memory, mem1: memory, mem2: memory, a: word, d: word, x: word, t: word, x2: word, t2: word)
    requires Fits(d) && Covered(t) && LengthOf(t) > 0 && !WantsUnsigned(t) && SignedString(t2)
    requires PackDone(mem0, mem1, a, d, x, t, Done) && UnpackDone(mem1, mem2, x, t, x2, t2, Done)
    ensures var source, again := Source(mem0, a, d), Source(mem2, x2, t2);
            && source.Number? && again.Number? && again.sign == source.sign
            && Value(again.digits) == Value(source.digits)
  {
    PackedSource(mem0, mem1, a, d, x, t);
    var source := Source(mem0, a, d);
    ResultConvertibleIff(mem0, mem1, x, t, Value(source.digits), false, source.sign);
    UnpackedReadsBack(mem1, mem2, x, t, x2, t2);
  }

  // The sign and digits of a field that PACK filled without overflow.
  lemma PackedSource(mem0: memory, mem1: memory, a: word, d: word, x: word, t: word)
    requires Fits(d) && Covered(t) && LengthOf(t) > 0 && !WantsUnsigned(t)
    requires PackDone(mem0, mem1, a, d, x, t, Done)
    ensures var source, ws := Source(mem0, a, d), View(mem1, x, t);
            && source.Number? && SignIn(ws, t) == source.sign && CodeIn(ws, t) != SIGN_UNS
            && Value(SignificantIn(ws, t)) == Value(source.digits)
  {
    SourceValue(mem0, a, d);
    var ws, source := View(mem1, x, t), Source(mem0, a, d);
    HeldSign(ws, t, Value(source.digits), source.sign);
    HeldValue(ws, t, Value(source.digits), SignCode(false, source.sign));
  }

  // What a field that holds a number that fits it reads as.
  lemma HeldSign(ws: seq<word>, d2: word, m: int, sign: int)
    requires |ws| == MAX_WORDS && LengthOf(d2) > 0 && (sign == 1 || sign == -1)
    requires Holds(ws, d2, m, SignCode(false, sign))
    ensures SignIn(ws, d2) == sign && CodeIn(ws, d2) != SIGN_UNS
  {
  }

  lemma HeldValue(ws: seq<word>, d2: word, m: int, code: nibble)
    requires |ws| == MAX_WORDS && LengthOf(d2) > 0 && 0 <= m < Pow10(Capacity(LengthOf(d2)))
    requires Holds(ws, d2, m, code)
    ensures Value(SignificantIn(ws, d2)) == m
  {
    RemainderSame(m, Pow10(Capacity(LengthOf(d2))));
    PadDropped(ws, d2);
  }

  lemma RemainderSame(m: int, p: int)
    requires 0 <= m < p
    ensures m % p == m
  {
    QuotientZero(m, p);
  }
}
