/**
 ADDD, SUBD, COMD and SHDE as instructions: operands loaded from 64K words of memory by their
 descriptors, the result stored back, and the skip that reports success.
 */
module DecimalInstructions {
  import opened Words
  import opened Decimal
  import opened DecimalField
  import DecimalArith
  import DecimalCompare
  import DecimalShift

  type memory = m: seq<word> | |m| == 0x10000 witness seq(0x10000, _ => 0)

  // ---- Descriptors ----

  function LengthOf(d2: word): nat { d2 % 32 }

  function PointOf(d2: word): nat { d2 / 0x20 % 32 }

  // Nibbles a field is shifted right by when it starts in a right byte.
  function LeadOf(d2: word): nat { if d2 / 0x8000 == 1 then 2 else 0 }

  predicate WantsUnsigned(d2: word) { d2 / 0x800 % 8 >= 4 }

  predicate WantsRounding(d2: word) { d2 / 0x400 % 2 == 1 }

  // A decimal point lies inside the field or is zero.
  predicate Legal(d2: word) {
    PointOf(d2) < LengthOf(d2) || PointOf(d2) == 0
  }

  // Words a packed field's nibbles fill, the start in a right byte not counted.
  function SpannedWords(l: nat): nat {
    (Extent(l) + 3) / 4
  }

  // The words loaded and stored hold the whole field.
  predicate Covered(d2: word) {
    LengthOf(d2) == 0 || LeadOf(d2) + Extent(LengthOf(d2)) <= 4 * SpannedWords(LengthOf(d2))
  }

  // Only a field that starts in a right byte and fills whole words sticks out.
  lemma CoveredIff(d2: word)
    ensures Covered(d2) <==> LengthOf(d2) == 0 || d2 / 0x8000 == 0 || Extent(LengthOf(d2)) % 4 == 2
  {
  }

  // ---- A field in memory ----

  // Word i of a field; addresses wrap.
  function Place(d1: word, i: nat): word { (d1 + i) % 0x10000 }

  // How many words past the field's first a word lies.
  function OffsetOf(d1: word, w: word): (i: nat)
    ensures i < 0x10000
  {
    (w - d1) % 0x10000
  }

  lemma PlaceOffset(d1: word, w: word, i: nat)
    requires i < 0x10000
    ensures OffsetOf(d1, w) == i <==> w == Place(d1, i)
  {
  }

  function WidthOf(l: nat): nat {
    if l == 0 then 0 else Extent(l) - 1
  }

  // What is loaded for a descriptor: the spanned words, zeros after them.
  function View(mem: memory, d1: word, d2: word): (ws: seq<word>)
    ensures |ws| == MAX_WORDS
  {
    seq(MAX_WORDS, i requires 0 <= i < MAX_WORDS => if i < SpannedWords(LengthOf(d2)) then mem[Place(d1, i)] else 0)
  }

  ghost function DigitsIn(ws: seq<word>, d2: word): (ds: seq<nibble>)
    requires |ws| == MAX_WORDS
  {
    Nibbles(ws)[LeadOf(d2)..LeadOf(d2) + WidthOf(LengthOf(d2))]
  }

  // The digits within the capacity of the field.
  ghost function SignificantIn(ws: seq<word>, d2: word): (ds: seq<nibble>)
    requires |ws| == MAX_WORDS
  {
    DigitsIn(ws, d2)[WidthOf(LengthOf(d2)) - Capacity(LengthOf(d2))..]
  }

  ghost function CodeIn(ws: seq<word>, d2: word): nibble
    requires |ws| == MAX_WORDS
  {
    Nibbles(ws)[LeadOf(d2) + WidthOf(LengthOf(d2))]
  }

  ghost function SignIn(ws: seq<word>, d2: word): int
    requires |ws| == MAX_WORDS
  {
    if LengthOf(d2) == 0 then 1 else SignOf(CodeIn(ws, d2))
  }

  // The integer a field in memory denotes.
  ghost function Number(mem: memory, d1: word, d2: word): int {
    Signed(SignIn(View(mem, d1, d2), d2), Value(DigitsIn(View(mem, d1, d2), d2)))
  }

  ghost predicate Proper(mem: memory, d1: word, d2: word) {
    Digits(DigitsIn(View(mem, d1, d2), d2))
  }

  // The memory from a field's first word on, whatever of it is loaded.
  function Whole(mem: memory, d1: word): (ws: seq<word>)
    ensures |ws| == MAX_WORDS
  {
    seq(MAX_WORDS, i requires 0 <= i < MAX_WORDS => mem[Place(d1, i)])
  }

  // The field in these words holds the low digits of a magnitude under a sign code, its pad
  // nibble zero.
  ghost predicate Holds(ws: seq<word>, d2: word, magnitude: int, code: nibble)
    requires |ws| == MAX_WORDS
  {
    LengthOf(d2) > 0 ==>
      && Digits(DigitsIn(ws, d2)) && Value(DigitsIn(ws, d2)) == magnitude % Pow10(Capacity(LengthOf(d2)))
      && CodeIn(ws, d2) == code
      && (LengthOf(d2) % 2 == 1 ==> Nibbles(ws)[LeadOf(d2)] == 0)
  }

  // The same without the last byte: no sign code, and zero for the units.
  ghost predicate HoldsCut(ws: seq<word>, d2: word, magnitude: int)
    requires |ws| == MAX_WORDS
  {
    && Digits(DigitsIn(ws, d2))
    && Value(DigitsIn(ws, d2)) == magnitude % Pow10(Capacity(LengthOf(d2))) / 10 * 10
    && CodeIn(ws, d2) == 0
    && (LengthOf(d2) % 2 == 1 ==> Nibbles(ws)[LeadOf(d2)] == 0)
  }

  // Nibble k of word w is one of the field's own.
  predicate InField(d1: word, d2: word, w: word, k: nat) {
    var q := 4 * OffsetOf(d1, w) + k;
    LeadOf(d2) <= q < LeadOf(d2) + Extent(LengthOf(d2))
  }

  // Memory changes in the field's own nibbles at most.
  predicate OnlyField(mem: memory, mem': memory, d1: word, d2: word) {
    forall w: word, k | 0 <= k < 4 && !InField(d1, d2, w, k) :: NibbleOf(mem'[w], k) == NibbleOf(mem[w], k)
  }

  // Memory after the spanned words are stored back.
  function Stored(mem: memory, d1: word, d2: word, ws: seq<word>): memory
    requires |ws| == MAX_WORDS && SpannedWords(LengthOf(d2)) <= MAX_WORDS
  {
    seq(0x10000, w requires 0 <= w < 0x10000 =>
      if OffsetOf(d1, w) < SpannedWords(LengthOf(d2)) then ws[OffsetOf(d1, w)] else mem[w])
  }

  lemma SpannedFits(d2: word)
    ensures SpannedWords(LengthOf(d2)) <= 8 && LeadOf(d2) + Extent(LengthOf(d2)) <= 34
  {
  }

  // ---- From decoded operands to memory ----

  // An operand loaded for a descriptor denotes what the field in memory denotes.
  lemma OperandReads(op: Operand, ws: seq<word>, d2: word)
    requires op.Valid() && op.Describes(d2) && op.words[..] == ws
    ensures op.fieldLength == LengthOf(d2) && op.Skew() == LeadOf(d2) && op.Width() == WidthOf(LengthOf(d2))
    ensures op.MagnitudeDigits() == DigitsIn(ws, d2) && op.SignificantDigits() == SignificantIn(ws, d2)
    ensures op.FieldSign() == SignIn(ws, d2)
    ensures op.Number() == Signed(SignIn(ws, d2), Value(DigitsIn(ws, d2)))
    ensures op.unsigned == WantsUnsigned(d2) && op.decimalPoint == PointOf(d2) && op.roundingOn == WantsRounding(d2)
  {
  }

  // Equal nibbles, equal word.
  lemma SameWord(ws: seq<word>, vs: seq<word>, i: nat)
    requires i < |ws| == |vs| && forall j :: 4 * i <= j < 4 * i + 4 ==> Nibbles(ws)[j] == Nibbles(vs)[j]
    ensures ws[i] == vs[i]
  {
    forall k | 0 <= k < 4
      ensures NibbleOf(ws[i], k) == NibbleOf(vs[i], k)
    {
      NibbleAt(ws, i, k);
      NibbleAt(vs, i, k);
    }
    SplitJoin(ws[i]);
    SplitJoin(vs[i]);
  }

  // The buffer is the field's words again after its own nibbles were changed.
  ghost predicate OnlyOwnNibbles(ws: seq<word>, vs: seq<word>, d2: word)
    requires |ws| == |vs| == MAX_WORDS
  {
    forall j :: 0 <= j < LeadOf(d2) || LeadOf(d2) + Extent(LengthOf(d2)) <= j < 40 ==> Nibbles(vs)[j] == Nibbles(ws)[j]
  }

  // Storing such a buffer and loading it again gives the buffer.
  lemma ViewOfStored(mem: memory, d1: word, d2: word, vs: seq<word>)
    requires |vs| == MAX_WORDS && Covered(d2) && OnlyOwnNibbles(View(mem, d1, d2), vs, d2)
    requires SpannedWords(LengthOf(d2)) <= MAX_WORDS
    ensures LengthOf(d2) > 0 ==> View(Stored(mem, d1, d2, vs), d1, d2) == vs
  {
    if LengthOf(d2) > 0 {
      SpannedFits(d2);
      var ws := View(mem, d1, d2);
      var r := View(Stored(mem, d1, d2, vs), d1, d2);
      forall i | 0 <= i < MAX_WORDS
        ensures r[i] == vs[i]
      {
        if i < SpannedWords(LengthOf(d2)) {
          PlaceOffset(d1, Place(d1, i), i);
        } else {
          SameWord(vs, ws, i);
        }
      }
    }
  }

  // And it leaves every nibble outside the field as it was.
  lemma StoredOnlyField(mem: memory, d1: word, d2: word, vs: seq<word>)
    requires |vs| == MAX_WORDS && OnlyOwnNibbles(View(mem, d1, d2), vs, d2)
    requires SpannedWords(LengthOf(d2)) <= MAX_WORDS
    ensures OnlyField(mem, Stored(mem, d1, d2, vs), d1, d2)
  {
    SpannedFits(d2);
    var ws := View(mem, d1, d2);
    var mem' := Stored(mem, d1, d2, vs);
    forall w: word, k | 0 <= k < 4 && !InField(d1, d2, w, k)
      ensures NibbleOf(mem'[w], k) == NibbleOf(mem[w], k)
    {
      var i := OffsetOf(d1, w);
      if i < SpannedWords(LengthOf(d2)) {
        PlaceOffset(d1, w, i);
        NibbleAt(ws, i, k);
        NibbleAt(vs, i, k);
      }
    }
  }

  // The word a field that is not covered sticks out into.
  function TailWord(d1: word, d2: word): word { Place(d1, SpannedWords(LengthOf(d2))) }

  // The byte that sticks out is the one a result would have there: its units and its sign code.
  predicate TailFits(mem: memory, d1: word, d2: word, m: int, code: nibble) {
    NibbleOf(mem[TailWord(d1, d2)], 0) == m % 10 && NibbleOf(mem[TailWord(d1, d2)], 1) == code
  }

  // What an instruction with a result in this field makes of memory. Memory holds the result
  // exactly when the loaded words cover the field or the byte that sticks out, which stays, is
  // the right one already. Loaded again, a field that sticks out has the result without it.
  ghost predicate Result(mem0: memory, mem1: memory, d1: word, d2: word, m: int, code: nibble) {
    && OnlyField(mem0, mem1, d1, d2)
    && (Holds(Whole(mem1, d1), d2, m, code) <==> Covered(d2) || TailFits(mem0, d1, d2, m, code))
    && (Holds(View(mem1, d1, d2), d2, m, code) <==> Covered(d2))
    && (!Covered(d2) ==> mem1[TailWord(d1, d2)] == mem0[TailWord(d1, d2)] && HoldsCut(View(mem1, d1, d2), d2, m))
  }

  // Where the parts of a field that sticks out lie.
  lemma UncoveredShape(d2: word)
    requires !Covered(d2)
    ensures var n, w := SpannedWords(LengthOf(d2)), WidthOf(LengthOf(d2));
            && LeadOf(d2) == 2 && n < MAX_WORDS && 3 <= w == 4 * n - 1 && LengthOf(d2) >= 3
  {
    SpannedFits(d2);
    CoveredIff(d2);
  }

  // m % (10 p) keeps the units of m.
  lemma UnitsKept(m: nat, p: nat)
    requires p > 0
    ensures m % (10 * p) % 10 == m % 10
  {
    var q, r := m / (10 * p), m % (10 * p);
    assert m == (10 * p) * q + r;
    assert (10 * p) * q == 10 * (p * q);
    SameUnits(r, p * q);
  }

  lemma SameUnits(r: int, k: int)
    ensures (10 * k + r) % 10 == r % 10
  {
  }

  // Two numbers that differ in their last digit alone.
  lemma CutUnits(high: seq<int>, last: int, u: int)
    requires 0 <= last <= 9
    ensures Value(high + [last]) % 10 == last && Value(high + [u]) == Value(high + [last]) / 10 * 10 + u
  {
    HornerSnoc(0, high, last);
    HornerSnoc(0, high, u);
  }

  // Words that agree with a full field up to the byte that sticks out hold its other digits.
  lemma TailDigits(vs: seq<word>, ws: seq<word>, d2: word)
    requires |vs| == |ws| == MAX_WORDS && !Covered(d2) && Digits(DigitsIn(vs, d2))
    requires forall j :: 0 <= j < 4 * SpannedWords(LengthOf(d2)) ==> Nibbles(ws)[j] == Nibbles(vs)[j]
    ensures var n, v := 4 * SpannedWords(LengthOf(d2)), Value(DigitsIn(vs, d2));
            var u := Nibbles(ws)[n];
            && (Digits(DigitsIn(ws, d2)) <==> u <= 9)
            && Value(DigitsIn(ws, d2)) == v / 10 * 10 + u
            && CodeIn(ws, d2) == Nibbles(ws)[n + 1]
  {
    UncoveredShape(d2);
    var w := WidthOf(LengthOf(d2));
    var ds, es := DigitsIn(vs, d2), DigitsIn(ws, d2);
    assert es[..w - 1] == ds[..w - 1];
    assert es == es[..w - 1] + [es[w - 1]] && ds == ds[..w - 1] + [ds[w - 1]];
    CutUnits(ds[..w - 1], ds[w - 1], es[w - 1]);
  }

  // They hold the whole result exactly when that byte is right.
  lemma TailHoldsIff(vs: seq<word>, ws: seq<word>, d2: word, m: nat, code: nibble)
    requires |vs| == |ws| == MAX_WORDS && !Covered(d2) && Holds(vs, d2, m, code)
    requires forall j :: 0 <= j < 4 * SpannedWords(LengthOf(d2)) ==> Nibbles(ws)[j] == Nibbles(vs)[j]
    ensures var n := 4 * SpannedWords(LengthOf(d2));
            && (Holds(ws, d2, m, code) <==> Nibbles(ws)[n] == m % 10 && Nibbles(ws)[n + 1] == code)
            && (Nibbles(ws)[n] == 0 && Nibbles(ws)[n + 1] == 0 ==> HoldsCut(ws, d2, m))
  {
    UncoveredShape(d2);
    TailDigits(vs, ws, d2);
    UnitsKept(m, Pow10(Capacity(LengthOf(d2)) - 1));
    var v := m % Pow10(Capacity(LengthOf(d2)));
    assert v % 10 == m % 10 && v == v / 10 * 10 + v % 10;
    assert Nibbles(ws)[LeadOf(d2)] == Nibbles(vs)[LeadOf(d2)];
  }

  // The words stored are read back, the others as they were.
  lemma NibblesOfStored(mem: memory, d1: word, d2: word, vs: seq<word>, i: nat, k: nat)
    requires |vs| == MAX_WORDS && SpannedWords(LengthOf(d2)) <= MAX_WORDS && i < MAX_WORDS && k < 4
    ensures var mem1 := Stored(mem, d1, d2, vs);
            var u, v := Nibbles(Whole(mem1, d1))[4 * i + k], Nibbles(View(mem1, d1, d2))[4 * i + k];
            if i < SpannedWords(LengthOf(d2)) then u == Nibbles(vs)[4 * i + k] && v == Nibbles(vs)[4 * i + k]
            else u == NibbleOf(mem[Place(d1, i)], k) && v == 0
  {
    var mem1 := Stored(mem, d1, d2, vs);
    NibbleAt(Whole(mem1, d1), i, k);
    NibbleAt(View(mem1, d1, d2), i, k);
    NibbleAt(vs, i, k);
    PlaceOffset(d1, Place(d1, i), i);
  }

  lemma StoredPrefix(mem: memory, d1: word, d2: word, vs: seq<word>)
    requires |vs| == MAX_WORDS && SpannedWords(LengthOf(d2)) <= MAX_WORDS
    ensures var mem1 := Stored(mem, d1, d2, vs);
            forall j :: 0 <= j < 4 * SpannedWords(LengthOf(d2)) ==>
              (Nibbles(Whole(mem1, d1))[j] == Nibbles(vs)[j] && Nibbles(View(mem1, d1, d2))[j] == Nibbles(vs)[j])
  {
    var n := SpannedWords(LengthOf(d2));
    forall j | 0 <= j < 4 * n
      ensures Nibbles(Whole(Stored(mem, d1, d2, vs), d1))[j] == Nibbles(vs)[j]
      ensures Nibbles(View(Stored(mem, d1, d2, vs), d1, d2))[j] == Nibbles(vs)[j]
    {
      var i, k := j / 4, j % 4;
      assert j == 4 * i + k && i < n;
      NibblesOfStored(mem, d1, d2, vs, i, k);
    }
  }

  // The byte that sticks out is not stored: memory keeps it, and it is loaded as zero.
  lemma TailAfterStore(mem: memory, d1: word, d2: word, vs: seq<word>)
    requires |vs| == MAX_WORDS && SpannedWords(LengthOf(d2)) < MAX_WORDS
    ensures var mem1, n := Stored(mem, d1, d2, vs), 4 * SpannedWords(LengthOf(d2));
            && mem1[TailWord(d1, d2)] == mem[TailWord(d1, d2)]
            && Nibbles(Whole(mem1, d1))[n] == NibbleOf(mem[TailWord(d1, d2)], 0)
            && Nibbles(Whole(mem1, d1))[n + 1] == NibbleOf(mem[TailWord(d1, d2)], 1)
            && Nibbles(View(mem1, d1, d2))[n] == 0 && Nibbles(View(mem1, d1, d2))[n + 1] == 0
  {
    NibblesOfStored(mem, d1, d2, vs, SpannedWords(LengthOf(d2)), 0);
    NibblesOfStored(mem, d1, d2, vs, SpannedWords(LengthOf(d2)), 1);
    PlaceOffset(d1, TailWord(d1, d2), SpannedWords(LengthOf(d2)));
  }

  // A field that sticks out, stored from a buffer that holds the result.
  lemma UncoveredResult(mem: memory, d1: word, d2: word, vs: seq<word>, m: nat, code: nibble)
    requires |vs| == MAX_WORDS && SpannedWords(LengthOf(d2)) <= MAX_WORDS
    requires !Covered(d2) && code != 0 && Holds(vs, d2, m, code)
    ensures var mem1 := Stored(mem, d1, d2, vs);
            && (Holds(Whole(mem1, d1), d2, m, code) <==> TailFits(mem, d1, d2, m, code))
            && !Holds(View(mem1, d1, d2), d2, m, code) && HoldsCut(View(mem1, d1, d2), d2, m)
            && mem1[TailWord(d1, d2)] == mem[TailWord(d1, d2)]
  {
    UncoveredShape(d2);
    StoredPrefix(mem, d1, d2, vs);
    TailAfterStore(mem, d1, d2, vs);
    TailHoldsIff(vs, Whole(Stored(mem, d1, d2, vs), d1), d2, m, code);
    TailHoldsIff(vs, View(Stored(mem, d1, d2, vs), d1, d2), d2, m, code);
  }

  // Words with the same nibbles in the field hold the same.
  lemma SameField(vs: seq<word>, ws: seq<word>, d2: word, m: int, code: nibble)
    requires |vs| == |ws| == MAX_WORDS && Holds(vs, d2, m, code) && LengthOf(d2) > 0
    requires forall j :: LeadOf(d2) <= j < LeadOf(d2) + Extent(LengthOf(d2)) ==> Nibbles(ws)[j] == Nibbles(vs)[j]
    ensures Holds(ws, d2, m, code)
  {
    SpannedFits(d2);
    assert DigitsIn(ws, d2) == DigitsIn(vs, d2);
  }

  // A covered field, loaded or not.
  lemma CoveredResult(mem: memory, d1: word, d2: word, vs: seq<word>, m: nat, code: nibble)
    requires |vs| == MAX_WORDS && SpannedWords(LengthOf(d2)) <= MAX_WORDS
    requires Covered(d2) && Holds(vs, d2, m, code)
    ensures var mem1 := Stored(mem, d1, d2, vs);
            Holds(Whole(mem1, d1), d2, m, code) && Holds(View(mem1, d1, d2), d2, m, code)
  {
    if LengthOf(d2) > 0 {
      var mem1 := Stored(mem, d1, d2, vs);
      StoredPrefix(mem, d1, d2, vs);
      SameField(vs, Whole(mem1, d1), d2, m, code);
      SameField(vs, View(mem1, d1, d2), d2, m, code);
    }
  }

  // A result left in the operand's buffer and stored.
  lemma ResultInMemory(op: Operand, before: seq<word>, mem: memory, d2: word, m: nat, code: nibble)
    requires op.Valid() && op.Describes(d2) && before == View(mem, op.addr, d2) && code != 0
    requires SpannedWords(LengthOf(d2)) <= MAX_WORDS && op.Stores(Nibbles(before), m, code)
    ensures Result(mem, Stored(mem, op.addr, d2, op.words[..]), op.addr, d2, m, code)
  {
    OperandReads(op, op.words[..], d2);
    StoredOnlyField(mem, op.addr, d2, op.words[..]);
    assert Holds(op.words[..], d2, m, code);
    if Covered(d2) {
      CoveredResult(mem, op.addr, d2, op.words[..], m, code);
    } else {
      UncoveredResult(mem, op.addr, d2, op.words[..], m, code);
    }
  }

  // Memory may hold the result of a field that sticks out: 125 at a right byte, with 5 and plus in
  // the byte that sticks out before.
  lemma UncoveredMayHold(mem: memory, mem1: memory)
    requires mem[1] == 0x5C00 && Result(mem, mem1, 0, 0x8004, 125, SIGN_POS)
    ensures !Covered(0x8004) && Holds(Whole(mem1, 0), 0x8004, 125, SIGN_POS)
  {
    var tail: word := 0x5C00;
    assert TailFits(mem, 0, 0x8004, 125, SIGN_POS) by {
      ExampleTail();
      assert NibbleOf(tail, 0) == 5 && NibbleOf(tail, 1) == 12;
    }
    ExampleTail();
  }

  lemma ExampleTail()
    ensures !Covered(0x8004) && TailWord(0, 0x8004) == 1
  {
    assert LengthOf(0x8004) == 4 && LeadOf(0x8004) == 2;
    assert Extent(4) == 4 && SpannedWords(4) == 1;
    assert Place(0, 1) == 1;
  }

  // The sign code of a sum: a zero keeps the first operand's own sign.
  ghost function SumCode(mem0: memory, d1: word, d2: word, r: int): nibble {
    SignCode(WantsUnsigned(d2), if r == 0 then SignIn(View(mem0, d1, d2), d2) else Sign(r))
  }

  // An exact result left in a field, and whether that is a success.
  ghost predicate SumStored(mem0: memory, mem1: memory, d1: word, d2: word, ok: bool, r: int) {
    && (ok <==> Abs(r) < Pow10(Capacity(LengthOf(d2))))
    && Result(mem0, mem1, d1, d2, Abs(r), SumCode(mem0, d1, d2, r))
  }

  // A sum that fits a covered signed field is what the field denotes afterwards.
  lemma SumReadsBack(mem0: memory, mem1: memory, d1: word, d2: word, r: int)
    requires SumStored(mem0, mem1, d1, d2, true, r) && Covered(d2) && !WantsUnsigned(d2)
    ensures Proper(mem1, d1, d2) && Number(mem1, d1, d2) == r
  {
    if LengthOf(d2) > 0 {
      QuotientZero(Abs(r), Pow10(Capacity(LengthOf(d2))));
    }
  }

  // No word of one field is among those loaded for the other.
  ghost predicate FieldsApart(d1: word, d2: word, e1: word, e2: word) {
    forall i :: 0 <= i < SpannedWords(LengthOf(e2)) ==> OffsetOf(d1, Place(e1, i)) >= SpannedWords(LengthOf(d2))
  }

  // What lies apart from a field that was stored is loaded as before.
  lemma ApartKept(mem0: memory, mem1: memory, d1: word, d2: word, e1: word, e2: word)
    requires OnlyField(mem0, mem1, d1, d2) && Covered(d2) && FieldsApart(d1, d2, e1, e2)
    ensures View(mem1, e1, e2) == View(mem0, e1, e2)
  {
    forall i | 0 <= i < SpannedWords(LengthOf(e2))
      ensures mem1[Place(e1, i)] == mem0[Place(e1, i)]
    {
      SpannedFits(d2);
      WordKept(mem0, mem1, d1, d2, Place(e1, i));
    }
  }

  lemma WordKept(mem0: memory, mem1: memory, d1: word, d2: word, w: word)
    requires OnlyField(mem0, mem1, d1, d2) && Covered(d2) && OffsetOf(d1, w) >= SpannedWords(LengthOf(d2))
    ensures mem1[w] == mem0[w]
  {
    forall k | 0 <= k < 4
      ensures NibbleOf(mem1[w], k) == NibbleOf(mem0[w], k)
    {
      assert !InField(d1, d2, w, k);
    }
    SplitJoin(mem0[w]);
    SplitJoin(mem1[w]);
  }

  // ADDD, then SUBD of the same operand, neither overflowing: the first field denotes what it did.
  lemma SubtractUndoesAdd(mem0: memory, mem1: memory, mem2: memory, a: word, d: word, x: word, t: word)
    requires Covered(d) && !WantsUnsigned(d) && FieldsApart(a, d, x, t)
    requires SumStored(mem0, mem1, a, d, true, Number(mem0, a, d) + Number(mem0, x, t))
    requires SumStored(mem1, mem2, a, d, true, Number(mem1, a, d) - Number(mem1, x, t))
    ensures Number(mem2, a, d) == Number(mem0, a, d) && View(mem2, x, t) == View(mem0, x, t)
  {
    SumReadsBack(mem0, mem1, a, d, Number(mem0, a, d) + Number(mem0, x, t));
    ApartKept(mem0, mem1, a, d, x, t);
    SumReadsBack(mem1, mem2, a, d, Number(mem1, a, d) - Number(mem1, x, t));
    ApartKept(mem1, mem2, a, d, x, t);
  }

  // The first operand's digits moved to the second one's decimal point, and its sign code there.
  ghost function ShiftedValue(mem0: memory, a: word, d: word, t: word): int {
    DecimalShift.Shifted(Value(SignificantIn(View(mem0, a, d), d)), PointOf(d) - PointOf(t), WantsRounding(t))
  }

  ghost function ShiftedCode(mem0: memory, a: word, d: word, t: word): nibble {
    SignCode(WantsUnsigned(t), SignIn(View(mem0, a, d), d))
  }

  // What SHDE makes of memory, and whether it reports success.
  ghost predicate ShiftStored(mem0: memory, mem1: memory, a: word, d: word, x: word, t: word, ok: bool) {
    if LengthOf(t) == 0 then !ok && mem1 == mem0
    else
      && (ok <==> ShiftedValue(mem0, a, d, t) < Pow10(Capacity(LengthOf(t))))
      && Result(mem0, mem1, x, t, ShiftedValue(mem0, a, d, t), ShiftedCode(mem0, a, d, t))
  }

  // SHDE to as many decimals or more, without loss, leaves a number that COMD finds equal to the
  // one it came from.
  lemma ShiftThenCompare(mem0: memory, mem1: memory, a: word, d: word, x: word, t: word)
    requires ShiftStored(mem0, mem1, a, d, x, t, true) && Covered(t) && !WantsUnsigned(t)
    requires Proper(mem0, a, d) && PointOf(d) <= PointOf(t) && FieldsApart(x, t, a, d)
    requires LengthOf(d) % 2 == 1 ==> Nibbles(View(mem0, a, d))[LeadOf(d)] == 0
    ensures View(mem1, a, d) == View(mem0, a, d)
    ensures DecimalCompare.CompareScaled(Number(mem1, x, t), PointOf(t), Number(mem1, a, d), PointOf(d)) == 0
  {
    ApartKept(mem0, mem1, x, t, a, d);
    PadDropped(View(mem0, a, d), d);
    ShiftedNumber(mem0, mem1, a, d, x, t);
    EqualScaled(Number(mem0, a, d), PointOf(d), PointOf(t));
  }

  // The number SHDE leaves: the source's significant digits scaled up.
  lemma ShiftedNumber(mem0: memory, mem1: memory, a: word, d: word, x: word, t: word)
    requires ShiftStored(mem0, mem1, a, d, x, t, true) && Covered(t) && !WantsUnsigned(t)
    requires Digits(SignificantIn(View(mem0, a, d), d)) && PointOf(d) <= PointOf(t)
    ensures var ws := View(mem0, a, d);
            Number(mem1, x, t)
            == Scale(Signed(SignIn(ws, d), Value(SignificantIn(ws, d))), PointOf(t) - PointOf(d))
  {
    var ws, up := View(mem0, a, d), PointOf(t) - PointOf(d);
    var v := Value(SignificantIn(ws, d));
    ShiftedLeft(v, up, WantsRounding(t));
    ValueBounds(SignificantIn(ws, d));
    DecimalShift.ShiftedNat(v, -up, WantsRounding(t));
    ReadsBack(mem0, mem1, x, t, ShiftedValue(mem0, a, d, t), SignIn(ws, d));
    DecimalCompare.ScaleSigned(SignIn(ws, d), v, up);
  }

  lemma EqualScaled(n: int, dp: nat, point: nat)
    requires dp <= point
    ensures DecimalCompare.CompareScaled(Scale(n, point - dp), point, n, dp) == 0
  {
  }

  // SHDE to fewer decimals stores, of the source's digits v, the largest number that is not above
  // v / 10^down, or the nearest to it when the second descriptor asks for rounding.
  lemma ShiftRounds(mem0: memory, mem1: memory, a: word, d: word, x: word, t: word)
    requires ShiftStored(mem0, mem1, a, d, x, t, true) && Covered(t) && LengthOf(t) > 0
    requires Digits(SignificantIn(View(mem0, a, d), d)) && PointOf(t) < PointOf(d)
    ensures var v, m := Value(SignificantIn(View(mem0, a, d), d)), Value(DigitsIn(View(mem1, x, t), t));
            var p := Pow10(PointOf(d) - PointOf(t));
            if WantsRounding(t) then 2 * (m * p) - p <= 2 * v < 2 * (m * p) + p else m * p <= v < m * p + p
  {
    var v := Value(SignificantIn(View(mem0, a, d), d));
    ValueBounds(SignificantIn(View(mem0, a, d), d));
    DecimalShift.ShiftedNat(v, PointOf(d) - PointOf(t), WantsRounding(t));
    DecimalShift.ShiftedBounds(v, PointOf(d) - PointOf(t), []);
    QuotientZero(ShiftedValue(mem0, a, d, t), Pow10(Capacity(LengthOf(t))));
  }

  lemma ShiftedLeft(v: int, up: int, rounding: bool)
    requires up >= 0
    ensures DecimalShift.Shifted(v, -up, rounding) == Scale(v, up)
  {
    ScaleIsMul(v, up);
  }

  // A magnitude that fits a covered signed field is the field's magnitude afterwards.
  lemma ReadsBack(mem0: memory, mem1: memory, d1: word, d2: word, m: int, sign: int)
    requires Result(mem0, mem1, d1, d2, m, SignCode(false, sign)) && Covered(d2) && (sign == 1 || sign == -1)
    requires LengthOf(d2) > 0 && 0 <= m < Pow10(Capacity(LengthOf(d2)))
    ensures Number(mem1, d1, d2) == Signed(sign, m)
  {
    QuotientZero(m, Pow10(Capacity(LengthOf(d2))));
  }

  // The pad nibble of an odd-length field is zero, so it does not count.
  lemma PadDropped(ws: seq<word>, d2: word)
    requires |ws| == MAX_WORDS && (LengthOf(d2) % 2 == 1 ==> Nibbles(ws)[LeadOf(d2)] == 0)
    ensures Value(SignificantIn(ws, d2)) == Value(DigitsIn(ws, d2))
  {
    var ds, low := DigitsIn(ws, d2), SignificantIn(ws, d2);
    if LengthOf(d2) % 2 == 1 {
      assert ds == Zeros(1) + low;
      LeadingZeros(1, low);
    } else {
      assert ds == low;
    }
  }

  class Machine {
    const mem: array<word>
    var a: word
    var d: word
    var t: word
    var x: word
    var p: word

    ghost predicate Valid() { mem.Length == 0x10000 }

    ghost function Memory(): memory
      requires Valid()
      reads mem
    {
      mem[..]
    }

    // Load the words of a descriptor's field, last word first; false for an illegal point.
    method GetOperand(d1: word, d2: word) returns (ok: bool, op: Operand)
      requires Valid()
      ensures fresh(op.words) && (ok <==> Legal(d2)) && (ok ==> Loaded(op, d1, d2))
    {
      op := new Operand(d1, d2, false);
      ok := true;
      if op.decimalPoint >= op.fieldLength && op.decimalPoint != 0 {
        return false, op;
      }
      SpannedFits(d2);
      var n := MemWords(op);
      LoadWords(op, n);
    }

    method MemWords(op: Operand) returns (n: nat)
      requires op.Valid() && !op.isAscii
      ensures n == SpannedWords(op.fieldLength) <= 8
    {
      var m := Extent(op.fieldLength);
      n := m / 4;
      if n * 4 != m {
        n := n + 1;
      }
    }

    method LoadWords(op: Operand, n: nat)
      requires Valid() && op.Valid() && n <= MAX_WORDS && op.words != mem
      requires forall i :: 0 <= i < MAX_WORDS ==> op.words[i] == 0
      modifies op.words
      ensures forall i :: 0 <= i < MAX_WORDS ==> op.words[i] == if i < n then mem[Place(op.addr, i)] else 0
    {
      var i: nat := n;
      while i > 0
        invariant i <= n
        invariant forall j :: 0 <= j < MAX_WORDS ==> op.words[j] == if i <= j < n then mem[Place(op.addr, j)] else 0
      {
        i := i - 1;
        op.words[i] := mem[Place(op.addr, i)];
      }
    }

    method StoreOperand(op: Operand, ghost d2: word)
      requires Valid() && op.Valid() && op.Describes(d2) && !op.isAscii && op.words != mem
      modifies mem
      ensures Memory() == Stored(old(Memory()), op.addr, d2, op.words[..])
    {
      SpannedFits(d2);
      var n := MemWords(op);
      StoreWords(op, n);
    }

    method StoreWords(op: Operand, n: nat)
      requires Valid() && op.Valid() && n <= MAX_WORDS && op.words != mem
      modifies mem
      ensures forall w: word ::
                mem[w] == if OffsetOf(op.addr, w) < n then op.words[OffsetOf(op.addr, w)] else old(mem[w])
    {
      var i: nat := 0;
      while i < n
        invariant i <= n
        invariant forall w: word ::
                    mem[w] == if OffsetOf(op.addr, w) < i then op.words[OffsetOf(op.addr, w)] else old(mem[w])
      {
        forall w: word
          ensures OffsetOf(op.addr, w) == i <==> w == Place(op.addr, i)
        {
          PlaceOffset(op.addr, w, i);
        }
        mem[Place(op.addr, i)] := op.words[i];
        i := i + 1;
      }
    }

    // What loaded operands are, told of memory.
    lemma SumReads(op1: Operand, op2: Operand)
      requires Valid() && Loaded(op1, a, d) && Loaded(op2, x, t)
      ensures op1.fieldLength == LengthOf(d) && op1.Buffer() == Nibbles(View(Memory(), a, d))
      ensures op1.MagnitudeDigits() == DigitsIn(View(Memory(), a, d), d)
      ensures op2.MagnitudeDigits() == DigitsIn(View(Memory(), x, t), t)
      ensures op1.Number() == Number(Memory(), a, d) && op2.Number() == Number(Memory(), x, t)
      ensures op1.unsigned == WantsUnsigned(d) && op1.FieldSign() == SignIn(View(Memory(), a, d), d)
    {
      OperandReads(op1, View(Memory(), a, d), d);
      OperandReads(op2, View(Memory(), x, t), t);
    }

    // bcd_add_sub up to the store.
    method AddBuffers(op1: Operand, op2: Operand, flip: int) returns (ok: bool, ghost r: int)
      requires Valid() && (flip == 1 || flip == -1) && Loaded(op1, a, d) && Loaded(op2, x, t)
      requires Proper(Memory(), a, d) && Proper(Memory(), x, t) && op1.words != op2.words
      modifies op1.words
      ensures flip == 1 ==> r == Number(Memory(), a, d) + Number(Memory(), x, t)
      ensures flip == -1 ==> r == Number(Memory(), a, d) - Number(Memory(), x, t)
      ensures ok <==> Abs(r) < Pow10(Capacity(LengthOf(d)))
      ensures op1.Stores(Nibbles(View(Memory(), a, d)), Abs(r), ResultCode(Memory(), r))
    {
      SumReads(op1, op2);
      r := if flip == 1 then op1.Number() + op2.Number() else op1.Number() - op2.Number();
      ok := DecimalArith.AddSub(op1, op2, flip);
    }

    // bcd_add_sub on loaded operands, with the store of the first.
    method AddLoaded(op1: Operand, op2: Operand, flip: int) returns (ok: bool)
      requires Valid() && (flip == 1 || flip == -1) && Loaded(op1, a, d) && Loaded(op2, x, t)
      requires Proper(Memory(), a, d) && Proper(Memory(), x, t) && op1.words != op2.words
      modifies mem, op1.words
      ensures (flip == 1 ==> Added(old(Memory()), Memory(), ok,
                                   Number(old(Memory()), a, d) + Number(old(Memory()), x, t)))
      ensures (flip == -1 ==> Added(old(Memory()), Memory(), ok,
                                    Number(old(Memory()), a, d) - Number(old(Memory()), x, t)))
    {
      ghost var mem0, r := Memory(), 0;
      ok, r := AddBuffers(op1, op2, flip);
      StoreOperand(op1, d);
      ResultInMemory(op1, View(mem0, a, d), mem0, d, Abs(r), ResultCode(mem0, r));
    }

    // ADDD and SUBD but for the skip. It is to skip when the exact result fits the first operand's
    // field, which holds its low digits either way; no other nibble of memory changes.
    method AddOrSubtract(flip: int) returns (skip: bool)
      requires Valid() && (flip == 1 || flip == -1)
      requires Proper(Memory(), a, d) && Proper(Memory(), x, t)
      modifies mem
      ensures !Legal(d) || !Legal(t) ==> !skip && Memory() == old(Memory())
      ensures (Legal(d) && Legal(t) && flip == 1
               ==> Added(old(Memory()), Memory(), skip, Number(old(Memory()), a, d) + Number(old(Memory()), x, t)))
      ensures (Legal(d) && Legal(t) && flip == -1
               ==> Added(old(Memory()), Memory(), skip, Number(old(Memory()), a, d) - Number(old(Memory()), x, t)))
    {
      var ok1, op1 := GetOperand(a, d);
      if !ok1 {
        return false;
      }
      var ok2, op2 := GetOperand(x, t);
      if !ok2 {
        return false;
      }
      skip := AddLoaded(op1, op2, flip);
    }

    // ADDD: the first operand's field takes the sum.
    method AddDecimal() returns (skip: bool)
      requires Valid() && Proper(Memory(), a, d) && Proper(Memory(), x, t)
      modifies mem, `p
      ensures !Legal(d) || !Legal(t) ==> !skip && Memory() == old(Memory())
      ensures (Legal(d) && Legal(t)
               ==> Added(old(Memory()), Memory(), skip, Number(old(Memory()), a, d) + Number(old(Memory()), x, t)))
      ensures p == if skip then Place(old(p), 1) else old(p)
    {
      skip := AddOrSubtract(1);
      if skip {
        p := Place(p, 1);
      }
    }

    // SUBD: the difference.
    method SubtractDecimal() returns (skip: bool)
      requires Valid() && Proper(Memory(), a, d) && Proper(Memory(), x, t)
      modifies mem, `p
      ensures !Legal(d) || !Legal(t) ==> !skip && Memory() == old(Memory())
      ensures (Legal(d) && Legal(t)
               ==> Added(old(Memory()), Memory(), skip, Number(old(Memory()), a, d) - Number(old(Memory()), x, t)))
      ensures p == if skip then Place(old(p), 1) else old(p)
    {
      skip := AddOrSubtract(-1);
      if skip {
        p := Place(p, 1);
      }
    }

    ghost function ResultCode(mem0: memory, r: int): nibble
      reads `a, `d
    {
      SumCode(mem0, a, d, r)
    }

    ghost predicate Loaded(op: Operand, d1: word, d2: word)
      reads mem, op.words
      requires Valid()
    {
      op.Valid() && op.Describes(d2) && op.addr == d1 && !op.isAscii && op.words != mem
      && op.words[..] == View(Memory(), d1, d2)
    }

    // What an addition or subtraction with this exact result makes of memory, and whether it reports
    // success.
    ghost predicate Added(mem0: memory, mem1: memory, ok: bool, r: int)
      reads `a, `d
    {
      SumStored(mem0, mem1, a, d, ok, r)
    }

    // What the comparison of loaded operands computes, told of memory.
    lemma CompareReads(op1: Operand, op2: Operand)
      requires Valid() && Loaded(op1, a, d) && Loaded(op2, x, t)
      requires Proper(Memory(), a, d) && Proper(Memory(), x, t)
      ensures op1.Proper() && op2.Proper()
      ensures DecimalCompare.CompareScaled(op1.Number(), op1.decimalPoint, op2.Number(), op2.decimalPoint)
           == Comparison()
    {
      OperandReads(op1, View(Memory(), a, d), d);
      OperandReads(op2, View(Memory(), x, t), t);
    }

    method CompareLoaded(op1: Operand, op2: Operand) returns (w: word)
      requires Valid() && Loaded(op1, a, d) && Loaded(op2, x, t)
      requires Proper(Memory(), a, d) && Proper(Memory(), x, t)
      ensures w == if Comparison() > 0 then 1 else if Comparison() < 0 then 0xFFFF else 0
    {
      var cmp := CompareBuffers(op1, op2);
      w := if cmp > 0 then 1 else if cmp < 0 then 0xFFFF else 0;
    }

    // bcd_compare on loaded operands.
    method CompareBuffers(op1: Operand, op2: Operand) returns (cmp: int)
      requires Valid() && Loaded(op1, a, d) && Loaded(op2, x, t)
      requires Proper(Memory(), a, d) && Proper(Memory(), x, t)
      ensures cmp == Comparison() && -1 <= cmp <= 1
    {
      CompareReads(op1, op2);
      cmp := DecimalCompare.Compare(op1, op2);
    }

    // COMD. A is 1, 0 or -1 as the first operand, its number over its power of ten, is greater than
    // the second, equal or less; memory stays.
    method CompareDecimal()
      requires Valid() && Proper(Memory(), a, d) && Proper(Memory(), x, t)
      modifies `a, `p
      ensures !Legal(d) || !Legal(t) ==> a == old(a) && p == old(p)
      ensures (Legal(d) && Legal(t) ==>
                 var u := Number(Memory(), old(a), d) * Pow10(PointOf(t));
                 var v := Number(Memory(), x, t) * Pow10(PointOf(d));
                 p == Place(old(p), 1) && a == if u > v then 1 else if u < v then 0xFFFF else 0)
    {
      DecimalCompare.CompareCross(Number(Memory(), a, d), PointOf(d), Number(Memory(), x, t), PointOf(t));
      var ok2, op2 := GetOperand(x, t);
      if !ok2 {
        return;
      }
      var ok1, op1 := GetOperand(a, d);
      if !ok1 {
        return;
      }
      a := CompareLoaded(op1, op2);
      p := Place(p, 1);
    }

    // The comparison of the two fields, each at its decimal point.
    ghost function Comparison(): int
      reads this, mem
      requires Valid()
    {
      DecimalCompare.CompareScaled(Number(Memory(), a, d), PointOf(d), Number(Memory(), x, t), PointOf(t))
    }

    // What the shift of loaded operands computes, told of memory.
    lemma ShiftReads(op1: Operand, op2: Operand)
      requires Valid() && Loaded(op1, a, d) && Loaded(op2, x, t)
      ensures op2.fieldLength == LengthOf(t) && op2.Buffer() == Nibbles(View(Memory(), x, t))
      ensures op1.SignificantDigits() == SignificantIn(View(Memory(), a, d), d)
      ensures ShiftResult(Memory())
           == DecimalShift.Shifted(Value(op1.SignificantDigits()), op1.decimalPoint - op2.decimalPoint, op2.roundingOn)
      ensures ShiftCode(Memory()) == SignCode(op2.unsigned, op1.FieldSign())
      ensures Digits(op1.SignificantDigits()) ==> ShiftResult(Memory()) >= 0
    {
      OperandReads(op1, View(Memory(), a, d), d);
      OperandReads(op2, View(Memory(), x, t), t);
      if Digits(op1.SignificantDigits()) {
        ValueBounds(op1.SignificantDigits());
        DecimalShift.ShiftedNat(Value(op1.SignificantDigits()), op1.decimalPoint - op2.decimalPoint, op2.roundingOn);
      }
    }

    // bcd_shde up to the store.
    method ShiftBuffers(op2: Operand, op1: Operand) returns (ok: bool)
      requires Valid() && Loaded(op1, a, d) && Loaded(op2, x, t) && op1.words != op2.words
      requires Digits(SignificantIn(View(Memory(), a, d), d))
      modifies op2.words
      ensures ShiftResult(Memory()) >= 0 && (LengthOf(t) == 0 ==> !ok)
      ensures LengthOf(t) > 0 ==> (ok <==> ShiftResult(Memory()) < Pow10(Capacity(LengthOf(t))))
      ensures LengthOf(t) > 0 ==> op2.Stores(Nibbles(View(Memory(), x, t)), ShiftResult(Memory()), ShiftCode(Memory()))
    {
      ShiftReads(op1, op2);
      ok := DecimalShift.Shift(op2, op1);
    }

    method ShiftLoaded(op2: Operand, op1: Operand) returns (ok: bool)
      requires Valid() && Loaded(op1, a, d) && Loaded(op2, x, t) && op1.words != op2.words
      requires Digits(SignificantIn(View(Memory(), a, d), d))
      modifies mem, op2.words
      ensures ShiftDone(old(Memory()), Memory(), ok)
    {
      ghost var mem0 := Memory();
      ok := ShiftBuffers(op2, op1);
      if op2.fieldLength > 0 {
        StoreOperand(op2, t);
        ResultInMemory(op2, View(mem0, x, t), mem0, t, ShiftResult(mem0), ShiftCode(mem0));
      }
    }

    // SHDE. The second field takes the first one's digits moved by the difference of the decimal
    // points, rounded if it asks for it.
    method ShiftDecimal() returns (skip: bool)
      requires Valid() && Digits(SignificantIn(View(Memory(), a, d), d))
      modifies mem, `p
      ensures !Legal(d) || !Legal(t) ==> !skip && Memory() == old(Memory())
      ensures Legal(d) && Legal(t) ==> ShiftDone(old(Memory()), Memory(), skip)
      ensures p == if skip then Place(old(p), 1) else old(p)
    {
      var ok2, op2 := GetOperand(x, t);
      if !ok2 {
        return false;
      }
      var ok1, op1 := GetOperand(a, d);
      if !ok1 {
        return false;
      }
      skip := ShiftLoaded(op2, op1);
      if skip {
        p := Place(p, 1);
      }
    }

    ghost function ShiftResult(mem0: memory): int
      reads `a, `d, `t
    {
      ShiftedValue(mem0, a, d, t)
    }

    ghost function ShiftCode(mem0: memory): nibble
      reads `a, `d, `t
    {
      ShiftedCode(mem0, a, d, t)
    }

    ghost predicate ShiftDone(mem0: memory, mem1: memory, ok: bool)
      reads `a, `d, `x, `t
    {
      ShiftStored(mem0, mem1, a, d, x, t, ok)
    }
  }
}
