/**
 MOVB: a move of up to 4095 bytes between packed fields of one address space, in the direction
 that the two byte positions choose.
 */
module MoveBytes {
  import opened Words

  // Byte positions of a 64K-word address space: twice the word address plus the half.
  const SPACE: nat := 0x2_0000

  type position = p: int | 0 <= p < 0x2_0000

  type memory = m: seq<byte> | |m| == 0x2_0000 witness seq(0x2_0000, _ => 0)

  // Position i bytes into a field; addresses wrap.
  function At(base: position, i: nat): position {
    (base + i) % SPACE
  }

  // How far into a field that begins at base a position lies.
  function Offset(base: position, p: position): (i: nat)
    ensures i < SPACE
  {
    (p - base) % SPACE
  }

  lemma OffsetAt(base: position, i: nat)
    requires i < SPACE
    ensures Offset(base, At(base, i)) == i
  {
  }

  lemma AtOffset(base: position, p: position)
    ensures At(base, Offset(base, p)) == p
  {
  }

  // ---- The move meant: every byte of the destination field is the original source byte ----

  function Moved(b: memory, s: position, d: position, len: nat): memory {
    seq(SPACE, p requires 0 <= p < SPACE => if Offset(d, p) < len then b[At(s, Offset(d, p))] else b[p])
  }

  // The bytes of a moved field, wherever the two fields lie, and those outside it.
  lemma MovedBytes(b: memory, s: position, d: position, len: nat, i: nat)
    requires i < SPACE
    ensures Moved(b, s, d, len)[(d + i) % 0x2_0000] == if i < len then b[(s + i) % 0x2_0000] else b[(d + i) % 0x2_0000]
  {
    OffsetAt(d, i);
  }

  // ---- The two loops, one byte at a time ----

  function CopyByte(b: memory, s: position, d: position, i: nat): memory {
    b[At(d, i) := b[At(s, i)]]
  }

  // Bytes 0 to i - 1, upward.
  function CopyUp(b: memory, s: position, d: position, i: nat): memory {
    if i == 0 then b else CopyByte(CopyUp(b, s, d, i - 1), s, d, i - 1)
  }

  // Bytes len - 1 down to i.
  function CopyDown(b: memory, s: position, d: position, len: nat, i: nat): memory
    requires i <= len
    decreases len - i
  {
    if i == len then b else CopyByte(CopyDown(b, s, d, len, i + 1), s, d, i)
  }

  // Downward when the source lies before the destination.
  function Copied(b: memory, s: position, d: position, len: nat): memory {
    if s < d then CopyDown(b, s, d, len, 0) else CopyUp(b, s, d, len)
  }

  // The span from the first byte of the lower field to the last of the upper fits the space.
  predicate Clear(s: position, d: position, len: nat) {
    (if s < d then d - s else s - d) + len <= SPACE
  }

  // Where a source byte lies in the destination field, the fields not meeting again.
  lemma SourceAhead(s: position, d: position, i: nat)
    requires d <= s && s - d + i < SPACE
    ensures Offset(d, At(s, i)) == s - d + i
  {
  }

  lemma SourceBehind(s: position, d: position, i: nat)
    requires s < d && d - s + i < SPACE
    ensures Offset(d, At(s, i)) == if i >= d - s then i - (d - s) else SPACE + i - (d - s)
  {
  }

  // An upward copy never reads what it has written.
  lemma {:induction false} UpExact(b: memory, s: position, d: position, len: nat, i: nat)
    requires d <= s && Clear(s, d, len) && i <= len < SPACE
    ensures CopyUp(b, s, d, i) == Moved(b, s, d, i)
  {
    if i > 0 {
      UpExact(b, s, d, len, i - 1);
      SourceAhead(s, d, i - 1);
      StepExact(b, s, d, i - 1);
    }
  }

  // One more byte of an upward copy whose source byte is not yet overwritten.
  lemma StepExact(b: memory, s: position, d: position, i: nat)
    requires i < SPACE && Offset(d, At(s, i)) >= i
    ensures CopyByte(Moved(b, s, d, i), s, d, i) == Moved(b, s, d, i + 1)
  {
    var r := CopyByte(Moved(b, s, d, i), s, d, i);
    forall p: position
      ensures r[p] == Moved(b, s, d, i + 1)[p]
    {
      OffsetAt(d, i);
      AtOffset(d, p);
    }
  }

  // Bytes from i on have been moved.
  function MovedFrom(b: memory, s: position, d: position, len: nat, i: nat): memory {
    seq(SPACE, p requires 0 <= p < SPACE => if i <= Offset(d, p) < len then b[At(s, Offset(d, p))] else b[p])
  }

  lemma {:induction false} DownExact(b: memory, s: position, d: position, len: nat, i: nat)
    requires s < d && Clear(s, d, len) && i <= len < SPACE
    ensures CopyDown(b, s, d, len, i) == MovedFrom(b, s, d, len, i)
    decreases len - i
  {
    if i < len {
      DownExact(b, s, d, len, i + 1);
      SourceBehind(s, d, i);
      StepDownExact(b, s, d, len, i);
    }
  }

  lemma StepDownExact(b: memory, s: position, d: position, len: nat, i: nat)
    requires i < len < SPACE && (Offset(d, At(s, i)) <= i || Offset(d, At(s, i)) >= len)
    ensures CopyByte(MovedFrom(b, s, d, len, i + 1), s, d, i) == MovedFrom(b, s, d, len, i)
  {
    var r := CopyByte(MovedFrom(b, s, d, len, i + 1), s, d, i);
    forall p: position
      ensures r[p] == MovedFrom(b, s, d, len, i)[p]
    {
      OffsetAt(d, i);
      AtOffset(d, p);
    }
  }

  lemma CopiedIsMoved(b: memory, s: position, d: position, len: nat)
    requires len < SPACE && Clear(s, d, len)
    ensures Copied(b, s, d, len) == Moved(b, s, d, len)
  {
    if s < d {
      DownExact(b, s, d, len, 0);
      assert MovedFrom(b, s, d, len, 0) == Moved(b, s, d, len);
    } else {
      UpExact(b, s, d, len, len);
    }
  }

  // ---- Where it fails: the fields meet again around the end of the space ----

  // A memory with one byte set.
  function Lone(p: position): memory {
    seq(SPACE, q => if q == p then 1 else 0)
  }

  // Later steps of an upward copy leave a byte alone that they do not write.
  lemma {:induction false} UpKeeps(b: memory, s: position, d: position, p: position, i: nat, j: nat)
    requires i <= j <= SPACE && !(i <= Offset(d, p) < j)
    ensures CopyUp(b, s, d, j)[p] == CopyUp(b, s, d, i)[p]
    decreases j - i
  {
    if i < j {
      OffsetAt(d, j - 1);
      UpKeeps(b, s, d, p, i, j - 1);
    }
  }

  lemma {:induction false} DownKeeps(b: memory, s: position, d: position, len: nat, p: position, i: nat, j: nat)
    requires i <= j <= len < SPACE && !(i <= Offset(d, p) < j)
    ensures CopyDown(b, s, d, len, i)[p] == CopyDown(b, s, d, len, j)[p]
    decreases j - i
  {
    if i < j {
      OffsetAt(d, i);
      DownKeeps(b, s, d, len, p, i + 1, j);
    }
  }

  lemma SourceOfFirst(s: position, d: position)
    requires d < s
    ensures At(s, SPACE - (s - d)) == d && At(s, 0) == s && At(d, 0) == d
  {
  }

  // Upward, byte e of the source is the first byte of the destination: it is gone when read.
  lemma UpFails(s: position, d: position, len: nat)
    requires d <= s && !Clear(s, d, len) && len < SPACE
    ensures CopyUp(Lone(d), s, d, len) != Moved(Lone(d), s, d, len)
  {
    var b, e := Lone(d), SPACE - (s - d);
    var p := At(d, e);
    OffsetAt(d, e);
    OffsetAt(d, 0);
    SourceOfFirst(s, d);
    FirstOverwritten(s, d);
    UpKeeps(b, s, d, d, 1, e);
    assert CopyUp(b, s, d, e + 1) == CopyByte(CopyUp(b, s, d, e), s, d, e);
    UpKeeps(b, s, d, p, e + 1, len);
    assert Moved(b, s, d, len)[p] == b[d];
  }

  lemma FirstOverwritten(s: position, d: position)
    requires d < s
    ensures CopyUp(Lone(d), s, d, 1)[d] == 0
  {
    SourceOfFirst(s, d);
    assert CopyUp(Lone(d), s, d, 1) == CopyByte(CopyUp(Lone(d), s, d, 0), s, d, 0);
  }

  // Downward, the last byte of the destination is a source byte not yet read.
  lemma DownFails(s: position, d: position, len: nat)
    requires s < d && !Clear(s, d, len) && len < SPACE
    ensures CopyDown(Lone(At(d, len - 1)), s, d, len, 0) != Moved(Lone(At(d, len - 1)), s, d, len)
  {
    var last := At(d, len - 1);
    var b, k := Lone(last), d - s + len - 1 - SPACE;
    assert k < len - 1;
    var p := At(d, k);
    OffsetAt(d, k);
    OffsetAt(d, len - 1);
    SourceOfLast(s, d, len);
    assert CopyDown(b, s, d, len, len - 1) == CopyByte(CopyDown(b, s, d, len, len), s, d, len - 1);
    assert At(s, len - 1) != last;
    assert CopyDown(b, s, d, len, len - 1)[last] == 0;
    DownKeeps(b, s, d, len, last, k + 1, len - 1);
    assert CopyDown(b, s, d, len, k)[p] == CopyDown(b, s, d, len, k + 1)[last] == 0;
    DownKeeps(b, s, d, len, p, 0, k);
    assert Moved(b, s, d, len)[p] == b[last] == 1;
  }

  lemma SourceOfLast(s: position, d: position, len: nat)
    requires s < d && !Clear(s, d, len) && len < SPACE
    ensures At(s, d - s + len - 1 - SPACE) == At(d, len - 1) && At(s, len - 1) != At(d, len - 1)
  {
  }

  // The move is overlap-safe on every memory exactly when the two fields do not meet again
  // around the end of the address space.
  lemma OverlapSafeIff(s: position, d: position, len: nat)
    requires len < SPACE
    ensures (forall b: memory :: Copied(b, s, d, len) == Moved(b, s, d, len)) <==> Clear(s, d, len)
  {
    if Clear(s, d, len) {
      forall b: memory
        ensures Copied(b, s, d, len) == Moved(b, s, d, len)
      {
        CopiedIsMoved(b, s, d, len);
      }
    } else if s < d {
      DownFails(s, d, len);
      assert Copied(Lone(At(d, len - 1)), s, d, len) != Moved(Lone(At(d, len - 1)), s, d, len);
    } else {
      UpFails(s, d, len);
      assert Copied(Lone(d), s, d, len) != Moved(Lone(d), s, d, len);
    }
  }

  // ---- The instruction ----

  // The word of a field's byte i.
  function WordOf(base: word, half: nat, i: nat): word { (base + (i + half) / 2) % 0x10000 }

  lemma WordAndHalf(base: word, half: nat, i: nat)
    requires half < 2 && i < 0x1000
    ensures At(2 * base + half, i) == 2 * WordOf(base, half, i) + (i + half) % 2
  {
    var q, r := (i + half) / 2, (i + half) % 2;
    assert 2 * base + half + i == 2 * (base + q) + r;
    DoubledSum(base + q, r);
  }

  lemma DoubledSum(w: nat, r: nat)
    requires w < 0x2_0000 && r < 2
    ensures (2 * w + r) % 0x2_0000 == 2 * (w % 0x10000) + r
  {
    if w < 0x10000 {
      assert w % 0x10000 == w;
    } else {
      assert w % 0x10000 == w - 0x10000 && 2 * w + r == 0x2_0000 + 2 * (w - 0x10000) + r;
    }
  }

  // The word a loop accesses last in a field; no byte moved leaves it zero.
  function LastWord(base: word, half: nat, len: nat, down: bool): word {
    if len == 0 then 0 else WordOf(base, half, if down then 0 else len - 1)
  }

  // The word address left in A or X: the words of the field counted from the word accessed last.
  function EndAddress(base: word, half: nat, len: nat, down: bool): word {
    Advance(LastWord(base, half, len, down), half, len)
  }

  // The words of a field counted on from a word.
  function Advance(w: word, half: nat, len: nat): word { (w + (len + half) / 2) % 0x10000 }

  // A or X is left at the word after the field, as the half bit is at its half, exactly when the
  // last access was in the first word of the field: after a downward move, an upward one within
  // that word, or, moving nothing, in a field at word 0.
  lemma AddressAtEndIff(base: word, half: nat, len: nat, down: bool)
    requires half < 2 && len < 0x1000
    ensures EndAddress(base, half, len, down) == WordOf(base, half, len)
       <==> if len == 0 then base == 0 else down || len + half <= 2
  {
    SameSum(LastWord(base, half, len, down), base, (len + half) / 2);
    if len > 0 {
      FirstWordIff(base, half, if down then 0 else len - 1);
    }
  }

  lemma FirstWordIff(base: word, half: nat, i: nat)
    requires half < 2 && i < 0x1000
    ensures WordOf(base, half, i) == base <==> i + half < 2
  {
    if i + half < 2 {
      assert (i + half) / 2 == 0;
    } else {
      assert 0 < (i + half) / 2 < 0x1001;
    }
  }

  lemma SameSum(u: word, v: word, n: nat)
    ensures (u + n) % 0x10000 == (v + n) % 0x10000 <==> u == v
  {
  }

  function LengthOf(control: word): (n: nat)
    ensures n < 0x1000
  {
    control % 0x1000
  }

  function HalfOf(control: word): (h: nat)
    ensures h < 2
  {
    control / 0x8000
  }

  // Bits 12-14 of a descriptor's control word, which the instruction keeps.
  function KeptBits(control: word): nat { control / 0x1000 % 8 * 0x1000 }

  class Cpu {
    const mem: array<word>
    var a: word
    var d: word
    var t: word
    var x: word
    var p: word

    ghost predicate Valid()
      reads this
    {
      mem.Length == 0x10000
    }

    ghost function Memory(): memory
      reads this, mem
      requires Valid()
    {
      Bytes(mem[..])
    }

    method ReadByte(addr: word, half: nat) returns (v: byte)
      requires Valid() && half < 2
      ensures v == Memory()[2 * addr + half]
    {
      ByteAt(mem[..], addr, half);
      v := ByteOf(mem[addr], half);
    }

    method WriteByte(addr: word, half: nat, v: byte)
      requires Valid() && half < 2
      modifies mem
      ensures Memory() == old(Memory())[2 * addr + half := v]
    {
      ByteStore(mem[..], addr, half, v);
      mem[addr] := WithByte(mem[addr], half, v);
      assert mem[..] == old(mem[..])[addr := mem[addr]];
    }

    // Moves byte i; returns the two words accessed.
    method MoveByte(source: word, sourceHalf: nat, dest: word, destHalf: nat, i: nat)
      returns (addrS: word, addrD: word)
      requires Valid() && sourceHalf < 2 && destHalf < 2 && i < 0x1000
      modifies mem
      ensures Memory() == CopyByte(old(Memory()), 2 * source + sourceHalf, 2 * dest + destHalf, i)
      ensures addrS == WordOf(source, sourceHalf, i) && addrD == WordOf(dest, destHalf, i)
    {
      WordAndHalf(source, sourceHalf, i);
      WordAndHalf(dest, destHalf, i);
      addrS, addrD := (source + (i + sourceHalf) / 2) % 0x10000, (dest + (i + destHalf) / 2) % 0x10000;
      var v := ReadByte(addrS, (i + sourceHalf) % 2);
      WriteByte(addrD, (i + destHalf) % 2, v);
    }

    method CopyFieldDown(source: word, sourceHalf: nat, dest: word, destHalf: nat, len: nat)
      returns (addrS: word, addrD: word)
      requires Valid() && sourceHalf < 2 && destHalf < 2 && len < 0x1000
      modifies mem
      ensures Memory() == CopyDown(old(Memory()), 2 * source + sourceHalf, 2 * dest + destHalf, len, 0)
      ensures addrS == LastWord(source, sourceHalf, len, true) && addrD == LastWord(dest, destHalf, len, true)
    {
      ghost var b := Memory();
      var i: nat := len;
      addrS, addrD := 0, 0;
      while i > 0
        invariant i <= len && Memory() == CopyDown(b, 2 * source + sourceHalf, 2 * dest + destHalf, len, i)
        invariant addrS == if i == len then 0 else WordOf(source, sourceHalf, i)
        invariant addrD == if i == len then 0 else WordOf(dest, destHalf, i)
      {
        i := i - 1;
        addrS, addrD := MoveByte(source, sourceHalf, dest, destHalf, i);
      }
    }

    method CopyFieldUp(source: word, sourceHalf: nat, dest: word, destHalf: nat, len: nat)
      returns (addrS: word, addrD: word)
      requires Valid() && sourceHalf < 2 && destHalf < 2 && len < 0x1000
      modifies mem
      ensures Memory() == CopyUp(old(Memory()), 2 * source + sourceHalf, 2 * dest + destHalf, len)
      ensures addrS == LastWord(source, sourceHalf, len, false) && addrD == LastWord(dest, destHalf, len, false)
    {
      ghost var b := Memory();
      var i: nat := 0;
      addrS, addrD := 0, 0;
      while i < len
        invariant i <= len && Memory() == CopyUp(b, 2 * source + sourceHalf, 2 * dest + destHalf, i)
        invariant addrS == LastWord(source, sourceHalf, i, false) && addrD == LastWord(dest, destHalf, i, false)
      {
        addrS, addrD := MoveByte(source, sourceHalf, dest, destHalf, i);
        i := i + 1;
      }
    }

    // The overlap-safe move of a field at the half each control word names: exact for every memory
    // when the fields do not meet again.
    method CopyField(source: word, sourceControl: word, dest: word, destControl: word, len: nat)
      returns (addrS: word, addrD: word)
      requires Valid() && len < 0x1000
      modifies mem
      ensures Memory() == Copied(old(Memory()), Position(source, sourceControl), Position(dest, destControl), len)
      ensures (Clear(Position(source, sourceControl), Position(dest, destControl), len)
               ==> Memory() == Moved(old(Memory()), Position(source, sourceControl), Position(dest, destControl), len))
      ensures (var down := Position(source, sourceControl) < Position(dest, destControl);
               && addrS == LastWord(source, HalfOf(sourceControl), len, down)
               && addrD == LastWord(dest, HalfOf(destControl), len, down))
    {
      ghost var s, d' := Position(source, sourceControl), Position(dest, destControl);
      if Clear(s, d', len) {
        CopiedIsMoved(Memory(), s, d', len);
      }
      var sourceHalf, destHalf := HalfOf(sourceControl), HalfOf(destControl);
      if 2 * source + sourceHalf < 2 * dest + destHalf {
        addrS, addrD := CopyFieldDown(source, sourceHalf, dest, destHalf, len);
      } else {
        addrS, addrD := CopyFieldUp(source, sourceHalf, dest, destHalf, len);
      }
    }

    // D and T point at the half after the field; T keeps the length moved.
    method SetEnd(len: nat, destHalf: nat)
      requires len < 0x1000 && destHalf < 2
      modifies `d, `t
      ensures LengthOf(t) == len && LengthOf(d) == 0
      ensures HalfOf(d) == (len + destHalf) % 2 && HalfOf(t) == (len + destHalf) % 2
      ensures KeptBits(d) == old(KeptBits(d)) && KeptBits(t) == old(KeptBits(t))
    {
      var parity := (len + destHalf) % 2;
      ControlWord(KeptBits(d), parity, 0);
      ControlWord(KeptBits(t), parity, len);
      d, t := KeptBits(d) + parity * 0x8000, KeptBits(t) + parity * 0x8000 + len;
    }

    // A and X from the words accessed last.
    method SetAddresses(addrS: word, addrD: word, len: nat, sourceHalf: nat, destHalf: nat)
      modifies `a, `x
      ensures a == Advance(addrS, sourceHalf, len) && x == Advance(addrD, destHalf, len)
    {
      a, x := (addrS + (len + sourceHalf) / 2) % 0x10000, (addrD + (len + destHalf) / 2) % 0x10000;
    }

    // The smaller of the two lengths is moved.
    method MoveField() returns (len: nat, addrS: word, addrD: word)
      requires Valid()
      modifies mem
      ensures len == Min(LengthOf(d), LengthOf(t))
      ensures Memory() == Copied(old(Memory()), Position(a, d), Position(x, t), len)
      ensures (Clear(Position(a, d), Position(x, t), len)
               ==> Memory() == Moved(old(Memory()), Position(a, d), Position(x, t), len))
      ensures addrS == LastWord(a, HalfOf(d), len, Position(a, d) < Position(x, t))
      ensures addrD == LastWord(x, HalfOf(t), len, Position(a, d) < Position(x, t))
    {
      var lens: int, lend: int := LengthOf(d), LengthOf(t);
      len := if lens - lend < 0 then lens else lend;
      addrS, addrD := CopyField(a, d, x, t, len);
    }

    // The end state: D and T, A and X, and the skip.
    method Finish(len: nat, addrS: word, addrD: word)
      requires len < 0x1000
      modifies `a, `d, `t, `x, `p
      ensures LengthOf(t) == len && LengthOf(d) == 0
      ensures HalfOf(d) == HalfOf(t) == At(old(Position(x, t)), len) % 2
      ensures a == Advance(addrS, old(HalfOf(d)), len) && x == Advance(addrD, old(HalfOf(t)), len)
      ensures KeptBits(d) == old(KeptBits(d)) && KeptBits(t) == old(KeptBits(t))
      ensures p == (old(p) + 1) % 0x10000
    {
      var sourceHalf, destHalf := HalfOf(d), HalfOf(t);
      EndHalf(x, t, len);
      SetEnd(len, destHalf);
      SetAddresses(addrS, addrD, len, sourceHalf, destHalf);
      p := (p + 1) % 0x10000;
    }

    // The move, then the end state; the next instruction is skipped.
    method Movb() returns (len: nat)
      requires Valid()
      modifies `a, `d, `t, `x, `p, mem
      ensures len == Min(old(LengthOf(d)), old(LengthOf(t))) < 0x1000
      ensures len <= old(d) % 0x1000 && len <= old(t) % 0x1000 && (len == old(d) % 0x1000 || len == old(t) % 0x1000)
      ensures Memory() == Copied(old(Memory()), old(Position(a, d)), old(Position(x, t)), len)
      ensures (Clear(old(Position(a, d)), old(Position(x, t)), len)
               ==> Memory() == Moved(old(Memory()), old(Position(a, d)), old(Position(x, t)), len))
      ensures LengthOf(t) == len && LengthOf(d) == 0
      ensures HalfOf(d) == HalfOf(t) == At(old(Position(x, t)), len) % 2
      ensures a == EndAddress(old(a), old(HalfOf(d)), len, old(Position(a, d) < Position(x, t)))
      ensures x == EndAddress(old(x), old(HalfOf(t)), len, old(Position(a, d) < Position(x, t)))
      ensures KeptBits(d) == old(KeptBits(d)) && KeptBits(t) == old(KeptBits(t))
      ensures p == (old(p) + 1) % 0x10000
    {
      var addrS, addrD;
      len, addrS, addrD := MoveField();
      Finish(len, addrS, addrD);
    }
  }

  function Min(m: nat, n: nat): nat { if m < n then m else n }

  // A byte position is twice a word address for a clear bit 15, and one more for a set one; the byte
  // there is the left and the right half of the word.
  lemma PositionByte(ws: seq<word>, addr: word, control: word)
    requires |ws| == 0x10000
    ensures Bytes(ws)[Position(addr, control)] == if control < 0x8000 then ws[addr] / 0x100 else ws[addr] % 0x100
  {
    ByteAt(ws, addr, HalfOf(control));
    NibbleWeights(ws[addr]);
  }

  // Where a field begins: its word address and the half its control word names.
  function Position(addr: word, control: word): position { 2 * addr + HalfOf(control) }

  lemma EndHalf(addr: word, control: word, n: nat)
    ensures At(Position(addr, control), n) % 2 == (n + HalfOf(control)) % 2
  {
  }

  lemma ControlWord(kept: nat, half: nat, len: nat)
    requires kept % 0x1000 == 0 && kept < 0x8000 && half < 2 && len < 0x1000
    ensures var w := kept + half * 0x8000 + len;
            0 <= w < 0x10000 && LengthOf(w) == len && HalfOf(w) == half && KeptBits(w) == kept
  {
  }
}
