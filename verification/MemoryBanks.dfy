/**
 The registry of physical memory banks: registration, removal, device banks laid over local
 RAM, and lookup.
 */
module MemoryBanks {

  const MAX_BANKS: nat := 16
  const LIMIT: nat := 0x1_0000_0000

  type u32 = x: int | 0 <= x < LIMIT

  datatype Kind = None | Local | Mpm5 | Pioc | Mpm3 | Mpm4

  // Accessors are host functions; 0 stands for the null pointer.
  datatype Bank = Bank(start: u32, length: u32, kind: Kind, read: nat, write: nat, ctx: nat, exchange: nat) {
    function End(): nat { start + length }
    predicate Holds(w: int) { start <= w < End() }
    predicate Overlaps(from: int, to: int) { from < End() && to > start }
    predicate Plain() { kind == Local && read == 0 && write == 0 }
  }

  const EMPTY := Bank(0, 0, None, 0, 0, 0, 0)

  type Table = seq<Bank>

  // A range that is not empty and does not wrap the 32-bit word address space.
  predicate Range(start: u32, length: u32) {
    length > 0 && start + length < LIMIT
  }

  ghost predicate Sound(bs: Table) {
    && |bs| <= MAX_BANKS
    && (forall i :: 0 <= i < |bs| ==> Range(bs[i].start, bs[i].length))
    && (forall i, j :: 0 <= i < j < |bs| ==> !bs[i].Overlaps(bs[j].start, bs[j].End()))
  }

  // The type of a word, by the first bank that holds it.
  function KindAt(bs: Table, w: int): Kind {
    if bs == [] then None else if bs[0].Holds(w) then bs[0].kind else KindAt(bs[1..], w)
  }

  // Some bank of the table, or none, holds the word.
  predicate Unclaimed(bs: Table, w: int) {
    forall i :: 0 <= i < |bs| ==> !bs[i].Holds(w)
  }

  lemma {:induction false} KindUnclaimed(bs: Table, w: int)
    requires Unclaimed(bs, w)
    ensures KindAt(bs, w) == None
  {
    if bs != [] {
      KindUnclaimed(bs[1..], w);
    }
  }

  // In a table of disjoint banks any bank that holds a word decides its type.
  lemma {:induction false} KindByAnyBank(bs: Table, i: nat, w: int)
    requires Sound(bs) && i < |bs| && bs[i].Holds(w)
    ensures KindAt(bs, w) == bs[i].kind
  {
    if i > 0 {
      assert !bs[0].Holds(w);
      SoundTail(bs);
      KindByAnyBank(bs[1..], i - 1, w);
    }
  }

  lemma SoundTail(bs: Table)
    requires Sound(bs) && bs != []
    ensures Sound(bs[1..])
  {
    forall i, j | 0 <= i < j < |bs| - 1
      ensures !bs[1..][i].Overlaps(bs[1..][j].start, bs[1..][j].End())
    {
      assert !bs[i + 1].Overlaps(bs[j + 1].start, bs[j + 1].End());
    }
  }

  // So lookup does not depend on the order of the table.
  lemma LookupIgnoresOrder(bs: Table, cs: Table, w: int)
    requires Sound(bs) && Sound(cs)
    requires multiset(bs) == multiset(cs)
    ensures KindAt(bs, w) == KindAt(cs, w)
  {
    if Unclaimed(bs, w) {
      KindUnclaimed(bs, w);
      forall j | 0 <= j < |cs|
        ensures !cs[j].Holds(w)
      {
        assert cs[j] in multiset(bs);
      }
      KindUnclaimed(cs, w);
    } else {
      var i :| 0 <= i < |bs| && bs[i].Holds(w);
      assert bs[i] in multiset(cs);
      var j :| 0 <= j < |cs| && cs[j] == bs[i];
      KindByAnyBank(bs, i, w);
      KindByAnyBank(cs, j, w);
    }
  }

  lemma KindByMember(bs: Table, b: Bank, w: int)
    requires Sound(bs) && b in bs && b.Holds(w)
    ensures KindAt(bs, w) == b.kind
  {
    var i :| 0 <= i < |bs| && bs[i] == b;
    KindByAnyBank(bs, i, w);
  }

  // ---- Registration and removal ----

  predicate Clear(bs: Table, start: u32, length: u32) {
    forall i :: 0 <= i < |bs| ==> !bs[i].Overlaps(start, start + length)
  }

  // What the registry accepts as a new bank.
  predicate Acceptable(bs: Table, start: u32, length: u32) {
    Range(start, length) && |bs| < MAX_BANKS && Clear(bs, start, length)
  }

  function Without(bs: Table, i: nat): Table
    requires i < |bs|
  {
    bs[..i] + bs[i + 1..]
  }

  lemma AppendSound(bs: Table, b: Bank)
    requires Sound(bs) && Acceptable(bs, b.start, b.length)
    ensures Sound(bs + [b])
  {
  }

  lemma AppendKind(bs: Table, b: Bank, w: int)
    requires Sound(bs) && Acceptable(bs, b.start, b.length)
    ensures KindAt(bs + [b], w) == if b.Holds(w) then b.kind else KindAt(bs, w)
  {
    AppendSound(bs, b);
    KindFrame(bs, bs + [b], w);
    if b.Holds(w) {
      KindByMember(bs + [b], b, w);
    }
  }

  lemma WithoutSound(bs: Table, i: nat)
    requires Sound(bs) && i < |bs|
    ensures Sound(Without(bs, i))
  {
    var cs := Without(bs, i);
    forall j | 0 <= j < |cs|
      ensures cs[j] == bs[if j < i then j else j + 1]
    {
    }
  }

  lemma WithoutKind(bs: Table, i: nat, w: int)
    requires Sound(bs) && i < |bs|
    ensures KindAt(Without(bs, i), w) == if bs[i].Holds(w) then None else KindAt(bs, w)
  {
    var cs := Without(bs, i);
    WithoutSound(bs, i);
    if bs[i].Holds(w) {
      forall j | 0 <= j < |cs|
        ensures !cs[j].Holds(w)
      {
        assert cs[j] == bs[if j < i then j else j + 1];
      }
      KindUnclaimed(cs, w);
    } else {
      forall b | b in bs && b.Holds(w)
        ensures b in cs
      {
        var j :| 0 <= j < |bs| && bs[j] == b;
        assert cs[if j < i then j else j - 1] == b;
      }
      KindFrame(bs, cs, w);
    }
  }

  // Two sound tables agree on a word that the same bank holds, or no bank holds, in both.
  lemma KindFrame(bs: Table, cs: Table, w: int)
    requires Sound(bs) && Sound(cs)
    requires forall b :: b in bs && b.Holds(w) ==> b in cs
    ensures (exists b :: b in bs && b.Holds(w)) ==> KindAt(cs, w) == KindAt(bs, w)
    ensures Unclaimed(cs, w) ==> KindAt(cs, w) == KindAt(bs, w) == None
    ensures (forall c :: c in cs && c.Holds(w) ==> c in bs) ==> KindAt(cs, w) == KindAt(bs, w)
  {
    if b :| b in bs && b.Holds(w) {
      KindByMember(bs, b, w);
      KindByMember(cs, b, w);
    } else {
      assert Unclaimed(bs, w);
      KindUnclaimed(bs, w);
      if Unclaimed(cs, w) {
        KindUnclaimed(cs, w);
      }
    }
  }

  // ---- A device bank laid over local RAM ----

  // Bank h alone overlaps the range, holds all of it and is plain local RAM, and the table has
  // room for the pieces.
  predicate Splittable(bs: Table, h: nat, start: u32, length: u32) {
    && h < |bs| && Range(start, length)
    && bs[h].Plain() && bs[h].start <= start && start + length <= bs[h].End()
    && (forall i :: 0 <= i < |bs| && i != h ==> !bs[i].Overlaps(start, start + length))
    && |bs| + 1 + (if start + length < bs[h].End() then 1 else 0) - (if start == bs[h].start then 1 else 0) <= MAX_BANKS
  }

  // The low part of the local bank keeps its slot; the new bank and the high part are appended.
  function LowPart(bs: Table, h: nat, b: Bank): Table
    requires h < |bs| && bs[h].start <= b.start
  {
    if b.start > bs[h].start then bs[h := bs[h].(length := b.start - bs[h].start)] else Without(bs, h)
  }

  function HighPart(bs: Table, h: nat, b: Bank): Table
    requires h < |bs| && bs[h].End() < LIMIT && b.End() < LIMIT
  {
    if b.End() < bs[h].End() then [Bank(b.End(), bs[h].End() - b.End(), Local, 0, 0, 0, 0)] else []
  }

  function Split(bs: Table, h: nat, b: Bank): Table
    requires h < |bs| && bs[h].start <= b.start && bs[h].End() < LIMIT && b.End() < LIMIT
  {
    LowPart(bs, h, b) + [b] + HighPart(bs, h, b)
  }

  // The split table with and without a high part.
  lemma SplitParts(bs: Table, h: nat, b: Bank)
    requires Splittable(bs, h, b.start, b.length) && bs[h].End() < LIMIT
    ensures (Split(bs, h, b)
             == if b.End() < bs[h].End()
                then LowPart(bs, h, b) + [b] + [Bank(b.End(), bs[h].End() - b.End(), Local, 0, 0, 0, 0)]
                else LowPart(bs, h, b) + [b])
  {
    assert LowPart(bs, h, b) + [b] + [] == LowPart(bs, h, b) + [b];
  }

  lemma LowPartSound(bs: Table, h: nat, b: Bank)
    requires Sound(bs) && Splittable(bs, h, b.start, b.length)
    ensures Sound(LowPart(bs, h, b))
    ensures Clear(LowPart(bs, h, b), b.start, b.length)
    ensures Clear(LowPart(bs, h, b), b.start, bs[h].End() - b.start)
  {
    var low := LowPart(bs, h, b);
    if b.start > bs[h].start {
      forall i, j | 0 <= i < j < |low|
        ensures !low[i].Overlaps(low[j].start, low[j].End())
      {
        assert !bs[i].Overlaps(bs[j].start, bs[j].End());
      }
    } else {
      WithoutSound(bs, h);
      forall j | 0 <= j < |low|
        ensures low[j] == bs[if j < h then j else j + 1]
      {
      }
    }
  }

  lemma SplitSound(bs: Table, h: nat, b: Bank)
    requires Sound(bs) && Splittable(bs, h, b.start, b.length)
    ensures Sound(Split(bs, h, b))
  {
    var low, high := LowPart(bs, h, b), HighPart(bs, h, b);
    LowPartSound(bs, h, b);
    AppendSound(low, b);
    if high != [] {
      AppendSound(low + [b], high[0]);
    } else {
      assert low + [b] + high == low + [b];
    }
  }

  // Laying a bank over local RAM changes the type of exactly the words of its range.
  lemma SplitKind(bs: Table, h: nat, b: Bank, w: int)
    requires Sound(bs) && Splittable(bs, h, b.start, b.length)
    ensures KindAt(Split(bs, h, b), w) == if b.Holds(w) then b.kind else KindAt(bs, w)
  {
    var cs := Split(bs, h, b);
    SplitSound(bs, h, b);
    if b.Holds(w) {
      assert cs[|LowPart(bs, h, b)|] == b;
      KindByMember(cs, b, w);
    } else if bs[h].Holds(w) {
      KindByAnyBank(bs, h, w);
      if w < b.start {
        assert cs[h] == bs[h].(length := b.start - bs[h].start);
        KindByAnyBank(cs, h, w);
      } else {
        assert cs[|cs| - 1] == HighPart(bs, h, b)[0];
        KindByAnyBank(cs, |cs| - 1, w);
      }
    } else {
      SplitElsewhere(bs, h, b, w);
    }
  }

  lemma SplitElsewhere(bs: Table, h: nat, b: Bank, w: int)
    requires Sound(bs) && Splittable(bs, h, b.start, b.length)
    requires !b.Holds(w) && !bs[h].Holds(w)
    ensures KindAt(Split(bs, h, b), w) == KindAt(bs, w)
  {
    var cs, low := Split(bs, h, b), LowPart(bs, h, b);
    SplitSound(bs, h, b);
    forall c: Bank | c.Holds(w)
      ensures c in bs <==> c in cs
    {
      assert cs == low + [b] + HighPart(bs, h, b);
      LowPartMembers(bs, h, b, c, w);
      assert c in cs ==> c in low;
    }
    KindFrame(bs, cs, w);
  }

  lemma LowPartMembers(bs: Table, h: nat, b: Bank, c: Bank, w: int)
    requires Sound(bs) && Splittable(bs, h, b.start, b.length)
    requires !bs[h].Holds(w) && c.Holds(w)
    ensures c in bs <==> c in LowPart(bs, h, b)
  {
    var low := LowPart(bs, h, b);
    var whole := b.start > bs[h].start;
    if c in bs {
      var i :| 0 <= i < |bs| && bs[i] == c;
      assert low[if whole || i < h then i else i - 1] == c;
    }
    if c in low {
      var i :| 0 <= i < |low| && low[i] == c;
      assert c == bs[if whole || i < h then i else i + 1];
    }
  }

  // ---- The registry as a function of its calls ----

  // The first bank satisfying a test, or the table's length.
  function FirstOverlap(bs: Table, start: u32, length: u32): (h: nat)
    ensures h <= |bs| && (h < |bs| ==> bs[h].Overlaps(start, start + length))
    ensures forall i :: 0 <= i < h ==> !bs[i].Overlaps(start, start + length)
  {
    if bs == [] || bs[0].Overlaps(start, start + length) then 0 else 1 + FirstOverlap(bs[1..], start, length)
  }

  function FirstStart(bs: Table, start: u32): (i: nat)
    ensures i <= |bs| && (i < |bs| ==> bs[i].start == start)
    ensures forall j :: 0 <= j < i ==> bs[j].start != start
  {
    if bs == [] || bs[0].start == start then 0 else 1 + FirstStart(bs[1..], start)
  }

  function Registered(bs: Table, b: Bank): Table {
    if Acceptable(bs, b.start, b.length) then bs + [b] else bs
  }

  function Unregistered(bs: Table, start: u32): Table {
    var i := FirstStart(bs, start);
    if i < |bs| then Without(bs, i) else bs
  }

  function LaidOver(bs: Table, b: Bank): Table {
    var h := FirstOverlap(bs, b.start, b.length);
    if h == |bs| then Registered(bs, b)
    else if Splittable(bs, h, b.start, b.length) && bs[h].End() < LIMIT then Split(bs, h, b)
    else bs
  }

  // The words of a removed bank that lie in installed RAM, given back as local RAM.
  function Returned(b: Bank, memsize: u32): Table {
    if b.start < memsize && b.End() < LIMIT
    then [Bank(b.start, (if b.End() > memsize then memsize else b.End()) - b.start, Local, 0, 0, 0, 0)]
    else []
  }

  function TakenOff(bs: Table, start: u32, memsize: u32): Table {
    var i := FirstStart(bs, start);
    if i < |bs| then Without(bs, i) + Returned(bs[i], memsize) else bs
  }

  // Giving words back to local RAM can never be refused.
  lemma ReturnAccepted(bs: Table, i: nat, memsize: u32)
    requires Sound(bs) && i < |bs| && bs[i].start < memsize
    ensures Returned(bs[i], memsize) != []
    ensures var r := Returned(bs[i], memsize)[0]; Acceptable(Without(bs, i), r.start, r.length)
  {
    var cs := Without(bs, i);
    forall j | 0 <= j < |cs|
      ensures !cs[j].Overlaps(bs[i].start, bs[i].End())
    {
      var k := if j < i then j else j + 1;
      assert cs[j] == bs[k];
      assert k < i ==> !bs[k].Overlaps(bs[i].start, bs[i].End());
      assert i < k ==> !bs[i].Overlaps(bs[k].start, bs[k].End());
    }
  }

  lemma TakenOffSound(bs: Table, start: u32, memsize: u32)
    requires Sound(bs)
    ensures Sound(TakenOff(bs, start, memsize))
  {
    var i := FirstStart(bs, start);
    if i < |bs| {
      WithoutSound(bs, i);
      if start < memsize {
        ReturnAccepted(bs, i, memsize);
        AppendSound(Without(bs, i), Returned(bs[i], memsize)[0]);
      }
    }
  }

  lemma TakenOffKind(bs: Table, start: u32, memsize: u32, w: int)
    requires Sound(bs) && FirstStart(bs, start) < |bs|
    ensures KindAt(TakenOff(bs, start, memsize), w)
         == if !bs[FirstStart(bs, start)].Holds(w) then KindAt(bs, w) else if w < memsize then Local else None
  {
    var i := FirstStart(bs, start);
    WithoutKind(bs, i, w);
    WithoutSound(bs, i);
    if start < memsize {
      ReturnAccepted(bs, i, memsize);
      AppendKind(Without(bs, i), Returned(bs[i], memsize)[0], w);
    } else {
      assert TakenOff(bs, start, memsize) == Without(bs, i);
    }
  }

  // Laying a bank over, where the call accepts it.
  predicate Accepted(bs: Table, b: Bank) {
    var h := FirstOverlap(bs, b.start, b.length);
    if h == |bs| then Acceptable(bs, b.start, b.length) else Splittable(bs, h, b.start, b.length)
  }

  // Two ranges overlap exactly when they have a word in common.
  lemma OverlapsIff(b: Bank, from: int, to: int)
    requires b.length > 0 && from < to
    ensures b.Overlaps(from, to) <==> exists w :: from <= w < to && b.start <= w < b.start + b.length && b.Holds(w)
  {
    var w := if from < b.start then b.start else from;
    assert b.Overlaps(from, to) ==> b.Holds(w);
  }

  // With room for two more, a nonempty range below the end of the address space is accepted exactly
  // when no bank holds any word of it, or one local bank without accessors holds all of them.
  lemma AcceptedIff(bs: Table, b: Bank)
    requires Sound(bs) && |bs| <= 14 && b.length > 0 && b.start + b.length < 0x1_0000_0000
    ensures Accepted(bs, b)
       <==> (forall w :: b.start <= w < b.start + b.length ==> Unclaimed(bs, w))
            || exists h :: 0 <= h < |bs| && bs[h].kind == Local && bs[h].read == 0 && bs[h].write == 0
                           && bs[h].start <= b.start && b.start + b.length <= bs[h].start + bs[h].length
  {
    var h := FirstOverlap(bs, b.start, b.length);
    if h == |bs| {
      forall i, w | 0 <= i < |bs| && b.start <= w < b.start + b.length
        ensures !bs[i].Holds(w)
      {
        OverlapsIff(bs[i], b.start, b.start + b.length);
      }
    } else {
      OverlapsIff(bs[h], b.start, b.start + b.length);
      OnlyHolder(bs, b, h);
      var w :| b.start <= w < b.start + b.length && bs[h].Holds(w);
      assert !Unclaimed(bs, w);
      forall k | 0 <= k < |bs| && bs[k].start <= b.start && b.start + b.length <= bs[k].start + bs[k].length
        ensures k == h && forall i :: 0 <= i < |bs| && i != h ==> !bs[i].Overlaps(b.start, b.start + b.length)
      {
        assert b.start + b.length <= bs[k].End();
      }
    }
  }

  // A bank that holds the whole range is the only one to overlap it.
  lemma OnlyHolder(bs: Table, b: Bank, h: nat)
    requires Sound(bs) && b.length > 0 && h < |bs| && bs[h].Overlaps(b.start, b.start + b.length)
    ensures forall k :: 0 <= k < |bs| && bs[k].start <= b.start && b.start + b.length <= bs[k].End() ==>
              (k == h && forall i :: 0 <= i < |bs| && i != k ==> !bs[i].Overlaps(b.start, b.start + b.length))
  {
    forall k, i | 0 <= k < |bs| && bs[k].start <= b.start && b.start + b.length <= bs[k].End()
                  && 0 <= i < |bs| && i != k
      ensures !bs[i].Overlaps(b.start, b.start + b.length)
    {
      assert i < k ==> !bs[i].Overlaps(bs[k].start, bs[k].End());
      assert k < i ==> !bs[k].Overlaps(bs[i].start, bs[i].End());
    }
  }

  // What is left of a split local bank, and what is given back when a bank is taken off, is local RAM
  // without accessors.
  lemma PartsArePlain(bs: Table, h: nat, b: Bank, memsize: u32, c: Bank)
    requires Splittable(bs, h, b.start, b.length) && bs[h].End() < LIMIT
    ensures c in Split(bs, h, b) && c !in bs && c != b ==> c.kind == Local && c.read == c.write == 0
    ensures c in Returned(b, memsize) ==> c.kind == Local && c.read == c.write == 0
  {
    if c in LowPart(bs, h, b) {
      LowPartPlain(bs, h, b, c);
    }
  }

  lemma LowPartPlain(bs: Table, h: nat, b: Bank, c: Bank)
    requires Splittable(bs, h, b.start, b.length) && c in LowPart(bs, h, b)
    ensures c in bs || (c.kind == Local && c.read == c.write == 0)
  {
    var low := LowPart(bs, h, b);
    var i :| 0 <= i < |low| && low[i] == c;
    if b.start > bs[h].start {
      assert c == if i == h then bs[h].(length := b.start - bs[h].start) else bs[i];
    } else {
      assert c == bs[if i < h then i else i + 1];
    }
  }

  // Laying over changes the type of exactly the words of the range, and the new bank is the one
  // its start names.
  lemma LaidOverKind(bs: Table, b: Bank, w: int)
    requires Sound(bs) && Accepted(bs, b)
    ensures var cs := LaidOver(bs, b);
            && Sound(cs) && FirstStart(cs, b.start) < |cs| && cs[FirstStart(cs, b.start)] == b
            && KindAt(cs, w) == if b.Holds(w) then b.kind else KindAt(bs, w)
  {
    var cs, h := LaidOver(bs, b), FirstOverlap(bs, b.start, b.length);
    LaidOverSound(bs, b);
    if h == |bs| {
      AppendKind(bs, b, w);
      OnlyStart(cs, |bs|);
    } else {
      SplitKind(bs, h, b, w);
      OnlyStart(cs, |LowPart(bs, h, b)|);
    }
  }

  // Any bank laid over and taken off again: the words of its range become local RAM as far as
  // RAM is installed and nothing beyond; no other word changes.
  lemma LayingOverUndone(bs: Table, b: Bank, memsize: u32, w: int)
    requires Sound(bs) && Accepted(bs, b)
    ensures KindAt(TakenOff(LaidOver(bs, b), b.start, memsize), w)
         == if !b.Holds(w) then KindAt(bs, w) else if w < memsize then Local else None
  {
    LaidOverKind(bs, b, w);
    TakenOffKind(LaidOver(bs, b), b.start, memsize, w);
  }

  // A word's type is as before the bank was laid over.
  ghost predicate Restored(bs: Table, b: Bank, memsize: u32, w: int) {
    KindAt(TakenOff(LaidOver(bs, b), b.start, memsize), w) == KindAt(bs, w)
  }

  lemma RestoredAt(bs: Table, b: Bank, memsize: u32, w: int)
    requires Sound(bs) && Accepted(bs, b)
    ensures Restored(bs, b, memsize, w)
       <==> !b.Holds(w) || (if FirstOverlap(bs, b.start, b.length) == |bs| then memsize <= w else w < memsize)
  {
    LayingOverUndone(bs, b, memsize, w);
    if b.Holds(w) {
      KindInRange(bs, b, w);
    }
  }

  // Every type is as before exactly when the range was cut from local RAM and ends inside
  // installed RAM, or was free and begins beyond it.
  lemma LayingOverRestoresIff(bs: Table, b: Bank, memsize: u32)
    requires Sound(bs) && Accepted(bs, b)
    ensures (forall w: int :: Restored(bs, b, memsize, w))
       <==> if FirstOverlap(bs, b.start, b.length) == |bs| then memsize <= b.start else b.End() <= memsize
  {
    var free := FirstOverlap(bs, b.start, b.length) == |bs|;
    assert b.Holds(b.start) && b.Holds(b.End() - 1);
    RestoredAt(bs, b, memsize, b.start);
    RestoredAt(bs, b, memsize, b.End() - 1);
    if if free then memsize <= b.start else b.End() <= memsize {
      forall w: int
        ensures Restored(bs, b, memsize, w)
      {
        RestoredAt(bs, b, memsize, w);
      }
    }
  }

  // The words of installed RAM alone are restored exactly when the range was cut from local RAM, or
  // was free and begins at its end or beyond.
  lemma InstalledRestoredIff(bs: Table, b: Bank, memsize: u32)
    requires Sound(bs) && Accepted(bs, b)
    ensures (forall w: int :: 0 <= w < memsize ==> Restored(bs, b, memsize, w))
       <==> FirstOverlap(bs, b.start, b.length) < |bs| || memsize <= b.start
  {
    RestoredAt(bs, b, memsize, b.start);
    if FirstOverlap(bs, b.start, b.length) < |bs| || memsize <= b.start {
      forall w: int | 0 <= w < memsize
        ensures Restored(bs, b, memsize, w)
      {
        RestoredAt(bs, b, memsize, w);
      }
    }
  }

  // It is not always so: with local RAM unregistered, a bank over installed words that is taken
  // off leaves local RAM where nothing was.
  lemma TakingOffMakesLocal()
    ensures var b := Bank(0, 1, Mpm5, 0, 0, 0, 0);
            Accepted([], b) && KindAt([], 0) == None && KindAt(TakenOff(LaidOver([], b), 0, 1), 0) == Local
  {
    LayingOverUndone([], Bank(0, 1, Mpm5, 0, 0, 0, 0), 1, 0);
  }

  // What an accepted range is made of.
  lemma KindInRange(bs: Table, b: Bank, w: int)
    requires Sound(bs) && Accepted(bs, b) && b.Holds(w)
    ensures KindAt(bs, w) == if FirstOverlap(bs, b.start, b.length) == |bs| then None else Local
  {
    var h := FirstOverlap(bs, b.start, b.length);
    if h < |bs| {
      KindByAnyBank(bs, h, w);
    } else {
      assert forall i :: 0 <= i < |bs| ==> !bs[i].Overlaps(b.start, b.start + b.length);
      KindUnclaimed(bs, w);
    }
  }

  // Starts are unique in a sound table.
  lemma OnlyStart(bs: Table, i: nat)
    requires Sound(bs) && i < |bs|
    ensures FirstStart(bs, bs[i].start) == i
  {
    var j := FirstStart(bs, bs[i].start);
    assert bs[i].Holds(bs[i].start) && bs[j].Holds(bs[i].start);
  }

  // ---- Runs ----

  datatype Call =
    | Register(bank: Bank) | Unregister(start: u32) | LayOver(bank: Bank) | TakeOff(start: u32)
    | SetExchange(start: u32, exchange: nat)
  {
    // The start word the call names.
    function Named(): u32 {
      if Register? || LayOver? then bank.start else start
    }
  }

  function WithExchange(bs: Table, start: u32, exchange: nat): Table {
    var i := FirstStart(bs, start);
    if i < |bs| then bs[i := bs[i].(exchange := exchange)] else bs
  }

  // A registration names no exchange accessor; a range that wraps is refused.
  function Answer(bs: Table, call: Call, memsize: u32): Table {
    match call
    case Register(b) => Registered(bs, b.(exchange := 0))
    case Unregister(start) => Unregistered(bs, start)
    case LayOver(b) => LaidOver(bs, b.(exchange := 0))
    case TakeOff(start) => TakenOff(bs, start, memsize)
    case SetExchange(start, exchange) => WithExchange(bs, start, exchange)
  }

  function AnswerAll(bs: Table, calls: seq<Call>, memsize: u32): Table
    decreases |calls|
  {
    if calls == [] then bs
    else Answer(AnswerAll(bs, calls[..|calls| - 1], memsize), calls[|calls| - 1], memsize)
  }

  // Over every sequence of calls the banks stay nonempty, pairwise disjoint and at most 16.
  lemma {:induction false} RunSound(bs: Table, calls: seq<Call>, memsize: u32)
    requires Sound(bs)
    ensures Sound(AnswerAll(bs, calls, memsize))
    decreases |calls|
  {
    if calls != [] {
      var n := |calls| - 1;
      RunSound(bs, calls[..n], memsize);
      AnswerSound(AnswerAll(bs, calls[..n], memsize), calls[n], memsize);
    }
  }

  lemma AnswerSound(bs: Table, call: Call, memsize: u32)
    requires Sound(bs)
    ensures Sound(Answer(bs, call, memsize))
  {
    match call
    case Register(b) =>
      if Acceptable(bs, b.start, b.length) {
        AppendSound(bs, b.(exchange := 0));
      }
    case Unregister(start) =>
      if FirstStart(bs, start) < |bs| {
        WithoutSound(bs, FirstStart(bs, start));
      }
    case LayOver(b) => LaidOverSound(bs, b.(exchange := 0));
    case TakeOff(start) => TakenOffSound(bs, start, memsize);
    case SetExchange(start, exchange) => ExchangeSound(bs, start, exchange);
  }

  lemma LaidOverSound(bs: Table, b: Bank)
    requires Sound(bs)
    ensures Sound(LaidOver(bs, b))
  {
    var h := FirstOverlap(bs, b.start, b.length);
    if h < |bs| && Splittable(bs, h, b.start, b.length) {
      SplitSound(bs, h, b);
    } else if h == |bs| && Acceptable(bs, b.start, b.length) {
      AppendSound(bs, b);
    }
  }

  lemma ExchangeSound(bs: Table, start: u32, exchange: nat)
    requires Sound(bs)
    ensures Sound(WithExchange(bs, start, exchange))
  {
    var r := WithExchange(bs, start, exchange);
    forall j, k | 0 <= j < k < |r|
      ensures !r[j].Overlaps(r[k].start, r[k].End())
    {
      assert !bs[j].Overlaps(bs[k].start, bs[k].End());
    }
  }

  // ---- Where an exchange accessor can come from ----

  // Some bank of the table starts at the word and has the accessor.
  ghost predicate Has(bs: Table, start: u32, exchange: nat) {
    exists k :: 0 <= k < |bs| && bs[k].start == start && bs[k].exchange == exchange
  }

  // After one call a bank has an accessor because the call gave it, or because it had it and the
  // call, if it names the bank, changed nothing.
  lemma AccessorAfterCall(bs: Table, call: Call, memsize: u32, i: nat)
    requires Sound(bs) && i < |Answer(bs, call, memsize)| && Answer(bs, call, memsize)[i].exchange != 0
    ensures var r := Answer(bs, call, memsize);
            || call == SetExchange(r[i].start, r[i].exchange)
            || (Has(bs, r[i].start, r[i].exchange) && (call.Named() != r[i].start || r == bs))
  {
    var r := Answer(bs, call, memsize);
    match call
    case Register(b) => assert i < |bs| ==> bs[i] == r[i];
    case Unregister(start) => AccessorAfterRemoval(bs, start, [], i);
    case LayOver(b) => AccessorAfterLaying(bs, b.(exchange := 0), i);
    case TakeOff(start) =>
      var k := FirstStart(bs, start);
      AccessorAfterRemoval(bs, start, if k < |bs| then Returned(bs[k], memsize) else [], i);
    case SetExchange(start, exchange) =>
      var k := FirstStart(bs, start);
      assert r[i].start == bs[i].start;
      if bs[i].start == start {
        OnlyStart(bs, i);
      }
  }

  lemma AccessorAfterRemoval(bs: Table, start: u32, more: Table, i: nat)
    requires Sound(bs) && (forall k :: 0 <= k < |more| ==> more[k].exchange == 0)
    requires var r := if FirstStart(bs, start) < |bs| then Without(bs, FirstStart(bs, start)) + more else bs;
             i < |r| && r[i].exchange != 0
    ensures var r := if FirstStart(bs, start) < |bs| then Without(bs, FirstStart(bs, start)) + more else bs;
            Has(bs, r[i].start, r[i].exchange) && (start != r[i].start || r == bs)
  {
    var k := FirstStart(bs, start);
    if k < |bs| {
      var r := Without(bs, k) + more;
      var j := if i < k then i else i + 1;
      assert i < |bs| - 1 && r[i] == bs[j];
      OnlyStart(bs, j);
    } else {
      assert bs[i] == bs[i];
    }
  }

  lemma AccessorAfterLaying(bs: Table, b: Bank, i: nat)
    requires Sound(bs) && b.exchange == 0 && i < |LaidOver(bs, b)| && LaidOver(bs, b)[i].exchange != 0
    ensures var r := LaidOver(bs, b);
            Has(bs, r[i].start, r[i].exchange) && (b.start != r[i].start || r == bs)
  {
    var r, h := LaidOver(bs, b), FirstOverlap(bs, b.start, b.length);
    if h < |bs| && Splittable(bs, h, b.start, b.length) {
      var low := LowPart(bs, h, b);
      assert i < |low| && r[i] == low[i];
      var j := if b.start > bs[h].start || i < h then i else i + 1;
      assert low[i].start == bs[j].start && low[i].exchange == bs[j].exchange;
      assert j != h ==> !bs[j].Overlaps(b.start, b.start + b.length);
    } else if h == |bs| && Acceptable(bs, b.start, b.length) {
      assert i < |bs| && r[i] == bs[i];
      assert !bs[i].Overlaps(b.start, b.start + b.length);
    } else {
      assert r == bs && bs[i].start == r[i].start;
    }
  }

  // Call k gave the bank at start its accessor, and no later call that names it changed anything.
  ghost predicate GivenAt(bs: Table, calls: seq<Call>, memsize: u32, start: u32, exchange: nat, k: nat) {
    && k < |calls| && calls[k] == SetExchange(start, exchange)
    && (forall j :: k < j < |calls| && calls[j].Named() == start ==> Idle(bs, calls, memsize, j))
  }

  ghost predicate Idle(bs: Table, calls: seq<Call>, memsize: u32, j: nat)
    requires j < |calls|
  {
    AnswerAll(bs, calls[..j + 1], memsize) == AnswerAll(bs, calls[..j], memsize)
  }

  // No bank ever has a stale accessor: over every run from a table without any, each accessor was
  // given to the very bank that has it.
  lemma {:induction false} AccessorsGiven(bs: Table, calls: seq<Call>, memsize: u32, i: nat)
    requires Sound(bs) && (forall j :: 0 <= j < |bs| ==> bs[j].exchange == 0)
    requires i < |AnswerAll(bs, calls, memsize)| && AnswerAll(bs, calls, memsize)[i].exchange != 0
    ensures var r := AnswerAll(bs, calls, memsize)[i];
            exists k :: GivenAt(bs, calls, memsize, r.start, r.exchange, k)
    decreases |calls|
  {
    if calls != [] {
      var n := |calls| - 1;
      var before, r := AnswerAll(bs, calls[..n], memsize), AnswerAll(bs, calls, memsize)[i];
      RunSound(bs, calls[..n], memsize);
      AccessorAfterCall(before, calls[n], memsize, i);
      if calls[n] == SetExchange(r.start, r.exchange) {
        assert GivenAt(bs, calls, memsize, r.start, r.exchange, n);
      } else {
        var m :| 0 <= m < |before| && before[m].start == r.start && before[m].exchange == r.exchange;
        AccessorsGiven(bs, calls[..n], memsize, m);
        var k :| GivenAt(bs, calls[..n], memsize, r.start, r.exchange, k);
        assert calls[..n + 1] == calls;
        GivenStill(bs, calls, memsize, r.start, r.exchange, k);
      }
    }
  }

  lemma GivenStill(bs: Table, calls: seq<Call>, memsize: u32, start: u32, exchange: nat, k: nat)
    requires calls != [] && GivenAt(bs, calls[..|calls| - 1], memsize, start, exchange, k)
    requires calls[|calls| - 1].Named() != start || Idle(bs, calls, memsize, |calls| - 1)
    ensures GivenAt(bs, calls, memsize, start, exchange, k)
  {
    var n := |calls| - 1;
    forall j | k < j < |calls| && calls[j].Named() == start
      ensures Idle(bs, calls, memsize, j)
    {
      if j < n {
        IdleInPrefix(bs, calls, memsize, j, n);
      }
    }
  }

  lemma IdleInPrefix(bs: Table, calls: seq<Call>, memsize: u32, j: nat, n: nat)
    requires j < n <= |calls|
    ensures Idle(bs, calls[..n], memsize, j) <==> Idle(bs, calls, memsize, j)
  {
    assert calls[..n][..j] == calls[..j] && calls[..n][..j + 1] == calls[..j + 1];
  }

  // ---- The registry itself ----

  // 32-bit addition.
  function Add32(x: u32, y: u32): u32 {
    if x + y < LIMIT then x + y else x + y - LIMIT
  }

  class Registry {
    const banks: array<Bank>
    const memsize: u32
    var count: nat

    // Slots past the count stay zeroed, so that a bank put there inherits no stale accessor.
    ghost predicate Valid()
      reads this, banks
    {
      && banks.Length == MAX_BANKS && count <= MAX_BANKS
      && Sound(banks[..count])
      && forall i :: count <= i < MAX_BANKS ==> banks[i] == EMPTY
    }

    ghost function Contents(): Table
      reads this, banks
      requires Valid()
    {
      banks[..count]
    }

    // Installed local RAM is the first bank.
    constructor (memsize: u32)
      ensures Valid() && fresh(banks) && this.memsize == memsize
      ensures Contents() == if memsize > 0 then [Bank(0, memsize, Local, 0, 0, 0, 0)] else []
    {
      this.memsize := memsize;
      banks := new Bank[MAX_BANKS](_ => EMPTY);
      count := 0;
      new;
      if memsize > 0 {
        banks[0] := Bank(0, memsize, Local, 0, 0, 0, 0);
        count := 1;
        assert banks[..1] == [Bank(0, memsize, Local, 0, 0, 0, 0)];
      }
    }

    method RegisterBacked(start: u32, length: u32, kind: Kind, read: nat, write: nat, ctx: nat) returns (ok: bool)
      requires Valid()
      modifies this`count, banks
      ensures Valid()
      ensures ok <==> Acceptable(old(Contents()), start, length)
      ensures Contents() == Registered(old(Contents()), Bank(start, length, kind, read, write, ctx, 0))
    {
      if length == 0 || count >= MAX_BANKS || Add32(start, length) < start {
        return false;
      }
      var i := 0;
      while i < count
        invariant 0 <= i <= count
        invariant forall j :: 0 <= j < i ==> !banks[..count][j].Overlaps(start, start + length)
      {
        if start < banks[i].End() && start + length > banks[i].start {
          assert banks[..count][i].Overlaps(start, start + length);
          return false;
        }
        i := i + 1;
      }
      Append(Bank(start, length, kind, read, write, ctx, 0));
      return true;
    }

    method Append(b: Bank)
      requires Valid() && Acceptable(Contents(), b.start, b.length)
      modifies this`count, banks
      ensures Valid() && Contents() == old(Contents()) + [b]
    {
      AppendSound(Contents(), b);
      banks[count] := b;
      count := count + 1;
      assert banks[..count] == old(banks[..count]) + [b];
    }

    // Fill the first free slot field by field. The exchange accessor is not among the fields, so
    // the bank has the one the slot holds: none, because free slots are zeroed.
    method FillSlot(b: Bank)
      requires Valid() && Acceptable(Contents(), b.start, b.length) && b.exchange == 0
      modifies this`count, banks
      ensures Valid() && Contents() == old(Contents()) + [b]
    {
      AppendSound(Contents(), b);
      banks[count] := banks[count].(start := b.start, length := b.length, kind := b.kind,
                                    read := b.read, write := b.write, ctx := b.ctx);
      count := count + 1;
      assert banks[..count] == old(banks[..count]) + [b];
    }

    // Move the banks above slot i one slot down.
    method CloseGap(i: nat)
      requires banks.Length == MAX_BANKS && i < count <= MAX_BANKS
      modifies banks
      ensures banks[..count - 1] == Without(old(banks[..count]), i)
      ensures forall k :: count <= k < MAX_BANKS ==> banks[k] == old(banks[k])
    {
      var j := i;
      while j < count - 1
        invariant i <= j <= count - 1
        invariant forall k :: 0 <= k < i || j <= k < MAX_BANKS ==> banks[k] == old(banks[k])
        invariant forall k :: i <= k < j ==> banks[k] == old(banks[k + 1])
      {
        banks[j] := banks[j + 1];
        j := j + 1;
      }
    }

    // Take slot i out and zero the slot that falls free.
    method Delete(i: nat)
      requires Valid() && i < count
      modifies this`count, banks
      ensures Valid() && Contents() == Without(old(Contents()), i)
    {
      WithoutSound(Contents(), i);
      CloseGap(i);
      count := count - 1;
      banks[count] := EMPTY;
      assert banks[..count] == Without(old(Contents()), i);
    }

    // The slot of the bank that starts at the given word, or the count.
    method FindStart(start: u32) returns (i: nat)
      requires Valid()
      ensures i == FirstStart(Contents(), start)
    {
      i := 0;
      while i < count && banks[i].start != start
        invariant 0 <= i <= count
        invariant forall j :: 0 <= j < i ==> Contents()[j].start != start
      {
        i := i + 1;
      }
    }

    method UnregisterBank(start: u32) returns (ok: bool)
      requires Valid()
      modifies this`count, banks
      ensures Valid()
      ensures ok <==> FirstStart(old(Contents()), start) < |old(Contents())|
      ensures Contents() == Unregistered(old(Contents()), start)
    {
      var i := FindStart(start);
      if i == count {
        return false;
      }
      Delete(i);
      return true;
    }

    // Give a bank its exchange accessor: neither ranges nor types change.
    method SetExchange(start: u32, exchange: nat) returns (ok: bool)
      requires Valid()
      modifies banks
      ensures Valid()
      ensures ok <==> FirstStart(old(Contents()), start) < |old(Contents())|
      ensures Contents() == WithExchange(old(Contents()), start, exchange)
    {
      ghost var bs := Contents();
      var i := FindStart(start);
      if i == count {
        return false;
      }
      banks[i] := banks[i].(exchange := exchange);
      ExchangeSound(bs, start, exchange);
      assert banks[..count] == bs[i := bs[i].(exchange := exchange)];
      return true;
    }

    // Remove the bank at start and give its words in installed RAM back to local RAM.
    method UnregisterOverLocal(start: u32) returns (ok: bool)
      requires Valid()
      modifies this`count, banks
      ensures Valid()
      ensures ok <==> FirstStart(old(Contents()), start) < |old(Contents())|
      ensures Contents() == TakenOff(old(Contents()), start, memsize)
    {
      ghost var bs := Contents();
      var i := FindStart(start);
      var length := if i < count then banks[i].length else 0;
      ok := UnregisterBank(start);
      if ok {
        GiveBack(bs, i, start, length);
      }
    }

    // The ignored result of the registration in here is always true.
    method GiveBack(ghost bs: Table, ghost i: nat, start: u32, length: u32)
      requires Valid() && Sound(bs) && i < |bs| && bs[i].start == start && bs[i].length == length
      requires Contents() == Without(bs, i)
      modifies this`count, banks
      ensures Valid() && Contents() == Without(bs, i) + Returned(bs[i], memsize)
    {
      if start < memsize {
        ReturnAccepted(bs, i, memsize);
        var end := if start + length > memsize then memsize else start + length;
        var accepted := RegisterBacked(start, end - start, Local, 0, 0, 0);
        assert accepted;
      }
    }

    // The one bank the range overlaps, or the count; the range is refused when it overlaps
    // several banks or something other than a plain local bank that holds all of it.
    method FindLocal(start: u32, length: u32) returns (refused: bool, h: nat)
      requires Valid() && Range(start, length)
      ensures h <= count
      ensures !refused && h < count ==>
                && Contents()[h].Plain() && Contents()[h].start <= start && start + length <= Contents()[h].End()
      ensures !refused ==> forall i :: 0 <= i < count && i != h ==> !Contents()[i].Overlaps(start, start + length)
      ensures !refused && h < count ==> Contents()[h].Overlaps(start, start + length)
      ensures refused ==>
                && FirstOverlap(Contents(), start, length) < count
                && !Splittable(Contents(), FirstOverlap(Contents(), start, length), start, length)
    {
      refused, h := false, count;
      ghost var bs := Contents();
      var i := 0;
      while i < count
        invariant 0 <= i <= count && (h == count || h < i)
        invariant h < count ==> bs[h].Plain() && bs[h].start <= start && start + length <= bs[h].End()
        invariant h < count ==> bs[h].Overlaps(start, start + length)
        invariant forall j :: 0 <= j < i && j != h ==> !bs[j].Overlaps(start, start + length)
      {
        var b := banks[i];
        assert b == bs[i];
        if start < b.End() && start + length > b.start {
          if h < count || !b.Plain() || start < b.start || start + length > b.End() {
            return true, h;
          }
          h := i;
        }
        i := i + 1;
      }
    }

    // Make room for the range in the local bank at slot h.
    method CutLocal(h: nat, b: Bank)
      requires Valid() && Splittable(Contents(), h, b.start, b.length)
      modifies this`count, banks
      ensures Valid() && Contents() == LowPart(old(Contents()), h, b)
    {
      ghost var bs := Contents();
      LowPartSound(bs, h, b);
      if b.start > banks[h].start {
        banks[h] := banks[h].(length := b.start - banks[h].start);
        assert banks[..count] == LowPart(bs, h, b);
      } else {
        Delete(h);
      }
    }

    // Lay a bank over local RAM: either the whole table becomes the split one, or, without
    // overlap, the bank is registered, or nothing changes.
    method RegisterOverLocal(start: u32, length: u32, kind: Kind, read: nat, write: nat, ctx: nat) returns (ok: bool)
      requires Valid()
      modifies this`count, banks
      ensures Valid()
      ensures var bs, b := old(Contents()), Bank(start, length, kind, read, write, ctx, 0);
              var h := FirstOverlap(bs, start, length);
              && Contents() == (if Range(start, length) then LaidOver(bs, b) else bs)
              && (ok <==> if h == |bs| then Acceptable(bs, start, length) else Splittable(bs, h, start, length))
    {
      if length == 0 || Add32(start, length) < start {
        return false;
      }
      var refused, h := FindLocal(start, length);
      if refused {
        return false;
      }
      ghost var bs := Contents();
      FirstOverlapIs(bs, start, length, h);
      if h == count {
        ok := RegisterBacked(start, length, kind, read, write, ctx);
        return;
      }
      var ls, le := banks[h].start, banks[h].End();
      var extra := 1 + (if start + length < le then 1 else 0) - (if start == ls then 1 else 0);
      if count + extra > MAX_BANKS {
        return false;
      }
      InsertOver(h, Bank(start, length, kind, read, write, ctx, 0));
      return true;
    }

    method InsertOver(h: nat, b: Bank)
      requires Valid() && Splittable(Contents(), h, b.start, b.length) && b.exchange == 0
      modifies this`count, banks
      ensures Valid() && Contents() == Split(old(Contents()), h, b)
    {
      ghost var bs := Contents();
      LowPartSound(bs, h, b);
      var le := banks[h].End();
      CutLocal(h, b);
      FillSlot(b);
      SplitParts(bs, h, b);
      if b.End() < le {
        Append(Bank(b.End(), le - b.End(), Local, 0, 0, 0, 0));
      }
    }

    // Whether a bank holds a physical word, and the word's type.
    method Lookup(w: u32) returns (found: bool, kind: Kind)
      requires Valid()
      ensures found <==> !Unclaimed(Contents(), w)
      ensures kind == KindAt(Contents(), w)
    {
      var i := 0;
      ghost var bs := Contents();
      while i < count
        invariant 0 <= i <= count
        invariant forall j :: 0 <= j < i ==> !bs[j].Holds(w)
      {
        if banks[i].start <= w < banks[i].End() {
          assert bs[i].Holds(w);
          KindByAnyBank(bs, i, w);
          return true, banks[i].kind;
        }
        assert !bs[i].Holds(w);
        i := i + 1;
      }
      KindUnclaimed(bs, w);
      return false, None;
    }
  }

  lemma FirstOverlapIs(bs: Table, start: u32, length: u32, h: nat)
    requires h <= |bs| && (h < |bs| ==> bs[h].Overlaps(start, start + length))
    requires forall i :: 0 <= i < |bs| && i != h ==> !bs[i].Overlaps(start, start + length)
    ensures FirstOverlap(bs, start, length) == h
  {
    var k := FirstOverlap(bs, start, length);
    assert k < |bs| ==> bs[k].Overlaps(start, start + length);
  }
}
