/**
 What the chain instructions leave in memory, told by plain addresses and by bits: SETPT and ENPT
 clear bit 11 of a node's word 2, the used mark, and REPT bit 15 as well.
 */
module NodeWords {
  import opened Words
  import opened PhysicalMemory
  import opened SegmentTables

  // ---- The masks ----

  lemma {:induction false} ClearBitIs(v: nat, k: nat)
    ensures ClearBit(v, k) == v - v / Pow2(k) % 2 * Pow2(k)
    decreases k
  {
    if k > 0 {
      ClearBitIs(v / 2, k - 1);
      HalvedQuotient(v, Pow2(k - 1));
    }
  }

  lemma ClearBitBy(v: nat, k: nat, p: nat)
    requires p == Pow2(k)
    ensures ClearBit(v, k) == v - v / p % 2 * p
  {
    ClearBitIs(v, k);
  }

  lemma HighestBit(v: word)
    ensures v % 0x8000 == v - v / 0x8000 % 2 * 0x8000
  {
  }

  lemma MaskIsClearBit(v: word)
    ensures ClearBit11(v) == ClearBit(v, 11) && ClearBit15(v) == ClearBit(v, 15)
  {
    HighPowers();
    ClearBitBy(v, 11, 0x800);
    ClearBitBy(v, 15, 0x8000);
    HighestBit(v);
  }

  lemma HighPowers()
    ensures Pow2(11) == 0x800 && Pow2(12) == 0x1000 && Pow2(15) == 0x8000
  {
    assert Pow2(4) == 16;
    assert Pow2(8) == 256;
    assert Pow2(11) == 0x800;
  }

  // What is entered: word 2 without bit 11, and for REPT without bit 15.
  lemma EnteredBits(f: Family, v: word, k: nat)
    ensures Bit(EnteredFirst(f, v), k) <==> Bit(v, k) && k != 11 && (f == Rept ==> k != 15)
  {
    MaskIsClearBit(v);
    MaskIsClearBit(ClearBit11(v));
    ClearBitReads(v, 11, k);
    ClearBitReads(ClearBit11(v), 15, k);
  }

  // ---- Node words and entries by address ----

  // Word k of a node.
  function Word(s: Store, bank: byte, x: word, k: nat): word
    requires s.Valid()
  {
    s.Read(Address(bank, (x + k) % 0x10000))
  }

  lemma WordIsNodeWord(s: Store, bank: byte, x: word, k: nat)
    requires s.Valid() && k < 4
    ensures Word(s, bank, x, k) == s.Read(NodeWord(bank, x, k))
  {
  }

  // The entry that word 1 of a SETPT node names, and the one that word 3 of an ENPT node names.
  lemma EntryPlace(f: Family, s: Store, bank: byte, x: word)
    requires s.Valid()
    ensures f == Setpt ==> EntryOffset(f, s, bank, x) == 0xFE00 + 2 * (Word(s, bank, x, 1) % 256) < 0xFFFF
    ensures f != Setpt ==> EntryOffset(f, s, bank, x) == 0xF800 + 2 * (Word(s, bank, x, 3) % 1024) < 0xFFFF
    ensures EntryAddress(f, s, bank, x) == Address(0, EntryOffset(f, s, bank, x))
    ensures EntryOffset(f, s, bank, x) < 0xFFFF
    ensures EntryPartner(f, s, bank, x) == Address(0, EntryOffset(f, s, bank, x) + 1)
  {
    EntryArithmetic(s.Read(NodeWord(bank, x, 1)));
    EntryArithmetic(s.Read(NodeWord(bank, x, 3)));
    WordIsNodeWord(s, bank, x, 1);
    WordIsNodeWord(s, bank, x, 3);
  }

  // ---- Entering ----

  // The pair from 0xFE00 + 2 * (word 1 % 256) has word 2 but its used mark, and word 3.
  ghost predicate SetptEntered(s: Store, r: Store, bank: byte, x: word, k: nat)
    requires s.Valid() && r.Valid()
  {
    var o := 0xFE00 + 2 * (Word(s, bank, x, 1) % 256);
    && (Bit(r.Read(Address(0, o)), k) <==> k != 11 && Bit(Word(s, bank, x, 2), k))
    && r.Read(Address(0, o + 1)) == Word(s, bank, x, 3)
  }

  // The pair from 0xF800 + 2 * (word 3 % 1024) has word 2 but its used mark, and after REPT but its
  // write permit, and the page number.
  ghost predicate EnptEntered(f: Family, s: Store, r: Store, bank: byte, x: word, k: nat)
    requires s.Valid() && r.Valid()
  {
    var o := 0xF800 + 2 * (Word(s, bank, x, 3) % 1024);
    && (Bit(r.Read(Address(0, o)), k) <==> k != 11 && (f == Rept ==> k != 15) && Bit(Word(s, bank, x, 2), k))
    && r.Read(Address(0, o + 1)) == x / 4
  }

  lemma SetptLeaves(s: Store, bank: byte, nodes: seq<word>, i: nat, k: nat)
    requires Walk(Setpt, s, bank, nodes) && DistinctEntries(Setpt, s, bank, nodes) && i < |nodes|
    ensures SetptEntered(s, Enter(s, Items(Setpt, s, bank, nodes)), bank, nodes[i], k)
  {
    EnteredPair(Setpt, s, bank, nodes, i);
    EntryPlace(Setpt, s, bank, nodes[i]);
    EnteredBits(Setpt, Word(s, bank, nodes[i], 2), k);
  }

  lemma EnptLeaves(f: Family, s: Store, bank: byte, nodes: seq<word>, i: nat, k: nat)
    requires f != Setpt
    requires Walk(f, s, bank, nodes) && DistinctEntries(f, s, bank, nodes) && i < |nodes|
    ensures EnptEntered(f, s, Enter(s, Items(f, s, bank, nodes)), bank, nodes[i], k)
  {
    EnteredPair(f, s, bank, nodes, i);
    EntryPlace(f, s, bank, nodes[i]);
    EnteredBits(f, Word(s, bank, nodes[i], 2), k);
  }

  lemma EnteredPair(f: Family, s: Store, bank: byte, nodes: seq<word>, i: nat)
    requires Walk(f, s, bank, nodes) && DistinctEntries(f, s, bank, nodes) && i < |nodes|
    ensures var r := Enter(s, Items(f, s, bank, nodes));
            var x := nodes[i];
            && r.Read(EntryAddress(f, s, bank, x)) == EnteredFirst(f, Word(s, bank, x, 2))
            && r.Read(EntryPartner(f, s, bank, x)) == if f == Setpt then Word(s, bank, x, 3) else x / 4
  {
    ItemsSeparate(f, s, bank, nodes);
    EnterAt(s, Items(f, s, bank, nodes), i);
    WordIsNodeWord(s, bank, nodes[i], 2);
    WordIsNodeWord(s, bank, nodes[i], 3);
  }

  // ---- Saving and clearing ----

  // The first entry word of a node, by family.
  function EntryWord(f: Family, s: Store, bank: byte, x: word): word
    requires s.Valid()
  {
    s.Read(Address(0, if f == Setpt then 0xFE00 + 2 * (Word(s, bank, x, 1) % 256)
                      else 0xF800 + 2 * (Word(s, bank, x, 3) % 1024)))
  }

  lemma EntryWordIs(f: Family, s: Store, bank: byte, x: word)
    requires s.Valid()
    ensures EntryWord(f, s, bank, x) == s.Read(EntryAddress(f, s, bank, x))
  {
    EntryPlace(f, s, bank, x);
  }

  // After CLEPT word 2 is the entry's first word, if that was not zero, and the entry is zero.
  // After CLPT that is so when A is zero; with A negative the entry is zero and word 2 as before;
  // otherwise word 2 is saved and the entry stays.
  lemma CleptLeaves(s: Store, bank: byte, nodes: seq<word>, i: nat)
    requires Walk(Setpt, s, bank, nodes) && DistinctEntries(Setpt, s, bank, nodes) && i < |nodes|
    ensures var r := Save(s, Items(Setpt, s, bank, nodes), false);
            var x := nodes[i];
            var e := EntryWord(Setpt, s, bank, x);
            && Word(r, bank, x, 2) == (if e == 0 then Word(s, bank, x, 2) else e)
            && r.Read(Address(0, 0xFE00 + 2 * (Word(s, bank, x, 1) % 256))) == 0
  {
    SavedWords(Setpt, s, bank, nodes, false, i);
    EntryPlace(Setpt, s, bank, nodes[i]);
  }

  lemma ClptLeaves(s: Store, bank: byte, nodes: seq<word>, i: nat, a: word)
    requires Walk(Enpt, s, bank, nodes) && DistinctEntries(Enpt, s, bank, nodes) && i < |nodes|
    ensures var r := Cleared(s, Items(Enpt, s, bank, nodes), a);
            var x := nodes[i];
            var e := EntryWord(Enpt, s, bank, x);
            && Word(r, bank, x, 2) == (if e == 0 || a >= 0x8000 then Word(s, bank, x, 2) else e)
            && r.Read(Address(0, 0xF800 + 2 * (Word(s, bank, x, 3) % 1024))) == if 0 < a < 0x8000 then e else 0
  {
    EntryPlace(Enpt, s, bank, nodes[i]);
    if a >= 0x8000 {
      ErasedWords(s, bank, nodes, i);
    } else {
      SavedWords(Enpt, s, bank, nodes, a != 0, i);
    }
  }

  lemma SavedWords(f: Family, s: Store, bank: byte, nodes: seq<word>, keep: bool, i: nat)
    requires Walk(f, s, bank, nodes) && DistinctEntries(f, s, bank, nodes) && i < |nodes|
    ensures var r := Save(s, Items(f, s, bank, nodes), keep);
            var x := nodes[i];
            var e := EntryWord(f, s, bank, x);
            && Word(r, bank, x, 2) == (if e == 0 then Word(s, bank, x, 2) else e)
            && r.Read(EntryAddress(f, s, bank, x)) == if keep then e else 0
  {
    var r := Save(s, Items(f, s, bank, nodes), keep);
    ItemsSeparate(f, s, bank, nodes);
    SaveAt(s, Items(f, s, bank, nodes), keep, i);
    EntryWordIs(f, s, bank, nodes[i]);
    WordIsNodeWord(s, bank, nodes[i], 2);
    WordIsNodeWord(r, bank, nodes[i], 2);
  }

  lemma ErasedWords(s: Store, bank: byte, nodes: seq<word>, i: nat)
    requires Walk(Enpt, s, bank, nodes) && i < |nodes|
    ensures var r := Erase(s, Items(Enpt, s, bank, nodes));
            var x := nodes[i];
            Word(r, bank, x, 2) == Word(s, bank, x, 2) && r.Read(EntryAddress(Enpt, s, bank, x)) == 0
  {
    var items := Items(Enpt, s, bank, nodes);
    ErasedEntry(s, bank, nodes, i);
    assert items[..|nodes|] == items;
    EraseKeepsNode(s, bank, nodes, |nodes|, i, 2);
    WordIsNodeWord(s, bank, nodes[i], 2);
    WordIsNodeWord(Erase(s, items), bank, nodes[i], 2);
      }

  lemma ErasedEntry(s: Store, bank: byte, nodes: seq<word>, i: nat)
    requires Walk(Enpt, s, bank, nodes) && i < |nodes|
    ensures Erase(s, Items(Enpt, s, bank, nodes)).Read(EntryAddress(Enpt, s, bank, nodes[i])) == 0
  {
    var items := Items(Enpt, s, bank, nodes);
    forall j | 0 <= j < |items|
      ensures s.InWindow(items[j].entry)
    {
      EntryEven(Enpt, s, bank, nodes[j]);
    }
    EraseReads(s, items, items[i].entry);
  }
}
