/**
 The page-table words that the segment instructions reach through physical memory, seen as the
 entries that translation reads: the two views of one store.
 */
module EntryViews {
  import opened Words
  import opened PhysicalMemory
  import opened PageTables
  import opened SegmentTables

  // Behind its window the memory store shows the words of the page-table store.
  ghost predicate Shows(s: Store, ram: seq<word>, mms2: bool) {
    && s.Valid() && |ram| == Size(mms2) && Base(mms2) <= s.window
    && forall o: word :: s.window <= o ==> s.shadow[o] == ram[o - Base(mms2)]
  }

  // A word read or written behind the window is one read or written in the page-table store.
  lemma ReadIsPeek(s: Store, ram: seq<word>, mms2: bool, o: word)
    requires Shows(s, ram, mms2) && s.window <= o
    ensures s.Read(Address(0, o)) == Peeked(ram, mms2, o)
  {
  }

  lemma WriteIsPoke(s: Store, ram: seq<word>, mms2: bool, o: word, v: word)
    requires Shows(s, ram, mms2) && s.window <= o
    ensures Shows(s.Write(Address(0, o), v), Poked(ram, mms2, o, v), mms2)
  {
  }

  // A write to plain memory changes no page-table word.
  lemma PlainWriteKeeps(s: Store, ram: seq<word>, mms2: bool, a: Address, v: word)
    requires Shows(s, ram, mms2) && !s.InWindow(a)
    ensures Shows(s.Write(a, v), ram, mms2)
  {
  }

  // The mode, table and page of the entry a node names: SETPT counts the 256 pages of four
  // tables, ENPT and REPT the 1024 of sixteen.
  function ModeOf(f: Family): Mode {
    if f == Setpt then ExtendedFour else ExtendedSixteen
  }

  function NumberOf(f: Family, s: Store, bank: byte, x: word): nat
    requires s.Valid()
  {
    if f == Setpt then (s.Read(NodeWord(bank, x, 1)) as int) % 256 else (s.Read(NodeWord(bank, x, 3)) as int) % 1024
  }

  lemma OffsetIsEntryAddress(f: Family, s: Store, bank: byte, x: word)
    requires s.Valid()
    ensures var n := NumberOf(f, s, bank, x);
            && n / 64 < Tables(ModeOf(f)) && n % 64 < 64
            && EntryOffset(f, s, bank, x) == EntryAddressOf(f, n)
            && EntryOffset(f, s, bank, x) < 0xFFFF
  {
    var n := NumberOf(f, s, bank, x);
    assert 64 * (n / 64) + n % 64 == n;
    EntryArithmetic(s.Read(NodeWord(bank, x, 1)));
    EntryArithmetic(s.Read(NodeWord(bank, x, 3)));
  }

  function EntryAddressOf(f: Family, n: nat): nat {
    PageTables.EntryAddress(ModeOf(f), n / 64, n % 64)
  }

  // The pair of words a node names is one entry of the page tables: page i % 64 of table i / 64,
  // of four tables for SETPT and of sixteen for ENPT and REPT.
  lemma PairIsEntry(f: Family, s: Store, ram: seq<word>, mms2: bool, bank: byte, x: word)
    requires Shows(s, ram, mms2) && Visible(f, s) && (f != Setpt ==> mms2)
    ensures var n := NumberOf(f, s, bank, x);
            Pair(s.Read(SegmentTables.EntryAddress(f, s, bank, x)), s.Read(EntryPartner(f, s, bank, x)))
            == Entry(ram, mms2, ModeOf(f), n / 64, n % 64)
  {
    var n, o := NumberOf(f, s, bank, x), EntryOffset(f, s, bank, x);
    OffsetIsEntryAddress(f, s, bank, x);
    EntryEven(f, s, bank, x);
    ReadIsPeek(s, ram, mms2, o);
    ReadIsPeek(s, ram, mms2, o + 1);
    IndexInside(mms2, ModeOf(f), n / 64, n % 64);
  }

  // The two words of an entry written through memory are an update of the entry.
  lemma PairWriteIsUpdate(s: Store, ram: seq<word>, mms2: bool, m: Mode, table: nat, vpn: nat, e: u32)
    requires Shows(s, ram, mms2) && Legal(mms2, m, table, vpn) && m != Normal
    requires s.window <= PageTables.EntryAddress(m, table, vpn) < 0xFFFF
    ensures var o := PageTables.EntryAddress(m, table, vpn);
            Shows(s.Write(Address(0, o), e / 0x10000).Write(Address(0, o + 1), e % 0x10000),
                  Updated(ram, mms2, m, table, vpn, e), mms2)
  {
    var o := PageTables.EntryAddress(m, table, vpn);
    WriteIsPoke(s, ram, mms2, o, e / 0x10000);
    WriteIsPoke(s.Write(Address(0, o), e / 0x10000), Poked(ram, mms2, o, e / 0x10000), mms2, o + 1, e % 0x10000);
    WindowAgrees(ram, mms2, m, table, vpn, e);
  }

  lemma EnterItemIsUpdate(s: Store, ram: seq<word>, mms2: bool, m: Mode, table: nat, vpn: nat, i: Item)
    requires Shows(s, ram, mms2) && Legal(mms2, m, table, vpn) && m != Normal
    requires s.window <= PageTables.EntryAddress(m, table, vpn) < 0xFFFF
    requires i.entry == Address(0, PageTables.EntryAddress(m, table, vpn))
    requires i.partner == Address(0, PageTables.EntryAddress(m, table, vpn) + 1)
    ensures Shows(EnterItem(s, i), Updated(ram, mms2, m, table, vpn, Pair(i.first, i.second)), mms2)
  {
    PairWriteIsUpdate(s, ram, mms2, m, table, vpn, Pair(i.first, i.second));
  }

  // The item of a node is placed on the entry the node names.
  lemma ItemOnEntry(f: Family, s: Store, mms2: bool, bank: byte, x: word)
    requires s.Valid() && Visible(f, s) && (f != Setpt ==> mms2)
    ensures var o, n, i := EntryOffset(f, s, bank, x), NumberOf(f, s, bank, x), ItemOf(f, s, bank, x);
            && Legal(mms2, ModeOf(f), n / 64, n % 64) && o == EntryAddressOf(f, n) && s.window <= o < 0xFFFF
            && i.entry == Address(0, o) && i.partner == Address(0, o + 1)
  {
    OffsetIsEntryAddress(f, s, bank, x);
    EntryEven(f, s, bank, x);
  }

  // Entering a node is an update of the entry it names.
  lemma EnterIsUpdate(f: Family, s: Store, ram: seq<word>, mms2: bool, bank: byte, x: word)
    requires Shows(s, ram, mms2) && Visible(f, s) && (f != Setpt ==> mms2)
    ensures var n, i := NumberOf(f, s, bank, x), ItemOf(f, s, bank, x);
            Legal(mms2, ModeOf(f), n / 64, n % 64)
            && Shows(EnterItem(s, i), Updated(ram, mms2, ModeOf(f), n / 64, n % 64, Pair(i.first, i.second)), mms2)
  {
    var n := NumberOf(f, s, bank, x);
    ItemOnEntry(f, s, mms2, bank, x);
    EnterItemIsUpdate(s, ram, mms2, ModeOf(f), n / 64, n % 64, ItemOf(f, s, bank, x));
  }

  // A node's entry as translation reads it.
  function EntryOf(f: Family, s: Store, ram: seq<word>, mms2: bool, bank: byte, x: word): u32
    requires s.Valid() && |ram| == Size(mms2)
  {
    var n := NumberOf(f, s, bank, x);
    Entry(ram, mms2, ModeOf(f), n / 64, n % 64)
  }

  // Clearing the first word of an entry through the window leaves the entry its page frame.
  lemma ClearedIsUpdate(ram: seq<word>, mms2: bool, m: Mode, table: nat, vpn: nat)
    requires |ram| == Size(mms2) && Legal(mms2, m, table, vpn) && m != Normal
    ensures Poked(ram, mms2, PageTables.EntryAddress(m, table, vpn), 0)
         == Updated(ram, mms2, m, table, vpn, Entry(ram, mms2, m, table, vpn) % 0x10000)
  {
    IndexInside(mms2, m, table, vpn);
  }

  // Saving a node: a used entry's first word goes to the node, which is plain memory, and the entry,
  // unless it is kept, is left with its page frame alone; an unused entry leaves the node alone.
  lemma SaveIsUpdate(f: Family, s: Store, ram: seq<word>, mms2: bool, bank: byte, x: word, keep: bool)
    requires Shows(s, ram, mms2) && Visible(f, s) && (f != Setpt ==> mms2) && s.Plain(NodeWord(bank, x, 2))
    ensures var n, e, i := NumberOf(f, s, bank, x), EntryOf(f, s, ram, mms2, bank, x), ItemOf(f, s, bank, x);
            var r := SaveItem(s, i, keep);
            && Legal(mms2, ModeOf(f), n / 64, n % 64)
            && r.Read(i.slot) == (if e < 0x10000 then s.Read(i.slot) else e / 0x10000)
            && Shows(r, if keep || e < 0x10000 then ram
                        else Updated(ram, mms2, ModeOf(f), n / 64, n % 64, e % 0x10000), mms2)
  {
    var n, o, i := NumberOf(f, s, bank, x), EntryOffset(f, s, bank, x), ItemOf(f, s, bank, x);
    var a := s.Read(i.entry);
    ItemOnEntry(f, s, mms2, bank, x);
    PairIsEntry(f, s, ram, mms2, bank, x);
    PlainWriteKeeps(s, ram, mms2, i.slot, a);
    WriteIsPoke(s.Write(i.slot, a), ram, mms2, o, 0);
    ClearedIsUpdate(ram, mms2, ModeOf(f), n / 64, n % 64);
  }
}
