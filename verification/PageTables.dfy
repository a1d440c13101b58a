/**
 The page-table store: one array of words, seen as memory words in the shadow window and as
 page-table entries, in three addressing modes.
 */
module PageTables {
  import opened Words

  type u32 = x: int | 0 <= x < 0x1_0000_0000

  // 16-bit entries for four tables; 32-bit entries for four tables; and, on MMS2 hardware
  // only, 32-bit entries for sixteen.
  datatype Mode = Normal | ExtendedFour | ExtendedSixteen

  // The first address of the store, and of each mode's entries.
  function Base(mms2: bool): nat {
    if mms2 then 0xF800 else 0xFE00
  }

  function Size(mms2: bool): nat {
    0x10000 - Base(mms2)
  }

  function Start(m: Mode): nat {
    match m
    case Normal => 0xFF00
    case ExtendedFour => 0xFE00
    case ExtendedSixteen => 0xF800
  }

  function Tables(m: Mode): nat {
    if m == ExtendedSixteen then 16 else 4
  }

  function EntryWords(m: Mode): nat {
    if m == Normal then 1 else 2
  }

  predicate Legal(mms2: bool, m: Mode, table: nat, vpn: nat) {
    table < Tables(m) && vpn < 64 && (m == ExtendedSixteen ==> mms2)
  }

  // Where the entry of a page stands in the store.
  function Index(mms2: bool, m: Mode, table: nat, vpn: nat): int {
    Start(m) - Base(mms2) + EntryWords(m) * (64 * table + vpn)
  }

  // Within a mode, distinct pages have disjoint words, all inside the store.
  lemma IndexesDisjoint(mms2: bool, m: Mode, t: nat, p: nat, u: nat, q: nat)
    requires Legal(mms2, m, t, p) && Legal(mms2, m, u, q) && (t != u || p != q)
    ensures 0 <= Index(mms2, m, t, p) && Index(mms2, m, t, p) + EntryWords(m) <= Size(mms2)
    ensures Index(mms2, m, t, p) + EntryWords(m) <= Index(mms2, m, u, q)
         || Index(mms2, m, u, q) + EntryWords(m) <= Index(mms2, m, t, p)
  {
    IndexInside(mms2, m, t, p);
    PageNumberInjective(t, p, u, q);
  }

  lemma PageNumberInjective(t: nat, p: nat, u: nat, q: nat)
    requires p < 64 && q < 64
    ensures 64 * t + p == 64 * u + q <==> t == u && p == q
  {
  }

  lemma IndexInside(mms2: bool, m: Mode, t: nat, p: nat)
    requires Legal(mms2, m, t, p)
    ensures 0 <= Index(mms2, m, t, p) && Index(mms2, m, t, p) + EntryWords(m) <= Size(mms2)
  {
    assert 64 * t + p < 64 * Tables(m);
  }

  // On MMS2 the four tables of extended mode are the last four of the sixteen.
  lemma FourAreLastOfSixteen(table: nat, vpn: nat)
    requires Legal(true, ExtendedFour, table, vpn)
    ensures Index(true, ExtendedFour, table, vpn) == Index(true, ExtendedSixteen, 12 + table, vpn)
  {
  }

  function Pair(high: word, low: word): u32 {
    high * 0x10000 + low
  }

  // A 16-bit entry holds the top seven bits and the low nine bits of a 32-bit one.
  function Widen(v: word): u32 {
    v / 512 * 0x200_0000 + v % 512
  }

  function Narrow(e: u32): word {
    e / 0x200_0000 * 512 + e % 512
  }

  // What of an entry a mode can hold.
  function Held(m: Mode, e: u32): u32 {
    if m == Normal then e / 0x200_0000 * 0x200_0000 + e % 512 else e
  }

  lemma WidenNarrow(e: u32)
    ensures Widen(Narrow(e)) == Held(Normal, e)
  {
  }

  // The entry of a page; pages no table of the mode holds read as zero.
  function Entry(ram: seq<word>, mms2: bool, m: Mode, table: nat, vpn: nat): u32
    requires |ram| == Size(mms2)
  {
    if !Legal(mms2, m, table, vpn) then 0
    else
      IndexInside(mms2, m, table, vpn);
      var i := Index(mms2, m, table, vpn);
      if m == Normal then Widen(ram[i]) else Pair(ram[i], ram[i + 1])
  }

  function Updated(ram: seq<word>, mms2: bool, m: Mode, table: nat, vpn: nat, e: u32): (r: seq<word>)
    requires |ram| == Size(mms2) && Legal(mms2, m, table, vpn)
    ensures |r| == |ram|
  {
    IndexInside(mms2, m, table, vpn);
    var i := Index(mms2, m, table, vpn);
    if m == Normal then ram[i := Narrow(e)] else ram[i := e / 0x10000][i + 1 := e % 0x10000]
  }

  // Reading after an update returns what the mode holds of the entry written.
  lemma GetAfterUpdate(ram: seq<word>, mms2: bool, m: Mode, table: nat, vpn: nat, e: u32)
    requires |ram| == Size(mms2) && Legal(mms2, m, table, vpn)
    ensures Entry(Updated(ram, mms2, m, table, vpn, e), mms2, m, table, vpn) == Held(m, e)
  {
    IndexInside(mms2, m, table, vpn);
    WidenNarrow(e);
  }

  // No other page's entry changes.
  lemma UpdateFrame(ram: seq<word>, mms2: bool, m: Mode, table: nat, vpn: nat, e: u32, u: nat, q: nat)
    requires |ram| == Size(mms2) && Legal(mms2, m, table, vpn) && (u != table || q != vpn)
    ensures Entry(Updated(ram, mms2, m, table, vpn, e), mms2, m, u, q) == Entry(ram, mms2, m, u, q)
  {
    IndexInside(mms2, m, table, vpn);
    if Legal(mms2, m, u, q) {
      IndexInside(mms2, m, u, q);
      IndexesDisjoint(mms2, m, table, vpn, u, q);
    }
  }

  // The memory word at which an entry begins.
  function EntryAddress(m: Mode, table: nat, vpn: nat): nat {
    Start(m) + EntryWords(m) * (64 * table + vpn)
  }

  // One word an entry from 0xFF00, or two from 0xFE00 for four tables and from 0xF800 for sixteen,
  // table after table of 64 pages.
  lemma EntryPlaces(table: nat, vpn: nat)
    ensures EntryAddress(Normal, table, vpn) == 0xFF00 + 64 * table + vpn
    ensures EntryAddress(ExtendedFour, table, vpn) == 0xFE00 + 128 * table + 2 * vpn
    ensures EntryAddress(ExtendedSixteen, table, vpn) == 0xF800 + 128 * table + 2 * vpn
  {
  }

  // The store after a word is written through the shadow window.
  function Poked(ram: seq<word>, mms2: bool, address: nat, v: word): (r: seq<word>)
    requires |ram| == Size(mms2)
    ensures |r| == |ram|
  {
    if Base(mms2) <= address <= 0xFFFF then ram[address - Base(mms2) := v] else ram
  }

  // Writing an entry's words through the window and reading the entry agree, and so do an
  // update of the entry and those writes.
  lemma WindowAgrees(ram: seq<word>, mms2: bool, m: Mode, table: nat, vpn: nat, e: u32)
    requires |ram| == Size(mms2) && Legal(mms2, m, table, vpn)
    ensures m == Normal ==>
              Updated(ram, mms2, m, table, vpn, e) == Poked(ram, mms2, EntryAddress(m, table, vpn), Narrow(e))
    ensures m != Normal ==>
              Updated(ram, mms2, m, table, vpn, e)
              == Poked(Poked(ram, mms2, EntryAddress(m, table, vpn), e / 0x10000),
                       mms2, EntryAddress(m, table, vpn) + 1, e % 0x10000)
  {
    IndexInside(mms2, m, table, vpn);
  }

  // The word read through the shadow window; outside the store it is zero.
  function Peeked(ram: seq<word>, mms2: bool, address: nat): word
    requires |ram| == Size(mms2)
  {
    if Base(mms2) <= address <= 0xFFFF then ram[address - Base(mms2)] else 0
  }

  // The words of an entry as the window shows them.
  lemma WindowShows(ram: seq<word>, mms2: bool, m: Mode, table: nat, vpn: nat)
    requires |ram| == Size(mms2) && Legal(mms2, m, table, vpn)
    ensures var e, a := Entry(ram, mms2, m, table, vpn), EntryAddress(m, table, vpn);
            if m == Normal then Peeked(ram, mms2, a) == Narrow(e)
            else Peeked(ram, mms2, a) == e / 0x10000 && Peeked(ram, mms2, a + 1) == e % 0x10000
  {
    IndexInside(mms2, m, table, vpn);
    NarrowWiden(Peeked(ram, mms2, EntryAddress(m, table, vpn)));
  }

  lemma NarrowWiden(v: word)
    ensures Narrow(Widen(v)) == v
  {
    assert Widen(v) / 0x200_0000 == v / 512 && Widen(v) % 512 == v % 512;
  }

  // A word written through the window into one half of an extended entry replaces that half and
  // keeps the other.
  lemma HalfWritten(ram: seq<word>, mms2: bool, m: Mode, table: nat, vpn: nat, v: word)
    requires |ram| == Size(mms2) && Legal(mms2, m, table, vpn) && m != Normal
    ensures var e, a := Entry(ram, mms2, m, table, vpn), EntryAddress(m, table, vpn);
            && Entry(Poked(ram, mms2, a, v), mms2, m, table, vpn) == Pair(v, e % 0x10000)
            && Entry(Poked(ram, mms2, a + 1, v), mms2, m, table, vpn) == Pair(e / 0x10000, v)
  {
    IndexInside(mms2, m, table, vpn);
  }

  // A write through the window changes no entry whose words it does not hit.
  lemma PokeFrame(ram: seq<word>, mms2: bool, address: nat, v: word, m: Mode, table: nat, vpn: nat)
    requires |ram| == Size(mms2)
    requires address < EntryAddress(m, table, vpn) || EntryAddress(m, table, vpn) + EntryWords(m) <= address
    ensures Entry(Poked(ram, mms2, address, v), mms2, m, table, vpn) == Entry(ram, mms2, m, table, vpn)
  {
    if Legal(mms2, m, table, vpn) {
      IndexInside(mms2, m, table, vpn);
    }
  }

  class PagingTables {
    const mms2: bool
    const shadowRam: array<word>
    var extended: bool

    ghost predicate Valid() {
      shadowRam.Length == Size(mms2)
    }

    constructor (mms2: bool)
      ensures Valid() && fresh(shadowRam) && this.mms2 == mms2 && shadowRam.Length == if mms2 then 2048 else 512
    {
      this.mms2 := mms2;
      extended := false;
      shadowRam := new word[Size(mms2)](_ => 0);
    }

    // The mode in force, given the table mode of the access.
    function ModeOf(sixteen: bool): Mode
      reads this
    {
      if !extended then Normal else if sixteen then ExtendedSixteen else ExtendedFour
    }

    method GetEntry(table: nat, vpn: nat, sixteen: bool) returns (e: u32)
      requires Valid() && vpn < 64 && (sixteen ==> mms2) && (extended && !sixteen ==> table < 4)
      ensures e == Entry(shadowRam[..], mms2, ModeOf(sixteen), table, vpn)
    {
      if table >= 16 {
        return 0;
      }
      if extended {
        IndexInside(mms2, ModeOf(sixteen), table, vpn);
        var i := Index(mms2, ModeOf(sixteen), table, vpn);
        return Pair(shadowRam[i], shadowRam[i + 1]);
      }
      if table <= 3 {
        IndexInside(mms2, Normal, table, vpn);
        return Widen(shadowRam[Index(mms2, Normal, table, vpn)]);
      }
      return 0;
    }

    // False, and nothing changed, for a table no mode has.
    method UpdateEntry(table: nat, vpn: nat, sixteen: bool, e: u32) returns (ok: bool)
      requires Valid() && (table < 16 ==> Legal(mms2, ModeOf(sixteen), table, vpn))
      modifies shadowRam
      ensures ok <==> table < 16
      ensures !ok ==> shadowRam[..] == old(shadowRam[..])
      ensures ok ==> shadowRam[..] == Updated(old(shadowRam[..]), mms2, ModeOf(sixteen), table, vpn, e)
    {
      if table >= 16 {
        return false;
      }
      IndexInside(mms2, ModeOf(sixteen), table, vpn);
      var i := Index(mms2, ModeOf(sixteen), table, vpn);
      if extended {
        shadowRam[i] := e / 0x10000;
        shadowRam[i + 1] := e % 0x10000;
      } else {
        shadowRam[i] := Narrow(e);
      }
      return true;
    }

    method Peek(address: nat) returns (v: word)
      requires Valid()
      ensures v == Peeked(shadowRam[..], mms2, address)
    {
      if address < Base(mms2) || address > 0xFFFF {
        return 0;
      }
      return shadowRam[address - Base(mms2)];
    }

    method Poke(address: nat, v: word)
      requires Valid()
      modifies shadowRam
      ensures shadowRam[..] == Poked(old(shadowRam[..]), mms2, address, v)
    {
      if address < Base(mms2) || address > 0xFFFF {
        return;
      }
      shadowRam[address - Base(mms2)] := v;
    }
  }
}
