/**
 Translation of a 16-bit virtual address: table selection, permission and ring rules, ring
 degradation on fetch, and the used and written marks.
 */
module Translation {
  import opened Words
  import opened PageTables
  import MemoryBanks

  datatype Access = Read | Write | Fetch | ReadFetch

  datatype Outcome = Physical(address: nat) | PageFault | PermitViolation | RingViolation | OutOfRange

  // What translation depends on: the page tables, the paging control registers of the sixteen
  // levels, the current level, three status bits and the registered banks.
  datatype Mmu = Mmu(ram: seq<word>, mms2: bool, extended: bool, paging: bool, alternative: bool,
                     pcr: seq<word>, level: nat, banks: MemoryBanks.Table)
  {
    ghost predicate Valid() {
      |ram| == Size(mms2) && |pcr| == 16 && level < 16
    }

    function Control(): word
      requires Valid()
    {
      pcr[level]
    }

    // Bits 0-1 of the control register.
    function Ring(): nat
      requires Valid()
    {
      Control() % 4
    }

    // Bit 2 selects sixteen tables where the hardware has them.
    predicate Sixteen()
      requires Valid()
    {
      Control() / 4 % 2 == 1 && mms2
    }

    function TableMode(): Mode
      requires Valid()
    {
      if !extended then Normal else if Sixteen() then ExtendedSixteen else ExtendedFour
    }

    // The table for instruction or for alternative accesses.
    function TableFor(useApt: bool): nat
      requires Valid()
    {
      if alternative && useApt then (if Sixteen() then Control() / 0x80 % 16 else Control() / 0x80 % 4)
      else (if Sixteen() then Control() / 0x800 % 16 else Control() / 0x200 % 4)
    }

    // Where the page tables shadow memory for ring 3.
    function ShadowStart(): nat
      requires Valid()
    {
      Start(TableMode())
    }

    function EntryFor(va: word, useApt: bool): u32
      requires Valid()
    {
      Entry(ram, mms2, TableMode(), TableFor(useApt), va / 1024)
    }

    // No page table is consulted: a ring 3 access to the shadow window, or paging is off.
    predicate Direct(va: word)
      requires Valid()
    {
      (Ring() == 3 && va >= ShadowStart()) || !paging
    }
  }

  // ---- The control register ----

  // With bit 2 set, and the hardware for it, sixteen tables: bits 14-11 select the table of
  // instructions and bits 10-7 the alternative one.
  lemma SixteenFields(m: Mmu, high: nat, table: nat, alternative: nat, other: nat, ring: nat)
    requires m.Valid() && m.mms2 && high < 2 && table < 16 && alternative < 16 && other < 16 && ring < 4
    requires m.pcr[m.level] == 0x8000 * high + 0x800 * table + 0x80 * alternative + 8 * other + 4 + ring
    ensures m.Ring() == ring && m.TableMode() == (if m.extended then ExtendedSixteen else Normal)
    ensures m.TableFor(false) == table && m.TableFor(true) == if m.alternative then alternative else table
  {
    LowFields(m.pcr[m.level], 0x1000 * high + 0x100 * table + 0x10 * alternative + other, 1, ring);
    FieldAt(m.pcr[m.level], 0x800, 0x80 * alternative + 8 * other + 4 + ring, 16 * high + table);
    FieldAt(m.pcr[m.level], 0x80, 8 * other + 4 + ring, 0x100 * high + 0x10 * table + alternative);
  }

  lemma LowFields(control: nat, rest: nat, bit2: nat, ring: nat)
    requires bit2 < 2 && ring < 4 && control == 8 * rest + 4 * bit2 + ring
    ensures control % 4 == ring && control / 4 % 2 == bit2
  {
    assert control == 4 * (2 * rest + bit2) + ring;
    assert control / 4 == 2 * rest + bit2;
  }

  lemma FieldAt(control: nat, weight: nat, low: nat, field: nat)
    requires (weight == 0x80 || weight == 0x200 || weight == 0x800) && low < weight && control == weight * field + low
    ensures control / weight == field
  {
  }

  // Else four: bits 10-9 and bits 8-7.
  lemma FourFields(m: Mmu, high: nat, table: nat, alternative: nat, other: nat, bit2: nat, ring: nat)
    requires m.Valid() && high < 32 && table < 4 && alternative < 4 && other < 16 && bit2 < 2 && ring < 4
    requires m.pcr[m.level] == 0x800 * high + 0x200 * table + 0x80 * alternative + 8 * other + 4 * bit2 + ring
    requires bit2 == 0 || !m.mms2
    ensures m.Ring() == ring && m.TableMode() == (if m.extended then ExtendedFour else Normal)
    ensures m.TableFor(false) == table && m.TableFor(true) == if m.alternative then alternative else table
  {
    LowFields(m.pcr[m.level], 0x100 * high + 0x40 * table + 0x10 * alternative + other, bit2, ring);
    FieldAt(m.pcr[m.level], 0x200, 0x80 * alternative + 8 * other + 4 * bit2 + ring, 4 * high + table);
    FieldAt(m.pcr[m.level], 0x80, 8 * other + 4 * bit2 + ring, 0x10 * high + 4 * table + alternative);
  }

  // The window of the page tables, which ring 3 reaches without them.
  lemma DirectIff(m: Mmu, va: word)
    requires m.Valid()
    ensures var start := match m.TableMode() case Normal => 0xFF00 case ExtendedFour => 0xFE00 case _ => 0xF800;
            m.Direct(va) <==> !m.paging || (m.pcr[m.level] % 4 == 3 && va >= start)
  {
  }

  // ---- Entry fields ----

  const PGU: nat := 0x800_0000
  const WIP: nat := 0x1000_0000

  predicate Flag(e: u32, f: nat)
    requires f > 0
  {
    e / f % 2 == 1
  }

  // Bits 31-29: write, read and fetch permit; none of them set means the page is absent.
  predicate Present(e: u32) {
    e / 0x2000_0000 != 0
  }

  predicate Permits(e: u32, am: Access) {
    match am
    case Read => Flag(e, 0x4000_0000)
    case Write => Flag(e, 0x8000_0000)
    case Fetch => Flag(e, 0x2000_0000)
    case ReadFetch => Flag(e, 0x4000_0000) || Flag(e, 0x2000_0000)
  }

  function RingOf(e: u32): nat {
    e / 0x200_0000 % 4
  }

  function MarkUsed(e: u32): u32 {
    if Flag(e, PGU) then e else e + PGU
  }

  function MarkWritten(e: u32): u32 {
    if Flag(e, WIP) then e else e + WIP
  }

  function Marked(e: u32, am: Access): u32 {
    if am == Write then MarkWritten(MarkUsed(e)) else MarkUsed(e)
  }

  // What an entry maps to: permissions, ring and frame, everything but the two marks.
  function Mapping(e: u32): (nat, nat) {
    (e / 0x2000_0000, e % 0x800_0000)
  }

  // An entry by its permission bits, its two marks and the rest.
  function Compose(permits: nat, written: nat, used: nat, rest: nat): nat {
    permits * 0x2000_0000 + written * WIP + used * PGU + rest
  }

  lemma ComposeFields(permits: nat, written: nat, used: nat, rest: nat)
    requires permits < 8 && written < 2 && used < 2 && rest < PGU
    ensures var e := Compose(permits, written, used, rest);
            && e < 0x1_0000_0000 && e / 0x2000_0000 == permits
            && e / WIP % 2 == written && e / PGU % 2 == used && e % PGU == rest
  {
    var e := Compose(permits, written, used, rest);
    assert e / PGU == 4 * permits + 2 * written + used;
    assert e / WIP == 2 * permits + written;
  }

  lemma ComposedFrom(e: u32)
    ensures e == Compose(e / 0x2000_0000, e / WIP % 2, e / PGU % 2, e % PGU)
  {
    assert e == e / PGU * PGU + e % PGU;
    assert e / WIP == e / PGU / 2 && e / 0x2000_0000 == e / PGU / 4;
  }

  // The marks are set, and nothing else of the entry changes.
  lemma MarkedBits(e: u32, am: Access)
    ensures Flag(Marked(e, am), PGU)
    ensures Flag(Marked(e, am), WIP) <==> Flag(e, WIP) || am == Write
    ensures Mapping(Marked(e, am)) == Mapping(e)
  {
    var p, w, r := e / 0x2000_0000, e / WIP % 2, e % PGU;
    ComposedFrom(e);
    ComposeFields(p, w, 1, r);
    ComposeFields(p, 1, 1, r);
    assert MarkUsed(e) == Compose(p, w, 1, r);
    assert MarkWritten(MarkUsed(e)) == Compose(p, 1, 1, r);
  }

  lemma PermitsPresent(e: u32, am: Access)
    requires Permits(e, am)
    ensures Present(e)
  {
  }

  // A 16-bit entry has the permits, the marks and the ring at the bits 16 below, and its frame in the
  // low nine.
  lemma NormalEntryFields(v: word)
    ensures var e := Widen(v);
            && (e >= 0x8000_0000 <==> v >= 0x8000) && e / 0x2000_0000 == v / 0x2000
            && (Flag(e, WIP) <==> v / 0x1000 % 2 == 1) && (Flag(e, PGU) <==> v / 0x800 % 2 == 1)
            && RingOf(e) == v / 0x200 % 4 && e % 0x200 == v % 0x200
  {
    HighFields(v / 0x200, v % 0x200);
    assert v / 0x2000 == v / 0x200 / 16 && v / 0x1000 == v / 0x200 / 8 && v / 0x800 == v / 0x200 / 4;
  }

  // An entry whose bits 31-25 are h.
  lemma HighFields(h: nat, low: nat)
    requires h < 128 && low < 0x200_0000
    ensures var e := h * 0x200_0000 + low;
            && e / 0x2000_0000 == h / 16 && e / WIP == h / 8 && e / PGU == h / 4 && e / 0x200_0000 == h
  {
  }

  // What a mode returns of an entry it can hold again in full, marks included.
  lemma HeldMarked(m: Mode, e: u32, am: Access)
    requires Held(m, e) == e
    ensures Held(m, Marked(e, am)) == Marked(e, am)
  {
    if m == Normal {
      HeldLow(e);
      MarkedLow(e, am);
      HeldBy(Marked(e, am));
    }
  }

  // Normal mode holds the entries whose bits 24-9 are zero.
  lemma HeldLow(e: u32)
    requires Held(Normal, e) == e
    ensures e % 0x200_0000 == e % 512
  {
    assert e == e / 0x200_0000 * 0x200_0000 + e % 512;
  }

  lemma HeldBy(e: u32)
    requires e % 0x200_0000 == e % 512
    ensures Held(Normal, e) == e
  {
    assert e == e / 0x200_0000 * 0x200_0000 + e % 0x200_0000;
  }

  // The marks lie above bit 26, and the rest of the entry stays.
  lemma MarkedLow(e: u32, am: Access)
    ensures Marked(e, am) % 0x200_0000 == e % 0x200_0000 && Marked(e, am) % 512 == e % 512
  {
    var e' := Marked(e, am);
    assert e' == e || e' == e + PGU || e' == e + WIP || e' == e + PGU + WIP;
    LowKept(e, 4);
    LowKept(e, 8);
    LowKept(e, 12);
  }

  lemma LowKept(e: u32, k: nat)
    ensures (e + k * 0x200_0000) % 0x200_0000 == e % 0x200_0000
    ensures (e + k * 0x200_0000) % 512 == e % 512
  {
    assert k * 0x200_0000 == k * 0x1_0000 * 512;
    AddMultiple(e, k, 0x200_0000);
    AddMultiple(e, k * 0x1_0000, 512);
  }

  lemma AddMultiple(e: nat, k: nat, d: nat)
    requires d == 512 || d == 0x200_0000
    ensures (e + k * d) % d == e % d
  {
    assert e == e / d * d + e % d;
    assert e + k * d == (e / d + k) * d + e % d;
  }

  // ---- Translation ----

  predicate IsFetch(am: Access) {
    am == Fetch || am == ReadFetch
  }

  // Ring 3 fetching from a page of a lower ring is degraded to that ring.
  function Degrade(m: Mmu, e: u32, am: Access): (r: Mmu)
    requires m.Valid()
    ensures r.Valid()
  {
    if IsFetch(am) && RingOf(e) < m.Ring() && m.Ring() == 3
    then m.(pcr := m.pcr[m.level := m.Control() - m.Control() % 4 + RingOf(e)])
    else m
  }

  // The physical address of a word in the page an entry maps to.
  function Frame(m: Mmu, e: u32, va: word): nat {
    (if m.extended then e % 0x4000 else e % 0x200) * 1024 + va % 1024
  }

  function Mark(m: Mmu, va: word, useApt: bool, e: u32, am: Access): seq<word>
    requires m.Valid() && e == m.EntryFor(va, useApt) && Present(e)
  {
    if Marked(e, am) == e then m.ram
    else Updated(m.ram, m.mms2, m.TableMode(), m.TableFor(useApt), va / 1024, Marked(e, am))
  }

  // The rest of a translation whose entry permits the access.
  function Admitted(m: Mmu, va: word, am: Access, useApt: bool, e: u32): (r: (Outcome, Mmu))
    requires m.Valid() && e == m.EntryFor(va, useApt) && Present(e)
    ensures r.1.Valid()
  {
    var m1 := Degrade(m, e, am);
    if m1.Ring() < RingOf(e) then (RingViolation, m1)
    else if MemoryBanks.Unclaimed(m.banks, Frame(m, e, va)) then (OutOfRange, m1)
    else (Physical(Frame(m, e, va)), m1.(ram := Mark(m, va, useApt, e, am)))
  }

  function Translate(m: Mmu, va: word, am: Access, useApt: bool): (r: (Outcome, Mmu))
    requires m.Valid()
    ensures r.1.Valid()
  {
    if m.Direct(va) then (Physical(va), m)
    else
      var e := m.EntryFor(va, useApt);
      if !Present(e) then (PageFault, m)
      else if !Permits(e, am) then (PermitViolation, m)
      else Admitted(m, va, am, useApt, e)
  }

  // What an entry's number says of an access: a write needs bit 31, a read bit 30, a fetch bit 29,
  // and an indirect read one of the last two.
  lemma PermitsIff(e: u32, am: Access)
    ensures am == Write ==> (Permits(e, am) <==> e >= 0x8000_0000)
    ensures am == Read ==> (Permits(e, am) <==> e % 0x8000_0000 >= 0x4000_0000)
    ensures am == Fetch ==> (Permits(e, am) <==> e % 0x4000_0000 >= 0x2000_0000)
    ensures am == ReadFetch ==> (Permits(e, am) <==> e % 0x8000_0000 >= 0x2000_0000)
  {
  }

  // The page of a physical address: the low 14 bits of the entry, of which normal mode has 9.
  ghost predicate Reaches(m: Mmu, e: u32, va: word, pa: nat)
    requires m.Valid()
  {
    pa % 1024 == va % 1024 && pa / 1024 == e % (if m.extended then 0x4000 else 0x200)
  }

  // A paged translation succeeds exactly when the entry has the access's permit, the level's ring
  // reaches the page's, bits 25 and 26, and a bank holds the address; and that is where it ends.
  lemma SucceedsIff(m: Mmu, va: word, am: Access, useApt: bool, pa: nat)
    requires m.Valid() && !m.Direct(va) && Reaches(m, m.EntryFor(va, useApt), va, pa)
    ensures var e, o := m.EntryFor(va, useApt), Translate(m, va, am, useApt).0;
            var reached := m.pcr[m.level] % 4 >= e / 0x200_0000 % 4
                           && (exists i :: 0 <= i < |m.banks| && m.banks[i].Holds(pa));
            && (am == Write ==> (o.Physical? <==> e >= 0x8000_0000 && reached))
            && (am == Read ==> (o.Physical? <==> e % 0x8000_0000 >= 0x4000_0000 && reached))
            && (am == Fetch ==> (o.Physical? <==> e % 0x4000_0000 >= 0x2000_0000 && reached))
            && (am == ReadFetch ==> (o.Physical? <==> e % 0x8000_0000 >= 0x2000_0000 && reached))
            && (o.Physical? ==> o == Physical(pa))
  {
    var e := m.EntryFor(va, useApt);
    PermitsIff(e, am);
    FrameReaches(m, e, va, pa);
    if Permits(e, am) {
      PermitsPresent(e, am);
    }
    DegradedRing(m, e, am);
  }

  lemma FrameReaches(m: Mmu, e: u32, va: word, pa: nat)
    requires m.Valid() && Reaches(m, e, va, pa)
    ensures pa == Frame(m, e, va)
  {
  }

  // Otherwise the fault is a page fault for an entry without permits, then a permit violation, then
  // a ring violation, and else the address is out of range.
  lemma FaultIs(m: Mmu, va: word, am: Access, useApt: bool)
    requires m.Valid() && !m.Direct(va) && !Translate(m, va, am, useApt).0.Physical?
    ensures var e, o := m.EntryFor(va, useApt), Translate(m, va, am, useApt).0;
            && (o == PageFault <==> e < 0x2000_0000)
            && (o == PermitViolation <==> e >= 0x2000_0000 && !Permits(e, am))
            && (o == RingViolation <==> Permits(e, am) && m.pcr[m.level] % 4 < e / 0x200_0000 % 4)
  {
    var e := m.EntryFor(va, useApt);
    PermitsIff(e, am);
    if Permits(e, am) {
      PermitsPresent(e, am);
    }
    DegradedRing(m, e, am);
  }

  lemma DegradedRing(m: Mmu, e: u32, am: Access)
    requires m.Valid()
    ensures Degrade(m, e, am).Ring()
         == if (am == Fetch || am == ReadFetch) && RingOf(e) < m.Ring() == 3 then RingOf(e) else m.Ring()
  {
  }

  // The ring that is left: the degradation happens as soon as the entry permits the access, even when
  // no bank then holds the address.
  lemma RingAfter(m: Mmu, va: word, am: Access, useApt: bool)
    requires m.Valid()
    ensures var e, ring := m.EntryFor(va, useApt), m.pcr[m.level] % 4;
            var page := e / 0x200_0000 % 4;
            Translate(m, va, am, useApt).1.pcr[m.level] % 4
            == if !m.Direct(va) && Permits(e, am) && (am == Fetch || am == ReadFetch) && ring == 3 then page else ring
  {
    var e := m.EntryFor(va, useApt);
    DegradedRing(m, e, am);
    if !m.Direct(va) && Permits(e, am) {
      PermitsPresent(e, am);
      AdmittedKeeps(m, va, am, useApt, e);
    }
  }

  // Entries read back in full: what a mode stores is what it holds.
  lemma EntryHeld(ram: seq<word>, mms2: bool, mode: Mode, table: nat, vpn: nat)
    requires |ram| == Size(mms2)
    ensures Held(mode, Entry(ram, mms2, mode, table, vpn)) == Entry(ram, mms2, mode, table, vpn)
  {
    if mode == Normal && Legal(mms2, mode, table, vpn) {
      IndexInside(mms2, mode, table, vpn);
      WidenHeld(ram[Index(mms2, mode, table, vpn)]);
    }
  }

  lemma WidenHeld(v: word)
    ensures Held(Normal, Widen(v)) == Widen(v)
  {
  }

  // Marking a page's entry changes that entry alone, and loses none of it.
  lemma MarkTouchesOwnEntry(m: Mmu, va: word, am: Access, useApt: bool, e: u32, u: nat, q: nat)
    requires m.Valid() && e == m.EntryFor(va, useApt) && Present(e)
    ensures var ram := Mark(m, va, useApt, e, am);
            var before := Entry(m.ram, m.mms2, m.TableMode(), u, q);
            |ram| == |m.ram|
            && Entry(ram, m.mms2, m.TableMode(), u, q)
               == if u == m.TableFor(useApt) && q == va / 1024 then Marked(before, am) else before
  {
    var mode, t, p := m.TableMode(), m.TableFor(useApt), va / 1024;
    EntryHeld(m.ram, m.mms2, mode, t, p);
    HeldMarked(mode, e, am);
    GetAfterUpdate(m.ram, m.mms2, mode, t, p, Marked(e, am));
    if u != t || q != p {
      UpdateFrame(m.ram, m.mms2, mode, t, p, Marked(e, am), u, q);
    }
  }

  // The effect on page tables: success marks the page's own entry used, and written exactly for
  // a write; no other entry changes, and failure changes none.
  lemma MarksOnlyOwnEntry(m: Mmu, va: word, am: Access, useApt: bool, u: nat, q: nat)
    requires m.Valid() && !m.Direct(va)
    ensures var (o, m') := Translate(m, va, am, useApt);
            var before := Entry(m.ram, m.mms2, m.TableMode(), u, q);
            |m'.ram| == |m.ram|
            && Entry(m'.ram, m.mms2, m.TableMode(), u, q)
               == if o.Physical? && u == m.TableFor(useApt) && q == va / 1024 then Marked(before, am) else before
  {
    TranslateKeeps(m, va, am, useApt);
    if Present(m.EntryFor(va, useApt)) {
      MarkTouchesOwnEntry(m, va, am, useApt, m.EntryFor(va, useApt), u, q);
    }
  }

  // What a translation can change: its control register by degradation, its page tables by a mark.
  ghost predicate Keeps(m: Mmu, m': Mmu) {
    m' == m.(ram := m'.ram, pcr := m'.pcr) && |m'.ram| == |m.ram| && |m'.pcr| == |m.pcr|
  }

  lemma AdmittedKeeps(m: Mmu, va: word, am: Access, useApt: bool, e: u32)
    requires m.Valid() && e == m.EntryFor(va, useApt) && Present(e)
    ensures var (o, m') := Admitted(m, va, am, useApt, e);
            && Keeps(m, m') && m'.pcr == Degrade(m, e, am).pcr
            && m'.ram == if o.Physical? then Mark(m, va, useApt, e, am) else m.ram
  {
    assert Keeps(m, Degrade(m, e, am));
  }

  lemma TranslateKeeps(m: Mmu, va: word, am: Access, useApt: bool)
    requires m.Valid()
    ensures var (o, m') := Translate(m, va, am, useApt);
            var e := m.EntryFor(va, useApt);
            && Keeps(m, m') && (m'.pcr == m.pcr || m'.pcr == Degrade(m, e, am).pcr)
            && (if m.Direct(va) || !o.Physical? then m'.ram == m.ram
                else Present(e) && m'.ram == Mark(m, va, useApt, e, am))
  {
    var e := m.EntryFor(va, useApt);
    if !m.Direct(va) && Present(e) && Permits(e, am) {
      AdmittedKeeps(m, va, am, useApt, e);
    } else {
      assert Translate(m, va, am, useApt).1 == m;
    }
  }

  // The same result told from the state the degradation leaves.
  lemma AdmittedAfter(m: Mmu, va: word, am: Access, useApt: bool, e: u32)
    requires m.Valid() && e == m.EntryFor(va, useApt) && Present(e)
    ensures var m1 := Degrade(m, e, am);
            var pa := Frame(m1, e, va);
            && m1.TableMode() == m.TableMode()
            && Admitted(m, va, am, useApt, e)
               == if m1.Ring() < RingOf(e) then (RingViolation, m1)
                  else if MemoryBanks.Unclaimed(m1.banks, pa) then (OutOfRange, m1)
                  else (Physical(pa), m1.(ram := if Marked(e, am) == e then m1.ram
                          else Updated(m1.ram, m1.mms2, m1.TableMode(), m.TableFor(useApt), va / 1024, Marked(e, am))))
  {
    var m1 := Degrade(m, e, am);
    DegradeLowers(m, e, am);
    assert m1.Control() / 4 == m.Control() / 4;
  }

  // A successful paged translation keeps the displacement and lands in a registered bank, and
  // the ring that is left reaches the page's.
  lemma SuccessLandsInBank(m: Mmu, va: word, am: Access, useApt: bool)
    requires m.Valid() && !m.Direct(va) && Translate(m, va, am, useApt).0.Physical?
    ensures var (o, m') := Translate(m, va, am, useApt);
            && o.address % 1024 == va % 1024 && o.address < 0x100_0000
            && (exists i :: 0 <= i < |m.banks| && m.banks[i].Holds(o.address))
            && m'.Ring() >= RingOf(m.EntryFor(va, useApt))
  {
    var e := m.EntryFor(va, useApt);
    FrameOffset(if m.extended then e % 0x4000 else e % 0x200, va);
    DegradedRing(m, e, am);
  }

  lemma FrameOffset(frame: nat, va: word)
    requires frame < 0x4000
    ensures (frame * 1024 + va % 1024) % 1024 == va % 1024 && frame * 1024 + va % 1024 < 0x100_0000
  {
  }

  // ---- Runs of translations ----

  datatype Request = Request(va: word, am: Access, useApt: bool)

  // Everything but the page tables and the current level's ring stays; no ring rises; and
  // entries keep their mapping and only gain marks.
  ghost predicate Evolves(m: Mmu, m': Mmu)
    requires m.Valid()
  {
    && m'.Valid() && m' == m.(ram := m'.ram, pcr := m'.pcr)
    && (forall l :: 0 <= l < 16 ==> m'.pcr[l] % 4 <= m.pcr[l] % 4 && m'.pcr[l] / 4 == m.pcr[l] / 4)
    && (forall l :: 0 <= l < 16 && l != m.level ==> m'.pcr[l] == m.pcr[l])
    && (forall u, q {:trigger Entry(m'.ram, m.mms2, m.TableMode(), u, q)} ::
          Grows(Entry(m.ram, m.mms2, m.TableMode(), u, q), Entry(m'.ram, m.mms2, m.TableMode(), u, q)))
  }

  ghost predicate Grows(e: u32, e': u32) {
    Mapping(e') == Mapping(e) && (Flag(e, PGU) ==> Flag(e', PGU)) && (Flag(e, WIP) ==> Flag(e', WIP))
  }

  lemma DegradeLowers(m: Mmu, e: u32, am: Access)
    requires m.Valid()
    ensures var r := Degrade(m, e, am);
            && r == m.(pcr := r.pcr) && (forall l :: 0 <= l < 16 && l != m.level ==> r.pcr[l] == m.pcr[l])
            && r.pcr[m.level] % 4 <= m.pcr[m.level] % 4 && r.pcr[m.level] / 4 == m.pcr[m.level] / 4
  {
  }

  lemma EntryGrows(m: Mmu, va: word, am: Access, useApt: bool, u: nat, q: nat)
    requires m.Valid()
    ensures var m' := Translate(m, va, am, useApt).1;
            |m'.ram| == |m.ram|
            && Grows(Entry(m.ram, m.mms2, m.TableMode(), u, q), Entry(m'.ram, m.mms2, m.TableMode(), u, q))
  {
    if !m.Direct(va) {
      MarksOnlyOwnEntry(m, va, am, useApt, u, q);
      MarkedBits(Entry(m.ram, m.mms2, m.TableMode(), u, q), am);
    }
  }

  lemma TranslateEvolves(m: Mmu, va: word, am: Access, useApt: bool)
    requires m.Valid()
    ensures Evolves(m, Translate(m, va, am, useApt).1)
  {
    var m' := Translate(m, va, am, useApt).1;
    TranslateKeeps(m, va, am, useApt);
    DegradeLowers(m, m.EntryFor(va, useApt), am);
    forall u, q
      ensures Grows(Entry(m.ram, m.mms2, m.TableMode(), u, q), Entry(m'.ram, m.mms2, m.TableMode(), u, q))
    {
      EntryGrows(m, va, am, useApt, u, q);
    }
  }

  function TranslateAll(m: Mmu, requests: seq<Request>): Mmu
    requires m.Valid()
    decreases |requests|
  {
    if requests == [] then m
    else
      TranslateEvolves(m, requests[0].va, requests[0].am, requests[0].useApt);
      TranslateAll(Translate(m, requests[0].va, requests[0].am, requests[0].useApt).1, requests[1..])
  }

  // Over any run of translations a level's ring never rises, and no mapping ever changes.
  lemma {:induction false} RunEvolves(m: Mmu, requests: seq<Request>)
    requires m.Valid()
    ensures Evolves(m, TranslateAll(m, requests))
    decreases |requests|
  {
    if requests != [] {
      var m1 := Translate(m, requests[0].va, requests[0].am, requests[0].useApt).1;
      TranslateEvolves(m, requests[0].va, requests[0].am, requests[0].useApt);
      RunEvolves(m1, requests[1..]);
      EvolvesTransitive(m, m1, TranslateAll(m1, requests[1..]));
    }
  }

  // The request's translation consults the entry of page q of table u and succeeds.
  ghost predicate Touches(m: Mmu, x: Request, u: nat, q: nat)
    requires m.Valid()
  {
    && !m.Direct(x.va) && Translate(m, x.va, x.am, x.useApt).0.Physical?
    && m.TableFor(x.useApt) == u && x.va / 1024 == q
  }

  // Some request of a run, or some write of it, does.
  ghost predicate Touched(m: Mmu, requests: seq<Request>, u: nat, q: nat, writing: bool)
    requires m.Valid()
    decreases |requests|
  {
    requests != []
    && ((Touches(m, requests[0], u, q) && (writing ==> requests[0].am == Write))
        || Touched(After(m, requests[0]), requests[1..], u, q, writing))
  }

  function After(m: Mmu, x: Request): (r: Mmu)
    requires m.Valid()
    ensures r.Valid()
  {
    TranslateEvolves(m, x.va, x.am, x.useApt);
    Translate(m, x.va, x.am, x.useApt).1
  }

  lemma StepMarks(m: Mmu, x: Request, u: nat, q: nat)
    requires m.Valid()
    ensures var e := Entry(m.ram, m.mms2, m.TableMode(), u, q);
            var e' := Entry(After(m, x).ram, m.mms2, m.TableMode(), u, q);
            && (Flag(e', PGU) <==> Flag(e, PGU) || Touches(m, x, u, q))
            && (Flag(e', WIP) <==> Flag(e, WIP) || (Touches(m, x, u, q) && x.am == Write))
  {
    if m.Direct(x.va) {
      assert After(m, x) == m;
    } else {
      MarksOnlyOwnEntry(m, x.va, x.am, x.useApt, u, q);
      MarkedBits(Entry(m.ram, m.mms2, m.TableMode(), u, q), x.am);
    }
  }

  // After any run an entry is marked used, or written, exactly when it was before or a translation
  // of the run that succeeded consulted it, for a write.
  lemma {:induction false} RunMarks(m: Mmu, requests: seq<Request>, u: nat, q: nat)
    requires m.Valid()
    ensures var r := TranslateAll(m, requests);
            var e := Entry(m.ram, m.mms2, m.TableMode(), u, q);
            && |r.ram| == |m.ram|
            && (var e' := Entry(r.ram, m.mms2, m.TableMode(), u, q);
                && (Flag(e', PGU) <==> Flag(e, PGU) || Touched(m, requests, u, q, false))
                && (Flag(e', WIP) <==> Flag(e, WIP) || Touched(m, requests, u, q, true)))
    decreases |requests|
  {
    if requests != [] {
      var x := requests[0];
      TranslateEvolves(m, x.va, x.am, x.useApt);
      StepMarks(m, x, u, q);
      RunMarks(After(m, x), requests[1..], u, q);
    }
  }

  lemma UnwritableStep(m: Mmu, x: Request, u: nat, q: nat)
    requires m.Valid() && Entry(m.ram, m.mms2, m.TableMode(), u, q) < 0x8000_0000
    ensures Touches(m, x, u, q) ==> x.am != Write
    ensures After(m, x).TableMode() == m.TableMode() && After(m, x).mms2 == m.mms2
    ensures Entry(After(m, x).ram, m.mms2, m.TableMode(), u, q) < 0x8000_0000
  {
    TranslateEvolves(m, x.va, x.am, x.useApt);
    var e, e' := Entry(m.ram, m.mms2, m.TableMode(), u, q), Entry(After(m, x).ram, m.mms2, m.TableMode(), u, q);
    assert Grows(e, e') && e / 0x2000_0000 < 4;
    if Touches(m, x, u, q) {
      PermitsIff(e, x.am);
    }
  }

  lemma {:induction false} UnwritableUntouched(m: Mmu, requests: seq<Request>, u: nat, q: nat)
    requires m.Valid() && Entry(m.ram, m.mms2, m.TableMode(), u, q) < 0x8000_0000
    ensures !Touched(m, requests, u, q, true)
    decreases |requests|
  {
    if requests != [] {
      UnwritableStep(m, requests[0], u, q);
      UnwritableUntouched(After(m, requests[0]), requests[1..], u, q);
    }
  }

  // An entry whose number is below 2^31 permits no write, and no run marks it written.
  lemma UnwritableStaysClean(m: Mmu, requests: seq<Request>, u: nat, q: nat)
    requires m.Valid() && Entry(m.ram, m.mms2, m.TableMode(), u, q) < 0x8000_0000
    ensures var r := TranslateAll(m, requests);
            && |r.ram| == |m.ram|
            && Entry(r.ram, m.mms2, m.TableMode(), u, q) / 0x1000_0000 % 2
               == Entry(m.ram, m.mms2, m.TableMode(), u, q) / 0x1000_0000 % 2
  {
    RunMarks(m, requests, u, q);
    UnwritableUntouched(m, requests, u, q);
  }

  lemma EvolvesTransitive(m: Mmu, m1: Mmu, m2: Mmu)
    requires m.Valid() && Evolves(m, m1) && Evolves(m1, m2)
    ensures Evolves(m, m2)
  {
    assert m1.Control() / 4 == m.Control() / 4;
    assert m1.TableMode() == m.TableMode();
  }

  // ---- Runs that change level, paging and mode between translations ----

  // The state a request meets: the run's registers and tables, under the level and the status
  // bits of the moment.
  datatype Moment = Moment(level: nat, paging: bool, extended: bool, alternative: bool, request: Request)

  function At(m: Mmu, x: Moment): Mmu {
    m.(level := x.level, paging := x.paging, extended := x.extended, alternative := x.alternative)
  }

  ghost predicate Levels(moments: seq<Moment>) {
    forall i :: 0 <= i < |moments| ==> moments[i].level < 16
  }

  function TranslateEach(m: Mmu, moments: seq<Moment>): (r: Mmu)
    requires m.Valid() && Levels(moments)
    ensures r.Valid()
    decreases |moments|
  {
    if moments == [] then m
    else
      var now, x := At(m, moments[0]), moments[0].request;
      TranslateEvolves(now, x.va, x.am, x.useApt);
      TranslateEach(Translate(now, x.va, x.am, x.useApt).1, moments[1..])
  }

  // Whatever levels and modes the translations run under, no level's ring ever rises, and of a
  // control register nothing but the ring ever changes.
  lemma {:induction false} NoRingRises(m: Mmu, moments: seq<Moment>, l: nat)
    requires m.Valid() && Levels(moments) && l < 16
    ensures var r := TranslateEach(m, moments); r.pcr[l] % 4 <= m.pcr[l] % 4 && r.pcr[l] / 4 == m.pcr[l] / 4
    decreases |moments|
  {
    if moments != [] {
      var x := moments[0].request;
      var now := At(m, moments[0]);
      TranslateEvolves(now, x.va, x.am, x.useApt);
      NoRingRises(Translate(now, x.va, x.am, x.useApt).1, moments[1..], l);
    }
  }

  // ---- The unit itself ----

  class MemoryManagement {
    const tables: PagingTables
    const registry: MemoryBanks.Registry
    const pcr: array<word>
    var level: nat
    var paging: bool
    var alternative: bool

    ghost predicate Valid()
      reads this, registry, registry.banks
    {
      tables.Valid() && registry.Valid() && pcr.Length == 16 && pcr != tables.shadowRam && level < 16
    }

    ghost function State(): (m: Mmu)
      reads this, tables, tables.shadowRam, registry, registry.banks, pcr
      requires Valid()
      ensures m.Valid()
    {
      Mmu(tables.shadowRam[..], tables.mms2, tables.extended, paging, alternative, pcr[..], level, registry.Contents())
    }

    constructor (tables: PagingTables, registry: MemoryBanks.Registry)
      requires tables.Valid() && registry.Valid()
      ensures Valid() && fresh(pcr) && this.tables == tables && this.registry == registry
    {
      this.tables := tables;
      this.registry := registry;
      pcr := new word[16](_ => 0);
      level, paging, alternative := 0, false, false;
    }

    // The table an access uses, and whether it is one of sixteen.
    method SelectTable(useApt: bool) returns (table: nat, sixteen: bool)
      requires Valid()
      ensures table == State().TableFor(useApt) && sixteen == State().Sixteen()
      ensures table < 16 && (!sixteen ==> table < 4) && (sixteen ==> tables.mms2)
    {
      var control := pcr[level];
      sixteen := control / 4 % 2 == 1 && tables.mms2;
      if alternative && useApt {
        table := if sixteen then control / 0x80 % 16 else control / 0x80 % 4;
      } else {
        table := if sixteen then control / 0x800 % 16 else control / 0x200 % 4;
      }
    }

    // Set the used mark and, for a write, the written mark, storing only what changes.
    method MarkEntry(table: nat, vpn: nat, sixteen: bool, e: u32, am: Access)
      requires Valid() && Legal(tables.mms2, tables.ModeOf(sixteen), table, vpn)
      modifies tables.shadowRam
      ensures tables.shadowRam[..]
           == if Marked(e, am) == e then old(tables.shadowRam[..])
              else Updated(old(tables.shadowRam[..]), tables.mms2, tables.ModeOf(sixteen), table, vpn, Marked(e, am))
    {
      var used := MarkUsed(e);
      if used != e {
        var ok := tables.UpdateEntry(table, vpn, sixteen, used);
      }
      if am == Write {
        var written := MarkWritten(used);
        if written != used {
          var ok := tables.UpdateEntry(table, vpn, sixteen, written);
          UpdateTwice(old(tables.shadowRam[..]), tables.mms2, tables.ModeOf(sixteen), table, vpn, used, written);
        }
      }
    }

    // Lower ring 3 to the ring of the page it fetches from.
    method DegradeRing(e: u32, am: Access) returns (ring: nat)
      requires Valid()
      modifies pcr
      ensures Valid() && State() == Degrade(old(State()), e, am) && ring == State().Ring()
    {
      DegradedRing(State(), e, am);
      ring := pcr[level] % 4;
      if IsFetch(am) && RingOf(e) < ring && ring == 3 {
        ring := RingOf(e);
        pcr[level] := pcr[level] - pcr[level] % 4 + ring;
      }
    }

    // Mark the entry of a page whose physical address a bank holds.
    method Land(va: word, table: nat, sixteen: bool, e: u32, am: Access) returns (outcome: Outcome)
      requires Valid() && Legal(tables.mms2, tables.ModeOf(sixteen), table, va / 1024)
      modifies tables.shadowRam
      ensures Valid()
      ensures var m, pa := old(State()), Frame(old(State()), e, va);
              outcome == if MemoryBanks.Unclaimed(m.banks, pa) then OutOfRange else Physical(pa)
      ensures State() == old(State()).(ram :=
          if outcome == OutOfRange || Marked(e, am) == e then old(State()).ram
          else Updated(old(State()).ram, tables.mms2, tables.ModeOf(sixteen), table, va / 1024, Marked(e, am)))
    {
      var frame := if tables.extended then e % 0x4000 else e % 0x200;
      FrameOffset(frame, va);
      var pa := frame * 1024 + va % 1024;
      var found, kind := registry.Lookup(pa);
      if !found {
        return OutOfRange;
      }
      MarkEntry(table, va / 1024, sixteen, e, am);
      return Physical(pa);
    }

    // The part of the translation after the permission checks.
    method Admit(va: word, am: Access, useApt: bool, table: nat, sixteen: bool, e: u32) returns (outcome: Outcome)
      requires Valid() && Present(e) && e == State().EntryFor(va, useApt)
      requires table == State().TableFor(useApt) && sixteen == State().Sixteen()
      requires table < 16 && (!sixteen ==> table < 4) && (sixteen ==> tables.mms2)
      modifies tables.shadowRam, pcr
      ensures Valid()
      ensures (outcome, State()) == Admitted(old(State()), va, am, useApt, e)
    {
      AdmittedAfter(State(), va, am, useApt, e);
      var ring := DegradeRing(e, am);
      if ring < RingOf(e) {
        return RingViolation;
      }
      outcome := Land(va, table, sixteen, e, am);
    }

    // A ring 3 access to the shadow window, or any access with paging off.
    method NeedsNoTable(va: word, sixteen: bool) returns (direct: bool)
      requires Valid() && sixteen == State().Sixteen()
      ensures direct == State().Direct(va)
    {
      var ring := pcr[level] % 4;
      direct := (ring == 3 && va >= Start(tables.ModeOf(sixteen))) || !paging;
    }

    method MapVirtualToPhysical(va: word, am: Access, useApt: bool) returns (outcome: Outcome)
      requires Valid()
      modifies tables.shadowRam, pcr
      ensures Valid()
      ensures (outcome, State()) == Translate(old(State()), va, am, useApt)
    {
      var table, sixteen := SelectTable(useApt);
      var direct := NeedsNoTable(va, sixteen);
      if direct {
        return Physical(va);
      }
      var e := tables.GetEntry(table, va / 1024, sixteen);
      if !Present(e) {
        return PageFault;
      }
      if !Permits(e, am) {
        return PermitViolation;
      }
      outcome := Admit(va, am, useApt, table, sixteen, e);
    }
  }

  // The second of two updates of one entry is what remains.
  lemma UpdateTwice(ram: seq<word>, mms2: bool, mode: Mode, table: nat, vpn: nat, e: u32, e': u32)
    requires |ram| == Size(mms2) && Legal(mms2, mode, table, vpn)
    ensures Updated(Updated(ram, mms2, mode, table, vpn, e), mms2, mode, table, vpn, e')
         == Updated(ram, mms2, mode, table, vpn, e')
  {
    IndexInside(mms2, mode, table, vpn);
  }
}
