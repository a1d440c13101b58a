/**
 The life of a page between the instructions that enter it and those that take it back: what
 translation marks in the page tables is what CLEPU collects and what CHREENT finds written.
 */
module PageUse {
  import opened Words
  import opened PhysicalMemory
  import PageTables
  import opened SegmentTables
  import opened EntryViews
  import opened Translation
  import NodeWords
  import WorkingSet
  import ReentrantPages

  // ---- The marks in the first word of an entry ----

  lemma FirstWordMarks(high: word, low: word)
    ensures Flag(PageTables.Pair(high, low), Translation.PGU) <==> Bit(high, WorkingSet.PGU)
    ensures Flag(PageTables.Pair(high, low), Translation.WIP) <==> ReentrantPages.Written(high)
    ensures Flag(PageTables.Pair(high, low), Translation.WIP) <==> Bit(high, 12)
  {
    NodeWords.HighPowers();
    BitIsWeight(high, 11);
    BitIsWeight(high, 12);
    HalfFields(high, low);
  }

  lemma HalfFields(high: word, low: word)
    ensures PageTables.Pair(high, low) / 0x800_0000 == high / 0x800
    ensures PageTables.Pair(high, low) / 0x1000_0000 == high / 0x1000
  {
    assert high == high / 0x800 * 0x800 + high % 0x800;
    assert high / 0x1000 == high / 0x800 / 2;
  }

  // ---- Pages entered, used for a while, and seen again ----

  // The number of the page-table page that a node names, and the addressing mode it is of.
  function PageOf(f: Family, s: Store, bank: byte, x: word): nat
    requires s.Valid()
  {
    NumberOf(f, s, bank, x)
  }

  // t is the store after a chain was entered by f and then a run of translations made, which changes
  // page tables alone.
  ghost predicate UsedSince(f: Family, s: Store, t: Store, bank: byte, nodes: seq<word>, m: Mmu, requests: seq<Request>)
    requires s.Valid() && m.Valid()
  {
    var entered := Enter(s, Items(f, s, bank, nodes));
    && m.TableMode() == ModeOf(f) && Shows(entered, m.ram, m.mms2)
    && |TranslateAll(m, requests).ram| == |m.ram| && Shows(t, TranslateAll(m, requests).ram, m.mms2)
    && t.window == s.window
    && (forall a {:trigger t.Plain(a)} :: t.Plain(a) <==> s.Plain(a))
    && (forall a {:trigger t.Read(a)} :: !s.InWindow(a) ==> t.Read(a) == entered.Read(a))
  }

  // Node words are as before.
  lemma NodesKept(f: Family, s: Store, t: Store, bank: byte, nodes: seq<word>, m: Mmu, requests: seq<Request>,
                  i: nat, k: nat)
    requires Walk(f, s, bank, nodes) && m.Valid() && i < |nodes| && k < 4
    requires UsedSince(f, s, t, bank, nodes, m, requests)
    ensures t.Read(NodeWord(bank, nodes[i], k)) == s.Read(NodeWord(bank, nodes[i], k))
  {
    assert s.Plain(NodeWord(bank, nodes[i], k));
    NodesEntered(f, s, bank, nodes, i, k);
  }

  // So the nodes name the entries they named.
  lemma SameEntry(f: Family, s: Store, t: Store, bank: byte, nodes: seq<word>, m: Mmu, requests: seq<Request>, i: nat)
    requires Walk(f, s, bank, nodes) && m.Valid() && i < |nodes|
    requires UsedSince(f, s, t, bank, nodes, m, requests)
    ensures EntryAddress(f, t, bank, nodes[i]) == EntryAddress(f, s, bank, nodes[i])
    ensures EntryPartner(f, t, bank, nodes[i]) == EntryPartner(f, s, bank, nodes[i])
    ensures PageOf(f, t, bank, nodes[i]) == PageOf(f, s, bank, nodes[i])
  {
    NodesKept(f, s, t, bank, nodes, m, requests, i, 1);
    NodesKept(f, s, t, bank, nodes, m, requests, i, 3);
  }

  // A page's entry afterwards has the marks it was entered with and those of the run.
  lemma MarksSince(f: Family, s: Store, t: Store, bank: byte, nodes: seq<word>, m: Mmu, requests: seq<Request>, i: nat)
    requires Walk(f, s, bank, nodes) && DistinctEntries(f, s, bank, nodes) && m.Valid() && i < |nodes|
    requires UsedSince(f, s, t, bank, nodes, m, requests) && (f != Setpt ==> m.mms2)
    ensures var x, n := nodes[i], PageOf(f, s, bank, nodes[i]);
            var v := t.Read(EntryAddress(f, s, bank, x));
            && (Bit(v, WorkingSet.PGU) <==> Touched(m, requests, n / 64, n % 64, false))
            && (ReentrantPages.Written(v)
                <==> ReentrantPages.Written(s.Read(NodeWord(bank, x, 2))) || Touched(m, requests, n / 64, n % 64, true))
  {
    var x, n := nodes[i], PageOf(f, s, bank, nodes[i]);
    var entered := Enter(s, Items(f, s, bank, nodes));
    SameEntry(f, s, t, bank, nodes, m, requests, i);
    EnteredNumber(f, s, bank, nodes, i);
    PairIsEntry(f, entered, m.ram, m.mms2, bank, x);
    PairIsEntry(f, t, TranslateAll(m, requests).ram, m.mms2, bank, x);
    RunMarks(m, requests, n / 64, n % 64);
    EnteredMarks(f, s, bank, nodes, i);
    FirstWordMarks(entered.Read(EntryAddress(f, s, bank, x)), entered.Read(EntryPartner(f, s, bank, x)));
    FirstWordMarks(t.Read(EntryAddress(f, s, bank, x)), t.Read(EntryPartner(f, s, bank, x)));
  }

  lemma EnteredNumber(f: Family, s: Store, bank: byte, nodes: seq<word>, i: nat)
    requires Walk(f, s, bank, nodes) && i < |nodes|
    ensures var entered := Enter(s, Items(f, s, bank, nodes));
            && EntryAddress(f, entered, bank, nodes[i]) == EntryAddress(f, s, bank, nodes[i])
            && EntryPartner(f, entered, bank, nodes[i]) == EntryPartner(f, s, bank, nodes[i])
            && PageOf(f, entered, bank, nodes[i]) == PageOf(f, s, bank, nodes[i])
  {
    NodesEntered(f, s, bank, nodes, i, 1);
    NodesEntered(f, s, bank, nodes, i, 3);
  }

  lemma NodesEntered(f: Family, s: Store, bank: byte, nodes: seq<word>, i: nat, k: nat)
    requires Walk(f, s, bank, nodes) && i < |nodes| && k < 4
    ensures Enter(s, Items(f, s, bank, nodes)).Read(NodeWord(bank, nodes[i], k)) == s.Read(NodeWord(bank, nodes[i], k))
  {
    EnterKeepsNodes(f, s, bank, nodes, |nodes|, i, k);
    assert Items(f, s, bank, nodes)[..|nodes|] == Items(f, s, bank, nodes);
  }

  // What was entered is not marked used, and is marked written if the node's status was.
  lemma EnteredMarks(f: Family, s: Store, bank: byte, nodes: seq<word>, i: nat)
    requires Walk(f, s, bank, nodes) && DistinctEntries(f, s, bank, nodes) && i < |nodes|
    ensures var v := Enter(s, Items(f, s, bank, nodes)).Read(EntryAddress(f, s, bank, nodes[i]));
            && !Bit(v, WorkingSet.PGU)
            && (ReentrantPages.Written(v) <==> ReentrantPages.Written(s.Read(NodeWord(bank, nodes[i], 2))))
  {
    var w := s.Read(NodeWord(bank, nodes[i], 2));
    ItemsSeparate(f, s, bank, nodes);
    EnterAt(s, Items(f, s, bank, nodes), i);
    NodeWords.EnteredBits(f, w, 11);
    NodeWords.EnteredBits(f, w, 12);
    FirstWordMarks(w, 0);
    FirstWordMarks(EnteredFirst(f, w), 0);
  }

  // The chain is the same one afterwards, naming the same entries.
  lemma WalkKept(f: Family, s: Store, t: Store, bank: byte, nodes: seq<word>, m: Mmu, requests: seq<Request>)
    requires Walk(f, s, bank, nodes) && DistinctEntries(f, s, bank, nodes) && m.Valid()
    requires UsedSince(f, s, t, bank, nodes, m, requests)
    ensures Walk(f, t, bank, nodes) && DistinctEntries(f, t, bank, nodes)
  {
    forall i | 0 <= i < |nodes|
      ensures t.Read(NodeWord(bank, nodes[i], 0)) == NodeOrNil(nodes, i + 1)
      ensures EntryOffset(f, t, bank, nodes[i]) == EntryOffset(f, s, bank, nodes[i])
    {
      NodesKept(f, s, t, bank, nodes, m, requests, i, 0);
      SameEntry(f, s, t, bank, nodes, m, requests, i);
    }
  }

  // ---- The working set ----

  // Some page of this number, of seven bits, has been used in the run.
  ghost predicate PageUsed(s: Store, bank: byte, nodes: seq<word>, m: Mmu, requests: seq<Request>, page: nat)
    requires s.Valid() && m.Valid()
  {
    exists i :: 0 <= i < |nodes| && NodeUsed(s, bank, nodes[i], m, requests, page)
  }

  ghost predicate NodeUsed(s: Store, bank: byte, x: word, m: Mmu, requests: seq<Request>, page: nat)
    requires s.Valid() && m.Valid()
  {
    var index := NodeWords.Word(s, bank, x, 1);
    index % 128 == page && Touched(m, requests, index % 256 / 64, index % 64, false)
  }

  // CLEPU after SETPT: whatever translations were made in between, a bit of the table is set
  // afterwards exactly when it was set before or a page of that number was used, by an access that
  // succeeded. Right after SETPT no bit is set.
  lemma WorkingSetExact(s: Store, t: Store, bank: byte, l: word, nodes: seq<word>, m: Mmu, requests: seq<Request>,
                        w: nat, k: nat)
    requires Walk(Setpt, s, bank, nodes) && DistinctEntries(Setpt, s, bank, nodes) && m.Valid() && w < 8 && k < 16
    requires WorkingSet.TableFree(s, bank, l, nodes) && UsedSince(Setpt, s, t, bank, nodes, m, requests)
    ensures var r := WorkingSet.Collect(t, Items(Setpt, t, bank, nodes), WorkingSet.Indexes(t, bank, nodes), bank, l);
            Bit(r.Read(Address(bank, (l + w) % 0x10000)), k)
            <==> Bit(t.Read(Address(bank, (l + w) % 0x10000)), k) || PageUsed(s, bank, nodes, m, requests, 16 * w + k)
  {
    CollectedSince(s, t, bank, l, nodes, m, requests, w, k);
    AnyUsedSince(s, t, bank, nodes, m, requests, w, k);
    TablePlace(s, bank, l, nodes, w);
  }

  // What the collection of the pages as they now stand marks.
  lemma CollectedSince(s: Store, t: Store, bank: byte, l: word, nodes: seq<word>, m: Mmu, requests: seq<Request>,
                       w: nat, k: nat)
    requires Walk(Setpt, s, bank, nodes) && DistinctEntries(Setpt, s, bank, nodes) && m.Valid() && w < 8 && k < 16
    requires WorkingSet.TableFree(s, bank, l, nodes) && UsedSince(Setpt, s, t, bank, nodes, m, requests)
    ensures var items, indexes := Items(Setpt, t, bank, nodes), WorkingSet.Indexes(t, bank, nodes);
            var r := WorkingSet.Collect(t, items, indexes, bank, l);
            Bit(r.Read(WorkingSet.TableWord(bank, l, w)), k)
            <==> Bit(t.Read(WorkingSet.TableWord(bank, l, w)), k) || WorkingSet.AnyUsed(t, items, indexes, w, k)
  {
    var items := Items(Setpt, t, bank, nodes);
    WalkKept(Setpt, s, t, bank, nodes, m, requests);
    ItemsSeparate(Setpt, t, bank, nodes);
    WorkingSet.TableFreeApart(t, bank, l, nodes, |nodes|);
    assert items[..|nodes|] == items;
    WorkingSet.CollectMarks(t, items, WorkingSet.Indexes(t, bank, nodes), bank, l, w, k);
  }

  lemma AnyUsedSince(s: Store, t: Store, bank: byte, nodes: seq<word>, m: Mmu, requests: seq<Request>, w: nat, k: nat)
    requires Walk(Setpt, s, bank, nodes) && DistinctEntries(Setpt, s, bank, nodes) && m.Valid() && t.Valid()
    requires UsedSince(Setpt, s, t, bank, nodes, m, requests)
    ensures WorkingSet.AnyUsed(t, Items(Setpt, t, bank, nodes), WorkingSet.Indexes(t, bank, nodes), w, k)
       <==> PageUsed(s, bank, nodes, m, requests, 16 * w + k)
  {
    UsedNodes(s, t, bank, nodes, m, requests, w, k);
    SomeUsed(s, t, bank, nodes, Items(Setpt, t, bank, nodes), WorkingSet.Indexes(t, bank, nodes), m, requests, w, k);
  }

  lemma UsedNodes(s: Store, t: Store, bank: byte, nodes: seq<word>, m: Mmu, requests: seq<Request>, w: nat, k: nat)
    requires Walk(Setpt, s, bank, nodes) && DistinctEntries(Setpt, s, bank, nodes) && m.Valid() && t.Valid()
    requires UsedSince(Setpt, s, t, bank, nodes, m, requests)
    ensures var items, indexes := Items(Setpt, t, bank, nodes), WorkingSet.Indexes(t, bank, nodes);
            forall i :: 0 <= i < |nodes| ==>
              (WorkingSet.Used(t, items, indexes, w, k, i) <==> NodeUsed(s, bank, nodes[i], m, requests, 16 * w + k))
  {
    forall i | 0 <= i < |nodes|
      ensures WorkingSet.Used(t, Items(Setpt, t, bank, nodes), WorkingSet.Indexes(t, bank, nodes), w, k, i)
         <==> NodeUsed(s, bank, nodes[i], m, requests, 16 * w + k)
    {
      EntryUsed(s, t, bank, nodes, m, requests, i);
      UsedAlike(s, t, bank, nodes[i], Items(Setpt, t, bank, nodes), WorkingSet.Indexes(t, bank, nodes),
                m, requests, w, k, i);
    }
  }

  lemma UsedAlike(s: Store, t: Store, bank: byte, x: word, items: seq<Item>, indexes: seq<word>,
                  m: Mmu, requests: seq<Request>, w: nat, k: nat, i: nat)
    requires s.Valid() && t.Valid() && m.Valid() && |items| == |indexes| && i < |items|
    requires var index := NodeWords.Word(s, bank, x, 1);
             && indexes[i] == index
             && (Bit(t.Read(items[i].entry), WorkingSet.PGU)
                 <==> Touched(m, requests, index % 256 / 64, index % 64, false))
    ensures WorkingSet.Used(t, items, indexes, w, k, i) <==> NodeUsed(s, bank, x, m, requests, 16 * w + k)
  {
  }

  lemma SomeUsed(s: Store, t: Store, bank: byte, nodes: seq<word>, items: seq<Item>, indexes: seq<word>,
                 m: Mmu, requests: seq<Request>, w: nat, k: nat)
    requires s.Valid() && t.Valid() && m.Valid() && |items| == |indexes| == |nodes|
    requires forall i :: 0 <= i < |nodes| ==>
               (WorkingSet.Used(t, items, indexes, w, k, i) <==> NodeUsed(s, bank, nodes[i], m, requests, 16 * w + k))
    ensures WorkingSet.AnyUsed(t, items, indexes, w, k) <==> PageUsed(s, bank, nodes, m, requests, 16 * w + k)
  {
  }

  // One node: its index is the one it had, and its entry is marked used exactly when it was used.
  lemma EntryUsed(s: Store, t: Store, bank: byte, nodes: seq<word>, m: Mmu, requests: seq<Request>, i: nat)
    requires Walk(Setpt, s, bank, nodes) && DistinctEntries(Setpt, s, bank, nodes) && m.Valid() && i < |nodes|
    requires UsedSince(Setpt, s, t, bank, nodes, m, requests)
    ensures var index := NodeWords.Word(s, bank, nodes[i], 1);
            && t.Valid() && WorkingSet.Indexes(t, bank, nodes)[i] == index
            && (Bit(t.Read(Items(Setpt, t, bank, nodes)[i].entry), WorkingSet.PGU)
                <==> Touched(m, requests, index % 256 / 64, index % 64, false))
  {
    MarksSince(Setpt, s, t, bank, nodes, m, requests, i);
    SameEntry(Setpt, s, t, bank, nodes, m, requests, i);
    NodesKept(Setpt, s, t, bank, nodes, m, requests, i, 1);
    NodeWords.WordIsNodeWord(s, bank, nodes[i], 1);
    PageIndex(s.Read(NodeWord(bank, nodes[i], 1)));
  }

  lemma PageIndex(index: word)
    ensures index % 256 % 64 == index % 64
  {
  }

  // CLEPU at once after SETPT sets no bit: nothing that SETPT enters is marked used.
  lemma NothingUsedAtOnce(s: Store, bank: byte, l: word, nodes: seq<word>, w: nat, k: nat)
    requires Walk(Setpt, s, bank, nodes) && DistinctEntries(Setpt, s, bank, nodes) && w < 8 && k < 16
    requires WorkingSet.TableFree(s, bank, l, nodes)
    ensures var entered := Enter(s, Items(Setpt, s, bank, nodes));
            var r := WorkingSet.Collect(entered, Items(Setpt, entered, bank, nodes),
                                        WorkingSet.Indexes(entered, bank, nodes), bank, l);
            Bit(r.Read(Address(bank, (l + w) % 0x10000)), k) <==> Bit(s.Read(Address(bank, (l + w) % 0x10000)), k)
  {
    var entered := Enter(s, Items(Setpt, s, bank, nodes));
    var items, indexes := Items(Setpt, entered, bank, nodes), WorkingSet.Indexes(entered, bank, nodes);
    EnteredItems(s, bank, nodes);
    WorkingSet.TableFreeApart(entered, bank, l, nodes, |nodes|);
    assert items[..|nodes|] == items;
    WorkingSet.CollectMarks(entered, items, indexes, bank, l, w, k);
    NoneUsed(s, bank, nodes, w, k);
    TablePlace(s, bank, l, nodes, w);
    PlainEntered(s, bank, nodes, WorkingSet.TableWord(bank, l, w));
  }

  lemma EnteredItems(s: Store, bank: byte, nodes: seq<word>)
    requires Walk(Setpt, s, bank, nodes) && DistinctEntries(Setpt, s, bank, nodes)
    ensures var entered := Enter(s, Items(Setpt, s, bank, nodes));
            Walk(Setpt, entered, bank, nodes) && Separate(entered, Items(Setpt, entered, bank, nodes))
  {
    var entered := Enter(s, Items(Setpt, s, bank, nodes));
    EnterKeepsWalk(Setpt, Setpt, s, bank, nodes);
    forall i | 0 <= i < |nodes|
      ensures EntryOffset(Setpt, entered, bank, nodes[i]) == EntryOffset(Setpt, s, bank, nodes[i])
    {
      EnteredNumber(Setpt, s, bank, nodes, i);
    }
    ItemsSeparate(Setpt, entered, bank, nodes);
  }

  lemma NoneUsed(s: Store, bank: byte, nodes: seq<word>, w: nat, k: nat)
    requires Walk(Setpt, s, bank, nodes) && DistinctEntries(Setpt, s, bank, nodes)
    ensures var entered := Enter(s, Items(Setpt, s, bank, nodes));
            !WorkingSet.AnyUsed(entered, Items(Setpt, entered, bank, nodes),
                                WorkingSet.Indexes(entered, bank, nodes), w, k)
  {
    var entered := Enter(s, Items(Setpt, s, bank, nodes));
    forall i | 0 <= i < |nodes|
      ensures !Bit(entered.Read(Items(Setpt, entered, bank, nodes)[i].entry), WorkingSet.PGU)
    {
      EnteredNumber(Setpt, s, bank, nodes, i);
      EnteredMarks(Setpt, s, bank, nodes, i);
    }
  }

  lemma TablePlace(s: Store, bank: byte, l: word, nodes: seq<word>, w: nat)
    requires WorkingSet.TableFree(s, bank, l, nodes) && w < 8
    ensures WorkingSet.TableWord(bank, l, w) == Address(bank, (l + w) % 0x10000)
    ensures s.Plain(WorkingSet.TableWord(bank, l, w))
  {
  }

  lemma PlainEntered(s: Store, bank: byte, nodes: seq<word>, a: Address)
    requires Walk(Setpt, s, bank, nodes) && s.Plain(a)
    ensures Enter(s, Items(Setpt, s, bank, nodes)).Read(a) == s.Read(a)
  {
    var items := Items(Setpt, s, bank, nodes);
    forall i | 0 <= i < |items|
      ensures a != items[i].entry && a != items[i].partner
    {
      EntryEven(Setpt, s, bank, nodes[i]);
    }
    EnterFrame(s, items, a);
  }

  // ---- The written pages ----

  // Saving after such a run, with the entries cleared or kept: a node's status says written, as
  // CHREENT reads it, exactly when it said so before or a write that succeeded went to the page.
  lemma WrittenExact(f: Family, s: Store, t: Store, bank: byte, nodes: seq<word>, m: Mmu, requests: seq<Request>,
                     keep: bool, i: nat)
    requires Walk(f, s, bank, nodes) && DistinctEntries(f, s, bank, nodes) && m.Valid() && i < |nodes|
    requires UsedSince(f, s, t, bank, nodes, m, requests) && (f != Setpt ==> m.mms2)
    ensures var r, n := Save(t, Items(f, t, bank, nodes), keep), PageOf(f, s, bank, nodes[i]);
            ReentrantPages.IsWritten(r, bank, nodes[i])
            <==> Bit(NodeWords.Word(s, bank, nodes[i], 2), 12) || Touched(m, requests, n / 64, n % 64, true)
  {
    var w, v := s.Read(NodeWord(bank, nodes[i], 2)), t.Read(SegmentTables.EntryAddress(f, s, bank, nodes[i]));
    SavedSince(f, s, t, bank, nodes, m, requests, keep, i);
    MarksSince(f, s, t, bank, nodes, m, requests, i);
    NodeWords.WordIsNodeWord(s, bank, nodes[i], 2);
    WrittenKept(w, v);
  }

  lemma WrittenKept(w: word, v: word)
    ensures ReentrantPages.Written(w) <==> Bit(w, 12)
    ensures (ReentrantPages.Written(w) ==> ReentrantPages.Written(v))
        ==> (ReentrantPages.Written(if v == 0 then w else v) <==> ReentrantPages.Written(v))
  {
    FirstWordMarks(w, 0);
    assert !ReentrantPages.Written(0);
  }

  // The status word the saving leaves: the entry's first word if that is not zero.
  lemma SavedSince(f: Family, s: Store, t: Store, bank: byte, nodes: seq<word>, m: Mmu, requests: seq<Request>,
                   keep: bool, i: nat)
    requires Walk(f, s, bank, nodes) && DistinctEntries(f, s, bank, nodes) && m.Valid() && i < |nodes|
    requires UsedSince(f, s, t, bank, nodes, m, requests)
    ensures var r, x := Save(t, Items(f, t, bank, nodes), keep), nodes[i];
            var v := t.Read(SegmentTables.EntryAddress(f, s, bank, x));
            r.Read(ReentrantPages.StatusWord(bank, x)) == if v == 0 then s.Read(NodeWord(bank, x, 2)) else v
  {
    WalkKept(f, s, t, bank, nodes, m, requests);
    ItemsSeparate(f, t, bank, nodes);
    SaveAt(t, Items(f, t, bank, nodes), keep, i);
    SameEntry(f, s, t, bank, nodes, m, requests, i);
    NodesKept(f, s, t, bank, nodes, m, requests, i, 2);
    assert ReentrantPages.StatusWord(bank, nodes[i]) == NodeWord(bank, nodes[i], 2);
  }
}
