/**
 The instructions that move a chain of page descriptors into the page tables and out again:
 SETPT, CLEPT and CLEPU over a chain addressed by T and X, ENPT, REPT and CLPT over a chain in
 the core-map bank.

 A node is four words: the link to the next node (zero at the end) and three more. The two
 families differ in which node word names the page-table entry and in what the entry's second
 word is; entering and saving are the same for both.
 */
module SegmentTables {
  import opened Words
  import opened PhysicalMemory

  datatype Family = Setpt | Enpt | Rept

  function NodeWord(bank: byte, x: word, k: nat): Address
    requires k < 4
  {
    Address(bank, Wrap(x + k))
  }

  function ClearBit11(v: word): word {
    v - v / 2048 % 2 * 2048
  }

  function ClearBit15(v: word): word {
    v % 0x8000
  }

  // Twice the index, with all bits above the table size set: the entries lie from 0xFE00 for
  // a page index word and from 0xF800 for a descriptor word.
  function PageEntry(index: word): word {
    0xFE00 + 2 * (index as int) % 0x200
  }

  function DescriptorEntry(descriptor: word): word {
    0xF800 + 2 * (descriptor as int) % 0x800
  }

  // The page-table word pair a node names, by word 1 for SETPT and by word 3 for ENPT.
  function EntryOffset(f: Family, s: Store, bank: byte, x: word): word
    requires s.Valid()
  {
    if f == Setpt then PageEntry(s.Read(NodeWord(bank, x, 1)))
    else DescriptorEntry(s.Read(NodeWord(bank, x, 3)))
  }

  function EntryAddress(f: Family, s: Store, bank: byte, x: word): Address
    requires s.Valid()
  {
    Address(0, EntryOffset(f, s, bank, x))
  }

  function EntryPartner(f: Family, s: Store, bank: byte, x: word): Address
    requires s.Valid()
  {
    Address(0, Wrap(EntryOffset(f, s, bank, x) + 1))
  }

  // What is entered as the first and the second word of the pair.
  function EnteredFirst(f: Family, v: word): word {
    if f == Rept then ClearBit15(ClearBit11(v)) else ClearBit11(v)
  }

  function EnteredSecond(f: Family, s: Store, bank: byte, x: word): word
    requires s.Valid()
  {
    if f == Setpt then s.Read(NodeWord(bank, x, 3)) else x / 4
  }

  // ---- Chains ----

  // Four plain words to a node, and no word shared between two nodes.
  ghost predicate Laid(s: Store, bank: byte, nodes: seq<word>) {
    && (forall i, k :: 0 <= i < |nodes| && 0 <= k < 4 ==> s.Plain(NodeWord(bank, nodes[i], k)))
    && (forall i, j, k, l :: 0 <= i < |nodes| && 0 <= j < |nodes| && i != j && 0 <= k < 4 && 0 <= l < 4 ==>
          NodeWord(bank, nodes[i], k) != NodeWord(bank, nodes[j], l))
  }

  function NodeOrNil(nodes: seq<word>, i: nat): word {
    if i < |nodes| then nodes[i] else 0
  }

  // From x the nodes are linked in this order and end with a zero link.
  ghost predicate Chain(s: Store, bank: byte, x: word, nodes: seq<word>)
    requires s.Valid()
  {
    && x == NodeOrNil(nodes, 0)
    && forall i :: 0 <= i < |nodes| ==> nodes[i] != 0 && s.Read(NodeWord(bank, nodes[i], 0)) == NodeOrNil(nodes, i + 1)
  }

  // The whole range of entries of the family is behind the window.
  ghost predicate Visible(f: Family, s: Store) {
    s.window <= if f == Setpt then 0xFE00 else 0xF800
  }

  ghost predicate DistinctEntries(f: Family, s: Store, bank: byte, nodes: seq<word>)
    requires s.Valid()
  {
    forall i, j :: 0 <= i < j < |nodes| ==> EntryOffset(f, s, bank, nodes[i]) != EntryOffset(f, s, bank, nodes[j])
  }

  lemma EntryArithmetic(v: word)
    ensures PageEntry(v) == 0xFE00 + 2 * (v % 256)
    ensures DescriptorEntry(v) == 0xF800 + 2 * (v % 1024)
  {
    MaskedDouble(v / 256, v % 256, 256);
    MaskedDouble(v / 1024, v % 1024, 1024);
  }

  lemma MaskedDouble(q: nat, r: nat, m: nat)
    requires (m == 256 || m == 1024) && r < m
    ensures 2 * (m * q + r) % (2 * m) == 2 * r
  {
    if m == 256 {
      RemainderOf512(q, 2 * r);
    } else {
      RemainderOf2048(q, 2 * r);
    }
  }

  lemma RemainderOf512(q: nat, r: nat)
    requires r < 512
    ensures (512 * q + r) % 512 == r
  {
  }

  lemma RemainderOf2048(q: nat, r: nat)
    requires r < 2048
    ensures (2048 * q + r) % 2048 == r
  {
  }

  // Page indexes that differ modulo the table size name different entries.
  lemma EntriesByIndex(s: Store, bank: byte, x: word, y: word)
    requires s.Valid()
    ensures EntryOffset(Setpt, s, bank, x) == EntryOffset(Setpt, s, bank, y)
       <==> s.Read(NodeWord(bank, x, 1)) % 256 == s.Read(NodeWord(bank, y, 1)) % 256
    ensures EntryOffset(Enpt, s, bank, x) == EntryOffset(Enpt, s, bank, y)
       <==> s.Read(NodeWord(bank, x, 3)) % 1024 == s.Read(NodeWord(bank, y, 3)) % 1024
  {
    EntryArithmetic(s.Read(NodeWord(bank, x, 1)));
    EntryArithmetic(s.Read(NodeWord(bank, y, 1)));
    EntryArithmetic(s.Read(NodeWord(bank, x, 3)));
    EntryArithmetic(s.Read(NodeWord(bank, y, 3)));
  }

  // Entry offsets are even, so a pair never overlaps another.
  lemma EntryEven(f: Family, s: Store, bank: byte, x: word)
    requires s.Valid()
    ensures EntryOffset(f, s, bank, x) % 2 == 0
    ensures Visible(f, s) ==> s.InWindow(EntryAddress(f, s, bank, x)) && s.InWindow(EntryPartner(f, s, bank, x))
  {
    EntryArithmetic(s.Read(NodeWord(bank, x, 1)));
    EntryArithmetic(s.Read(NodeWord(bank, x, 3)));
  }

  // ---- Moving a list of items between node words and page-table words ----

  // What one node stands for: its entry pair, the node word the entry is saved in, and the
  // values entered.
  datatype Item = Item(entry: Address, partner: Address, slot: Address, first: word, second: word)

  function ItemOf(f: Family, s: Store, bank: byte, x: word): Item
    requires s.Valid()
  {
    Item(EntryAddress(f, s, bank, x), EntryPartner(f, s, bank, x), NodeWord(bank, x, 2),
         EnteredFirst(f, s.Read(NodeWord(bank, x, 2))), EnteredSecond(f, s, bank, x))
  }

  function Items(f: Family, s: Store, bank: byte, nodes: seq<word>): (items: seq<Item>)
    requires s.Valid()
    ensures |items| == |nodes|
    ensures forall i :: 0 <= i < |nodes| ==> items[i] == ItemOf(f, s, bank, nodes[i])
  {
    seq(|nodes|, i requires 0 <= i < |nodes| => ItemOf(f, s, bank, nodes[i]))
  }

  function EnterItem(s: Store, m: Item): (r: Store)
    requires s.Valid()
    ensures r.Valid() && r.window == s.window
    ensures forall a {:trigger r.Plain(a)} :: r.Plain(a) <==> s.Plain(a)
  {
    s.Write(m.entry, m.first).Write(m.partner, m.second)
  }

  // A used entry is saved in the node and, unless kept, cleared.
  function SaveItem(s: Store, m: Item, keep: bool): (r: Store)
    requires s.Valid()
    ensures r.Valid() && r.window == s.window
    ensures forall a {:trigger r.Plain(a)} :: r.Plain(a) <==> s.Plain(a)
  {
    var a := s.Read(m.entry);
    if a == 0 then s
    else if keep then s.Write(m.slot, a)
    else s.Write(m.slot, a).Write(m.entry, 0)
  }

  function Enter(s: Store, items: seq<Item>): (r: Store)
    requires s.Valid()
    ensures r.Valid() && r.window == s.window
    ensures forall a {:trigger r.Plain(a)} :: r.Plain(a) <==> s.Plain(a)
    decreases |items|
  {
    if items == [] then s else EnterItem(Enter(s, items[..|items| - 1]), items[|items| - 1])
  }

  function Save(s: Store, items: seq<Item>, keep: bool): (r: Store)
    requires s.Valid()
    ensures r.Valid() && r.window == s.window
    ensures forall a {:trigger r.Plain(a)} :: r.Plain(a) <==> s.Plain(a)
    decreases |items|
  {
    if items == [] then s else SaveItem(Save(s, items[..|items| - 1], keep), items[|items| - 1], keep)
  }

  function Erase(s: Store, items: seq<Item>): (r: Store)
    requires s.Valid()
    ensures r.Valid() && r.window == s.window
    ensures forall a {:trigger r.Plain(a)} :: r.Plain(a) <==> s.Plain(a)
    decreases |items|
  {
    if items == [] then s else Erase(s, items[..|items| - 1]).Write(items[|items| - 1].entry, 0)
  }

  // Entry pairs are behind the window and pairwise disjoint; slots are plain and distinct.
  ghost predicate Placed(s: Store, m: Item) {
    s.InWindow(m.entry) && s.InWindow(m.partner) && s.Plain(m.slot) && m.entry != m.partner
  }

  ghost predicate Disjoint(m: Item, n: Item) {
    && m.entry != n.entry && m.entry != n.partner && m.partner != n.entry && m.partner != n.partner
    && m.slot != n.slot
  }

  ghost predicate Separate(s: Store, items: seq<Item>) {
    && (forall i :: 0 <= i < |items| ==> Placed(s, items[i]))
    && (forall i, j :: 0 <= i < j < |items| ==> Disjoint(items[i], items[j]))
  }

  ghost predicate OutsideEntries(items: seq<Item>, a: Address) {
    forall i :: 0 <= i < |items| ==> a != items[i].entry && a != items[i].partner
  }

  ghost predicate OutsideSaved(items: seq<Item>, a: Address) {
    forall i :: 0 <= i < |items| ==> a != items[i].entry && a != items[i].slot
  }

  lemma {:induction false} EnterFrame(s: Store, items: seq<Item>, a: Address)
    requires s.Valid() && OutsideEntries(items, a)
    ensures Enter(s, items).Read(a) == s.Read(a)
    decreases |items|
  {
    if items != [] {
      EnterFrame(s, items[..|items| - 1], a);
    }
  }

  lemma {:induction false} EnterAt(s: Store, items: seq<Item>, i: nat)
    requires s.Valid() && Separate(s, items) && i < |items|
    ensures Enter(s, items).Read(items[i].entry) == items[i].first
    ensures Enter(s, items).Read(items[i].partner) == items[i].second
    decreases |items|
  {
    var n := |items| - 1;
    assert Placed(s, items[i]);
    if i < n {
      EnterAt(s, items[..n], i);
      assert Disjoint(items[i], items[n]);
    }
  }

  lemma {:induction false} SaveFrame(s: Store, items: seq<Item>, keep: bool, a: Address)
    requires s.Valid() && OutsideSaved(items, a)
    ensures Save(s, items, keep).Read(a) == s.Read(a)
    decreases |items|
  {
    if items != [] {
      SaveFrame(s, items[..|items| - 1], keep, a);
    }
  }

  // An item no other item touches.
  lemma OthersOutside(s: Store, items: seq<Item>)
    requires Separate(s, items) && items != []
    ensures var n := |items| - 1;
            OutsideSaved(items[..n], items[n].entry) && OutsideSaved(items[..n], items[n].slot)
  {
    var n := |items| - 1;
    forall i | 0 <= i < n
      ensures items[n].entry != items[i].entry && items[n].entry != items[i].slot
      ensures items[n].slot != items[i].entry && items[n].slot != items[i].slot
    {
      assert Disjoint(items[i], items[n]) && Placed(s, items[i]) && Placed(s, items[n]);
    }
  }

  // What saving leaves in an item's slot and entry.
  ghost predicate Saved(s: Store, r: Store, m: Item, keep: bool)
    requires s.Valid() && r.Valid()
  {
    var e := s.Read(m.entry);
    r.Read(m.slot) == (if e == 0 then s.Read(m.slot) else e) && r.Read(m.entry) == if keep then e else 0
  }

  lemma SaveStep(s: Store, m: Item, keep: bool)
    requires s.Valid() && s.InWindow(m.entry) && s.Plain(m.slot)
    ensures Saved(s, SaveItem(s, m, keep), m, keep)
  {
  }

  lemma SaveElsewhere(s: Store, m: Item, keep: bool, a: Address)
    requires s.Valid() && a != m.entry && a != m.slot
    ensures SaveItem(s, m, keep).Read(a) == s.Read(a)
  {
  }

  lemma {:induction false} SaveAt(s: Store, items: seq<Item>, keep: bool, i: nat)
    requires s.Valid() && Separate(s, items) && i < |items|
    ensures Saved(s, Save(s, items, keep), items[i], keep)
    decreases |items|
  {
    var n := |items| - 1;
    var s1, m := Save(s, items[..n], keep), items[n];
    assert Placed(s, items[i]) && Placed(s, m);
    if i < n {
      SaveAt(s, items[..n], keep, i);
      assert Disjoint(items[i], m);
      SaveElsewhere(s1, m, keep, items[i].entry);
      SaveElsewhere(s1, m, keep, items[i].slot);
    } else {
      SaveLast(s, items, keep);
    }
  }

  lemma SaveLast(s: Store, items: seq<Item>, keep: bool)
    requires s.Valid() && Separate(s, items) && items != []
    ensures Saved(s, Save(s, items, keep), items[|items| - 1], keep)
  {
    var n := |items| - 1;
    var s1, m := Save(s, items[..n], keep), items[n];
    assert Placed(s, m);
    OthersOutside(s, items);
    SaveFrame(s, items[..n], keep, m.entry);
    SaveFrame(s, items[..n], keep, m.slot);
    assert s1.Plain(m.slot);
    SaveStep(s1, m, keep);
  }

  // Erasing zeroes exactly the entries.
  lemma {:induction false} EraseReads(s: Store, items: seq<Item>, a: Address)
    requires s.Valid() && forall i :: 0 <= i < |items| ==> s.InWindow(items[i].entry)
    ensures (exists i :: 0 <= i < |items| && items[i].entry == a) ==> Erase(s, items).Read(a) == 0
    ensures (forall i :: 0 <= i < |items| ==> items[i].entry != a) ==> Erase(s, items).Read(a) == s.Read(a)
    decreases |items|
  {
    if items != [] {
      var n := |items| - 1;
      EraseReads(s, items[..n], a);
      if exists i :: 0 <= i < |items| && items[i].entry == a {
        var i :| 0 <= i < |items| && items[i].entry == a;
        assert i < n ==> items[..n][i].entry == a;
      }
    }
  }

  // ---- The instructions, over the chain they are given ----

  // Same node words, same item.
  lemma ItemKept(f: Family, s: Store, r: Store, bank: byte, x: word)
    requires s.Valid() && r.Valid()
    requires forall k :: 0 <= k < 4 ==> r.Read(NodeWord(bank, x, k)) == s.Read(NodeWord(bank, x, k))
    ensures ItemOf(f, r, bank, x) == ItemOf(f, s, bank, x)
  {
  }

  // Entries are in the window and node words are not, so entering changes no node word.
  lemma EnterKeepsNodes(f: Family, s: Store, bank: byte, nodes: seq<word>, n: nat, i: nat, k: nat)
    requires s.Valid() && Laid(s, bank, nodes) && Visible(f, s) && n <= |nodes| && i < |nodes| && k < 4
    ensures Enter(s, Items(f, s, bank, nodes)[..n]).Read(NodeWord(bank, nodes[i], k))
         == s.Read(NodeWord(bank, nodes[i], k))
  {
    var items := Items(f, s, bank, nodes);
    forall j | 0 <= j < n
      ensures NodeWord(bank, nodes[i], k) != items[j].entry && NodeWord(bank, nodes[i], k) != items[j].partner
    {
      EntryEven(f, s, bank, nodes[j]);
    }
    EnterFrame(s, items[..n], NodeWord(bank, nodes[i], k));
  }

  // Saving changes word 2 of the nodes it has passed, and no other node word.
  lemma SaveKeepsNodes(f: Family, s: Store, bank: byte, nodes: seq<word>, keep: bool, n: nat, i: nat, k: nat)
    requires s.Valid() && Laid(s, bank, nodes) && Visible(f, s) && n <= |nodes| && i < |nodes| && k < 4
    requires n <= i || k != 2
    ensures Save(s, Items(f, s, bank, nodes)[..n], keep).Read(NodeWord(bank, nodes[i], k))
         == s.Read(NodeWord(bank, nodes[i], k))
  {
    var items := Items(f, s, bank, nodes);
    forall j | 0 <= j < n
      ensures NodeWord(bank, nodes[i], k) != items[j].entry && NodeWord(bank, nodes[i], k) != items[j].slot
    {
      EntryEven(f, s, bank, nodes[j]);
      if i != j {
        assert NodeWord(bank, nodes[i], k) != NodeWord(bank, nodes[j], 2);
      }
    }
    SaveFrame(s, items[..n], keep, NodeWord(bank, nodes[i], k));
  }

  // One more item is one more step.
  lemma WalkNext(s: Store, items: seq<Item>, keep: bool, i: nat)
    requires s.Valid() && i < |items|
    ensures Enter(s, items[..i + 1]) == EnterItem(Enter(s, items[..i]), items[i])
    ensures Save(s, items[..i + 1], keep) == SaveItem(Save(s, items[..i], keep), items[i], keep)
    ensures Erase(s, items[..i + 1]) == Erase(s, items[..i]).Write(items[i].entry, 0)
  {
    assert items[..i + 1][..i] == items[..i];
  }

  // The i-th pass of a walk: dealing with the node as it now stands is dealing with its original
  // item, and the link that is followed is the original one.
  lemma EnterPass(f: Family, s: Store, bank: byte, nodes: seq<word>, i: nat)
    requires s.Valid() && Laid(s, bank, nodes) && Visible(f, s) && i < |nodes|
    requires Chain(s, bank, NodeOrNil(nodes, 0), nodes)
    ensures var items := Items(f, s, bank, nodes);
            var now, next, link := Enter(s, items[..i]), Enter(s, items[..i + 1]), NodeWord(bank, nodes[i], 0);
            && EnterItem(now, ItemOf(f, now, bank, nodes[i])) == next
            && now.Read(link) == next.Read(link) == NodeOrNil(nodes, i + 1)
  {
    var items := Items(f, s, bank, nodes);
    EnterKeepsItem(f, s, bank, nodes, i);
    WalkNext(s, items, false, i);
    EnterKeepsNodes(f, s, bank, nodes, i, i, 0);
    EnterKeepsNodes(f, s, bank, nodes, i + 1, i, 0);
  }

  lemma EnterKeepsItem(f: Family, s: Store, bank: byte, nodes: seq<word>, i: nat)
    requires s.Valid() && Laid(s, bank, nodes) && Visible(f, s) && i < |nodes|
    ensures var items := Items(f, s, bank, nodes);
            ItemOf(f, Enter(s, items[..i]), bank, nodes[i]) == items[i]
  {
    var now := Enter(s, Items(f, s, bank, nodes)[..i]);
    forall k | 0 <= k < 4
      ensures now.Read(NodeWord(bank, nodes[i], k)) == s.Read(NodeWord(bank, nodes[i], k))
    {
      EnterKeepsNodes(f, s, bank, nodes, i, i, k);
    }
    ItemKept(f, s, now, bank, nodes[i]);
  }

  lemma SavePass(f: Family, s: Store, bank: byte, nodes: seq<word>, keep: bool, i: nat)
    requires s.Valid() && Laid(s, bank, nodes) && Visible(f, s) && i < |nodes|
    requires Chain(s, bank, NodeOrNil(nodes, 0), nodes)
    ensures var items := Items(f, s, bank, nodes);
            var now, next := Save(s, items[..i], keep), Save(s, items[..i + 1], keep);
            var link := NodeWord(bank, nodes[i], 0);
            && SaveItem(now, ItemOf(f, now, bank, nodes[i]), keep) == next
            && now.Read(link) == next.Read(link) == NodeOrNil(nodes, i + 1)
  {
    var items := Items(f, s, bank, nodes);
    SaveKeepsItem(f, s, bank, nodes, keep, i);
    WalkNext(s, items, keep, i);
    SaveKeepsNodes(f, s, bank, nodes, keep, i, i, 0);
    SaveKeepsNodes(f, s, bank, nodes, keep, i + 1, i, 0);
  }

  lemma SaveKeepsItem(f: Family, s: Store, bank: byte, nodes: seq<word>, keep: bool, i: nat)
    requires s.Valid() && Laid(s, bank, nodes) && Visible(f, s) && i < |nodes|
    ensures var items := Items(f, s, bank, nodes);
            ItemOf(f, Save(s, items[..i], keep), bank, nodes[i]) == items[i]
  {
    var now := Save(s, Items(f, s, bank, nodes)[..i], keep);
    forall k | 0 <= k < 4
      ensures now.Read(NodeWord(bank, nodes[i], k)) == s.Read(NodeWord(bank, nodes[i], k))
    {
      SaveKeepsNodes(f, s, bank, nodes, keep, i, i, k);
    }
    ItemKept(f, s, now, bank, nodes[i]);
  }

  lemma ErasePass(s: Store, bank: byte, nodes: seq<word>, i: nat)
    requires s.Valid() && Laid(s, bank, nodes) && Visible(Enpt, s) && i < |nodes|
    requires Chain(s, bank, NodeOrNil(nodes, 0), nodes)
    ensures var items := Items(Enpt, s, bank, nodes);
            var now, next, link := Erase(s, items[..i]), Erase(s, items[..i + 1]), NodeWord(bank, nodes[i], 0);
            && now.Write(EntryAddress(Enpt, now, bank, nodes[i]), 0) == next
            && next.Read(link) == NodeOrNil(nodes, i + 1)
  {
    var items := Items(Enpt, s, bank, nodes);
    EraseKeepsNode(s, bank, nodes, i, i, 3);
    assert EntryAddress(Enpt, Erase(s, items[..i]), bank, nodes[i]) == items[i].entry;
    WalkNext(s, items, false, i);
    EraseKeepsNode(s, bank, nodes, i + 1, i, 0);
  }

  lemma EraseKeepsNode(s: Store, bank: byte, nodes: seq<word>, n: nat, i: nat, k: nat)
    requires s.Valid() && Laid(s, bank, nodes) && Visible(Enpt, s) && n <= |nodes| && i < |nodes| && k < 4
    ensures Erase(s, Items(Enpt, s, bank, nodes)[..n]).Read(NodeWord(bank, nodes[i], k))
         == s.Read(NodeWord(bank, nodes[i], k))
  {
    var items := Items(Enpt, s, bank, nodes);
    forall j | 0 <= j < n
      ensures s.InWindow(items[j].entry) && NodeWord(bank, nodes[i], k) != items[j].entry
    {
      EntryEven(Enpt, s, bank, nodes[j]);
    }
    EraseReads(s, items[..n], NodeWord(bank, nodes[i], k));
  }

  // CLPT under control word a.
  function Cleared(s: Store, items: seq<Item>, a: word): (r: Store)
    requires s.Valid()
    ensures r.Valid()
  {
    if a >= 0x8000 then Erase(s, items) else Save(s, items, a != 0)
  }

  // What a chain instruction demands of the chain it walks.
  ghost predicate Walk(f: Family, s: Store, bank: byte, nodes: seq<word>) {
    s.Valid() && Laid(s, bank, nodes) && Visible(f, s) && Chain(s, bank, NodeOrNil(nodes, 0), nodes)
  }

  // The family a mask selects.
  function FamilyOf(clear15: bool): Family {
    if clear15 then Rept else Enpt
  }

  // A walk that has met a zero link has passed every node.
  lemma ChainEnds(f: Family, s: Store, bank: byte, nodes: seq<word>, i: nat)
    requires Walk(f, s, bank, nodes) && i <= |nodes| && NodeOrNil(nodes, i) == 0
    ensures i == |nodes|
  {
  }

  class Machine {
    const phys: PhysMem
    var a: word
    var b: word
    var d: word
    var t: word
    var x: word
    var cmBank: byte

    constructor (phys: PhysMem)
      ensures this.phys == phys
    {
      this.phys := phys;
      a, b, d, t, x, cmBank := 0, 0, 0, 0, 0, 0;
    }

    // What SETPT does with one node.
    method SetNode()
      requires phys.Contents().Valid()
      modifies phys, this`a, this`b, this`d, this`x
      ensures phys.Contents() == EnterItem(old(phys.Contents()), ItemOf(Setpt, old(phys.Contents()), t % 256, old(x)))
      ensures x == old(phys.Contents().Read(NodeWord(t % 256, x, 0)))
    {
      var nextX := phys.ReadWord(NodeWord(t % 256, x, 0));
      var idx := phys.ReadWord(NodeWord(t % 256, x, 1));
      b := PageEntry(idx);
      a := phys.ReadWord(NodeWord(t % 256, x, 2));
      d := phys.ReadWord(NodeWord(t % 256, x, 3));
      a := ClearBit11(a);
      ghost var m := ItemOf(Setpt, phys.Contents(), t % 256, x);
      assert m.entry == Address(0, b) && m.partner == Address(0, Wrap(b + 1)) && m.first == a && m.second == d;
      phys.WriteWord(Address(0, b), a);
      phys.WriteWord(Address(0, Wrap(b + 1)), d);
      x := nextX;
    }

    // One pass of SETPT.
    method SetPass(ghost s: Store, ghost nodes: seq<word>, ghost i: nat)
      requires Walk(Setpt, s, t % 256, nodes) && i < |nodes| && x == nodes[i]
      requires phys.Contents() == Enter(s, Items(Setpt, s, t % 256, nodes)[..i])
      modifies phys, this`a, this`b, this`d, this`x
      ensures phys.Contents() == Enter(s, Items(Setpt, s, t % 256, nodes)[..i + 1])
      ensures x == NodeOrNil(nodes, i + 1)
    {
      EnterPass(Setpt, s, t % 256, nodes, i);
      SetNode();
    }

    // SETPT: every node's pair is entered, and X ends with the word at offset 0 of the bank.
    method SetPageTables(ghost nodes: seq<word>)
      requires Walk(Setpt, phys.Contents(), t % 256, nodes) && x == NodeOrNil(nodes, 0)
      modifies phys, this`a, this`b, this`d, this`x
      ensures phys.Contents() == Enter(old(phys.Contents()), Items(Setpt, old(phys.Contents()), t % 256, nodes))
      ensures x == phys.Contents().Read(Address(t % 256, 0))
    {
      ghost var s, i := phys.Contents(), 0;
      ghost var items := Items(Setpt, s, t % 256, nodes);
      while x != 0
        invariant 0 <= i <= |nodes| && x == NodeOrNil(nodes, i)
        invariant phys.Contents() == Enter(s, items[..i])
        decreases |nodes| - i
      {
        SetPass(s, nodes, i);
        i := i + 1;
      }
      ChainEnds(Setpt, s, t % 256, nodes, i);
      assert items[..|nodes|] == items;
      x := phys.ReadWord(NodeWord(t % 256, x, 0));
    }

    // What CLEPT does with one node.
    method ClearNode()
      requires phys.Contents().Valid()
      modifies phys, this`a, this`b, this`x
      ensures phys.Contents()
           == SaveItem(old(phys.Contents()), ItemOf(Setpt, old(phys.Contents()), t % 256, old(x)), false)
      ensures x == old(phys.Contents().Read(NodeWord(t % 256, x, 0)))
    {
      var nextX := phys.ReadWord(NodeWord(t % 256, x, 0));
      var idx := phys.ReadWord(NodeWord(t % 256, x, 1));
      b := PageEntry(idx);
      a := phys.ReadWord(Address(0, b));
      if a != 0 {
        phys.WriteWord(NodeWord(t % 256, x, 2), a);
        phys.WriteWord(Address(0, b), 0);
      }
      x := nextX;
    }

    // One pass of CLEPT.
    method ClearPass(ghost s: Store, ghost nodes: seq<word>, ghost i: nat)
      requires Walk(Setpt, s, t % 256, nodes) && i < |nodes| && x == nodes[i]
      requires phys.Contents() == Save(s, Items(Setpt, s, t % 256, nodes)[..i], false)
      modifies phys, this`a, this`b, this`x
      ensures phys.Contents() == Save(s, Items(Setpt, s, t % 256, nodes)[..i + 1], false)
      ensures x == NodeOrNil(nodes, i + 1)
    {
      SavePass(Setpt, s, t % 256, nodes, false, i);
      ClearNode();
    }

    // CLEPT: every used entry is saved in its node and cleared.
    method ClearPageTables(ghost nodes: seq<word>)
      requires Walk(Setpt, phys.Contents(), t % 256, nodes) && x == NodeOrNil(nodes, 0)
      modifies phys, this`a, this`b, this`x
      ensures phys.Contents() == Save(old(phys.Contents()), Items(Setpt, old(phys.Contents()), t % 256, nodes), false)
      ensures x == phys.Contents().Read(Address(t % 256, 0))
    {
      ghost var s, i := phys.Contents(), 0;
      ghost var items := Items(Setpt, s, t % 256, nodes);
      while x != 0
        invariant 0 <= i <= |nodes| && x == NodeOrNil(nodes, i)
        invariant phys.Contents() == Save(s, items[..i], false)
        decreases |nodes| - i
      {
        ClearPass(s, nodes, i);
        i := i + 1;
      }
      ChainEnds(Setpt, s, t % 256, nodes, i);
      assert items[..|nodes|] == items;
      x := phys.ReadWord(NodeWord(t % 256, x, 0));
    }

    // What ENPT and REPT do with one node; the mask of REPT clears bit 15 as well.
    method EnterDescriptor(clear15: bool, ghost f: Family)
      requires phys.Contents().Valid() && f == FamilyOf(clear15)
      modifies phys, this`a, this`b, this`x
      ensures phys.Contents() == EnterItem(old(phys.Contents()), ItemOf(f, old(phys.Contents()), cmBank, old(x)))
      ensures x == phys.Contents().Read(NodeWord(cmBank, old(x), 0))
    {
      var word0 := phys.ReadWord(NodeWord(cmBank, x, 2));
      a := ClearBit11(word0);
      if clear15 {
        a := ClearBit15(a);
      }
      var word1 := phys.ReadWord(NodeWord(cmBank, x, 3));
      b := DescriptorEntry(word1);
      ghost var m := ItemOf(f, phys.Contents(), cmBank, x);
      assert m.entry == Address(0, b) && m.partner == Address(0, Wrap(b + 1)) && m.first == a && m.second == x / 4;
      phys.WriteWord(Address(0, b), a);
      phys.WriteWord(Address(0, Wrap(b + 1)), x / 4);
      x := phys.ReadWord(NodeWord(cmBank, x, 0));
    }

    // One pass of ENPT or REPT.
    method DescriptorPass(clear15: bool, ghost f: Family, ghost s: Store, ghost nodes: seq<word>, ghost i: nat)
      requires f == FamilyOf(clear15) && Walk(f, s, cmBank, nodes) && i < |nodes| && x == nodes[i]
      requires phys.Contents() == Enter(s, Items(f, s, cmBank, nodes)[..i])
      modifies phys, this`a, this`b, this`x
      ensures phys.Contents() == Enter(s, Items(f, s, cmBank, nodes)[..i + 1])
      ensures x == NodeOrNil(nodes, i + 1)
    {
      EnterPass(f, s, cmBank, nodes, i);
      EnterDescriptor(clear15, f);
    }

    // The shared body of ENPT and REPT: every node of the chain in the core-map bank is entered.
    method EnterPageTable(clear15: bool, ghost f: Family, ghost nodes: seq<word>)
      requires f == FamilyOf(clear15) && Walk(f, phys.Contents(), cmBank, nodes) && x == NodeOrNil(nodes, 0)
      modifies phys, this`a, this`b, this`x
      ensures phys.Contents() == Enter(old(phys.Contents()), Items(f, old(phys.Contents()), cmBank, nodes))
      ensures x == 0
    {
      ghost var s, i := phys.Contents(), 0;
      ghost var items := Items(f, s, cmBank, nodes);
      while x != 0
        invariant 0 <= i <= |nodes| && x == NodeOrNil(nodes, i)
        invariant phys.Contents() == Enter(s, items[..i])
        decreases |nodes| - i
      {
        DescriptorPass(clear15, f, s, nodes, i);
        i := i + 1;
      }
      ChainEnds(f, s, cmBank, nodes, i);
      assert items[..|nodes|] == items;
    }

    // ENPT.
    method EnterSegment(ghost nodes: seq<word>)
      requires Walk(Enpt, phys.Contents(), cmBank, nodes) && x == NodeOrNil(nodes, 0)
      modifies phys, this`a, this`b, this`x
      ensures phys.Contents() == Enter(old(phys.Contents()), Items(Enpt, old(phys.Contents()), cmBank, nodes))
      ensures x == 0
    {
      EnterPageTable(false, Enpt, nodes);
    }

    // REPT.
    method EnterReentrantSegment(ghost nodes: seq<word>)
      requires Walk(Rept, phys.Contents(), cmBank, nodes) && x == NodeOrNil(nodes, 0)
      modifies phys, this`a, this`b, this`x
      ensures phys.Contents() == Enter(old(phys.Contents()), Items(Rept, old(phys.Contents()), cmBank, nodes))
      ensures x == 0
    {
      EnterPageTable(true, Rept, nodes);
    }

    // What CLPT does with one node when bit 15 of A is clear.
    method SaveDescriptor()
      requires phys.Contents().Valid()
      modifies phys, this`b, this`x
      ensures phys.Contents()
           == SaveItem(old(phys.Contents()), ItemOf(Enpt, old(phys.Contents()), cmBank, old(x)), a != 0)
      ensures x == phys.Contents().Read(NodeWord(cmBank, old(x), 0))
    {
      var entry := phys.ReadWord(NodeWord(cmBank, x, 3));
      b := DescriptorEntry(entry);
      var r3 := phys.ReadWord(Address(0, b));
      if r3 != 0 {
        phys.WriteWord(NodeWord(cmBank, x, 2), r3);
        if a == 0 {
          phys.WriteWord(Address(0, b), 0);
        }
      }
      x := phys.ReadWord(NodeWord(cmBank, x, 0));
    }

    // What CLPT does with one node when bit 15 of A is set.
    method EraseDescriptor()
      requires phys.Contents().Valid()
      modifies phys, this`b, this`x
      ensures phys.Contents() == old(phys.Contents()).Write(EntryAddress(Enpt, old(phys.Contents()), cmBank, old(x)), 0)
      ensures x == phys.Contents().Read(NodeWord(cmBank, old(x), 0))
    {
      var entry := phys.ReadWord(NodeWord(cmBank, x, 3));
      b := DescriptorEntry(entry);
      phys.WriteWord(Address(0, b), 0);
      x := phys.ReadWord(NodeWord(cmBank, x, 0));
    }

    // One pass of CLPT.
    method SegmentPass(ghost s: Store, ghost nodes: seq<word>, ghost i: nat)
      requires Walk(Enpt, s, cmBank, nodes) && i < |nodes| && x == nodes[i]
      requires phys.Contents() == Cleared(s, Items(Enpt, s, cmBank, nodes)[..i], a)
      modifies phys, this`b, this`x
      ensures phys.Contents() == Cleared(s, Items(Enpt, s, cmBank, nodes)[..i + 1], a)
      ensures x == NodeOrNil(nodes, i + 1)
    {
      if a >= 0x8000 {
        ErasePass(s, cmBank, nodes, i);
        EraseDescriptor();
      } else {
        SavePass(Enpt, s, cmBank, nodes, a != 0, i);
        SaveDescriptor();
      }
    }

    // CLPT: bit 15 of A set clears every entry; otherwise used entries are saved, and cleared
    // only when A is zero.
    method ClearSegment(ghost nodes: seq<word>)
      requires Walk(Enpt, phys.Contents(), cmBank, nodes) && x == NodeOrNil(nodes, 0)
      modifies phys, this`b, this`x
      ensures phys.Contents() == Cleared(old(phys.Contents()), Items(Enpt, old(phys.Contents()), cmBank, nodes), a)
      ensures x == 0
    {
      ghost var s, i := phys.Contents(), 0;
      while x != 0
        invariant 0 <= i <= |nodes| && x == NodeOrNil(nodes, i)
        invariant phys.Contents() == Cleared(s, Items(Enpt, s, cmBank, nodes)[..i], a)
        decreases |nodes| - i
      {
        SegmentPass(s, nodes, i);
        i := i + 1;
      }
      ChainEnds(Enpt, s, cmBank, nodes, i);
      assert Items(Enpt, s, cmBank, nodes)[..|nodes|] == Items(Enpt, s, cmBank, nodes);
    }
  }

  // ---- Entering and saving undo each other ----

  lemma ItemPlaced(f: Family, s: Store, bank: byte, x: word)
    requires s.Valid() && Visible(f, s) && s.Plain(NodeWord(bank, x, 2))
    ensures Placed(s, ItemOf(f, s, bank, x))
  {
    EntryEven(f, s, bank, x);
  }

  lemma ItemsDisjoint(f: Family, s: Store, bank: byte, x: word, y: word)
    requires s.Valid() && NodeWord(bank, x, 2) != NodeWord(bank, y, 2)
    requires EntryOffset(f, s, bank, x) != EntryOffset(f, s, bank, y)
    ensures Disjoint(ItemOf(f, s, bank, x), ItemOf(f, s, bank, y))
  {
    EntryEven(f, s, bank, x);
    EntryEven(f, s, bank, y);
    PairsApart(EntryOffset(f, s, bank, x), EntryOffset(f, s, bank, y));
  }

  lemma PairsApart(v: word, w: word)
    requires v % 2 == 0 && w % 2 == 0 && v != w
    ensures v != Wrap(w + 1) && Wrap(v + 1) != w && Wrap(v + 1) != Wrap(w + 1)
  {
    assert v < 0xFFFF && w < 0xFFFF;
  }

  // Distinct entries and disjoint nodes make the items disjoint.
  lemma ItemsSeparate(f: Family, s: Store, bank: byte, nodes: seq<word>)
    requires s.Valid() && Laid(s, bank, nodes) && Visible(f, s) && DistinctEntries(f, s, bank, nodes)
    ensures Separate(s, Items(f, s, bank, nodes))
  {
    var items := Items(f, s, bank, nodes);
    forall i | 0 <= i < |items|
      ensures Placed(s, items[i])
    {
      assert s.Plain(NodeWord(bank, nodes[i], 2));
      ItemPlaced(f, s, bank, nodes[i]);
    }
    forall i, j | 0 <= i < j < |items|
      ensures Disjoint(items[i], items[j])
    {
      assert NodeWord(bank, nodes[i], 2) != NodeWord(bank, nodes[j], 2);
      ItemsDisjoint(f, s, bank, nodes[i], nodes[j]);
    }
  }

  // ENPT and REPT name the same entries, those that CLPT saves.
  predicate SameTable(f: Family, g: Family) {
    f == Setpt <==> g == Setpt
  }

  // The items the second walk sees: the same places.
  lemma SamePlaces(f: Family, g: Family, s: Store, bank: byte, nodes: seq<word>)
    requires s.Valid() && Laid(s, bank, nodes) && Visible(f, s) && SameTable(f, g)
    ensures var items := Items(f, s, bank, nodes);
            var later := Items(g, Enter(s, items), bank, nodes);
            forall i :: 0 <= i < |nodes| ==>
              (later[i].entry == items[i].entry && later[i].partner == items[i].partner
               && later[i].slot == items[i].slot)
  {
    var items := Items(f, s, bank, nodes);
    var later := Items(g, Enter(s, items), bank, nodes);
    assert items[..|nodes|] == items;
    forall i | 0 <= i < |nodes|
      ensures later[i].entry == items[i].entry && later[i].partner == items[i].partner
      ensures later[i].slot == items[i].slot
    {
      EnterKeepsNodes(f, s, bank, nodes, |nodes|, i, 1);
      EnterKeepsNodes(f, s, bank, nodes, |nodes|, i, 3);
    }
  }

  lemma SeparateByPlaces(s: Store, r: Store, items: seq<Item>, later: seq<Item>)
    requires Separate(s, items) && |later| == |items| && r.window == s.window
    requires forall a {:trigger r.Plain(a)} :: r.Plain(a) <==> s.Plain(a)
    requires forall i :: 0 <= i < |items| ==>
               (later[i].entry == items[i].entry && later[i].partner == items[i].partner
                && later[i].slot == items[i].slot)
    ensures Separate(r, later)
  {
    forall i | 0 <= i < |later|
      ensures Placed(r, later[i])
    {
      assert Placed(s, items[i]);
    }
    forall i, j | 0 <= i < j < |later|
      ensures Disjoint(later[i], later[j])
    {
      assert Disjoint(items[i], items[j]);
    }
  }

  // A chain that was entered can be walked again, by either family's instructions.
  lemma EnterKeepsWalk(f: Family, g: Family, s: Store, bank: byte, nodes: seq<word>)
    requires Walk(f, s, bank, nodes) && SameTable(f, g)
    ensures Walk(g, Enter(s, Items(f, s, bank, nodes)), bank, nodes)
  {
    var items := Items(f, s, bank, nodes);
    var entered := Enter(s, items);
    assert items[..|nodes|] == items;
    forall i | 0 <= i < |nodes|
      ensures entered.Read(NodeWord(bank, nodes[i], 0)) == NodeOrNil(nodes, i + 1)
    {
      EnterKeepsNodes(f, s, bank, nodes, |nodes|, i, 0);
    }
  }

  // The store after a chain has been entered by f and saved again by g.
  ghost function EnterSave(f: Family, g: Family, s: Store, bank: byte, nodes: seq<word>, keep: bool): (r: Store)
    requires s.Valid()
    ensures r.Valid()
  {
    var entered := Enter(s, Items(f, s, bank, nodes));
    Save(entered, Items(g, entered, bank, nodes), keep)
  }

  // Every node gets back what was entered from it (or keeps its word, if that was zero), every
  // entry it named is cleared or kept, and the second word of the pair stays as entered.
  lemma EnterSaveRestores(f: Family, g: Family, s: Store, bank: byte, nodes: seq<word>, keep: bool, i: nat)
    requires s.Valid() && Laid(s, bank, nodes) && Visible(f, s) && SameTable(f, g)
    requires DistinctEntries(f, s, bank, nodes) && i < |nodes|
    ensures var r, x := EnterSave(f, g, s, bank, nodes, keep), nodes[i];
            var w := s.Read(NodeWord(bank, x, 2));
            var v := EnteredFirst(f, w);
            && r.Read(NodeWord(bank, x, 2)) == (if v == 0 then w else v)
            && r.Read(EntryAddress(f, s, bank, x)) == (if keep then v else 0)
            && r.Read(EntryPartner(f, s, bank, x)) == EnteredSecond(f, s, bank, x)
  {
    var items := Items(f, s, bank, nodes);
    var entered := Enter(s, items);
    var later := Items(g, entered, bank, nodes);
    ItemsSeparate(f, s, bank, nodes);
    SamePlaces(f, g, s, bank, nodes);
    SeparateByPlaces(s, entered, items, later);
    EnterAt(s, items, i);
    assert items[..|nodes|] == items;
    EnterKeepsNodes(f, s, bank, nodes, |nodes|, i, 2);
    SavedItem(entered, later, keep, i, items[i], s.Read(items[i].slot));
  }

  // What a walk of saves leaves of an item that was entered.
  lemma SavedItem(entered: Store, later: seq<Item>, keep: bool, i: nat, m: Item, w: word)
    requires entered.Valid() && Separate(entered, later) && i < |later|
    requires later[i].entry == m.entry && later[i].partner == m.partner && later[i].slot == m.slot
    requires entered.Read(m.entry) == m.first && entered.Read(m.partner) == m.second && entered.Read(m.slot) == w
    ensures var r := Save(entered, later, keep);
            && r.Read(m.slot) == (if m.first == 0 then w else m.first)
            && r.Read(m.entry) == (if keep then m.first else 0)
            && r.Read(m.partner) == m.second
  {
    SaveAt(entered, later, keep, i);
    PartnerSaved(entered, later, keep, i);
  }

  lemma PartnerSaved(s: Store, items: seq<Item>, keep: bool, i: nat)
    requires s.Valid() && Separate(s, items) && i < |items|
    ensures Save(s, items, keep).Read(items[i].partner) == s.Read(items[i].partner)
  {
    forall j | 0 <= j < |items|
      ensures items[i].partner != items[j].entry && items[i].partner != items[j].slot
    {
      assert Placed(s, items[i]) && Placed(s, items[j]);
      assert i < j ==> Disjoint(items[i], items[j]);
      assert j < i ==> Disjoint(items[j], items[i]);
    }
    SaveFrame(s, items, keep, items[i].partner);
  }

  // Nothing else changes: no other node word, so in particular no link, and no other
  // page-table or memory word.
  lemma EnterSaveFrame(f: Family, g: Family, s: Store, bank: byte, nodes: seq<word>, keep: bool, a: Address)
    requires s.Valid() && Laid(s, bank, nodes) && Visible(f, s) && SameTable(f, g)
    requires forall i :: 0 <= i < |nodes| ==> a != NodeWord(bank, nodes[i], 2)
    requires OutsideEntries(Items(f, s, bank, nodes), a)
    ensures EnterSave(f, g, s, bank, nodes, keep).Read(a) == s.Read(a)
  {
    var items := Items(f, s, bank, nodes);
    var entered := Enter(s, items);
    var later := Items(g, entered, bank, nodes);
    SamePlaces(f, g, s, bank, nodes);
    EnterFrame(s, items, a);
    forall j | 0 <= j < |later|
      ensures a != later[j].entry && a != later[j].slot
    {
      assert later[j].entry == items[j].entry && later[j].slot == items[j].slot;
    }
    SaveFrame(entered, later, keep, a);
  }

  // The chain itself survives, so the two walks can be repeated.
  lemma EnterSaveKeepsChain(f: Family, g: Family, s: Store, bank: byte, nodes: seq<word>, keep: bool)
    requires Walk(f, s, bank, nodes) && SameTable(f, g)
    ensures Chain(EnterSave(f, g, s, bank, nodes, keep), bank, NodeOrNil(nodes, 0), nodes)
  {
    var items := Items(f, s, bank, nodes);
    forall i | 0 <= i < |nodes|
      ensures EnterSave(f, g, s, bank, nodes, keep).Read(NodeWord(bank, nodes[i], 0)) == NodeOrNil(nodes, i + 1)
    {
      var a := NodeWord(bank, nodes[i], 0);
      forall j | 0 <= j < |nodes|
        ensures a != NodeWord(bank, nodes[j], 2) && a != items[j].entry && a != items[j].partner
      {
        EntryEven(f, s, bank, nodes[j]);
        assert s.Plain(a);
      }
      EnterSaveFrame(f, g, s, bank, nodes, keep, a);
    }
  }
}
