/**
 CLEPU: CLEPT that also collects, in an eight-word bit table addressed by L, the pages whose
 entries were marked used.
 */
module WorkingSet {
  import opened Words
  import opened PhysicalMemory
  import opened SegmentTables

  // ---- The table ----

  const PGU: nat := 11

  function TableWord(bank: byte, l: word, w: nat): Address
    requires w < 8
  {
    Address(bank, Wrap(l + w))
  }

  // The bit of a page index, of which seven bits count.
  function Mark(s: Store, bank: byte, l: word, index: word): (r: Store)
    requires s.Valid()
    ensures r.Valid() && r.window == s.window
    ensures forall a {:trigger r.Plain(a)} :: r.Plain(a) <==> s.Plain(a)
  {
    var page := index % 128;
    var a := TableWord(bank, l, page / 16);
    s.Write(a, WithBit(s.Read(a), page % 16))
  }

  function CollectItem(s: Store, m: Item, bank: byte, l: word, index: word): (r: Store)
    requires s.Valid()
    ensures r.Valid() && r.window == s.window
    ensures forall a {:trigger r.Plain(a)} :: r.Plain(a) <==> s.Plain(a)
  {
    var e := s.Read(m.entry);
    if e == 0 then s
    else
      var s1 := s.Write(m.slot, e);
      var s2 := if Bit(e, PGU) then Mark(s1, bank, l, index) else s1;
      s2.Write(m.entry, 0)
  }

  function Collect(s: Store, items: seq<Item>, indexes: seq<word>, bank: byte, l: word): (r: Store)
    requires s.Valid() && |indexes| == |items|
    ensures r.Valid() && r.window == s.window
    ensures forall a {:trigger r.Plain(a)} :: r.Plain(a) <==> s.Plain(a)
    decreases |items|
  {
    if items == [] then s
    else
      var n := |items| - 1;
      CollectItem(Collect(s, items[..n], indexes[..n], bank, l), items[n], bank, l, indexes[n])
  }

  ghost predicate IsTableWord(bank: byte, l: word, a: Address) {
    exists w :: 0 <= w < 8 && a == TableWord(bank, l, w)
  }

  // The table is plain memory and no item is saved in it.
  ghost predicate TableApart(s: Store, items: seq<Item>, bank: byte, l: word) {
    && (forall w :: 0 <= w < 8 ==> s.Plain(TableWord(bank, l, w)))
    && (forall i :: 0 <= i < |items| ==> !IsTableWord(bank, l, items[i].slot) && !IsTableWord(bank, l, items[i].entry))
  }

  // Outside the table, CLEPU does exactly what CLEPT does.
  lemma {:induction false} CollectSaves(s: Store, items: seq<Item>, indexes: seq<word>, bank: byte, l: word, a: Address)
    requires s.Valid() && |indexes| == |items| && TableApart(s, items, bank, l)
    requires !IsTableWord(bank, l, a)
    ensures Collect(s, items, indexes, bank, l).Read(a) == Save(s, items, false).Read(a)
    decreases |items|
  {
    if items != [] {
      var n := |items| - 1;
      var m := items[n];
      var c, d := Collect(s, items[..n], indexes[..n], bank, l), Save(s, items[..n], false);
      assert TableApart(s, items[..n], bank, l);
      CollectSaves(s, items[..n], indexes[..n], bank, l, a);
      CollectSaves(s, items[..n], indexes[..n], bank, l, m.entry);
      MarkFrame(c.Write(m.slot, c.Read(m.entry)), bank, l, indexes[n], a);
      SaveSame(c, d, m, bank, l, indexes[n], a);
    }
  }

  lemma MarkFrame(s: Store, bank: byte, l: word, index: word, a: Address)
    requires s.Valid() && !IsTableWord(bank, l, a)
    ensures Mark(s, bank, l, index).Read(a) == s.Read(a)
  {
    assert index % 128 / 16 < 8;
  }

  lemma SaveSame(c: Store, d: Store, m: Item, bank: byte, l: word, index: word, a: Address)
    requires c.Valid() && d.Valid() && c.window == d.window
    requires !IsTableWord(bank, l, a) && c.Read(a) == d.Read(a) && c.Read(m.entry) == d.Read(m.entry)
    requires c.Plain(m.slot) <==> d.Plain(m.slot)
    requires c.Plain(m.entry) <==> d.Plain(m.entry)
    ensures CollectItem(c, m, bank, l, index).Read(a) == SaveItem(d, m, false).Read(a)
  {
    var e := c.Read(m.entry);
    if e != 0 {
      var s1 := c.Write(m.slot, e);
      MarkFrame(s1, bank, l, index, a);
      assert Mark(s1, bank, l, index).Plain(m.entry) <==> c.Plain(m.entry);
    }
  }

  // Item i's page has the bit k of table word w, and its entry was marked used.
  ghost predicate Used(s: Store, items: seq<Item>, indexes: seq<word>, w: nat, k: nat, i: nat)
    requires s.Valid() && |indexes| == |items| && i < |items|
  {
    indexes[i] % 128 == 16 * w + k && Bit(s.Read(items[i].entry), PGU)
  }

  ghost predicate AnyUsed(s: Store, items: seq<Item>, indexes: seq<word>, w: nat, k: nat)
    requires s.Valid() && |indexes| == |items|
  {
    exists i :: 0 <= i < |items| && Used(s, items, indexes, w, k, i)
  }

  // The table gains exactly the bits of the pages whose entries were marked used.
  lemma {:induction false} CollectMarks(s: Store, items: seq<Item>, indexes: seq<word>, bank: byte, l: word,
                                        w: nat, k: nat)
    requires s.Valid() && |indexes| == |items| && TableApart(s, items, bank, l) && Separate(s, items)
    requires w < 8 && k < 16
    ensures Bit(Collect(s, items, indexes, bank, l).Read(TableWord(bank, l, w)), k)
       <==> Bit(s.Read(TableWord(bank, l, w)), k) || AnyUsed(s, items, indexes, w, k)
    decreases |items|
  {
    if items != [] {
      var n := |items| - 1;
      var c := Collect(s, items[..n], indexes[..n], bank, l);
      assert TableApart(s, items[..n], bank, l);
      CollectMarks(s, items[..n], indexes[..n], bank, l, w, k);
      CollectSaves(s, items[..n], indexes[..n], bank, l, items[n].entry);
      OthersOutside(s, items);
      SaveFrame(s, items[..n], false, items[n].entry);
      MarkOne(c, items[n], bank, l, indexes[n], w, k);
      UsedSplit(s, items, indexes, w, k);
    }
  }

  lemma UsedSplit(s: Store, items: seq<Item>, indexes: seq<word>, w: nat, k: nat)
    requires s.Valid() && |indexes| == |items| > 0
    ensures AnyUsed(s, items, indexes, w, k)
       <==> AnyUsed(s, items[..|items| - 1], indexes[..|items| - 1], w, k) || Used(s, items, indexes, w, k, |items| - 1)
  {
    var n := |items| - 1;
    forall i | 0 <= i < n
      ensures Used(s, items[..n], indexes[..n], w, k, i) <==> Used(s, items, indexes, w, k, i)
    {
    }
  }

  lemma MarkOne(c: Store, m: Item, bank: byte, l: word, index: word, w: nat, k: nat)
    requires c.Valid() && w < 8 && k < 16
    requires forall v :: 0 <= v < 8 ==> c.Plain(TableWord(bank, l, v))
    requires !IsTableWord(bank, l, m.slot) && !IsTableWord(bank, l, m.entry)
    ensures Bit(CollectItem(c, m, bank, l, index).Read(TableWord(bank, l, w)), k)
       <==> Bit(c.Read(TableWord(bank, l, w)), k) || (index % 128 == 16 * w + k && Bit(c.Read(m.entry), PGU))
  {
    var page := index % 128;
    TableWordsDistinct(bank, l, w, page / 16);
    ZeroHasNoBits(PGU);
    assert page == 16 * w + k <==> page / 16 == w && page % 16 == k;
    assert c.Plain(TableWord(bank, l, w));
  }

  lemma TableWordsDistinct(bank: byte, l: word, v: nat, w: nat)
    requires v < 8 && w < 8
    ensures TableWord(bank, l, v) == TableWord(bank, l, w) <==> v == w
  {
  }

  lemma {:induction false} ZeroHasNoBits(k: nat)
    ensures !Bit(0, k)
  {
    if k > 0 {
      ZeroHasNoBits(k - 1);
    }
  }

  // ---- The instruction ----

  function Indexes(s: Store, bank: byte, nodes: seq<word>): (ws: seq<word>)
    requires s.Valid()
    ensures |ws| == |nodes|
    ensures forall i :: 0 <= i < |nodes| ==> ws[i] == s.Read(NodeWord(bank, nodes[i], 1))
  {
    seq(|nodes|, i requires 0 <= i < |nodes| => s.Read(NodeWord(bank, nodes[i], 1)))
  }

  // The bit table is plain and shares no word with a node.
  ghost predicate TableFree(s: Store, bank: byte, l: word, nodes: seq<word>) {
    && (forall w :: 0 <= w < 8 ==> s.Plain(TableWord(bank, l, w)))
    && (forall i, k :: 0 <= i < |nodes| && 0 <= k < 4 ==> !IsTableWord(bank, l, NodeWord(bank, nodes[i], k)))
  }

  lemma TableFreeApart(s: Store, bank: byte, l: word, nodes: seq<word>, n: nat)
    requires Walk(Setpt, s, bank, nodes) && TableFree(s, bank, l, nodes) && n <= |nodes|
    ensures TableApart(s, Items(Setpt, s, bank, nodes)[..n], bank, l)
  {
    var items := Items(Setpt, s, bank, nodes)[..n];
    forall i | 0 <= i < n
      ensures !IsTableWord(bank, l, items[i].slot) && !IsTableWord(bank, l, items[i].entry)
    {
      EntryEven(Setpt, s, bank, nodes[i]);
      assert !IsTableWord(bank, l, NodeWord(bank, nodes[i], 2));
    }
  }

  // Collecting leaves the words of the nodes still to come, and every link, as they were.
  lemma CollectKeepsNodes(s: Store, bank: byte, l: word, nodes: seq<word>, n: nat, i: nat, k: nat)
    requires Walk(Setpt, s, bank, nodes) && TableFree(s, bank, l, nodes)
    requires n <= |nodes| && i < |nodes| && k < 4 && (n <= i || k != 2)
    ensures Collect(s, Items(Setpt, s, bank, nodes)[..n], Indexes(s, bank, nodes)[..n], bank, l)
              .Read(NodeWord(bank, nodes[i], k))
         == s.Read(NodeWord(bank, nodes[i], k))
  {
    TableFreeApart(s, bank, l, nodes, n);
    assert !IsTableWord(bank, l, NodeWord(bank, nodes[i], k));
    CollectSaves(s, Items(Setpt, s, bank, nodes)[..n], Indexes(s, bank, nodes)[..n], bank, l,
                 NodeWord(bank, nodes[i], k));
    SaveKeepsNodes(Setpt, s, bank, nodes, false, n, i, k);
  }

  lemma CollectKeepsItem(s: Store, bank: byte, l: word, nodes: seq<word>, i: nat)
    requires Walk(Setpt, s, bank, nodes) && TableFree(s, bank, l, nodes) && i < |nodes|
    ensures var now := Collect(s, Items(Setpt, s, bank, nodes)[..i], Indexes(s, bank, nodes)[..i], bank, l);
            && ItemOf(Setpt, now, bank, nodes[i]) == Items(Setpt, s, bank, nodes)[i]
            && now.Read(NodeWord(bank, nodes[i], 1)) == Indexes(s, bank, nodes)[i]
  {
    var now := Collect(s, Items(Setpt, s, bank, nodes)[..i], Indexes(s, bank, nodes)[..i], bank, l);
    forall k | 0 <= k < 4
      ensures now.Read(NodeWord(bank, nodes[i], k)) == s.Read(NodeWord(bank, nodes[i], k))
    {
      CollectKeepsNodes(s, bank, l, nodes, i, i, k);
    }
    ItemKept(Setpt, s, now, bank, nodes[i]);
  }

  lemma CollectPass(s: Store, bank: byte, l: word, nodes: seq<word>, i: nat)
    requires Walk(Setpt, s, bank, nodes) && TableFree(s, bank, l, nodes) && i < |nodes|
    ensures var items, indexes := Items(Setpt, s, bank, nodes), Indexes(s, bank, nodes);
            var now := Collect(s, items[..i], indexes[..i], bank, l);
            var next := Collect(s, items[..i + 1], indexes[..i + 1], bank, l);
            var x := nodes[i];
            CollectItem(now, ItemOf(Setpt, now, bank, x), bank, l, now.Read(NodeWord(bank, x, 1))) == next
  {
    var items, indexes := Items(Setpt, s, bank, nodes), Indexes(s, bank, nodes);
    CollectKeepsItem(s, bank, l, nodes, i);
    CollectNext(s, items, indexes, bank, l, i);
  }

  lemma CollectWhole(s: Store, items: seq<Item>, indexes: seq<word>, bank: byte, l: word)
    requires s.Valid() && |indexes| == |items|
    ensures Collect(s, items[..|items|], indexes[..|items|], bank, l) == Collect(s, items, indexes, bank, l)
  {
    assert items[..|items|] == items && indexes[..|items|] == indexes;
  }

  lemma CollectNext(s: Store, items: seq<Item>, indexes: seq<word>, bank: byte, l: word, i: nat)
    requires s.Valid() && |indexes| == |items| && i < |items|
    ensures Collect(s, items[..i + 1], indexes[..i + 1], bank, l)
         == CollectItem(Collect(s, items[..i], indexes[..i], bank, l), items[i], bank, l, indexes[i])
  {
    assert items[..i + 1][..i] == items[..i] && indexes[..i + 1][..i] == indexes[..i];
  }

  class Machine {
    const phys: PhysMem
    var a: word
    var b: word
    var l: word
    var t: word
    var x: word

    constructor (phys: PhysMem)
      ensures this.phys == phys
    {
      this.phys := phys;
      a, b, l, t, x := 0, 0, 0, 0, 0;
    }

    method MarkWorkingSet(index: word)
      requires phys.Contents().Valid()
      modifies phys
      ensures phys.Contents() == Mark(old(phys.Contents()), t % 256, l, index)
    {
      var page := index % 128;
      var w := phys.ReadWord(TableWord(t % 256, l, page / 16));
      phys.WriteWord(TableWord(t % 256, l, page / 16), WithBit(w, page % 16));
    }

    // What CLEPU does with one node.
    method CollectNode()
      requires phys.Contents().Valid()
      modifies phys, this`a, this`b, this`x
      ensures phys.Contents()
           == CollectItem(old(phys.Contents()), ItemOf(Setpt, old(phys.Contents()), t % 256, old(x)), t % 256, l,
                          old(phys.Contents().Read(NodeWord(t % 256, x, 1))))
      ensures x == old(phys.Contents().Read(NodeWord(t % 256, x, 0)))
    {
      var nextX := phys.ReadWord(NodeWord(t % 256, x, 0));
      var idx := phys.ReadWord(NodeWord(t % 256, x, 1));
      b := PageEntry(idx);
      a := phys.ReadWord(Address(0, b));
      if a != 0 {
        phys.WriteWord(NodeWord(t % 256, x, 2), a);
        if Bit(a, PGU) {
          MarkWorkingSet(idx);
        }
        phys.WriteWord(Address(0, b), 0);
      }
      x := nextX;
    }

    method CollectPassOver(ghost s: Store, ghost nodes: seq<word>, ghost i: nat)
      requires Walk(Setpt, s, t % 256, nodes) && TableFree(s, t % 256, l, nodes) && i < |nodes| && x == nodes[i]
      requires phys.Contents()
            == Collect(s, Items(Setpt, s, t % 256, nodes)[..i], Indexes(s, t % 256, nodes)[..i], t % 256, l)
      modifies phys, this`a, this`b, this`x
      ensures phys.Contents()
           == Collect(s, Items(Setpt, s, t % 256, nodes)[..i + 1], Indexes(s, t % 256, nodes)[..i + 1], t % 256, l)
      ensures x == NodeOrNil(nodes, i + 1)
    {
      CollectPass(s, t % 256, l, nodes, i);
      CollectKeepsNodes(s, t % 256, l, nodes, i, i, 0);
      CollectNode();
    }

    // The loop of CLEPU.
    method CollectChain(ghost nodes: seq<word>)
      requires Walk(Setpt, phys.Contents(), t % 256, nodes) && TableFree(phys.Contents(), t % 256, l, nodes)
      requires x == NodeOrNil(nodes, 0)
      modifies phys, this`a, this`b, this`x
      ensures var s := old(phys.Contents());
              phys.Contents() == Collect(s, Items(Setpt, s, t % 256, nodes), Indexes(s, t % 256, nodes), t % 256, l)
      ensures x == 0
    {
      ghost var s, i := phys.Contents(), 0;
      ghost var items, indexes := Items(Setpt, s, t % 256, nodes), Indexes(s, t % 256, nodes);
      while x != 0
        invariant 0 <= i <= |nodes| && x == NodeOrNil(nodes, i)
        invariant phys.Contents() == Collect(s, items[..i], indexes[..i], t % 256, l)
        decreases |nodes| - i
      {
        CollectPassOver(s, nodes, i);
        i := i + 1;
      }
      ChainEnds(Setpt, s, t % 256, nodes, i);
      CollectWhole(s, items, indexes, t % 256, l);
    }

    // CLEPU over the whole chain.
    method ClearAndCollect(ghost nodes: seq<word>)
      requires Walk(Setpt, phys.Contents(), t % 256, nodes) && TableFree(phys.Contents(), t % 256, l, nodes)
      requires x == NodeOrNil(nodes, 0)
      modifies phys, this`a, this`b, this`x
      ensures var s := old(phys.Contents());
              phys.Contents() == Collect(s, Items(Setpt, s, t % 256, nodes), Indexes(s, t % 256, nodes), t % 256, l)
      ensures x == phys.Contents().Read(Address(t % 256, 0))
    {
      CollectChain(nodes);
      x := phys.ReadWord(NodeWord(t % 256, x, 0));
    }
  }
}
