/**
 CHREENT: the first written page of a reentrant segment's chain is taken out of the chain.

 The chain starts at a slot anywhere in memory, addressed by D and X; each page's link is its
 word 0, and its status its word 2, in the bank selected by T.
 */
module ReentrantPages {
  import opened Words
  import opened PhysicalMemory

  // Bit 12 of a page-table entry: written in page.
  predicate Written(status: word) {
    status / 4096 % 2 == 1
  }

  function NodeOrNil(nodes: seq<word>, i: nat): word {
    if i < |nodes| then nodes[i] else 0
  }

  // The word that links to page i: the head slot, or the link word of the page before.
  function Slot(head: Address, bank: byte, nodes: seq<word>, i: nat): Address
    requires i <= |nodes|
  {
    if i == 0 then head else Address(bank, nodes[i - 1])
  }

  // The pages reached from the head slot, in order, ending with a zero link.
  ghost predicate Chain(s: Store, head: Address, bank: byte, nodes: seq<word>)
    requires s.Valid()
  {
    && (forall i :: 0 <= i < |nodes| ==> nodes[i] != 0)
    && (forall i :: 0 <= i <= |nodes| ==> s.Read(Slot(head, bank, nodes, i)) == NodeOrNil(nodes, i))
  }

  // No two slots are the same word, and none is out of reach of a write.
  ghost predicate Acyclic(s: Store, head: Address, bank: byte, nodes: seq<word>) {
    && (forall i :: 0 <= i <= |nodes| ==> s.Plain(Slot(head, bank, nodes, i)))
    && (forall i, j :: 0 <= i < j <= |nodes| ==> Slot(head, bank, nodes, i) != Slot(head, bank, nodes, j))
  }

  function StatusWord(bank: byte, x: word): Address {
    Address(bank, Wrap(x + 2))
  }

  function IsWritten(s: Store, bank: byte, x: word): bool
    requires s.Valid()
  {
    Written(s.Read(StatusWord(bank, x)))
  }

  // k is the first written page, or past the end when there is none.
  ghost predicate FirstWritten(s: Store, bank: byte, nodes: seq<word>, k: nat)
    requires s.Valid()
  {
    && k <= |nodes|
    && (forall i :: 0 <= i < k ==> !IsWritten(s, bank, nodes[i]))
    && (k < |nodes| ==> IsWritten(s, bank, nodes[k]))
  }

  lemma FirstWrittenUnique(s: Store, bank: byte, nodes: seq<word>, j: nat, k: nat)
    requires s.Valid() && FirstWritten(s, bank, nodes, j) && FirstWritten(s, bank, nodes, k)
    ensures j == k
  {
  }

  // The chain without its page k, if it has one.
  function Remaining(nodes: seq<word>, k: nat): seq<word>
    requires k <= |nodes|
  {
    if k < |nodes| then nodes[..k] + nodes[k + 1..] else nodes
  }

  // Storing page k's link in the slot before it takes exactly page k out of the chain.
  lemma UnlinkRemoves(s: Store, head: Address, bank: byte, nodes: seq<word>, k: nat)
    requires s.Valid() && Chain(s, head, bank, nodes) && Acyclic(s, head, bank, nodes) && k < |nodes|
    ensures var r := s.Write(Slot(head, bank, nodes, k), s.Read(Address(bank, nodes[k])));
            Chain(r, head, bank, Remaining(nodes, k))
  {
    var after := Remaining(nodes, k);
    var r := s.Write(Slot(head, bank, nodes, k), s.Read(Address(bank, nodes[k])));
    assert s.Read(Slot(head, bank, nodes, k + 1)) == NodeOrNil(nodes, k + 1);
    forall i | 0 <= i <= |after|
      ensures r.Read(Slot(head, bank, after, i)) == NodeOrNil(after, i)
    {
      var j := if i <= k then i else i + 1;
      assert Slot(head, bank, after, i) == Slot(head, bank, nodes, j);
      assert s.Read(Slot(head, bank, nodes, j)) == NodeOrNil(nodes, j);
    }
  }

  class Machine {
    const phys: PhysMem
    var a: word
    var d: word
    var t: word
    var x: word
    var p: word

    constructor (phys: PhysMem)
      ensures this.phys == phys
    {
      this.phys := phys;
      a, d, t, x, p := 0, 0, 0, 0, 0;
    }

    // Walks to page k, the first written one. If there is one it is unlinked, X names it and
    // D:A the slot that named it; if there is none nothing changes and the return skips.
    method UnlinkFirstWritten(ghost nodes: seq<word>, ghost k: nat)
      requires phys.Contents().Valid() && Chain(phys.Contents(), Address(d % 256, x), t % 256, nodes)
      requires FirstWritten(phys.Contents(), t % 256, nodes, k)
      modifies this, phys
      ensures t == old(t)
      ensures k == |nodes| ==>
                && phys.Contents() == old(phys.Contents()) && p == Wrap(old(p) + 1)
                && a == old(a) && d == old(d) && x == old(x)
      ensures k < |nodes| ==>
                && p == old(p) && x == nodes[k]
                && d == (if k == 0 then old(d) else t) && a == (if k == 0 then old(x) else nodes[k - 1])
                && phys.Contents() == old(phys.Contents()).Write(Address(d % 256, a),
                                                                 old(phys.Contents()).Read(Address(t % 256, nodes[k])))
                && Address(d % 256, a) == Slot(Address(old(d) % 256, old(x)), t % 256, nodes, k)
      ensures (old(Acyclic(phys.Contents(), Address(d % 256, x), t % 256, nodes))
               ==> Chain(phys.Contents(), Address(old(d) % 256, old(x)), t % 256, Remaining(nodes, k)))
    {
      if k < |nodes| && Acyclic(phys.Contents(), Address(d % 256, x), t % 256, nodes) {
        UnlinkRemoves(phys.Contents(), Address(d % 256, x), t % 256, nodes, k);
      }
      ghost var i, head := 0, Address(d % 256, x);
      var prevSeg, prevOff := d, x;
      var seg, off := d, x;
      while true
        invariant 0 <= i <= k
        invariant prevSeg == seg == if i == 0 then old(d) else t
        invariant prevOff == off == if i == 0 then old(x) else nodes[i - 1]
        invariant phys.Contents() == old(phys.Contents())
        invariant a == old(a) && d == old(d) && x == old(x) && t == old(t) && p == old(p)
        decreases k - i
      {
        assert Address(seg % 256, off) == Slot(head, t % 256, nodes, i);
        var link := phys.ReadWord(Address(seg % 256, off));
        if link == 0 {
          p := Wrap(p + 1);
          return;
        }
        seg := t;
        var status := phys.ReadWord(StatusWord(t % 256, link));
        if Written(status) {
          var successor := phys.ReadWord(Address(t % 256, link));
          phys.WriteWord(Address(prevSeg % 256, prevOff), successor);
          d, a, x := prevSeg, prevOff, link;
          return;
        }
        assert i < k;
        prevSeg, prevOff, off := t, link, link;
        i := i + 1;
      }
    }
  }
}
