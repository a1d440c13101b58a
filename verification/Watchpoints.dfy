/**
 Memory watchpoints: a table of entries removed by swapping, a bitmap over addresses or pages
 that answers most accesses, and the exact scan behind it.
 */
module Watchpoints {
  import opened Words

  const MAX_WATCHPOINTS: nat := 32

  datatype Kind = OnRead | OnWrite | OnBoth

  datatype Space = Any | Instruction | Data

  // pil -1 watches every level.
  datatype Entry = Entry(address: nat, kind: Kind, space: Space, pil: int) {
    function Key(): (nat, Space, int) { (address, space, pil) }

    predicate Matches(x: Access) {
      && address == x.address
      && (pil >= 0 ==> pil == x.level)
      && (space == Instruction ==> !x.useApt) && (space == Data ==> x.useApt)
      && (kind == OnBoth || (kind == OnWrite && x.write) || (kind == OnRead && !x.write))
    }
  }

  datatype Access = Access(address: nat, write: bool, useApt: bool, level: nat)

  // Reads and writes, instruction and data accesses, and levels are told apart, and a watchpoint on
  // both, on any or on every level is one for each.
  lemma MatchesIff(e: Entry, x: Access)
    ensures e.Matches(x) ==> e.address == x.address
    ensures e.Matches(x) && e.kind == OnRead ==> !x.write
    ensures e.Matches(x) && e.kind == OnWrite ==> x.write
    ensures e.(kind := OnBoth).Matches(x) <==> e.(kind := OnRead).Matches(x) || e.(kind := OnWrite).Matches(x)
    ensures e.Matches(x) && e.space == Instruction ==> !x.useApt
    ensures e.Matches(x) && e.space == Data ==> x.useApt
    ensures e.(space := Any).Matches(x) <==> e.(space := Instruction).Matches(x) || e.(space := Data).Matches(x)
    ensures e.Matches(x) && e.pil >= 0 ==> e.pil == x.level
    ensures e.(pil := -1).Matches(x) <==> e.(pil := x.level).Matches(x)
    ensures Entry(x.address, OnBoth, Any, -1).Matches(x)
  {
  }

  // ---- The table as a sequence ----

  predicate Hits(es: seq<Entry>, x: Access) {
    exists i :: 0 <= i < |es| && es[i].Matches(x)
  }

  predicate KeysDistinct(es: seq<Entry>) {
    forall i, j :: 0 <= i < j < |es| ==> es[i].Key() != es[j].Key()
  }

  // The first position with a property of the key or the address, or the length.
  function FindKey(es: seq<Entry>, e: Entry): (i: nat)
    ensures i <= |es| && (i < |es| ==> es[i].Key() == e.Key())
    ensures forall j :: 0 <= j < i ==> es[j].Key() != e.Key()
  {
    if es == [] then 0 else if es[0].Key() == e.Key() then 0
    else
      assert forall j :: 1 <= j < |es| ==> es[j] == es[1..][j - 1];
      1 + FindKey(es[1..], e)
  }

  function FindAddress(es: seq<Entry>, a: nat): (i: nat)
    ensures i <= |es| && (i < |es| ==> es[i].address == a)
    ensures forall j :: 0 <= j < i ==> es[j].address != a
  {
    if es == [] then 0 else if es[0].address == a then 0
    else
      assert forall j :: 1 <= j < |es| ==> es[j] == es[1..][j - 1];
      1 + FindAddress(es[1..], a)
  }

  // A new key goes to the end while there is room; a known one takes the new kind.
  function Added(es: seq<Entry>, e: Entry): seq<Entry> {
    var i := FindKey(es, e);
    if i < |es| then es[i := es[i].(kind := e.kind)]
    else if |es| < MAX_WATCHPOINTS then es + [e]
    else es
  }

  // The last entry takes the place of the removed one.
  function SwapRemove(es: seq<Entry>, i: nat): seq<Entry>
    requires i < |es|
  {
    es[i := es[|es| - 1]][..|es| - 1]
  }

  function Removed(es: seq<Entry>, a: nat): seq<Entry> {
    var i := FindAddress(es, a);
    if i < |es| then SwapRemove(es, i) else es
  }

  // Swap-removal takes out one entry and loses or repeats no other.
  lemma SwapRemoveIsRemoval(es: seq<Entry>, i: nat)
    requires i < |es|
    ensures multiset(SwapRemove(es, i)) == multiset(es) - multiset{es[i]}
  {
    var n := |es| - 1;
    if i < n {
      SwapRemoveInside(es, i);
    } else {
      assert es == es[..n] + [es[n]] && SwapRemove(es, i) == es[..n];
    }
  }

  lemma SwapRemoveInside(es: seq<Entry>, i: nat)
    requires i < |es| - 1
    ensures multiset(SwapRemove(es, i)) == multiset(es) - multiset{es[i]}
  {
    var n := |es| - 1;
    var low, high, last := es[..i], es[i + 1..n], es[n];
    assert es == low + [es[i]] + high + [last];
    assert SwapRemove(es, i) == low + [last] + high;
    assert multiset(es) == multiset(low) + multiset{es[i]} + multiset(high) + multiset{last};
    assert multiset(SwapRemove(es, i)) == multiset(low) + multiset{last} + multiset(high);
  }

  // An access still hits after a removal exactly when another entry than the removed one matches.
  lemma RemovedHits(es: seq<Entry>, a: nat, x: Access)
    ensures Hits(Removed(es, a), x)
            <==> exists i :: 0 <= i < |es| && i != FindAddress(es, a) && es[i].Matches(x)
  {
    var r, k := Removed(es, a), FindAddress(es, a);
    if i :| 0 <= i < |es| && i != k && es[i].Matches(x) {
      assert k == |es| || r[if i == |es| - 1 then k else i] == es[i];
      assert Hits(r, x);
    }
    if i :| 0 <= i < |r| && r[i].Matches(x) {
      assert r[i] == es[if i == k then |es| - 1 else i];
    }
  }

  lemma RemovedKeepsKeys(es: seq<Entry>, a: nat)
    requires KeysDistinct(es)
    ensures KeysDistinct(Removed(es, a))
  {
  }

  // What an access hits after an add: the new watchpoint, and what it hit before except by the
  // entry that was replaced.
  lemma AddedHits(es: seq<Entry>, e: Entry, x: Access)
    requires KeysDistinct(es) && (|es| < MAX_WATCHPOINTS || FindKey(es, e) < |es|)
    ensures Hits(Added(es, e), x)
            <==> e.Matches(x) || (exists i :: 0 <= i < |es| && es[i].Key() != e.Key() && es[i].Matches(x))
  {
    var r, i := Added(es, e), FindKey(es, e);
    assert r[i] == e;
    if k :| 0 <= k < |es| && es[k].Key() != e.Key() && es[k].Matches(x) {
      assert r[k] == es[k];
    }
    if k :| 0 <= k < |r| && r[k].Matches(x) {
      assert k == i || es[k].Key() != e.Key();
    }
  }

  lemma AddedKeepsKeys(es: seq<Entry>, e: Entry)
    requires KeysDistinct(es)
    ensures KeysDistinct(Added(es, e))
  {
  }

  // ---- The bitmap ----

  // The bit of an address: one per address for virtual watchpoints, one per 1K-word page, taken
  // around, for physical ones.
  function Slot(granule: nat, slots: nat, a: nat): (k: nat)
    requires granule > 0 && slots > 0
    ensures k < slots
  {
    a / granule % slots
  }

  // As long as there are bits enough, the bit is the number of the page.
  lemma SlotIsPage(granule: nat, slots: nat, a: nat)
    requires granule > 0 && slots > 0
    ensures a / granule < slots ==> Slot(granule, slots, a) == a / granule
    ensures forall b: nat :: b / granule == a / granule ==> Slot(granule, slots, b) == Slot(granule, slots, a)
  {
    if a / granule < slots {
      SmallRemainder(a / granule, slots);
    }
  }

  lemma SmallRemainder(n: nat, m: nat)
    requires n < m
    ensures n % m == n
  {
  }

  ghost predicate Marked(es: seq<Entry>, granule: nat, slots: nat, k: nat)
    requires granule > 0 && slots > 0
  {
    exists i :: 0 <= i < |es| && Slot(granule, slots, es[i].address) == k
  }

  // A bit is set exactly when an entry lies in its address or page.
  ghost predicate Exact(es: seq<Entry>, bitmap: seq<bool>, granule: nat, slots: nat)
    requires granule > 0 && slots > 0
  {
    |bitmap| == slots && forall k :: 0 <= k < slots ==> bitmap[k] == Marked(es, granule, slots, k)
  }

  // Hence a clear bit never hides a watchpoint.
  lemma NoFalseNegative(es: seq<Entry>, bitmap: seq<bool>, granule: nat, slots: nat, x: Access)
    requires granule > 0 && slots > 0 && Exact(es, bitmap, granule, slots) && Hits(es, x)
    ensures bitmap[Slot(granule, slots, x.address)]
  {
    var i :| 0 <= i < |es| && es[i].Matches(x);
    assert Marked(es, granule, slots, Slot(granule, slots, x.address));
  }

  // With a bit for every address the bitmap also never gives a false alarm about the address.
  lemma VirtualBitmapExact(es: seq<Entry>, bitmap: seq<bool>, a: word)
    requires Exact(es, bitmap, 1, 0x10000) && (forall i :: 0 <= i < |es| ==> es[i].address < 0x10000)
    ensures bitmap[a] <==> exists i :: 0 <= i < |es| && es[i].address == a
  {
    assert bitmap[a] == Marked(es, 1, 0x10000, a);
    if i :| 0 <= i < |es| && es[i].address == a {
      assert Slot(1, 0x10000, es[i].address) == a;
    }
    if i :| 0 <= i < |es| && Slot(1, 0x10000, es[i].address) == a {
      assert es[i].address == a;
    }
  }

  // ---- The table ----

  class Table {
    const granule: nat
    const slots: nat
    const entries: array<Entry>
    const active: array<bool>
    const bitmap: array<bool>
    var count: nat
    var skipHits: nat
    var minValue: int

    ghost predicate Valid()
      reads this, entries, active, bitmap
    {
      && granule > 0 && slots > 0
      && entries.Length == MAX_WATCHPOINTS && active.Length == MAX_WATCHPOINTS && active != bitmap
      && count <= MAX_WATCHPOINTS
      && (forall i :: 0 <= i < count ==> active[i])
      && KeysDistinct(entries[..count])
      && Exact(entries[..count], bitmap[..], granule, slots)
    }

    ghost function Contents(): seq<Entry>
      reads this, entries
      requires count <= entries.Length
    {
      entries[..count]
    }

    constructor (granule: nat, slots: nat)
      requires granule > 0 && slots > 0
      ensures Valid() && Contents() == [] && this.granule == granule && this.slots == slots
      ensures fresh(entries) && fresh(active) && fresh(bitmap) && skipHits == 0 && minValue == 0
    {
      this.granule, this.slots := granule, slots;
      entries := new Entry[MAX_WATCHPOINTS](_ => Entry(0, OnRead, Any, 0));
      active := new bool[MAX_WATCHPOINTS](_ => false);
      bitmap := new bool[slots](_ => false);
      count, skipHits, minValue := 0, 0, 0;
    }

    method Add(e: Entry) returns (ok: bool)
      requires Valid()
      modifies `count, entries, active, bitmap
      ensures Valid()
      ensures Contents() == Added(old(Contents()), e)
      ensures ok <==> |old(Contents())| < 32 || FindKey(old(Contents()), e) < |old(Contents())|
    {
      AddedKeepsKeys(Contents(), e);
      var i := 0;
      while i < count
        invariant i <= count && forall j :: 0 <= j < i ==> entries[j].Key() != e.Key()
      {
        if active[i] && entries[i].Key() == e.Key() {
          assert FindKey(Contents(), e) == i;
          Retype(i, e.kind);
          return true;
        }
        i := i + 1;
      }
      if count >= MAX_WATCHPOINTS {
        return false;
      }
      Append(e);
      return true;
    }

    method Retype(i: nat, kind: Kind)
      requires Valid() && i < count
      modifies entries
      ensures Valid() && Contents() == old(Contents())[i := old(Contents())[i].(kind := kind)]
    {
      entries[i] := entries[i].(kind := kind);
      assert Contents() == old(Contents())[i := old(Contents())[i].(kind := kind)];
      RetypeExact(old(Contents()), i, kind, bitmap[..], granule, slots);
    }

    method Append(e: Entry)
      requires Valid() && count < MAX_WATCHPOINTS && KeysDistinct(Contents() + [e])
      modifies `count, entries, active, bitmap
      ensures Valid() && Contents() == old(Contents()) + [e]
    {
      entries[count] := e;
      active[count] := true;
      bitmap[Slot(granule, slots, e.address)] := true;
      count := count + 1;
      assert Contents() == old(Contents()) + [e];
      AppendExact(old(Contents()), e, old(bitmap[..]), granule, slots);
      assert bitmap[..] == old(bitmap[..])[Slot(granule, slots, e.address) := true];
    }

    method Remove(a: nat)
      requires Valid()
      modifies `count, entries, active, bitmap
      ensures Valid() && Contents() == Removed(old(Contents()), a)
    {
      RemovedKeepsKeys(Contents(), a);
      var i := 0;
      while i < count
        invariant i <= count && forall j :: 0 <= j < i ==> entries[j].address != a
      {
        if active[i] && entries[i].address == a {
          assert FindAddress(Contents(), a) == i;
          RemoveAt(i);
          return;
        }
        i := i + 1;
      }
    }

    // The last entry takes the place of entry i.
    method RemoveAt(i: nat)
      requires Valid() && i < count && KeysDistinct(SwapRemove(Contents(), i))
      modifies `count, entries, active, bitmap
      ensures Valid() && Contents() == SwapRemove(old(Contents()), i)
    {
      entries[i] := entries[count - 1];
      active[count - 1] := false;
      count := count - 1;
      assert Contents() == SwapRemove(old(Contents()), i);
      RebuildBitmap();
    }

    method Clear()
      requires Valid()
      modifies `count, active, bitmap
      ensures Valid() && Contents() == []
    {
      var i := 0;
      while i < MAX_WATCHPOINTS
        invariant i <= MAX_WATCHPOINTS
      {
        active[i] := false;
        i := i + 1;
      }
      count := 0;
      RebuildBitmap();
    }

    // All bits cleared, then one set per entry.
    method RebuildBitmap()
      requires granule > 0 && slots > 0 && bitmap.Length == slots && active != bitmap
      requires count <= MAX_WATCHPOINTS == entries.Length == active.Length
      requires forall i :: 0 <= i < count ==> active[i]
      modifies bitmap
      ensures Exact(Contents(), bitmap[..], granule, slots)
    {
      forall k | 0 <= k < bitmap.Length {
        bitmap[k] := false;
      }
      var i := 0;
      assert Contents()[..0] == [];
      while i < count
        invariant i <= count && Exact(Contents()[..i], bitmap[..], granule, slots)
      {
        if active[i] {
          AppendExact(Contents()[..i], entries[i], bitmap[..], granule, slots);
          ghost var before := bitmap[..];
          bitmap[Slot(granule, slots, entries[i].address)] := true;
          assert bitmap[..] == before[Slot(granule, slots, entries[i].address) := true];
          assert Contents()[..i + 1] == Contents()[..i] + [entries[i]];
        }
        i := i + 1;
      }
      assert Contents()[..count] == Contents();
    }

    // The exact scan of the virtual table; the first skipHits matches are swallowed.
    method CheckSlow(x: Access) returns (hit: bool)
      requires Valid()
      modifies `skipHits
      ensures hit <==> Hits(Contents(), x) && old(skipHits) == 0
      ensures skipHits == if Hits(Contents(), x) && old(skipHits) > 0 then old(skipHits) - 1 else old(skipHits)
    {
      var i := 0;
      while i < count
        invariant i <= count && skipHits == old(skipHits)
        invariant forall j :: 0 <= j < i ==> !entries[j].Matches(x)
      {
        if active[i] && entries[i].Matches(x) {
          assert Contents()[i].Matches(x);
          if skipHits > 0 {
            skipHits := skipHits - 1;
            return false;
          }
          return true;
        }
        i := i + 1;
      }
      return false;
    }

    // The exact scan of the physical table.
    method CheckPhysical(x: Access) returns (hit: bool)
      requires Valid()
      ensures hit <==> Hits(Contents(), x)
    {
      var i := 0;
      while i < count
        invariant i <= count && forall j :: 0 <= j < i ==> !entries[j].Matches(x)
      {
        if active[i] && entries[i].Matches(x) {
          assert Contents()[i].Matches(x);
          return true;
        }
        i := i + 1;
      }
      return false;
    }

    // The gates of a virtual access: count, bitmap and value filter in front of the scan. The
    // answer, and the hits left to skip, are what the scan alone would give.
    method Gate(x: Access, value: word) returns (hit: bool)
      requires Valid()
      modifies `skipHits
      ensures (var wanted := Hits(Contents(), x) && (x.write && minValue != 0 ==> value >= minValue % 0x10000);
               && (hit <==> wanted && old(skipHits) == 0)
               && skipHits == if wanted && old(skipHits) > 0 then old(skipHits) - 1 else old(skipHits))
    {
      if Hits(Contents(), x) {
        NoFalseNegative(Contents(), bitmap[..], granule, slots, x);
      }
      if count > 0 && bitmap[Slot(granule, slots, x.address)] {
        if !x.write || minValue == 0 || value >= minValue % 0x10000 {
          hit := CheckSlow(x);
          return;
        }
      }
      return false;
    }

    // The gates of a physical access: count and page map in front of the scan.
    method GatePhysical(x: Access) returns (hit: bool)
      requires Valid()
      ensures hit <==> Hits(Contents(), x)
    {
      if Hits(Contents(), x) {
        NoFalseNegative(Contents(), bitmap[..], granule, slots, x);
      }
      if count > 0 && bitmap[Slot(granule, slots, x.address)] {
        hit := CheckPhysical(x);
        return;
      }
      return false;
    }
  }

  lemma AppendExact(es: seq<Entry>, e: Entry, bitmap: seq<bool>, granule: nat, slots: nat)
    requires granule > 0 && slots > 0 && Exact(es, bitmap, granule, slots)
    ensures Exact(es + [e], bitmap[Slot(granule, slots, e.address) := true], granule, slots)
  {
    var r, s := es + [e], Slot(granule, slots, e.address);
    forall k | 0 <= k < slots
      ensures bitmap[s := true][k] == Marked(r, granule, slots, k)
    {
      if k == s {
        assert Slot(granule, slots, r[|es|].address) == k;
      } else if bitmap[k] {
        var i :| 0 <= i < |es| && Slot(granule, slots, es[i].address) == k;
        assert r[i] == es[i];
      }
    }
  }

  lemma RetypeExact(es: seq<Entry>, i: nat, kind: Kind, bitmap: seq<bool>, granule: nat, slots: nat)
    requires granule > 0 && slots > 0 && i < |es| && KeysDistinct(es) && Exact(es, bitmap, granule, slots)
    ensures var r := es[i := es[i].(kind := kind)]; KeysDistinct(r) && Exact(r, bitmap, granule, slots)
  {
    var r := es[i := es[i].(kind := kind)];
    forall k | 0 <= k < slots
      ensures Marked(r, granule, slots, k) <==> Marked(es, granule, slots, k)
    {
      if j :| 0 <= j < |es| && Slot(granule, slots, es[j].address) == k {
        assert r[j].address == es[j].address;
      }
      if j :| 0 <= j < |r| && Slot(granule, slots, r[j].address) == k {
        assert es[j].address == r[j].address;
      }
    }
  }
}
