/**
 INSPL and REMPL: doubly linked lists of physical pages kept in flat physical memory.

 A segment-table entry at offset B holds the head of its page list in its word 7. A page's
 core-map entry at offset X holds the forward link in word 0, the back link in word 1 and a
 tag in word 3. The back link of a list's first page is not a page but an anchor marker, from
 which the segment-table entry can be found again.
 */
module PageLists {
  import opened Words
  import opened PhysicalMemory

  // The global pointers: segment-table bank and start, and core-map bank.
  datatype Globals = Globals(stBank: byte, stStart: word, cmBank: byte) {
    function Head(b: word): Address { Address(stBank, Wrap(b + 7)) }
    function Forward(x: word): Address { Address(cmBank, x) }
    function Back(x: word): Address { Address(cmBank, Wrap(x + 1)) }
    function Tag(x: word): Address { Address(cmBank, Wrap(x + 3)) }

    // The anchor marker of the segment at b: its index, with the two low bits set.
    function Marker(b: word): word {
      var index := (b - stStart) % 0x10000 / 2;
      index - index % 4 + 3
    }

    // The head slot an anchor marker leads back to.
    function Anchored(marker: word): Address {
      var offset := (stStart + 2 * marker) % 0x10000;
      Address(stBank, offset - offset % 8 + 7)
    }
  }

  function Insert(s: Store, g: Globals, b: word, x: word, t: word): (r: Store)
    requires s.Valid()
    ensures r.Valid()
  {
    var oldHead := s.Read(g.Head(b));
    var s1 := s.Write(g.Head(b), x).Write(g.Forward(x), oldHead);
    if oldHead == 0 then
      s1.Write(g.Back(x), g.Marker(b)).Write(g.Tag(x), t)
    else
      var marker := s1.Read(g.Back(oldHead));
      s1.Write(g.Back(oldHead), x).Write(g.Back(x), marker).Write(g.Tag(x), t)
  }

  function Remove(s: Store, g: Globals, x: word): (r: Store)
    requires s.Valid()
    ensures r.Valid()
  {
    var next, back := s.Read(g.Forward(x)), s.Read(g.Back(x));
    var s1 := if back % 4 != 0 then s.Write(g.Anchored(back), next) else s.Write(g.Forward(back), next);
    var s2 := if next != 0 then s1.Write(g.Back(next), back) else s1;
    s2.Write(g.Forward(x), 0).Write(g.Back(x), 0)
  }

  class Machine {
    const phys: PhysMem
    var b: word
    var x: word
    var t: word
    var globals: Globals

    constructor (phys: PhysMem, globals: Globals)
      ensures this.phys == phys && this.globals == globals
    {
      this.phys := phys;
      this.globals := globals;
      b, x, t := 0, 0, 0;
    }

    method InsertPage()
      requires phys.Contents().Valid()
      modifies phys
      ensures phys.Contents() == Insert(old(phys.Contents()), globals, b, x, t)
    {
      var oldHead := phys.ReadWord(globals.Head(b));
      phys.WriteWord(globals.Head(b), x);
      phys.WriteWord(globals.Forward(x), oldHead);
      var marker: word;
      if oldHead == 0 {
        marker := globals.Marker(b);
      } else {
        marker := phys.ReadWord(globals.Back(oldHead));
        phys.WriteWord(globals.Back(oldHead), x);
      }
      phys.WriteWord(globals.Back(x), marker);
      phys.WriteWord(globals.Tag(x), t);
    }

    method RemovePage()
      requires phys.Contents().Valid()
      modifies phys
      ensures phys.Contents() == Remove(old(phys.Contents()), globals, x)
    {
      var next := phys.ReadWord(globals.Forward(x));
      var back := phys.ReadWord(globals.Back(x));
      if back % 4 != 0 {
        phys.WriteWord(globals.Anchored(back), next);
      } else {
        phys.WriteWord(globals.Forward(back), next);
      }
      if next != 0 {
        phys.WriteWord(globals.Back(next), back);
      }
      phys.WriteWord(globals.Forward(x), 0);
      phys.WriteWord(globals.Back(x), 0);
    }
  }

  // ---- The lists the heap represents ----

  type Lists = map<word, seq<word>>

  function FirstPage(l: seq<word>): word {
    if l == [] then 0 else l[0]
  }

  function Successor(l: seq<word>, i: nat): word
    requires i < |l|
  {
    if i + 1 < |l| then l[i + 1] else 0
  }

  function Predecessor(g: Globals, b: word, l: seq<word>, i: nat): word
    requires i < |l|
  {
    if i == 0 then g.Marker(b) else l[i - 1]
  }

  ghost predicate LegalPage(s: Store, g: Globals, p: word) {
    p != 0 && p % 4 == 0 && s.Plain(g.Forward(p)) && s.Plain(g.Back(p)) && s.Plain(g.Tag(p))
  }

  ghost predicate LegalSegment(s: Store, g: Globals, b: word) {
    b % 8 == 0 && s.Plain(g.Head(b))
  }

  // No page's core-map entry lies over the head slot, even with both tables in one bank.
  ghost predicate Apart(g: Globals, b: word, p: word) {
    g.stBank == g.cmBank ==> p != b + 4
  }

  ghost predicate Linked(s: Store, g: Globals, b: word, l: seq<word>, i: nat)
    requires s.Valid() && i < |l|
  {
    s.Read(g.Forward(l[i])) == Successor(l, i) && s.Read(g.Back(l[i])) == Predecessor(g, b, l, i)
  }

  // The pages are legal, pairwise distinct and clear of every head slot.
  ghost predicate Laid(s: Store, g: Globals, lists: Lists) {
    && g.stStart % 8 == 0
    && (forall b :: b in lists ==> LegalSegment(s, g, b))
    && (forall b, i :: b in lists && 0 <= i < |lists[b]| ==> LegalPage(s, g, lists[b][i]))
    && (forall b, c, i :: b in lists && c in lists && 0 <= i < |lists[c]| ==> Apart(g, b, lists[c][i]))
    && Distinct(lists)
  }

  // No page is in two lists, or twice in one.
  ghost predicate Distinct(lists: Lists) {
    forall b, i, c, j ::
      b in lists && c in lists && 0 <= i < |lists[b]| && 0 <= j < |lists[c]| && lists[b][i] == lists[c][j] ==>
        b == c && i == j
  }

  // The store holds exactly these lists: every head slot and every link is as it should be.
  ghost predicate Represents(s: Store, g: Globals, lists: Lists) {
    && s.Valid() && Laid(s, g, lists)
    && (forall b :: b in lists ==> s.Read(g.Head(b)) == FirstPage(lists[b]))
    && (forall b, i :: b in lists && 0 <= i < |lists[b]| ==> Linked(s, g, b, lists[b], i))
  }

  ghost predicate Listed(lists: Lists, x: word) {
    exists b, i :: b in lists && 0 <= i < |lists[b]| && lists[b][i] == x
  }

  // ---- Addresses ----

  // The words of one page, and of two pages, never coincide.
  lemma PageWordsApart(g: Globals, p: word, q: word)
    requires p % 4 == 0 && q % 4 == 0
    ensures g.Forward(p) != g.Back(q) && g.Forward(p) != g.Tag(q) && g.Back(p) != g.Tag(q)
    ensures p != q ==> g.Forward(p) != g.Forward(q) && g.Back(p) != g.Back(q) && g.Tag(p) != g.Tag(q)
  {
    var u, v := p / 4, q / 4;
    assert p == 4 * u && q == 4 * v;
  }

  lemma HeadApart(g: Globals, b: word, p: word)
    requires b % 8 == 0 && p % 4 == 0 && Apart(g, b, p)
    ensures g.Head(b) != g.Forward(p) && g.Head(b) != g.Back(p) && g.Head(b) != g.Tag(p)
  {
    var u, v := b / 8, p / 4;
    assert b == 8 * u && p == 4 * v;
  }

  lemma HeadsApart(g: Globals, b: word, c: word)
    requires b % 8 == 0 && c % 8 == 0 && b != c
    ensures g.Head(b) != g.Head(c)
  {
    assert b + 7 < 0x10000 && c + 7 < 0x10000;
  }

  // The anchor marker of a segment is no page address, and leads back to its head slot.
  lemma MarkerLeadsBack(g: Globals, b: word)
    requires b % 8 == 0 && g.stStart % 8 == 0
    ensures g.Marker(b) % 4 == 3
    ensures g.Anchored(g.Marker(b)) == g.Head(b)
  {
    var u, v := b / 8, g.stStart / 8;
    var d := if u >= v then u - v else u - v + 0x2000;
    IndexOfSegment(u, v, d);
    assert b - g.stStart == 8 * u - 8 * v;
    MarkerOfIndex(d);
    assert g.Marker(b) == 4 * d + 3;
    HeadFromMarker(u, v, d);
  }

  lemma IndexOfSegment(u: nat, v: nat, d: nat)
    requires u < 0x2000 && v < 0x2000 && d == if u >= v then u - v else u - v + 0x2000
    ensures (8 * u - 8 * v) % 0x10000 == 8 * d
  {
    if u < v {
      assert 8 * u - 8 * v == 8 * d - 0x10000;
    }
  }

  lemma MarkerOfIndex(d: nat)
    ensures var index := 8 * d / 2; index - index % 4 + 3 == 4 * d + 3 && (4 * d + 3) % 4 == 3
  {
  }

  lemma HeadFromMarker(u: nat, v: nat, d: nat)
    requires u < 0x2000 && v < 0x2000 && (v + d == u || v + d == u + 0x2000)
    ensures var offset := (8 * v + 2 * (4 * d + 3)) % 0x10000;
            offset == 8 * u + 6 && offset - offset % 8 + 7 == 8 * u + 7
  {
  }

  // ---- INSPL puts a page at the front of a list ----

  // x is a legal page in none of the lists, clear of every head slot.
  ghost predicate Free(s: Store, g: Globals, lists: Lists, x: word) {
    LegalPage(s, g, x) && !Listed(lists, x) && forall c :: c in lists ==> Apart(g, c, x)
  }

  // Exactly five words can change.
  ghost function InsertedWord(s: Store, g: Globals, lists: Lists, b: word, x: word, t: word, a: Address): word
    requires s.Valid() && b in lists
  {
    if a == g.Head(b) then x
    else if a == g.Forward(x) then FirstPage(lists[b])
    else if a == g.Back(x) then g.Marker(b)
    else if a == g.Tag(x) then t
    else if lists[b] != [] && a == g.Back(lists[b][0]) then x
    else s.Read(a)
  }

  lemma InsertEffect(s: Store, g: Globals, lists: Lists, b: word, x: word, t: word, a: Address)
    requires Represents(s, g, lists) && b in lists && Free(s, g, lists, x)
    ensures Insert(s, g, b, x, t).Read(a) == InsertedWord(s, g, lists, b, x, t, a)
  {
    if lists[b] == [] {
      HeadApart(g, b, x);
      PageWordsApart(g, x, x);
    } else {
      InsertAboveEffect(s, g, lists, b, x, t, a);
    }
  }

  lemma InsertAboveEffect(s: Store, g: Globals, lists: Lists, b: word, x: word, t: word, a: Address)
    requires Represents(s, g, lists) && b in lists && Free(s, g, lists, x) && lists[b] != []
    ensures Insert(s, g, b, x, t).Read(a) == InsertedWord(s, g, lists, b, x, t, a)
  {
    var p := lists[b][0];
    assert Linked(s, g, b, lists[b], 0) && LegalPage(s, g, p) && p != x;
    HeadApart(g, b, x);
    HeadApart(g, b, p);
    PageWordsApart(g, x, x);
    PageWordsApart(g, x, p);
    PageWordsApart(g, p, x);
  }

  lemma InsertLaid(s: Store, r: Store, g: Globals, lists: Lists, b: word, x: word)
    requires Laid(s, g, lists) && b in lists && Free(s, g, lists, x)
    requires forall a {:trigger r.Plain(a)} :: s.Plain(a) <==> r.Plain(a)
    ensures Laid(r, g, lists[b := [x] + lists[b]])
  {
    var after := lists[b := [x] + lists[b]];
    forall c, i | c in after && 0 <= i < |after[c]|
      ensures if c == b && i == 0 then after[c][i] == x
              else c in lists && after[c][i] != x && after[c][i] == lists[c][if c == b then i - 1 else i]
    {
    }
  }

  // Head slots: only the list that grows gets a new one.
  lemma InsertedHead(s: Store, r: Store, g: Globals, lists: Lists, b: word, x: word, t: word, c: word)
    requires Represents(s, g, lists) && b in lists && Free(s, g, lists, x) && c in lists && r.Valid()
    requires forall a :: r.Read(a) == InsertedWord(s, g, lists, b, x, t, a)
    ensures r.Read(g.Head(c)) == FirstPage(if c == b then [x] + lists[b] else lists[c])
  {
    HeadApart(g, c, x);
    if lists[b] != [] {
      HeadApart(g, c, lists[b][0]);
    }
    if c != b {
      HeadsApart(g, b, c);
    }
  }

  // INSPL prepends the page to its segment's list and leaves every other list alone.
  lemma InsertRepresents(s: Store, g: Globals, lists: Lists, b: word, x: word, t: word)
    requires Represents(s, g, lists) && b in lists && Free(s, g, lists, x)
    ensures Represents(Insert(s, g, b, x, t), g, lists[b := [x] + lists[b]])
    ensures Insert(s, g, b, x, t).Read(g.Tag(x)) == t
  {
    var r, after := Insert(s, g, b, x, t), lists[b := [x] + lists[b]];
    InsertLaid(s, r, g, lists, b, x);
    forall a
      ensures r.Read(a) == InsertedWord(s, g, lists, b, x, t, a)
    {
      InsertEffect(s, g, lists, b, x, t, a);
    }
    PageWordsApart(g, x, x);
    HeadApart(g, b, x);
    forall c | c in after
      ensures r.Read(g.Head(c)) == FirstPage(after[c])
    {
      InsertedHead(s, r, g, lists, b, x, t, c);
    }
    forall c, i | c in after && 0 <= i < |after[c]|
      ensures Linked(r, g, c, after[c], i)
    {
      InsertLinked(s, r, g, lists, b, x, t, c, i);
    }
  }

  lemma InsertLinked(s: Store, r: Store, g: Globals, lists: Lists, b: word, x: word, t: word, c: word, i: nat)
    requires Represents(s, g, lists) && b in lists && Free(s, g, lists, x) && r.Valid()
    requires forall a :: r.Read(a) == InsertedWord(s, g, lists, b, x, t, a)
    requires var after := lists[b := [x] + lists[b]]; c in after && i < |after[c]|
    ensures Linked(r, g, c, lists[b := [x] + lists[b]][c], i)
  {
    if c == b && i == 0 {
      HeadApart(g, b, x);
      PageWordsApart(g, x, x);
    } else {
      OthersStayLinked(s, r, g, lists, b, x, t, c, if c == b then i - 1 else i);
    }
  }

  // A page that was in a list keeps its links, but the first page of the list now has one above.
  lemma OthersStayLinked(s: Store, r: Store, g: Globals, lists: Lists, b: word, x: word, t: word, c: word, k: nat)
    requires Represents(s, g, lists) && b in lists && Free(s, g, lists, x) && r.Valid()
    requires forall a :: r.Read(a) == InsertedWord(s, g, lists, b, x, t, a)
    requires c in lists && k < |lists[c]|
    ensures r.Read(g.Forward(lists[c][k])) == Successor(lists[c], k)
    ensures r.Read(g.Back(lists[c][k])) == if c == b && k == 0 then x else Predecessor(g, c, lists[c], k)
  {
    var q := lists[c][k];
    assert Linked(s, g, c, lists[c], k) && LegalPage(s, g, q) && q != x;
    PageWordsApart(g, q, x);
    PageWordsApart(g, x, q);
    HeadApart(g, b, q);
    if lists[b] != [] {
      assert LegalPage(s, g, lists[b][0]) && (q == lists[b][0] <==> c == b && k == 0);
      PageWordsApart(g, q, lists[b][0]);
    }
  }

  // ---- REMPL takes a page out of whichever list holds it ----

  function Without(l: seq<word>, k: nat): seq<word>
    requires k < |l|
  {
    l[..k] + l[k + 1..]
  }

  // Exactly four words can change.
  ghost function RemovedWord(s: Store, g: Globals, b: word, l: seq<word>, k: nat, a: Address): word
    requires s.Valid() && k < |l|
  {
    if a == g.Forward(l[k]) || a == g.Back(l[k]) then 0
    else if k == 0 && a == g.Head(b) then Successor(l, k)
    else if k > 0 && a == g.Forward(l[k - 1]) then Successor(l, k)
    else if k + 1 < |l| && a == g.Back(l[k + 1]) then Predecessor(g, b, l, k)
    else s.Read(a)
  }

  lemma RemoveEffect(s: Store, g: Globals, lists: Lists, b: word, k: nat, a: Address)
    requires Represents(s, g, lists) && b in lists && k < |lists[b]|
    ensures Remove(s, g, lists[b][k]).Read(a) == RemovedWord(s, g, b, lists[b], k, a)
  {
    if k == 0 {
      RemoveFirstEffect(s, g, lists, b, a);
    } else {
      RemoveInnerEffect(s, g, lists, b, k, a);
    }
  }

  // The words of a page, and those of the page behind it.
  lemma RemovedApart(s: Store, g: Globals, lists: Lists, b: word, k: nat)
    requires Represents(s, g, lists) && b in lists && k < |lists[b]|
    ensures var l := lists[b];
            && Linked(s, g, b, l, k) && LegalPage(s, g, l[k]) && g.Forward(l[k]) != g.Back(l[k])
            && (k + 1 < |l| ==> l[k + 1] != 0 && g.Back(l[k + 1]) != g.Forward(l[k]) && g.Back(l[k + 1]) != g.Back(l[k])
                                && g.Back(l[k + 1]) != g.Head(b) && s.Plain(g.Back(l[k + 1])))
            && g.Head(b) != g.Forward(l[k]) && g.Head(b) != g.Back(l[k])
  {
    var l := lists[b];
    assert Linked(s, g, b, l, k) && LegalPage(s, g, l[k]);
    PageWordsApart(g, l[k], l[k]);
    HeadApart(g, b, l[k]);
    if k + 1 < |l| {
      assert LegalPage(s, g, l[k + 1]) && l[k + 1] != l[k];
      PageWordsApart(g, l[k], l[k + 1]);
      PageWordsApart(g, l[k + 1], l[k]);
      HeadApart(g, b, l[k + 1]);
    }
  }

  lemma RemoveFirstEffect(s: Store, g: Globals, lists: Lists, b: word, a: Address)
    requires Represents(s, g, lists) && b in lists && lists[b] != []
    ensures Remove(s, g, lists[b][0]).Read(a) == RemovedWord(s, g, b, lists[b], 0, a)
  {
    RemovedApart(s, g, lists, b, 0);
    MarkerLeadsBack(g, b);
  }

  lemma RemoveInnerEffect(s: Store, g: Globals, lists: Lists, b: word, k: nat, a: Address)
    requires Represents(s, g, lists) && b in lists && 0 < k < |lists[b]|
    ensures Remove(s, g, lists[b][k]).Read(a) == RemovedWord(s, g, b, lists[b], k, a)
  {
    var l := lists[b];
    RemovedApart(s, g, lists, b, k);
    assert LegalPage(s, g, l[k - 1]) && l[k - 1] != l[k];
    PageWordsApart(g, l[k], l[k - 1]);
    PageWordsApart(g, l[k - 1], l[k]);
    if k + 1 < |l| {
      assert LegalPage(s, g, l[k + 1]);
      PageWordsApart(g, l[k - 1], l[k + 1]);
    }
  }

  lemma RemoveLaid(s: Store, r: Store, g: Globals, lists: Lists, b: word, k: nat)
    requires Laid(s, g, lists) && b in lists && k < |lists[b]|
    requires forall a {:trigger r.Plain(a)} :: s.Plain(a) <==> r.Plain(a)
    ensures Laid(r, g, lists[b := Without(lists[b], k)])
  {
    var after := lists[b := Without(lists[b], k)];
    forall c, i | c in after && 0 <= i < |after[c]|
      ensures after[c][i] == lists[c][if c == b && i >= k then i + 1 else i]
    {
    }
  }

  lemma RemoveLinked(s: Store, r: Store, g: Globals, lists: Lists, b: word, k: nat, c: word, i: nat)
    requires Represents(s, g, lists) && b in lists && k < |lists[b]| && r.Valid()
    requires forall a :: r.Read(a) == RemovedWord(s, g, b, lists[b], k, a)
    requires var after := lists[b := Without(lists[b], k)]; c in after && i < |after[c]|
    ensures Linked(r, g, c, lists[b := Without(lists[b], k)][c], i)
  {
    var l, after := lists[b], lists[b := Without(lists[b], k)];
    var j := if c == b && i >= k then i + 1 else i;
    var q := after[c][i];
    assert q == lists[c][j] && Linked(s, g, c, lists[c], j) && LegalPage(s, g, q);
    assert q != l[k];
    RemovedNeighbours(s, r, g, lists, b, k, c, j);
  }

  // The links of a page that stays: its neighbours in its own list, but never the removed one.
  lemma RemovedNeighbours(s: Store, r: Store, g: Globals, lists: Lists, b: word, k: nat, c: word, j: nat)
    requires Represents(s, g, lists) && b in lists && k < |lists[b]| && r.Valid()
    requires c in lists && j < |lists[c]| && !(c == b && j == k)
    requires forall a :: r.Read(a) == RemovedWord(s, g, b, lists[b], k, a)
    ensures r.Read(g.Forward(lists[c][j]))
         == if c == b && j + 1 == k then Successor(lists[b], k) else Successor(lists[c], j)
    ensures r.Read(g.Back(lists[c][j]))
         == if c == b && j == k + 1 then Predecessor(g, b, lists[b], k) else Predecessor(g, c, lists[c], j)
  {
    var l, q := lists[b], lists[c][j];
    assert Linked(s, g, c, lists[c], j) && LegalPage(s, g, q) && LegalPage(s, g, l[k]) && q != l[k];
    PageWordsApart(g, q, l[k]);
    PageWordsApart(g, l[k], q);
    HeadApart(g, b, q);
    if k > 0 {
      assert LegalPage(s, g, l[k - 1]) && (q == l[k - 1] <==> c == b && j == k - 1);
      PageWordsApart(g, q, l[k - 1]);
      PageWordsApart(g, l[k - 1], q);
    }
    if k + 1 < |l| {
      assert LegalPage(s, g, l[k + 1]) && (q == l[k + 1] <==> c == b && j == k + 1);
      PageWordsApart(g, q, l[k + 1]);
    }
  }

  // Head slots: only the list of a removed first page gets a new one.
  lemma RemovedHead(s: Store, r: Store, g: Globals, lists: Lists, b: word, k: nat, c: word)
    requires Represents(s, g, lists) && b in lists && k < |lists[b]| && c in lists && r.Valid()
    requires forall a :: r.Read(a) == RemovedWord(s, g, b, lists[b], k, a)
    ensures r.Read(g.Head(c)) == FirstPage(if c == b then Without(lists[b], k) else lists[c])
  {
    var l := lists[b];
    HeadApart(g, c, l[k]);
    if k > 0 {
      HeadApart(g, c, l[k - 1]);
    }
    if k + 1 < |l| {
      HeadApart(g, c, l[k + 1]);
    }
    if c != b {
      HeadsApart(g, b, c);
    }
  }

  // REMPL deletes the page, first, middle or last, and leaves every other list alone.
  lemma RemoveRepresents(s: Store, g: Globals, lists: Lists, b: word, k: nat)
    requires Represents(s, g, lists) && b in lists && k < |lists[b]|
    ensures Represents(Remove(s, g, lists[b][k]), g, lists[b := Without(lists[b], k)])
  {
    var l := lists[b];
    var r, after := Remove(s, g, l[k]), lists[b := Without(l, k)];
    RemoveLaid(s, r, g, lists, b, k);
    forall a
      ensures r.Read(a) == RemovedWord(s, g, b, l, k, a)
    {
      RemoveEffect(s, g, lists, b, k, a);
    }
    forall c | c in after
      ensures r.Read(g.Head(c)) == FirstPage(after[c])
    {
      RemovedHead(s, r, g, lists, b, k, c);
    }
    forall c, i | c in after && 0 <= i < |after[c]|
      ensures Linked(r, g, c, after[c], i)
    {
      RemoveLinked(s, r, g, lists, b, k, c, i);
    }
  }

  // Inserting a page and removing it again restores every word but the page's own entry.
  lemma RemoveUndoesInsert(s: Store, g: Globals, lists: Lists, b: word, x: word, t: word, a: Address)
    requires Represents(s, g, lists) && b in lists && Free(s, g, lists, x)
    ensures Remove(Insert(s, g, b, x, t), g, x).Read(a)
         == if a == g.Forward(x) || a == g.Back(x) then 0 else if a == g.Tag(x) then t else s.Read(a)
  {
    var s1, lists1 := Insert(s, g, b, x, t), lists[b := [x] + lists[b]];
    InsertRepresents(s, g, lists, b, x, t);
    RemoveEffect(s1, g, lists1, b, 0, a);
    InsertEffect(s, g, lists, b, x, t, a);
    UndoneWord(s, s1, g, lists, b, x, t, a);
  }

  lemma UndoneWord(s: Store, s1: Store, g: Globals, lists: Lists, b: word, x: word, t: word, a: Address)
    requires Represents(s, g, lists) && b in lists && Free(s, g, lists, x) && s1.Valid()
    requires s1.Read(a) == InsertedWord(s, g, lists, b, x, t, a)
    ensures RemovedWord(s1, g, b, [x] + lists[b], 0, a)
         == if a == g.Forward(x) || a == g.Back(x) then 0 else if a == g.Tag(x) then t else s.Read(a)
  {
    HeadApart(g, b, x);
    PageWordsApart(g, x, x);
    if lists[b] != [] {
      assert Linked(s, g, b, lists[b], 0);
      HeadApart(g, b, lists[b][0]);
      PageWordsApart(g, lists[b][0], x);
      PageWordsApart(g, x, lists[b][0]);
    }
  }

  // ---- Runs ----

  datatype Step = InsertStep(b: word, x: word, t: word) | RemoveStep(x: word)

  function Perform(s: Store, g: Globals, step: Step): (r: Store)
    requires s.Valid()
    ensures r.Valid()
  {
    match step
    case InsertStep(b, x, t) => Insert(s, g, b, x, t)
    case RemoveStep(x) => Remove(s, g, x)
  }

  function PerformAll(s: Store, g: Globals, steps: seq<Step>): (r: Store)
    requires s.Valid()
    ensures r.Valid()
    decreases |steps|
  {
    if steps == [] then s else PerformAll(Perform(s, g, steps[0]), g, steps[1..])
  }

  // Deleting a page from a list that may hold it.
  function Delete(l: seq<word>, x: word): seq<word> {
    if l == [] then [] else if l[0] == x then l[1..] else [l[0]] + Delete(l[1..], x)
  }

  function Abstract(lists: Lists, step: Step): Lists {
    match step
    case InsertStep(b, x, t) => if b in lists then lists[b := [x] + lists[b]] else lists
    case RemoveStep(x) => map b | b in lists :: Delete(lists[b], x)
  }

  function AbstractAll(lists: Lists, steps: seq<Step>): Lists
    decreases |steps|
  {
    if steps == [] then lists else AbstractAll(Abstract(lists, steps[0]), steps[1..])
  }

  // A step its caller may take: a free page into an existing list, a listed page out.
  ghost predicate Allowed(s: Store, g: Globals, lists: Lists, step: Step) {
    match step
    case InsertStep(b, x, t) => b in lists && Free(s, g, lists, x)
    case RemoveStep(x) => Listed(lists, x)
  }

  ghost predicate AllowedAll(s: Store, g: Globals, lists: Lists, steps: seq<Step>)
    requires s.Valid()
    decreases |steps|
  {
    steps == [] || (Allowed(s, g, lists, steps[0])
                    && AllowedAll(Perform(s, g, steps[0]), g, Abstract(lists, steps[0]), steps[1..]))
  }

  lemma {:induction false} DeleteAbsent(l: seq<word>, x: word)
    requires x !in l
    ensures Delete(l, x) == l
    decreases |l|
  {
    if l != [] {
      DeleteAbsent(l[1..], x);
    }
  }

  lemma {:induction false} DeletePresent(l: seq<word>, k: nat)
    requires k < |l| && l[k] !in l[..k]
    ensures Delete(l, l[k]) == Without(l, k)
    decreases |l|
  {
    if k > 0 {
      assert l[..k][0] == l[0] && l[1..][..k - 1] == l[..k][1..];
      DeletePresent(l[1..], k - 1);
    }
  }

  // Deleting a listed page from every list changes only the list that holds it.
  lemma DeleteEverywhere(lists: Lists, b: word, k: nat)
    requires Distinct(lists) && b in lists && k < |lists[b]|
    ensures Abstract(lists, RemoveStep(lists[b][k])) == lists[b := Without(lists[b], k)]
  {
    var x := lists[b][k];
    forall c | c in lists
      ensures Delete(lists[c], x) == if c == b then Without(lists[b], k) else lists[c]
    {
      if c == b {
        DeletePresent(lists[b], k);
      } else {
        DeleteAbsent(lists[c], x);
      }
    }
  }

  lemma StepRepresents(s: Store, g: Globals, lists: Lists, step: Step)
    requires Represents(s, g, lists) && Allowed(s, g, lists, step)
    ensures Represents(Perform(s, g, step), g, Abstract(lists, step))
  {
    match step
    case InsertStep(b, x, t) => InsertRepresents(s, g, lists, b, x, t);
    case RemoveStep(x) =>
      var b, k :| b in lists && 0 <= k < |lists[b]| && lists[b][k] == x;
      RemoveRepresents(s, g, lists, b, k);
      DeleteEverywhere(lists, b, k);
  }

  // Over every run the heap stays a set of disjoint, well-formed, doubly linked lists: the
  // ones obtained by prepending and deleting in the abstract.
  lemma {:induction false} RunRepresents(s: Store, g: Globals, lists: Lists, steps: seq<Step>)
    requires Represents(s, g, lists) && AllowedAll(s, g, lists, steps)
    ensures Represents(PerformAll(s, g, steps), g, AbstractAll(lists, steps))
    decreases |steps|
  {
    if steps != [] {
      StepRepresents(s, g, lists, steps[0]);
      RunRepresents(Perform(s, g, steps[0]), g, Abstract(lists, steps[0]), steps[1..]);
    }
  }
}
