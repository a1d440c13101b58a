/**
 The core map that the list instructions build and the segment instructions read, word by word: a
 page's entry is its forward link, its back link, its status and the word that names its page-table
 entry. What INSPL and REMPL leave is what ENPT, REPT and CLPT walk.
 */
module CoreMap {
  import opened Words
  import opened PhysicalMemory
  import opened PageLists
  import SegmentTables
  import NodeWords

  // ---- The words by address ----

  // Word k of a page's core-map entry, and the head slot of a segment.
  function PageWord(s: Store, g: Globals, x: word, k: nat): word
    requires s.Valid()
  {
    NodeWords.Word(s, g.cmBank, x, k)
  }

  function HeadWord(s: Store, g: Globals, b: word): word
    requires s.Valid()
  {
    s.Read(Address(g.stBank, (b + 7) % 0x10000))
  }

  // The marker of the n-th eight-word segment entry is 4 n + 3.
  function MarkerOf(g: Globals, b: word): nat {
    (b - g.stStart) % 0x10000 / 8 * 4 + 3
  }

  lemma MarkerIs(g: Globals, b: word)
    requires b % 8 == 0 && g.stStart % 8 == 0
    ensures g.Marker(b) == MarkerOf(g, b)
  {
    var d := (b - g.stStart) % 0x10000;
    assert d % 8 == 0;
  }

  lemma PagePlaces(s: Store, g: Globals, b: word, x: word)
    requires s.Valid()
    ensures HeadWord(s, g, b) == s.Read(g.Head(b))
    ensures PageWord(s, g, x, 0) == s.Read(g.Forward(x)) && PageWord(s, g, x, 1) == s.Read(g.Back(x))
    ensures PageWord(s, g, x, 3) == s.Read(g.Tag(x))
    ensures PageWord(s, g, x, 2) == s.Read(StatusAt(g, x))
  {
  }

  function StatusAt(g: Globals, x: word): Address { Address(g.cmBank, (x + 2) % 0x10000) }

  // The status word of a page is none of the words the instructions write.
  lemma StatusApart(g: Globals, b: word, p: word, x: word)
    requires b % 8 == 0 && p % 4 == 0 && x % 4 == 0
    ensures var a := StatusAt(g, x); a != g.Head(b) && a != g.Forward(p) && a != g.Back(p) && a != g.Tag(p)
  {
    assert (x + 2) % 4 == 2 && x + 2 < 0x10000;
  }

  // ---- INSPL and REMPL ----

  // INSPL stores X in word 7 of the segment's entry, the old head in word 0 of the page, the marker
  // in word 1, T in word 3, and X in word 1 of the page that was first. No status word changes.
  lemma InsertWords(s: Store, g: Globals, lists: Lists, b: word, x: word, t: word, p: word)
    requires Represents(s, g, lists) && b in lists && Free(s, g, lists, x) && p % 4 == 0
    ensures var r := Insert(s, g, b, x, t);
            && HeadWord(r, g, b) == x && PageWord(r, g, x, 0) == HeadWord(s, g, b)
            && PageWord(r, g, x, 1) == MarkerOf(g, b) && PageWord(r, g, x, 3) == t
            && (HeadWord(s, g, b) != 0 ==> PageWord(r, g, HeadWord(s, g, b), 1) == x)
            && PageWord(r, g, p, 2) == PageWord(s, g, p, 2)
  {
    var r := Insert(s, g, b, x, t);
    PagePlaces(s, g, b, x);
    PagePlaces(r, g, b, x);
    PagePlaces(r, g, b, HeadWord(s, g, b));
    InsertOwnWords(s, g, lists, b, x, t);
    if lists[b] != [] {
      InsertBelow(s, g, lists, b, x, t);
    }
    InsertKeepsStatus(s, g, lists, b, x, t, p);
  }

  lemma InsertOwnWords(s: Store, g: Globals, lists: Lists, b: word, x: word, t: word)
    requires Represents(s, g, lists) && b in lists && Free(s, g, lists, x)
    ensures var r := Insert(s, g, b, x, t);
            && r.Read(g.Head(b)) == x && r.Read(g.Forward(x)) == s.Read(g.Head(b)) == FirstPage(lists[b])
            && r.Read(g.Back(x)) == MarkerOf(g, b) && r.Read(g.Tag(x)) == t
  {
    MarkerIs(g, b);
    HeadApart(g, b, x);
    PageWordsApart(g, x, x);
    InsertEffect(s, g, lists, b, x, t, g.Head(b));
    InsertEffect(s, g, lists, b, x, t, g.Forward(x));
    InsertEffect(s, g, lists, b, x, t, g.Back(x));
    InsertEffect(s, g, lists, b, x, t, g.Tag(x));
  }

  lemma InsertBelow(s: Store, g: Globals, lists: Lists, b: word, x: word, t: word)
    requires Represents(s, g, lists) && b in lists && Free(s, g, lists, x) && lists[b] != []
    ensures Insert(s, g, b, x, t).Read(g.Back(lists[b][0])) == x
  {
    var p := lists[b][0];
    assert LegalPage(s, g, p) && p != x;
    HeadApart(g, b, p);
    PageWordsApart(g, x, p);
    PageWordsApart(g, p, x);
    InsertEffect(s, g, lists, b, x, t, g.Back(p));
  }

  lemma InsertKeepsStatus(s: Store, g: Globals, lists: Lists, b: word, x: word, t: word, p: word)
    requires Represents(s, g, lists) && b in lists && Free(s, g, lists, x) && p % 4 == 0
    ensures PageWord(Insert(s, g, b, x, t), g, p, 2) == PageWord(s, g, p, 2)
  {
    StatusApart(g, b, x, p);
    if lists[b] != [] {
      assert LegalPage(s, g, lists[b][0]);
      StatusApart(g, b, lists[b][0], p);
    }
    PagePlaces(s, g, b, p);
    PagePlaces(Insert(s, g, b, x, t), g, b, p);
    InsertEffect(s, g, lists, b, x, t, StatusAt(g, p));
  }

  // REMPL leaves zero in the first two words of the page, and no other page's status and no tag
  // changes.
  lemma RemoveWords(s: Store, g: Globals, lists: Lists, b: word, i: nat, p: word)
    requires Represents(s, g, lists) && b in lists && i < |lists[b]| && p % 4 == 0
    requires forall c :: c in lists ==> Apart(g, c, p)
    ensures var r := Remove(s, g, lists[b][i]);
            && PageWord(r, g, lists[b][i], 0) == 0 && PageWord(r, g, lists[b][i], 1) == 0
            && PageWord(r, g, p, 2) == PageWord(s, g, p, 2) && PageWord(r, g, p, 3) == PageWord(s, g, p, 3)
  {
    var r := Remove(s, g, lists[b][i]);
    PagePlaces(r, g, b, lists[b][i]);
    PagePlaces(s, g, b, p);
    PagePlaces(r, g, b, p);
    RemoveEffect(s, g, lists, b, i, g.Forward(lists[b][i]));
    RemoveEffect(s, g, lists, b, i, g.Back(lists[b][i]));
    RemoveElsewhere(s, g, lists, b, i, p, StatusAt(g, p));
    RemoveElsewhere(s, g, lists, b, i, p, g.Tag(p));
  }

  lemma RemoveElsewhere(s: Store, g: Globals, lists: Lists, b: word, i: nat, p: word, a: Address)
    requires Represents(s, g, lists) && b in lists && i < |lists[b]| && p % 4 == 0 && Apart(g, b, p)
    requires a == StatusAt(g, p) || a == g.Tag(p)
    ensures Remove(s, g, lists[b][i]).Read(a) == s.Read(a)
  {
    HeadApart(g, b, p);
    forall j | 0 <= j < |lists[b]|
      ensures a != g.Forward(lists[b][j]) && a != g.Back(lists[b][j]) && a != g.Head(b)
    {
      assert LegalPage(s, g, lists[b][j]);
      StatusApart(g, b, lists[b][j], p);
      PageWordsApart(g, lists[b][j], p);
    }
    RemoveEffect(s, g, lists, b, i, a);
  }

  // ---- What a represented list is in memory ----

  lemma ListWords(s: Store, g: Globals, lists: Lists, b: word, i: nat)
    requires Represents(s, g, lists) && b in lists && i < |lists[b]|
    ensures var l := lists[b];
            && HeadWord(s, g, b) == l[0]
            && PageWord(s, g, l[i], 0) == (if i + 1 < |l| then l[i + 1] else 0)
            && PageWord(s, g, l[i], 1) == (if i == 0 then MarkerOf(g, b) else l[i - 1])
  {
    assert Linked(s, g, b, lists[b], i);
    PagePlaces(s, g, b, lists[b][i]);
    MarkerIs(g, b);
  }

  // ---- The list is the chain that ENPT, REPT and CLPT walk ----

  ghost predicate StatusPlain(s: Store, g: Globals, l: seq<word>) {
    forall i :: 0 <= i < |l| ==> s.Plain(StatusAt(g, l[i]))
  }

  lemma NodeWordApart(bank: byte, x: word, y: word, k: nat, m: nat)
    requires x % 4 == 0 && y % 4 == 0 && x != y && k < 4 && m < 4
    ensures SegmentTables.NodeWord(bank, x, k) != SegmentTables.NodeWord(bank, y, m)
  {
    assert x + k < 0x10000 && y + m < 0x10000;
    assert (x + k) / 4 == x / 4 && (y + m) / 4 == y / 4;
  }

  lemma WordPlain(s: Store, g: Globals, x: word, k: nat)
    requires LegalPage(s, g, x) && s.Plain(StatusAt(g, x)) && k < 4
    ensures s.Plain(SegmentTables.NodeWord(g.cmBank, x, k))
  {
  }

  lemma ListIsLaid(s: Store, g: Globals, lists: Lists, b: word)
    requires Represents(s, g, lists) && b in lists && StatusPlain(s, g, lists[b])
    ensures SegmentTables.Laid(s, g.cmBank, lists[b])
  {
    var l := lists[b];
    forall i, k | 0 <= i < |l| && 0 <= k < 4
      ensures s.Plain(SegmentTables.NodeWord(g.cmBank, l[i], k))
    {
      assert LegalPage(s, g, l[i]) && s.Plain(StatusAt(g, l[i]));
      WordPlain(s, g, l[i], k);
    }
    forall i, j, k, m | 0 <= i < |l| && 0 <= j < |l| && i != j && 0 <= k < 4 && 0 <= m < 4
      ensures SegmentTables.NodeWord(g.cmBank, l[i], k) != SegmentTables.NodeWord(g.cmBank, l[j], m)
    {
      assert LegalPage(s, g, l[i]) && LegalPage(s, g, l[j]);
      NodeWordApart(g.cmBank, l[i], l[j], k, m);
    }
  }

  // From its first page the list of a segment is a chain, in the order of the list.
  lemma ListIsChain(f: SegmentTables.Family, s: Store, g: Globals, lists: Lists, b: word)
    requires Represents(s, g, lists) && b in lists && StatusPlain(s, g, lists[b])
    requires SegmentTables.Visible(f, s)
    ensures SegmentTables.Walk(f, s, g.cmBank, lists[b])
    ensures HeadWord(s, g, b) == SegmentTables.NodeOrNil(lists[b], 0)
  {
    var l := lists[b];
    ListIsLaid(s, g, lists, b);
    PagePlaces(s, g, b, 0);
    forall i | 0 <= i < |l|
      ensures l[i] != 0 && s.Read(SegmentTables.NodeWord(g.cmBank, l[i], 0)) == SegmentTables.NodeOrNil(l, i + 1)
    {
      assert LegalPage(s, g, l[i]) && Linked(s, g, b, l, i);
    }
  }

  // ENPT can enter these pages: their words are plain, the page tables are in view, and no two name
  // one entry.
  ghost predicate Enterable(s: Store, g: Globals, l: seq<word>)
    requires s.Valid()
  {
    && StatusPlain(s, g, l) && SegmentTables.Visible(SegmentTables.Enpt, s)
    && SegmentTables.DistinctEntries(SegmentTables.Enpt, s, g.cmBank, l)
  }

  lemma EnterList(s: Store, g: Globals, lists: Lists, b: word, i: nat, k: nat)
    requires Represents(s, g, lists) && b in lists && i < |lists[b]| && Enterable(s, g, lists[b])
    ensures var r := SegmentTables.Enter(s, SegmentTables.Items(SegmentTables.Enpt, s, g.cmBank, lists[b]));
            NodeWords.EnptEntered(SegmentTables.Enpt, s, r, g.cmBank, lists[b][i], k)
  {
    ListIsChain(SegmentTables.Enpt, s, g, lists, b);
    NodeWords.EnptLeaves(SegmentTables.Enpt, s, g.cmBank, lists[b], i, k);
  }

  // Over every run of INSPL and REMPL, ENPT of a segment's head enters the pages of the list the run
  // has left, each where its tag names.
  lemma RunThenEnter(s: Store, g: Globals, lists: Lists, steps: seq<Step>, b: word, i: nat, k: nat)
    requires Represents(s, g, lists) && AllowedAll(s, g, lists, steps)
    requires b in AbstractAll(lists, steps) && i < |AbstractAll(lists, steps)[b]|
    requires Enterable(PerformAll(s, g, steps), g, AbstractAll(lists, steps)[b])
    ensures var s1, l := PerformAll(s, g, steps), AbstractAll(lists, steps)[b];
            var r := SegmentTables.Enter(s1, SegmentTables.Items(SegmentTables.Enpt, s1, g.cmBank, l));
            && SegmentTables.Walk(SegmentTables.Enpt, s1, g.cmBank, l)
            && HeadWord(s1, g, b) == SegmentTables.NodeOrNil(l, 0)
            && NodeWords.EnptEntered(SegmentTables.Enpt, s1, r, g.cmBank, l[i], k)
  {
    RunRepresents(s, g, lists, steps);
    ListIsChain(SegmentTables.Enpt, PerformAll(s, g, steps), g, AbstractAll(lists, steps), b);
    EnterList(PerformAll(s, g, steps), g, AbstractAll(lists, steps), b, i, k);
  }

  // ENPT enters a page that INSPL has just put in a list where INSPL's T names.
  lemma TagNamesEntry(s: Store, g: Globals, lists: Lists, b: word, x: word, t: word)
    requires Represents(s, g, lists) && b in lists && Free(s, g, lists, x)
    ensures SegmentTables.EntryOffset(SegmentTables.Enpt, Insert(s, g, b, x, t), g.cmBank, x) == 0xF800 + 2 * (t % 1024)
  {
    InsertWords(s, g, lists, b, x, t, x);
    NodeWords.EntryPlace(SegmentTables.Enpt, Insert(s, g, b, x, t), g.cmBank, x);
  }
}
