/**
 16-bit machine words seen as four nibbles or two bytes, leftmost (most significant) first,
 and buffers of words seen as the nibble string they hold.
 */
module Words {
  type word = x: int | 0 <= x < 0x10000
  type nibble = x: int | 0 <= x < 16
  type byte = x: int | 0 <= x < 256

  // The byte at half h of a word; half 0 is bits 15-8.
  function ByteOf(w: word, h: nat): byte
    requires h < 2
  {
    if h == 0 then w / 256 else w % 256
  }

  function JoinBytes(b0: byte, b1: byte): (w: word)
    ensures ByteOf(w, 0) == b0 && ByteOf(w, 1) == b1
  {
    b0 * 256 + b1
  }

  function WithByte(w: word, h: nat, v: byte): (r: word)
    requires h < 2
    ensures ByteOf(r, h) == v && ByteOf(r, 1 - h) == ByteOf(w, 1 - h)
  {
    if h == 0 then JoinBytes(v, ByteOf(w, 1)) else JoinBytes(ByteOf(w, 0), v)
  }

  // The nibble at position k of a word; position 0 is bits 15-12.
  function NibbleOf(w: word, k: nat): nibble
    requires k < 4
  {
    if k == 0 then ByteOf(w, 0) / 16
    else if k == 1 then ByteOf(w, 0) % 16
    else if k == 2 then ByteOf(w, 1) / 16
    else ByteOf(w, 1) % 16
  }

  // The word holding four given nibbles.
  function Join(n0: nibble, n1: nibble, n2: nibble, n3: nibble): (w: word)
    ensures NibbleOf(w, 0) == n0 && NibbleOf(w, 1) == n1 && NibbleOf(w, 2) == n2 && NibbleOf(w, 3) == n3
  {
    JoinBytes(n0 * 16 + n1, n2 * 16 + n3)
  }

  lemma SplitJoin(w: word)
    ensures w == Join(NibbleOf(w, 0), NibbleOf(w, 1), NibbleOf(w, 2), NibbleOf(w, 3))
  {
    assert w == JoinBytes(ByteOf(w, 0), ByteOf(w, 1));
  }

  // The word with its nibble at position k replaced.
  function WithNibble(w: word, k: nat, v: nibble): (r: word)
    requires k < 4
    ensures forall j :: 0 <= j < 4 ==> NibbleOf(r, j) == if j == k then v else NibbleOf(w, j)
  {
    Join(if k == 0 then v else NibbleOf(w, 0),
         if k == 1 then v else NibbleOf(w, 1),
         if k == 2 then v else NibbleOf(w, 2),
         if k == 3 then v else NibbleOf(w, 3))
  }

  // ns is the nibble string of the word buffer ws.
  ghost predicate AreNibbles(ws: seq<word>, ns: seq<nibble>) {
    && |ns| == 4 * |ws|
    && forall i, k {:trigger NibbleOf(ws[i], k)} :: 0 <= i < |ws| && 0 <= k < 4 ==> ns[4 * i + k] == NibbleOf(ws[i], k)
  }

  // bs is the byte string of the word buffer ws.
  ghost predicate AreBytes(ws: seq<word>, bs: seq<byte>) {
    && |bs| == 2 * |ws|
    && forall i, h {:trigger ByteOf(ws[i], h)} :: 0 <= i < |ws| && 0 <= h < 2 ==> bs[2 * i + h] == ByteOf(ws[i], h)
  }

  ghost function Nibbles(ws: seq<word>): (ns: seq<nibble>)
    ensures |ns| == 4 * |ws|
  {
    NibblesExist(ws);
    var ns :| AreNibbles(ws, ns);
    ns
  }

  ghost function Bytes(ws: seq<word>): (bs: seq<byte>)
    ensures |bs| == 2 * |ws|
  {
    BytesExist(ws);
    var bs :| AreBytes(ws, bs);
    bs
  }

  lemma NibblesExist(ws: seq<word>)
    ensures exists ns: seq<nibble> :: AreNibbles(ws, ns)
  {
    var ns: seq<nibble> := seq(4 * |ws|, p requires 0 <= p < 4 * |ws| => NibbleOf(ws[p / 4], p % 4));
    assert AreNibbles(ws, ns);
  }

  lemma BytesExist(ws: seq<word>)
    ensures exists bs: seq<byte> :: AreBytes(ws, bs)
  {
    var bs: seq<byte> := seq(2 * |ws|, p requires 0 <= p < 2 * |ws| => ByteOf(ws[p / 2], p % 2));
    assert AreBytes(ws, bs);
  }

  lemma NibblesUnique(ws: seq<word>, ns: seq<nibble>)
    requires AreNibbles(ws, ns)
    ensures Nibbles(ws) == ns
  {
    forall p | 0 <= p < |ns|
      ensures Nibbles(ws)[p] == ns[p]
    {
      var i, k := p / 4, p % 4;
      assert ns[4 * i + k] == NibbleOf(ws[i], k) == Nibbles(ws)[4 * i + k];
    }
  }

  lemma BytesUnique(ws: seq<word>, bs: seq<byte>)
    requires AreBytes(ws, bs)
    ensures Bytes(ws) == bs
  {
    forall p | 0 <= p < |bs|
      ensures Bytes(ws)[p] == bs[p]
    {
      var i, h := p / 2, p % 2;
      assert bs[2 * i + h] == ByteOf(ws[i], h) == Bytes(ws)[2 * i + h];
    }
  }

  lemma NibbleAt(ws: seq<word>, i: nat, k: nat)
    requires i < |ws| && k < 4
    ensures Nibbles(ws)[4 * i + k] == NibbleOf(ws[i], k)
  {
  }

  lemma ByteAt(ws: seq<word>, i: nat, h: nat)
    requires i < |ws| && h < 2
    ensures Bytes(ws)[2 * i + h] == ByteOf(ws[i], h)
  {
  }

  // Replacing one nibble of one word replaces one nibble of the string.
  lemma NibbleStore(ws: seq<word>, i: nat, k: nat, v: nibble)
    requires i < |ws| && k < 4
    ensures Nibbles(ws[i := WithNibble(ws[i], k, v)]) == Nibbles(ws)[4 * i + k := v]
  {
    var w := WithNibble(ws[i], k, v);
    var r := ws[i := w];
    forall j, l | 0 <= j < |r| && 0 <= l < 4
      ensures Nibbles(ws)[4 * i + k := v][4 * j + l] == NibbleOf(r[j], l)
    {
      assert Nibbles(ws)[4 * j + l] == NibbleOf(ws[j], l);
    }
    NibblesUnique(r, Nibbles(ws)[4 * i + k := v]);
  }

  lemma ByteStore(ws: seq<word>, i: nat, h: nat, v: byte)
    requires i < |ws| && h < 2
    ensures Bytes(ws[i := WithByte(ws[i], h, v)]) == Bytes(ws)[2 * i + h := v]
  {
    var w := WithByte(ws[i], h, v);
    var r := ws[i := w];
    forall j, l | 0 <= j < |r| && 0 <= l < 2
      ensures Bytes(ws)[2 * i + h := v][2 * j + l] == ByteOf(r[j], l)
    {
      assert Bytes(ws)[2 * j + l] == ByteOf(ws[j], l);
    }
    BytesUnique(r, Bytes(ws)[2 * i + h := v]);
  }

  // ---- Bits of a word ----

  function Pow2(n: nat): (p: nat)
    ensures p > 0
  {
    if n == 0 then 1 else 2 * Pow2(n - 1)
  }

  predicate Bit(v: nat, k: nat) {
    if k == 0 then v % 2 == 1 else Bit(v / 2, k - 1)
  }

  function SetBit(v: nat, k: nat): nat {
    if k == 0 then v / 2 * 2 + 1 else SetBit(v / 2, k - 1) * 2 + v % 2
  }

  lemma {:induction false} SetBitReads(v: nat, k: nat, j: nat)
    ensures Bit(SetBit(v, k), j) <==> j == k || Bit(v, j)
    decreases k
  {
    var r := SetBit(v, k);
    if k == 0 {
      assert r / 2 == v / 2 && r % 2 == 1;
    } else {
      assert r / 2 == SetBit(v / 2, k - 1) && r % 2 == v % 2;
      if j > 0 {
        SetBitReads(v / 2, k - 1, j - 1);
      }
    }
  }

  lemma {:induction false} SetBitBound(v: nat, k: nat, n: nat)
    requires v < Pow2(n) && k < n
    ensures SetBit(v, k) < Pow2(n)
    decreases k
  {
    HalfBound(v, Pow2(n - 1));
    if k > 0 {
      SetBitBound(v / 2, k - 1, n - 1);
    }
  }

  lemma HalfBound(v: nat, p: nat)
    ensures v < 2 * p <==> v / 2 < p
    ensures 0 <= v % 2 <= 1
  {
  }

  lemma WordBits()
    ensures Pow2(16) == 0x10000
  {
    assert Pow2(4) == 16;
    assert Pow2(8) == 256;
    assert Pow2(12) == 4096;
  }

  function WithBit(v: word, k: nat): (r: word)
    requires k < 16
    ensures forall j :: Bit(r, j) <==> j == k || Bit(v, j)
  {
    WordBits();
    SetBitBound(v, k, 16);
    assert forall j :: Bit(SetBit(v, k), j) <==> j == k || Bit(v, j) by {
      forall j: nat
        ensures Bit(SetBit(v, k), j) <==> j == k || Bit(v, j)
      {
        SetBitReads(v, k, j);
      }
    }
    SetBit(v, k)
  }

  // Bit k has the weight 2^k.
  lemma {:induction false} BitIsWeight(v: nat, k: nat)
    ensures Bit(v, k) <==> v / Pow2(k) % 2 == 1
    decreases k
  {
    if k > 0 {
      BitIsWeight(v / 2, k - 1);
      HalvedQuotient(v, Pow2(k - 1));
    }
  }

  lemma HalvedQuotient(v: nat, p: nat)
    requires p > 0
    ensures v / (2 * p) == v / 2 / p
  {
    var q, r := v / 2 / p, v / 2 % p;
    assert v / 2 == q * p + r;
    assert v == q * (2 * p) + 2 * r + v % 2;
    QuotientIs(v, 2 * p, q, 2 * r + v % 2);
  }

  lemma QuotientIs(n: nat, d: nat, q: nat, r: nat)
    requires d > 0 && n == q * d + r && r < d
    ensures n / d == q
  {
    if n / d < q {
      ProductStep(n / d, q, d);
    } else if n / d > q {
      ProductStep(q, n / d, d);
    }
  }

  lemma ProductStep(a: nat, b: nat, d: nat)
    requires a < b
    ensures a * d + d <= b * d
  {
    ProductMonotone(a + 1, b, d);
  }

  lemma ProductMonotone(a: nat, b: nat, d: nat)
    requires a <= b
    ensures a * d <= b * d
  {
  }

  // v without its bit k.
  function ClearBit(v: nat, k: nat): nat {
    if k == 0 then v / 2 * 2 else ClearBit(v / 2, k - 1) * 2 + v % 2
  }

  lemma {:induction false} ClearBitReads(v: nat, k: nat, j: nat)
    ensures Bit(ClearBit(v, k), j) <==> j != k && Bit(v, j)
    decreases k
  {
    var r := ClearBit(v, k);
    if k == 0 {
      assert r / 2 == v / 2 && r % 2 == 0;
    } else {
      assert r / 2 == ClearBit(v / 2, k - 1) && r % 2 == v % 2;
      if j > 0 {
        ClearBitReads(v / 2, k - 1, j - 1);
      }
    }
  }

  // The nibbles and the bytes of a word have the weights of their places.
  lemma NibbleWeights(w: word)
    ensures w == 0x1000 * NibbleOf(w, 0) + 0x100 * NibbleOf(w, 1) + 0x10 * NibbleOf(w, 2) + NibbleOf(w, 3)
    ensures w == 0x100 * ByteOf(w, 0) + ByteOf(w, 1)
  {
    assert w == 0x100 * ByteOf(w, 0) + ByteOf(w, 1);
  }
}
