/**
  Growable bitsets: a vector of fixed-width blocks that ends with a block in
  use, so that equal sets are equal vectors.
 */
module DynBitsets {
  import opened Common
  import opened Words
  import opened Bitsets
  import BitRanks

  type Blocks = seq<seq<Word>>

  ghost predicate Shaped(words: nat, bs: Blocks) {
    words > 0 && forall b :: 0 <= b < |bs| ==> |bs[b]| == words
  }

  /** Which block a bit is in, and where in the block. */
  function Block(words: nat, i: nat): nat
    requires words > 0
  {
    Quotient(i, 64 * words)
  }

  function Place(words: nat, i: nat): (k: nat)
    requires words > 0
    ensures k < 64 * words
  {
    i % (64 * words)
  }

  function Quotient(i: nat, width: nat): nat
    requires width > 0
  {
    i / width
  }

  predicate Has(words: nat, bs: Blocks, i: nat)
    requires words > 0
  {
    Block(words, i) < |bs| && BitAt(bs[Block(words, i)], Place(words, i))
  }

  predicate EmptyBlock(block: seq<Word>) {
    forall w :: w in block ==> w == 0
  }

  /** The last block is in use. */
  ghost predicate Canonical(bs: Blocks) {
    |bs| > 0 ==> !EmptyBlock(bs[|bs| - 1])
  }

  function ZeroBlock(words: nat): seq<Word> {
    seq(words, _ => 0)
  }

  lemma EmptyHasNone(block: seq<Word>, k: nat)
    requires EmptyBlock(block)
    ensures !BitAt(block, k)
  {
    BitOfZero(k % 64);
    assert k / 64 < |block| ==> block[k / 64] in block;
  }

  lemma UsedHasOne(block: seq<Word>) returns (k: nat)
    requires !EmptyBlock(block)
    ensures k < 64 * |block| && BitAt(block, k)
  {
    var t :| 0 <= t < |block| && block[t] != 0;
    EmptyOrLowest(block, t);
    k := 64 * t + TrailingZeros(block[t]);
  }

  /** A number is its block and its place. */
  lemma Whole(words: nat, i: nat)
    requires words > 0
    ensures i == Block(words, i) * (64 * words) + Place(words, i)
  {
  }

  lemma Split(words: nat, b: nat, k: nat)
    requires k < 64 * words
    ensures Block(words, b * (64 * words) + k) == b && Place(words, b * (64 * words) + k) == k
  {
    var q := Block(words, b * (64 * words) + k);
    Whole(words, b * (64 * words) + k);
    Scaled(64 * words, q, b);
    Scaled(64 * words, b, q);
  }

  lemma Scaled(width: nat, p: nat, q: nat)
    ensures p < q ==> p * width + width <= q * width
  {
    if p < q {
      assert (p + 1) * width <= q * width;
    }
  }

  /** Bits are ordered by block, then by place. */
  lemma Order(words: nat, i: nat, j: nat)
    requires words > 0
    ensures Block(words, i) < Block(words, j) ==> i < j
    ensures Block(words, i) == Block(words, j) ==> (i < j <==> Place(words, i) < Place(words, j))
    ensures Block(words, i) == Block(words, j) && Place(words, i) == Place(words, j) ==> i == j
  {
    Whole(words, i);
    Whole(words, j);
    Scaled(64 * words, Block(words, i), Block(words, j));
  }

  lemma HasAt(words: nat, bs: Blocks, b: nat, k: nat)
    requires words > 0 && k < 64 * words
    ensures Has(words, bs, b * (64 * words) + k) <==> b < |bs| && BitAt(bs[b], k)
  {
    Split(words, b, k);
  }

  /** Two vectors that end in a used block hold the same bits only if they are the same. */
  lemma CanonicalUnique(words: nat, x: Blocks, y: Blocks)
    requires Shaped(words, x) && Shaped(words, y) && Canonical(x) && Canonical(y)
    requires forall i :: 0 <= i ==> (Has(words, x, i) <==> Has(words, y, i))
    ensures x == y
  {
    NotLonger(words, x, y);
    NotLonger(words, y, x);
    forall b | 0 <= b < |x| ensures x[b] == y[b] {
      forall t | 0 <= t < words ensures x[b][t] == y[b][t] {
        SameWord(words, x, y, b, t);
      }
    }
  }

  lemma NotLonger(words: nat, x: Blocks, y: Blocks)
    requires Shaped(words, x) && Shaped(words, y) && Canonical(y)
    requires forall i :: 0 <= i ==> (Has(words, x, i) <==> Has(words, y, i))
    ensures |y| <= |x|
  {
    if |y| > 0 {
      var k := UsedHasOne(y[|y| - 1]);
      HasAt(words, y, |y| - 1, k);
      HasAt(words, x, |y| - 1, k);
    }
  }

  lemma SameWord(words: nat, x: Blocks, y: Blocks, b: nat, t: nat)
    requires Shaped(words, x) && Shaped(words, y) && b < |x| == |y| && t < words
    requires forall i :: 0 <= i ==> (Has(words, x, i) <==> Has(words, y, i))
    ensures x[b][t] == y[b][t]
  {
    forall k | 0 <= k < 64 ensures Bit(x[b][t], k) <==> Bit(y[b][t], k) {
      HasAt(words, x, b, 64 * t + k);
      HasAt(words, y, b, 64 * t + k);
      assert (64 * t + k) / 64 == t && (64 * t + k) % 64 == k;
    }
    Pow2Of64();
    BitsDetermine(x[b][t], y[b][t], 64);
  }

  /** A mask with the bits below `n`. */
  method WithBitsUpto(words: nat, n: nat) returns (out: seq<Word>)
    requires n <= 64 * words
    ensures |out| == words && forall j :: 0 <= j ==> (BitAt(out, j) <==> j < n)
  {
    var a := new Word[words](_ => 0);
    var full := n / 64;
    var i := 0;
    while i < full
      invariant i <= full
      invariant forall t :: 0 <= t < words ==> a[t] == if t < i then LIMIT - 1 else 0
    {
      a[i] := LIMIT - 1;
      i := i + 1;
    }
    if full < words {
      a[full] := OneHot(n % 64) - 1;
    }
    out := a[..];
    forall j: nat ensures BitAt(out, j) <==> j < n {
      UptoBit(out, n, j);
    }
  }

  lemma UptoBit(out: seq<Word>, n: nat, j: nat)
    requires n <= 64 * |out|
    requires forall t :: 0 <= t < |out| ==>
                           out[t] == if t < n / 64 then LIMIT - 1 else if t == n / 64 then OneHot(n % 64) - 1 else 0
    ensures BitAt(out, j) <==> j < n
  {
    Pow2Of64();
    BitLowMask(64, j % 64);
    BitLowMask(n % 64, j % 64);
    BitOfZero(j % 64);
  }

  function AndBlock(x: seq<Word>, y: seq<Word>): seq<Word>
    requires |x| == |y|
  {
    seq(|x|, t requires 0 <= t < |x| => AndWord(x[t], y[t]))
  }

  function OrBlock(x: seq<Word>, y: seq<Word>): seq<Word>
    requires |x| == |y|
  {
    seq(|x|, t requires 0 <= t < |x| => OrWord(x[t], y[t]))
  }

  lemma AndBlockBit(x: seq<Word>, y: seq<Word>, k: nat)
    requires |x| == |y|
    ensures BitAt(AndBlock(x, y), k) <==> BitAt(x, k) && BitAt(y, k)
  {
    if k / 64 < |x| { BitAnd(x[k / 64], y[k / 64], k % 64); }
  }

  lemma OrBlockBit(x: seq<Word>, y: seq<Word>, k: nat)
    requires |x| == |y|
    ensures BitAt(OrBlock(x, y), k) <==> BitAt(x, k) || BitAt(y, k)
  {
    if k / 64 < |x| { BitOr(x[k / 64], y[k / 64], k % 64); }
  }

  /** `low` is the lowest bit held. */
  ghost predicate Lowest(words: nat, bs: Blocks, low: nat)
    requires words > 0
  {
    Has(words, bs, low) && forall i :: 0 <= i < low ==> !Has(words, bs, i)
  }

  ghost predicate SameBits(words: nat, x: Blocks, y: Blocks)
    requires words > 0
  {
    forall i :: 0 <= i ==> (Has(words, x, i) <==> Has(words, y, i))
  }

  /** What the scan answers for the lowest bit, if any is held, and when that is the bit itself. */
  ghost predicate Scanned(words: nat, bs: Blocks, r: Option<nat>)
    requires words > 0
  {
    && (r.None? <==> forall i :: 0 <= i ==> !Has(words, bs, i))
    && forall low :: 0 <= low && Lowest(words, bs, low) ==>
                       && r == Some(64 * Block(words, low) + Place(words, low))
                       && (r == Some(low) <==> words == 1 || low < 64 * words)
  }

  ghost predicate NoneBelow(words: nat, bs: Blocks, b: nat)
    requires words > 0
  {
    forall i :: 0 <= i && Block(words, i) < b ==> !Has(words, bs, i)
  }

  class DynBitset {
    const words: nat
    var inner: Blocks

    ghost predicate Valid()
      reads this
    {
      Shaped(words, inner) && Canonical(inner)
    }

    predicate Test(i: nat)
      requires words > 0
      reads this
    {
      Has(words, inner, i)
    }

    constructor (words: nat)
      requires words > 0
      ensures Valid() && this.words == words && inner == []
    {
      this.words := words;
      inner := [];
    }

    /** Drop empty blocks from the end. */
    method TruncateEmpty()
      requires Shaped(words, inner)
      modifies this
      ensures Valid() && SameBits(words, inner, old(inner))
    {
      while |inner| > 0 && EmptyBlock(inner[|inner| - 1])
        invariant Shaped(words, inner) && SameBits(words, inner, old(inner))
        decreases |inner|
      {
        Trimmed(words, inner);
        inner := inner[..|inner| - 1];
      }
    }

    method EnsureCapacity(bit: nat)
      requires Shaped(words, inner)
      modifies this
      ensures Shaped(words, inner) && Block(words, bit) < |inner| && SameBits(words, inner, old(inner))
      ensures Block(words, bit) < |old(inner)| ==> inner == old(inner)
      ensures Block(words, bit) >= |old(inner)| ==> |inner| == Block(words, bit) + 1
    {
      while |inner| <= Block(words, bit)
        invariant Shaped(words, inner) && SameBits(words, inner, old(inner))
        invariant |old(inner)| <= |inner| && (|inner| <= Block(words, bit) + 1 || inner == old(inner))
        invariant inner == old(inner) || |inner| > |old(inner)|
        decreases Block(words, bit) + 1 - |inner|
      {
        Grown(words, inner);
        inner := inner + [ZeroBlock(words)];
      }
    }

    method Set(bit: nat)
      requires Valid()
      modifies this
      ensures Valid() && forall i :: 0 <= i ==> (Test(i) <==> old(Test(i)) || i == bit)
    {
      EnsureCapacity(bit);
      var b, k := Block(words, bit), Place(words, bit);
      PlaceFits(words, k);
      BlockSet(words, inner, b, k, bit);
      inner := inner[b := SetBitAt(inner[b], k)];
    }

    method Clear(bit: nat)
      requires Valid()
      modifies this
      ensures Valid() && forall i :: 0 <= i ==> (Test(i) <==> old(Test(i)) && i != bit)
    {
      var b, k := Block(words, bit), Place(words, bit);
      if b >= |inner| {
        return;
      }
      PlaceFits(words, k);
      BlockCleared(words, inner, b, k, bit);
      inner := inner[b := ClearBitAt(inner[b], k)];
      TruncateEmpty();
    }

    /** Clear every bit from `bit` up. */
    method ZeroFrom(bit: nat)
      requires Valid()
      modifies this
      ensures Valid() && forall i :: 0 <= i ==> (Test(i) <==> old(Test(i)) && i < bit)
    {
      var b, k := Block(words, bit), Place(words, bit);
      ghost var was := inner;
      inner := if b + 1 < |inner| then inner[..b + 1] else inner;
      if b >= |inner| {
        forall i: nat ensures Test(i) ==> i < bit {
          Order(words, i, bit);
        }
        return;
      }
      var mask := WithBitsUpto(words, k);
      ZeroedFrom(words, was, inner, b, mask, bit);
      inner := inner[b := AndBlock(inner[b], mask)];
      TruncateEmpty();
    }

    method UnionInPlace(other: DynBitset)
      requires Valid() && other.Valid() && other.words == words && other != this
      modifies this
      ensures Valid() && forall i :: 0 <= i ==> (Test(i) <==> old(Test(i)) || other.Test(i))
    {
      var i := 0;
      while i < |inner| && i < |other.inner|
        invariant i <= |inner| == |old(inner)| && i <= |other.inner|
        invariant forall b :: 0 <= b < i ==> inner[b] == OrBlock(old(inner)[b], other.inner[b])
        invariant forall b :: i <= b < |inner| ==> inner[b] == old(inner)[b]
      {
        inner := inner[i := OrBlock(inner[i], other.inner[i])];
        i := i + 1;
      }
      if |inner| <= |other.inner| {
        inner := inner + other.inner[|inner|..];
      }
      United(words, old(inner), other.inner, inner);
    }

    method IntersectInPlace(other: DynBitset)
      requires Valid() && other.Valid() && other.words == words && other != this
      modifies this
      ensures Valid() && forall i :: 0 <= i ==> (Test(i) <==> old(Test(i)) && other.Test(i))
    {
      inner := if |other.inner| < |inner| then inner[..|other.inner|] else inner;
      ghost var cut := inner;
      var i := 0;
      while i < |inner|
        invariant i <= |inner| == |cut|
        invariant forall b :: 0 <= b < i ==> inner[b] == AndBlock(cut[b], other.inner[b])
        invariant forall b :: i <= b < |inner| ==> inner[b] == cut[b]
      {
        inner := inner[i := AndBlock(inner[i], other.inner[i])];
        i := i + 1;
      }
      Intersected(words, old(inner), other.inner, inner);
      TruncateEmpty();
    }

    /** The lowest bit from `bit` up. */
    method NextSet(bit: nat) returns (r: Option<nat>)
      requires Valid()
      ensures r.Some? ==> r.value >= bit && Test(r.value) && forall i :: bit <= i < r.value ==> !Test(i)
      ensures r.None? ==> forall i :: bit <= i ==> !Test(i)
    {
      var b, k := Block(words, bit), Place(words, bit);
      forall j | bit <= j ensures Block(words, j) >= b {
        Order(words, j, bit);
      }
      var i := b;
      while i < |inner|
        invariant b <= i && forall j :: bit <= j && Block(words, j) < i ==> !Test(j)
      {
        var query := if i == b then k else 0;
        PlaceFits(words, query);
        var found := Bitsets.NextSet(inner[i], query);
        NextInBlock(words, inner, bit, i, query, found);
        if found.Some? {
          return Some(found.value + i * (64 * words));
        }
        i := i + 1;
      }
      r := None;
    }

    /**
      The scan for the lowest bit numbers the blocks by 64 whatever their width, so it
      finds the lowest bit exactly when blocks are one word wide or the bit is in the
      first block.
     */
    method FirstSet() returns (r: Option<nat>)
      requires Valid()
      ensures Scanned(words, inner, r)
    {
      for b := 0 to |inner|
        invariant NoneBelow(words, inner, b)
      {
        var found := Bitsets.FirstSet(inner[b]);
        if found.Some? {
          r := Some(b * 64 + found.value);
          FoundFirst(words, inner, b, found.value, r);
          return;
        }
        BlockEmpty(words, inner, b);
      }
      r := None;
      NoneFound(words, inner);
    }

    /** The bits, ascending. */
    method Bits() returns (list: seq<nat>)
      requires Valid()
      ensures Increasing(list) && forall i: nat :: i in list <==> Test(i)
    {
      list := [];
      for b := 0 to |inner|
        invariant Increasing(list) && ListsBelow(words, inner, b, list)
      {
        var next := BlockBits(b);
        Appended(words, inner, b, list, next);
        list := list + next;
      }
    }

    method BlockBits(b: nat) returns (next: seq<nat>)
      requires Shaped(words, inner) && b < |inner|
      ensures Increasing(next) && ListsBlock(words, inner, b, next)
    {
      var bits := BitRanks.Bits(inner[b]);
      forall k: nat ensures k in bits <==> BitAt(inner[b], k) {
        BitRanks.ListsAll(inner[b], bits, k);
      }
      BitRanks.ListsAll(inner[b], bits, 0);
      next := Offset(bits, b * (64 * words));
      BlockListed(words, inner, b, bits, next);
    }
  }

  ghost predicate Increasing(list: seq<nat>) {
    forall k, l :: 0 <= k < l < |list| ==> list[k] < list[l]
  }

  /** `list` has the bits of the blocks below `b`. */
  ghost predicate ListsBelow(words: nat, bs: Blocks, b: nat, list: seq<nat>)
    requires words > 0
  {
    forall i: nat :: i in list <==> Has(words, bs, i) && Block(words, i) < b
  }

  ghost predicate ListsBlock(words: nat, bs: Blocks, b: nat, list: seq<nat>)
    requires words > 0
  {
    forall i: nat :: i in list <==> Has(words, bs, i) && Block(words, i) == b
  }

  function Offset(bits: seq<nat>, base: nat): seq<nat> {
    seq(|bits|, k requires 0 <= k < |bits| => bits[k] + base)
  }

  lemma BlockListed(words: nat, bs: Blocks, b: nat, bits: seq<nat>, next: seq<nat>)
    requires Shaped(words, bs) && b < |bs| && Increasing(bits) && forall k: nat :: k in bits <==> BitAt(bs[b], k)
    requires next == Offset(bits, b * (64 * words))
    ensures Increasing(next) && ListsBlock(words, bs, b, next)
  {
    forall i: nat ensures i in next <==> Has(words, bs, i) && Block(words, i) == b {
      if i in next {
        var k :| 0 <= k < |next| && next[k] == i;
        assert bits[k] in bits;
        BitInside(bs[b], bits[k]);
        HasAt(words, bs, b, bits[k]);
        Split(words, b, bits[k]);
      }
      if Has(words, bs, i) && Block(words, i) == b {
        var k :| 0 <= k < |bits| && bits[k] == Place(words, i);
        Whole(words, i);
        assert next[k] == i;
      }
    }
  }

  lemma Appended(words: nat, bs: Blocks, b: nat, list: seq<nat>, next: seq<nat>)
    requires words > 0 && Increasing(list) && Increasing(next)
    requires ListsBelow(words, bs, b, list) && ListsBlock(words, bs, b, next)
    ensures Increasing(list + next) && ListsBelow(words, bs, b + 1, list + next)
  {
    forall k, l | 0 <= k < l < |list + next| ensures (list + next)[k] < (list + next)[l] {
      if k < |list| <= l {
        assert list[k] in list && next[l - |list|] in next;
        Order(words, list[k], next[l - |list|]);
      }
    }
  }

  lemma PlaceFits(words: nat, k: nat)
    requires k < 64 * words
    ensures k / 64 < words
  {
  }

  lemma Trimmed(words: nat, bs: Blocks)
    requires Shaped(words, bs) && |bs| > 0 && EmptyBlock(bs[|bs| - 1])
    ensures SameBits(words, bs[..|bs| - 1], bs)
  {
    forall i: nat ensures Has(words, bs[..|bs| - 1], i) <==> Has(words, bs, i) {
      EmptyHasNone(bs[|bs| - 1], Place(words, i));
    }
  }

  lemma Grown(words: nat, bs: Blocks)
    requires Shaped(words, bs)
    ensures SameBits(words, bs + [ZeroBlock(words)], bs)
  {
    forall i: nat ensures Has(words, bs + [ZeroBlock(words)], i) <==> Has(words, bs, i) {
      EmptyHasNone(ZeroBlock(words), Place(words, i));
    }
  }

  lemma BlockSet(words: nat, bs: Blocks, b: nat, k: nat, bit: nat)
    requires Shaped(words, bs) && b == Block(words, bit) < |bs| && k == Place(words, bit) && k / 64 < words
    requires b == |bs| - 1 || Canonical(bs)
    ensures var now := bs[b := SetBitAt(bs[b], k)];
            Canonical(now) && forall i :: 0 <= i ==> (Has(words, now, i) <==> Has(words, bs, i) || i == bit)
  {
    var now := bs[b := SetBitAt(bs[b], k)];
    forall i: nat ensures Has(words, now, i) <==> Has(words, bs, i) || i == bit {
      SetBitAtSpec(bs[b], k, Place(words, i));
      Order(words, i, bit);
    }
    SetBitAtSpec(bs[b], k, k);
    if EmptyBlock(now[b]) { EmptyHasNone(now[b], k); }
  }

  lemma BlockCleared(words: nat, bs: Blocks, b: nat, k: nat, bit: nat)
    requires Shaped(words, bs) && b == Block(words, bit) < |bs| && k == Place(words, bit) && k / 64 < words
    ensures var now := bs[b := ClearBitAt(bs[b], k)];
            forall i :: 0 <= i ==> (Has(words, now, i) <==> Has(words, bs, i) && i != bit)
  {
    var now := bs[b := ClearBitAt(bs[b], k)];
    forall i: nat ensures Has(words, now, i) <==> Has(words, bs, i) && i != bit {
      ClearBitAtSpec(bs[b], k, Place(words, i));
      Order(words, i, bit);
    }
  }

  lemma ZeroedFrom(words: nat, was: Blocks, cut: Blocks, b: nat, mask: seq<Word>, bit: nat)
    requires Shaped(words, was) && b == Block(words, bit) < |was| && cut == was[..b + 1] && |mask| == words
    requires forall j :: 0 <= j ==> (BitAt(mask, j) <==> j < Place(words, bit))
    ensures var now := cut[b := AndBlock(cut[b], mask)];
            forall i :: 0 <= i ==> (Has(words, now, i) <==> Has(words, was, i) && i < bit)
  {
    var now := cut[b := AndBlock(cut[b], mask)];
    forall i: nat ensures Has(words, now, i) <==> Has(words, was, i) && i < bit {
      AndBlockBit(cut[b], mask, Place(words, i));
      Order(words, i, bit);
      Order(words, bit, i);
    }
  }

  lemma United(words: nat, x: Blocks, y: Blocks, now: Blocks)
    requires Shaped(words, x) && Shaped(words, y) && Canonical(x) && Canonical(y)
    requires |now| == if |x| <= |y| then |y| else |x|
    requires forall b :: 0 <= b < |now| ==>
                           now[b] == if b >= |x| then y[b] else if b >= |y| then x[b] else OrBlock(x[b], y[b])
    ensures Shaped(words, now) && Canonical(now)
    ensures forall i :: 0 <= i ==> (Has(words, now, i) <==> Has(words, x, i) || Has(words, y, i))
  {
    forall i: nat ensures Has(words, now, i) <==> Has(words, x, i) || Has(words, y, i) {
      var b := Block(words, i);
      if b < |x| && b < |y| { OrBlockBit(x[b], y[b], Place(words, i)); }
    }
    if |now| > 0 && |x| == |y| {
      var b := |now| - 1;
      var k := UsedHasOne(x[b]);
      OrBlockBit(x[b], y[b], k);
      if EmptyBlock(now[b]) { EmptyHasNone(now[b], k); }
    }
  }

  lemma Intersected(words: nat, x: Blocks, y: Blocks, now: Blocks)
    requires Shaped(words, x) && Shaped(words, y)
    requires |now| == if |y| < |x| then |y| else |x|
    requires forall b :: 0 <= b < |now| ==> now[b] == AndBlock(x[b], y[b])
    ensures Shaped(words, now)
    ensures forall i :: 0 <= i ==> (Has(words, now, i) <==> Has(words, x, i) && Has(words, y, i))
  {
    forall i: nat ensures Has(words, now, i) <==> Has(words, x, i) && Has(words, y, i) {
      var b := Block(words, i);
      if b < |now| { AndBlockBit(x[b], y[b], Place(words, i)); }
    }
  }

  /** What a scan of block `b` from `query` finds is the next bit of the whole set. */
  lemma NextInBlock(words: nat, bs: Blocks, bit: nat, b: nat, query: nat, found: Option<nat>)
    requires Shaped(words, bs) && Block(words, bit) <= b < |bs|
    requires query == if b == Block(words, bit) then Place(words, bit) else 0
    requires forall j :: bit <= j && Block(words, j) < b ==> !Has(words, bs, j)
    requires found.Some? ==> found.value >= query && BitAt(bs[b], found.value)
                             && forall j :: query <= j < found.value ==> !BitAt(bs[b], j)
    requires found.None? ==> forall j :: query <= j ==> !BitAt(bs[b], j)
    ensures found.Some? ==>
              var r := found.value + b * (64 * words);
              r >= bit && Has(words, bs, r) && forall i :: bit <= i < r ==> !Has(words, bs, i)
    ensures found.None? ==> forall j :: bit <= j && Block(words, j) <= b ==> !Has(words, bs, j)
  {
    if found.Some? {
      BitInside(bs[b], found.value);
      Split(words, b, found.value);
      var r := found.value + b * (64 * words);
      Order(words, bit, r);
      Order(words, r, bit);
      forall i | bit <= i < r ensures !Has(words, bs, i) {
        Order(words, r, i);
        Order(words, i, r);
        Order(words, i, bit);
      }
    } else {
      forall j | bit <= j && Block(words, j) <= b ensures !Has(words, bs, j) {
        Order(words, j, bit);
      }
    }
  }

  lemma BitInside(block: seq<Word>, k: nat)
    requires BitAt(block, k)
    ensures k < 64 * |block|
  {
  }

  lemma BlockEmpty(words: nat, bs: Blocks, b: nat)
    requires Shaped(words, bs) && b < |bs| && NoneBelow(words, bs, b)
    requires forall j :: 0 <= j ==> !BitAt(bs[b], j)
    ensures NoneBelow(words, bs, b + 1)
  {
  }

  lemma NoneFound(words: nat, bs: Blocks)
    requires words > 0 && NoneBelow(words, bs, |bs|)
    ensures Scanned(words, bs, None)
  {
    assert forall i :: 0 <= i ==> !Has(words, bs, i);
  }

  lemma FoundFirst(words: nat, bs: Blocks, b: nat, k: nat, r: Option<nat>)
    requires Shaped(words, bs) && b < |bs| && BitAt(bs[b], k) && r == Some(b * 64 + k)
    requires forall j :: 0 <= j < k ==> !BitAt(bs[b], j)
    requires NoneBelow(words, bs, b)
    ensures Scanned(words, bs, r)
  {
    BitInside(bs[b], k);
    HasAt(words, bs, b, k);
    var low := b * (64 * words) + k;
    Split(words, b, k);
    forall i | 0 <= i < low ensures !Has(words, bs, i) {
      Order(words, low, i);
      Order(words, i, low);
    }
    Scaling(b, words, k);
    forall l | 0 <= l && Lowest(words, bs, l) ensures l == low {
    }
  }

  lemma Product(p: nat, q: nat, r: nat)
    requires p <= q
    ensures p * r <= q * r
  {
  }

  lemma Scaling(b: nat, words: nat, k: nat)
    requires 0 < words && k < 64 * words
    ensures b * 64 + k == b * (64 * words) + k <==> words == 1 || b * (64 * words) + k < 64 * words
  {
    if b > 0 {
      Product(1, b, 64 * words);
      if words > 1 {
        Product(128, 64 * words, b);
      }
    }
  }

  /** Two-word blocks holding only bit 128: the scan answers 64, which is not held. */
  method WideFirstSet() returns (r: Option<nat>, s: DynBitset)
    ensures s.Valid() && s.words == 2 && forall i :: 0 <= i ==> (s.Test(i) <==> i == 128)
    ensures r == Some(64)
  {
    s := new DynBitset(2);
    assert forall i :: 0 <= i ==> !s.Test(i);
    s.Set(128);
    r := s.FirstSet();
    assert Lowest(s.words, s.inner, 128) by {
      assert s.Test(128);
      forall i | 0 <= i < 128 ensures !Has(s.words, s.inner, i) {
        assert !s.Test(i);
      }
    }
  }
}
