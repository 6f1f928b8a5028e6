/**
  Base indexes: the prefixes of one octet, numbered so that the parent of a
  prefix is half its number, and the longest-match lookup built on that.
 */
module BaseIndexes {
  import opened Common
  import opened Words
  import opened Bitsets
  import opened SparseArrays

  type Octet = n: nat | n < 256

  /** Left shift in eight bits. */
  function ShlOctet(x: Octet, s: nat): Octet
    decreases s
  {
    if s == 0 then x else ShlOctet((2 * x) % 256, s - 1)
  }

  function UnboundedShlOctet(x: Octet, s: nat): Octet {
    if s >= 8 then 0 else ShlOctet(x, s)
  }

  function FromPrefix(octet: Octet, len: nat): (index: Octet)
    requires len <= 7
    ensures index != 0 && Len(index) == len + 1
  {
    TopBits(octet, len);
    Shr(octet, 8 - len) + Pow2(len)
  }

  function FromPrefix7(octet: Octet): Octet {
    0x80 + Shr(octet, 1)
  }

  function NetMask(len: nat): Octet
    requires len <= 8
  {
    UnboundedShlOctet(0xff, 8 - len)
  }

  /** The octet and length an index stands for. */
  function PrefixOf(index: Octet): (Octet, nat)
    requires index != 0
  {
    IndexLen(index);
    var len := Len(index) - 1;
    var mask := Shr(0xff, 8 - len);
    AndBound(index, mask);
    (UnboundedShlOctet(And(index, mask), 8 - len), len)
  }

  /** The first and last octet an index covers. */
  function RangeOf(index: Octet): (nat, nat)
    requires index != 0
  {
    IndexLen(index);
    var (first, len) := PrefixOf(index);
    (first, Or(first, 255 - NetMask(len)))
  }

  predicate Covers(index: Octet, octet: Octet)
    requires index != 0
  {
    RangeOf(index).0 <= octet <= RangeOf(index).1
  }

  lemma {:induction false} LenBetween(x: nat, n: nat)
    requires Pow2(n) <= x < 2 * Pow2(n)
    ensures Len(x) == n + 1
    decreases n
  {
    if n > 0 { LenBetween(x / 2, n - 1); }
  }

  lemma {:induction false} LenBounds(x: nat, n: nat)
    requires 0 < x < Pow2(n)
    ensures 0 < Len(x) <= n && Pow2(Len(x) - 1) <= x < 2 * Pow2(Len(x) - 1)
    decreases n
  {
    if x > 1 { LenBounds(x / 2, n - 1); }
  }

  lemma IndexLen(index: Octet)
    requires index != 0
    ensures 0 < Len(index) <= 8 && Pow2(Len(index) - 1) <= index < 2 * Pow2(Len(index) - 1)
  {
    assert Pow2(8) == 256;
    LenBounds(index, 8);
  }

  lemma {:induction false} ShrBelow(x: nat, n: nat, s: nat)
    requires x < Pow2(n) && s <= n
    ensures Shr(x, s) < Pow2(n - s)
    decreases s
  {
    if s > 0 { ShrBelow(x / 2, n - 1, s - 1); }
  }

  lemma TopBits(octet: Octet, len: nat)
    requires len <= 7
    ensures Shr(octet, 8 - len) < Pow2(len) <= 128 && Len(Shr(octet, 8 - len) + Pow2(len)) == len + 1
  {
    assert Pow2(7) == 128 && Pow2(8) == 256;
    ShrBelow(octet, 8, 8 - len);
    Pow2Monotone(len, 7);
    LenBetween(Shr(octet, 8 - len) + Pow2(len), len);
  }

  /** Doubling `k` times, with room for all of it. */
  function Doubled(y: nat, k: nat): nat
    decreases k
  {
    if k == 0 then y else Doubled(2 * y, k - 1)
  }

  lemma {:induction false} DoubledOuter(y: nat, k: nat)
    ensures Doubled(2 * y, k) == 2 * Doubled(y, k)
    decreases k
  {
    if k > 0 { DoubledOuter(2 * y, k - 1); }
  }

  lemma {:induction false} DoubledNext(y: nat, k: nat)
    ensures Doubled(y + 1, k) == Doubled(y, k) + Pow2(k)
    decreases k
  {
    if k > 0 {
      DoubledOuter(y, k - 1);
      DoubledOuter(y + 1, k - 1);
      DoubledNext(y, k - 1);
    }
  }

  lemma {:induction false} DoubledBound(y: nat, n: nat, k: nat)
    requires y < Pow2(n)
    ensures Doubled(y, k) < Pow2(n + k)
    decreases k
  {
    if k > 0 { DoubledBound(2 * y, n + 1, k - 1); }
  }

  lemma {:induction false} DoubledGrows(y: nat, k: nat)
    ensures y <= Doubled(y, k)
    decreases k
  {
    if k > 0 { DoubledGrows(2 * y, k - 1); }
  }

  lemma {:induction false} ShlFits(y: nat, k: nat)
    requires y < 256 && Doubled(y, k) < 256
    ensures ShlOctet(y, k) == Doubled(y, k)
    decreases k
  {
    if k > 0 {
      DoubledGrows(2 * y, k - 1);
      ShlFits(2 * y, k - 1);
    }
  }

  /** The numbers whose top bits read `y` are the ones between `y` and `y + 1` doubled. */
  lemma {:induction false} ShrBetween(x: nat, k: nat, y: nat)
    ensures Shr(x, k) == y <==> Doubled(y, k) <= x < Doubled(y + 1, k)
    decreases k
  {
    if k > 0 {
      ShrBetween(x / 2, k - 1, y);
      DoubledOuter(y, k - 1);
      DoubledOuter(y + 1, k - 1);
    }
  }

  lemma {:induction false} AndLow(x: nat, n: nat)
    requires Pow2(n) <= x < 2 * Pow2(n)
    ensures And(x, Pow2(n) - 1) == x - Pow2(n)
    decreases n
  {
    if n > 0 {
      assert (Pow2(n) - 1) / 2 == Pow2(n - 1) - 1;
      AndLow(x / 2, n - 1);
    } else {
      assert And(0, 0) == 0;
    }
  }

  lemma {:induction false} OrLow(y: nat, k: nat)
    ensures Or(Doubled(y, k), Pow2(k) - 1) == Doubled(y, k) + Pow2(k) - 1
    decreases k
  {
    if k == 0 {
      OrNothing(y);
    } else {
      DoubledOuter(y, k - 1);
      assert (Pow2(k) - 1) / 2 == Pow2(k - 1) - 1;
      OrLow(y, k - 1);
    }
  }

  lemma {:induction false} OrNothing(x: nat)
    ensures Or(x, 0) == x
  {
    if x > 0 { OrNothing(x / 2); }
  }

  lemma {:induction false} ShrOfMask(n: nat, s: nat)
    requires s <= n
    ensures Shr(Pow2(n) - 1, s) == Pow2(n - s) - 1
    decreases s
  {
    if s > 0 {
      assert (Pow2(n) - 1) / 2 == Pow2(n - 1) - 1;
      ShrOfMask(n - 1, s - 1);
    }
  }

  lemma {:induction false} ShlOfFull(p: nat, k: nat)
    requires 0 < p && Doubled(p, k) < 256
    ensures p < 256 && ShlOctet(256 - p, k) == 256 - Doubled(p, k)
    decreases k
  {
    DoubledGrows(p, k);
    if k > 0 {
      DoubledGrows(2 * p, k - 1);
      ShlOfFull(2 * p, k - 1);
    }
  }

  /** The low mask of a length, and what its network mask leaves out. */
  lemma LowMask(len: nat)
    requires len <= 7
    ensures Shr(0xff, 8 - len) == Pow2(len) - 1
  {
    ShrOfMask(8, 8 - len);
  }

  lemma HostMask(len: nat)
    requires len <= 7
    ensures 255 - NetMask(len) == Pow2(8 - len) - 1
  {
    assert Pow2(8) == 256;
    if len > 0 {
      DoubledZero(8 - len);
      DoubledNext(0, 8 - len);
      Pow2Monotone(8 - len, 7);
      ShlOfFull(1, 8 - len);
    }
  }

  /** An index of length `len` is 2^len and the top `len` bits `y` of its octet. */
  predicate Parts(index: Octet, len: nat, y: nat) {
    len <= 7 && Len(index) == len + 1 && index == y + Pow2(len) && y < Pow2(len)
  }

  lemma PrefixParts(index: Octet, len: nat, y: nat)
    requires index != 0 && Parts(index, len, y)
    ensures PrefixOf(index) == (Doubled(y, 8 - len), len) && Doubled(y, 8 - len) < 256
  {
    LowMask(len);
    AndLow(index, len);
    DoubledBound(y, len, 8 - len);
    assert Pow2(8) == 256;
    if len > 0 {
      ShlFits(y, 8 - len);
    } else {
      DoubledZero(8);
    }
  }

  lemma PartsOf(index: Octet) returns (len: nat, y: nat)
    requires index != 0
    ensures Parts(index, len, y)
  {
    IndexLen(index);
    len := Len(index) - 1;
    y := index - Pow2(len);
  }

  lemma {:induction false} DoubledZero(k: nat)
    ensures Doubled(0, k) == 0
  {
    if k > 0 { DoubledZero(k - 1); }
  }

  /** The octet's prefix of the index's length is the index. */
  predicate Starts(index: Octet, octet: Octet)
    requires index != 0
  {
    IndexLen(index);
    FromPrefix(octet, Len(index) - 1) == index
  }

  lemma StartsIff(index: Octet, octet: Octet, len: nat, y: nat)
    requires index != 0 && Parts(index, len, y)
    ensures Starts(index, octet) <==> Shr(octet, 8 - len) == y
  {
  }

  lemma LastOf(first: nat, y: nat, k: nat, mask: nat)
    requires first == Doubled(y, k) && mask == Pow2(k) - 1
    ensures Or(first, mask) == Doubled(y + 1, k) - 1
  {
    OrLow(y, k);
    DoubledNext(y, k);
  }

  lemma RangeEnds(index: Octet, first: Octet, len: nat, mask: nat)
    requires index != 0 && len <= 8 && PrefixOf(index) == (first, len) && mask == 255 - NetMask(len)
    ensures RangeOf(index) == (first, Or(first, mask))
  {
  }

  lemma RangeOr(index: Octet, len: nat, y: nat, first: nat, mask: nat)
    requires index != 0 && Parts(index, len, y) && first == Doubled(y, 8 - len) && mask == Pow2(8 - len) - 1
    ensures RangeOf(index) == (first, Or(first, mask))
  {
    PrefixParts(index, len, y);
    HostMask(len);
    RangeEnds(index, first, len, mask);
  }

  lemma RangeParts(index: Octet, len: nat, y: nat, range: (nat, nat))
    requires index != 0 && Parts(index, len, y) && range == RangeOf(index)
    ensures range == (Doubled(y, 8 - len), Doubled(y + 1, 8 - len) - 1)
  {
    var first, mask := Doubled(y, 8 - len), Pow2(8 - len) - 1;
    RangeOr(index, len, y, first, mask);
    LastOf(first, y, 8 - len, mask);
  }

  /** An index covers exactly the octets that start with it. */
  lemma CoversIff(index: Octet, octet: Octet)
    requires index != 0
    ensures Covers(index, octet) <==> Starts(index, octet)
  {
    var len, y := PartsOf(index);
    RangeParts(index, len, y, RangeOf(index));
    StartsIff(index, octet, len, y);
    ShrBetween(octet, 8 - len, y);
  }

  /** Numbering a prefix and reading the number back gives the prefix, low bits cleared. */
  lemma PrefixRoundTrip(octet: Octet, len: nat)
    requires len <= 7
    ensures var (first, l) := PrefixOf(FromPrefix(octet, len));
            l == len && first <= octet && Shr(first, 8 - len) == Shr(octet, 8 - len) && octet - first < Pow2(8 - len)
  {
    TopBits(octet, len);
    var y := Shr(octet, 8 - len);
    PrefixParts(FromPrefix(octet, len), len, y);
    ShrBetween(octet, 8 - len, y);
    DoubledNext(y, 8 - len);
    ShrBetween(Doubled(y, 8 - len), 8 - len, y);
  }

  lemma IndexRoundTrip(index: Octet)
    requires index != 0
    ensures var (first, len) := PrefixOf(index); len <= 7 && FromPrefix(first, len) == index
  {
    var len, y := PartsOf(index);
    PrefixParts(index, len, y);
    DoubledNext(y, 8 - len);
    ShrBetween(Doubled(y, 8 - len), 8 - len, y);
  }

  /** `j` is `i`, or its half, or the half of that, short of zero. */
  predicate Ancestor(i: nat, j: nat) {
    i > 0 && (i == j || Ancestor(i / 2, j))
  }

  /** The bits to intersect with: an index and its ancestors. */
  method LpmEntry(i: Octet) returns (entry: seq<Word>)
    ensures |entry| == 4 && forall j :: 0 <= j ==> (BitAt(entry, j) <==> Ancestor(i, j))
  {
    entry := [0, 0, 0, 0];
    forall j: nat ensures !BitAt(entry, j) { BitOfZero(j % 64); }
    var j: nat := i;
    while j > 0
      invariant |entry| == 4 && j < 256
      invariant forall k: nat :: BitAt(entry, k) || Ancestor(j, k) <==> Ancestor(i, k)
    {
      forall k: nat ensures BitAt(SetBitAt(entry, j), k) <==> BitAt(entry, k) || k == j {
        SetBitAtSpec(entry, j, k);
      }
      entry := SetBitAt(entry, j);
      j := j / 2;
    }
  }

  /** The parent of a prefix is the same octet's prefix one shorter. */
  lemma ParentOf(octet: Octet, len: nat)
    requires 0 < len <= 7
    ensures FromPrefix(octet, len) / 2 == FromPrefix(octet, len - 1)
  {
    ShrStep(octet, 8 - len);
  }

  lemma {:induction false} ShrStep(x: nat, s: nat)
    ensures Shr(x, s + 1) == Shr(x, s) / 2
    decreases s
  {
    if s > 0 { ShrStep(x / 2, s - 1); }
  }

  lemma {:induction false} AncestorsOf(octet: Octet, len: nat, index: Octet)
    requires len <= 7 && index != 0
    ensures Ancestor(FromPrefix(octet, len), index) <==> Len(index) <= len + 1 && Starts(index, octet)
    decreases len
  {
    IndexLen(index);
    if len > 0 {
      ParentOf(octet, len);
      AncestorsOf(octet, len - 1, index);
    } else {
      assert FromPrefix(octet, 0) / 2 == 0 by { TopBits(octet, 0); }
    }
  }

  /** `r` is the longest stored prefix of at most `len` bits that covers the octet, if there is one. */
  ghost predicate Longest(stored: seq<Word>, octet: Octet, len: nat, r: Option<nat>) {
    if r.None? then forall i: Octet :: i != 0 && BitAt(stored, i) && Covers(i, octet) ==> PrefixOf(i).1 > len
    else
      && 0 < r.value < 256 && BitAt(stored, r.value) && Covers(r.value, octet) && PrefixOf(r.value).1 <= len
      && forall i: Octet :: i != 0 && BitAt(stored, i) && Covers(i, octet) && PrefixOf(i).1 <= len && i != r.value ==>
                              PrefixOf(i).1 < PrefixOf(r.value).1
  }

  /** The stored prefix under the top bit shared by the stored indexes and the ancestors of `index`. */
  method LookupIndex<T(!new)>(prefixes: Array256<T>, index: Octet, ghost octet: Octet, ghost len: nat)
    returns (r: Option<(nat, T)>)
    requires prefixes.Valid() && len <= 7 && index == FromPrefix(octet, len)
    ensures Longest(prefixes.bitset, octet, len, if r.Some? then Some(r.value.0) else None)
    ensures r.Some? ==> r.value.0 in prefixes.View() && prefixes.View()[r.value.0] == r.value.1
  {
    var top := TopIndex(prefixes.bitset, index, octet, len);
    if top.None? { return None; }
    var value := prefixes.Get(top.value);
    r := Some((top.value, value.value));
  }

  method TopIndex(stored: seq<Word>, index: Octet, ghost octet: Octet, ghost len: nat) returns (r: Option<nat>)
    requires |stored| == 4 && len <= 7 && index == FromPrefix(octet, len)
    ensures Longest(stored, octet, len, r)
  {
    var entry := LpmEntry(index);
    r := IntersectionTop(stored, entry);
    forall i: Octet | i != 0 ensures BitAt(entry, i) <==> PrefixOf(i).1 <= len && Covers(i, octet) {
      AncestorsOf(octet, len, i);
      CoversIff(i, octet);
    }
    if r.Some? {
      AncestorBelow(index, r.value);
      forall i: Octet | i != 0 && BitAt(stored, i) && Covers(i, octet) && PrefixOf(i).1 <= len && i != r.value
        ensures PrefixOf(i).1 < PrefixOf(r.value).1
      {
        CoversIff(i, octet);
        CoversIff(r.value, octet);
        LongerIsLarger(octet, i, r.value);
      }
    }
  }

  /** Looking an octet up from its longest index finds the longest stored prefix covering it, with its value. */
  method LongestMatch<T(!new)>(prefixes: Array256<T>, octet: Octet) returns (r: Option<(nat, T)>)
    requires prefixes.Valid()
    ensures r.Some? ==>
              && r.value.0 in prefixes.View() && prefixes.View()[r.value.0] == r.value.1
              && 0 < r.value.0 < 256 && Covers(r.value.0, octet)
              && forall i: Octet :: i != 0 && i in prefixes.View() && Covers(i, octet) && i != r.value.0 ==>
                                      PrefixOf(i).1 < PrefixOf(r.value.0).1
    ensures r.None? ==> forall i: Octet :: i != 0 && i in prefixes.View() ==> !Covers(i, octet)
  {
    assert FromPrefix7(octet) == FromPrefix(octet, 7) by { assert Pow2(7) == 128; }
    r := LookupIndex(prefixes, FromPrefix7(octet), octet, 7);
    forall i: Octet | i != 0 ensures PrefixOf(i).1 <= 7 {
      IndexLen(i);
    }
  }

  lemma {:induction false} AncestorBelow(i: nat, j: nat)
    requires Ancestor(i, j)
    ensures 0 < j <= i
  {
    if i != j { AncestorBelow(i / 2, j); }
  }

  lemma {:induction false} LenMonotone(x: nat, y: nat)
    requires x <= y
    ensures Len(x) <= Len(y)
    decreases y
  {
    if x > 0 { LenMonotone(x / 2, y / 2); }
  }

  /** Of two indexes over the same octet the larger is the longer. */
  lemma LongerIsLarger(octet: Octet, i: Octet, j: Octet)
    requires 0 < i < j && Starts(i, octet) && Starts(j, octet)
    ensures Len(i) < Len(j)
  {
    LenMonotone(i, j);
    IndexLen(i);
    assert FromPrefix(octet, Len(i) - 1) == i;
  }
}
