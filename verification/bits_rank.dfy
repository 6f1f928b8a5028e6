/** Counting, masking and listing the bits of a fixed-width bitset. */
module BitRanks {
  import opened Words
  import opened Bitsets

  function One(b: bool): nat {
    if b then 1 else 0
  }

  /** How many of the bits below `n` are set. */
  function Count(ws: seq<Word>, n: nat): (c: nat)
    ensures c <= n
  {
    if n == 0 then 0 else Count(ws, n - 1) + One(BitAt(ws, n - 1))
  }

  function CountBelow(w: nat, n: nat): nat {
    if n == 0 then 0 else CountBelow(w, n - 1) + One(Bit(w, n - 1))
  }

  lemma {:induction false} CountHalf(w: nat, n: nat)
    requires n > 0
    ensures CountBelow(w, n) == w % 2 + CountBelow(w / 2, n - 1)
    decreases n
  {
    if n > 1 { CountHalf(w, n - 1); }
  }

  lemma {:induction false} CountOnesSpec(w: nat, n: nat)
    requires w < Pow2(n)
    ensures CountOnes(w) == CountBelow(w, n)
    decreases n
  {
    if n > 0 {
      CountOnesSpec(w / 2, n - 1);
      CountHalf(w, n);
    }
  }

  lemma {:induction false} CountInWord(ws: seq<Word>, i: nat, n: nat)
    requires i < |ws| && n <= 64
    ensures Count(ws, 64 * i + n) == Count(ws, 64 * i) + CountBelow(ws[i], n)
    decreases n
  {
    if n > 0 {
      CountInWord(ws, i, n - 1);
      assert (64 * i + n - 1) / 64 == i && (64 * i + n - 1) % 64 == n - 1;
    }
  }

  lemma CountFitting(ws: seq<Word>, i: nat, n: nat)
    requires i < |ws| && n <= 64 && ws[i] < Pow2(n)
    ensures Count(ws, 64 * i + n) == Count(ws, 64 * i) + CountOnes(ws[i])
  {
    CountInWord(ws, i, n);
    CountOnesSpec(ws[i], n);
  }

  lemma CountWord(ws: seq<Word>, i: nat, n: nat)
    requires i < |ws| && n == 64 * i + 64
    ensures Count(ws, n) == Count(ws, 64 * i) + CountOnes(ws[i])
  {
    assert ws[i] < Pow2(n - 64 * i) by { Pow2Of64(); }
    CountFitting(ws, i, n - 64 * i);
  }

  /** No bit set between `m` and `n`: the same count. */
  lemma {:induction false} CountFlat(ws: seq<Word>, m: nat, n: nat)
    requires m <= n && forall j :: m <= j < n ==> !BitAt(ws, j)
    ensures Count(ws, n) == Count(ws, m)
    decreases n
  {
    if m < n { CountFlat(ws, m, n - 1); }
  }

  lemma {:induction false} CountMonotone(ws: seq<Word>, m: nat, n: nat)
    requires m <= n
    ensures Count(ws, m) <= Count(ws, n)
    decreases n
  {
    if m < n { CountMonotone(ws, m, n - 1); }
  }

  /** Set bits are told apart by how many are below them. */
  lemma CountInjective(ws: seq<Word>, i: nat, j: nat)
    requires i < j && BitAt(ws, i)
    ensures Count(ws, i) < Count(ws, j)
  {
  }

  /** Keeping only the bits below `k` keeps only their count. */
  lemma {:induction false} CountMasked(ws: seq<Word>, kept: seq<Word>, k: nat, n: nat)
    requires forall j :: 0 <= j ==> (BitAt(kept, j) <==> BitAt(ws, j) && j < k)
    ensures Count(kept, n) == Count(ws, if n < k then n else k)
    decreases n
  {
    if n > 0 { CountMasked(ws, kept, k, n - 1); }
  }

  method CountAll(ws: seq<Word>) returns (sum: nat)
    ensures sum == Count(ws, 64 * |ws|)
  {
    sum := 0;
    for i := 0 to |ws|
      invariant sum == Count(ws, 64 * i)
    {
      CountWord(ws, i, 64 * (i + 1));
      sum := sum + CountOnes(ws[i]);
    }
  }

  /** One word of the mask that has the bits up to and including `n`. */
  function MaskWord(i: nat, n: nat): Word {
    var target := (n + 1) / 64;
    if target > i then LIMIT - 1
    else if target < i then 0
    else
      OneHot((n + 1) % 64) - 1
  }

  lemma MaskWordSpec(i: nat, n: nat, k: nat)
    requires k < 64
    ensures Bit(MaskWord(i, n), k) <==> 64 * i + k <= n
  {
    var target := (n + 1) / 64;
    if target > i {
      Pow2Of64();
      BitLowMask(64, k);
    } else if target < i {
      BitOfZero(k);
    } else {
      BitLowMask((n + 1) % 64, k);
    }
  }

  method BuildRankMask(words: nat, n: nat) returns (out: array<Word>)
    ensures fresh(out) && out.Length == words
    ensures forall j :: 0 <= j < 64 * words ==> (BitAt(out[..], j) <==> j <= n)
  {
    out := new Word[words](_ => 0);
    var i := 0;
    while i < words
      invariant i <= words && forall t :: 0 <= t < i ==> out[t] == MaskWord(t, n)
    {
      out[i] := MaskWord(i, n);
      i := i + 1;
    }
    forall j | 0 <= j < 64 * words ensures BitAt(out[..], j) <==> j <= n {
      MaskWordSpec(j / 64, n, j % 64);
    }
  }

  method IntersectInPlace(a: array<Word>, other: seq<Word>)
    requires a.Length == |other|
    modifies a
    ensures forall j :: 0 <= j ==> (BitAt(a[..], j) <==> BitAt(old(a[..]), j) && BitAt(other, j))
  {
    ghost var was := a[..];
    var i := 0;
    while i < a.Length
      invariant i <= a.Length
      invariant forall t :: 0 <= t < i ==> a[t] == AndWord(was[t], other[t])
      invariant forall t :: i <= t < a.Length ==> a[t] == was[t]
    {
      a[i] := AndWord(a[i], other[i]);
      i := i + 1;
    }
    forall j | 0 <= j ensures BitAt(a[..], j) <==> BitAt(was, j) && BitAt(other, j) {
      if j / 64 < a.Length {
        BitAnd(was[j / 64], other[j / 64], j % 64);
      }
    }
  }

  method InvertInPlace(a: array<Word>)
    modifies a
    ensures forall j :: 0 <= j < 64 * a.Length ==> (BitAt(a[..], j) <==> !BitAt(old(a[..]), j))
  {
    ghost var was := a[..];
    var i := 0;
    while i < a.Length
      invariant i <= a.Length
      invariant forall t :: 0 <= t < i ==> a[t] == Not(was[t])
      invariant forall t :: i <= t < a.Length ==> a[t] == was[t]
    {
      a[i] := Not(a[i]);
      i := i + 1;
    }
    forall j | 0 <= j < 64 * a.Length ensures BitAt(a[..], j) <==> !BitAt(was, j) {
      Pow2Of64();
      BitNot(was[j / 64], 64, j % 64);
    }
  }

  /** The number of bits set up to and including `n`. */
  method Rank(ws: seq<Word>, n: nat) returns (r: nat)
    ensures r == Count(ws, n + 1)
  {
    var mask := BuildRankMask(|ws|, n);
    ghost var full := mask[..];
    IntersectInPlace(mask, ws);
    var kept := mask[..];
    r := CountAll(kept);
    CountMasked(ws, kept, n + 1, 64 * |ws|);
    if 64 * |ws| < n + 1 {
      CountFlat(ws, 64 * |ws|, n + 1);
    }
  }

  /** `w & (w - 1)` takes the lowest set bit out and no other. */
  lemma {:induction false} DropLowest(w: nat, k: nat)
    requires w > 0
    ensures Bit(And(w, w - 1), k) <==> Bit(w, k) && k != TrailingZeros(w)
    decreases w
  {
    if w % 2 == 1 {
      AndSelf(w / 2);
      assert (w - 1) / 2 == w / 2;
    } else {
      assert (w - 1) / 2 == w / 2 - 1;
      if k > 0 { DropLowest(w / 2, k - 1); }
    }
  }

  /** Each entry is a set bit standing at the place that counts the set bits below it. */
  ghost predicate Lists(ws: seq<Word>, list: seq<nat>) {
    forall k :: 0 <= k < |list| ==> BitAt(ws, list[k]) && Count(ws, list[k]) == k
  }

  /** The indices of the set bits. */
  method Bits(ws: seq<Word>) returns (list: seq<nat>)
    ensures Lists(ws, list) && |list| == Count(ws, 64 * |ws|)
  {
    list := [];
    for i := 0 to |ws|
      invariant Lists(ws, list) && |list| == Count(ws, 64 * i)
    {
      list := WordBits(ws, i, list);
    }
  }

  /** `word` holds the bits of `w` from `done` up. */
  ghost predicate Left(word: Word, w: Word, done: nat) {
    forall k :: 0 <= k < 64 ==> (Bit(word, k) <==> k >= done && Bit(w, k))
  }

  lemma LowestLeft(word: Word, w: Word, done: nat)
    requires Left(word, w, done) && TrailingZeros(word) != 64
    ensures var low := TrailingZeros(word);
            && word > 0 && done <= low < 64 && Bit(w, low)
            && (forall k :: done <= k < low ==> !Bit(w, k))
            && Left(AndWord(word, word - 1), w, low + 1)
  {
    Pow2Of64();
    TrailingZerosSpec(word, 64);
    var low := TrailingZeros(word);
    assert Bit(word, low) <==> low >= done && Bit(w, low);
    forall k | done <= k < low ensures !Bit(w, k) {
      assert !Bit(word, k);
    }
    var next := AndWord(word, word - 1);
    forall k | 0 <= k < 64 ensures Bit(next, k) <==> k >= low + 1 && Bit(w, k) {
      DropLowest(word, k);
      assert Bit(word, k) <==> k >= done && Bit(w, k);
    }
    assert Left(next, w, low + 1);
  }

  lemma NothingLeft(ws: seq<Word>, i: nat, word: Word, done: nat)
    requires i < |ws| && done <= 64 && Left(word, ws[i], done) && TrailingZeros(word) == 64
    ensures Count(ws, 64 * (i + 1)) == Count(ws, 64 * i + done)
  {
    Pow2Of64();
    if word != 0 { TrailingZerosSpec(word, 64); }
    forall j | 64 * i + done <= j < 64 * (i + 1) ensures !BitAt(ws, j) {
      BitOfZero(j % 64);
      assert j / 64 == i && j % 64 >= done;
      assert !Bit(word, j % 64);
    }
    CountFlat(ws, 64 * i + done, 64 * (i + 1));
  }

  /** What is listed, and what of word `i` is left to list. */
  ghost predicate Listing(ws: seq<Word>, i: nat, word: Word, done: nat, list: seq<nat>) {
    i < |ws| && done <= 64 && Left(word, ws[i], done) && Lists(ws, list) && |list| == Count(ws, 64 * i + done)
  }

  lemma ListedOne(ws: seq<Word>, i: nat, word: Word, done: nat, list: seq<nat>)
    requires Listing(ws, i, word, done, list) && TrailingZeros(word) != 64
    ensures var low := TrailingZeros(word);
            word > 0 && done <= low && Listing(ws, i, AndWord(word, word - 1), low + 1, list + [64 * i + low])
  {
    LowestLeft(word, ws[i], done);
    NextInWord(ws, i, done, TrailingZeros(word));
  }

  /** The listing of one word, by taking out the lowest bit again and again. */
  method WordBits(ws: seq<Word>, i: nat, before: seq<nat>) returns (list: seq<nat>)
    requires i < |ws| && Lists(ws, before) && |before| == Count(ws, 64 * i)
    ensures Lists(ws, list) && |list| == Count(ws, 64 * (i + 1))
  {
    list := before;
    var word: Word := ws[i];
    ghost var done := 0;
    while TrailingZeros(word) != 64
      invariant Listing(ws, i, word, done, list)
      decreases 64 - done
    {
      ListedOne(ws, i, word, done, list);
      var low := TrailingZeros(word);
      word := AndWord(word, word - 1);
      list := list + [64 * i + low];
      done := low + 1;
    }
    NothingLeft(ws, i, word, done);
  }

  lemma NextInWord(ws: seq<Word>, i: nat, done: nat, low: nat)
    requires i < |ws| && done <= low < 64 && Bit(ws[i], low)
    requires forall k :: done <= k < low ==> !Bit(ws[i], k)
    ensures BitAt(ws, 64 * i + low) && Count(ws, 64 * i + low) == Count(ws, 64 * i + done)
    ensures Count(ws, 64 * i + low + 1) == Count(ws, 64 * i + done) + 1
  {
    assert (64 * i + low) / 64 == i && (64 * i + low) % 64 == low;
    forall j | 64 * i + done <= j < 64 * i + low ensures !BitAt(ws, j) {
      assert j / 64 == i && j % 64 < low;
    }
    CountFlat(ws, 64 * i + done, 64 * i + low);
  }

  /** A complete listing is ascending and has every set bit. */
  lemma ListsAll(ws: seq<Word>, list: seq<nat>, i: nat)
    requires Lists(ws, list) && |list| == Count(ws, 64 * |ws|)
    ensures forall k, l :: 0 <= k < l < |list| ==> list[k] < list[l]
    ensures BitAt(ws, i) <==> i in list
  {
    forall k, l | 0 <= k < l < |list| ensures list[k] < list[l] {
      if list[l] <= list[k] { CountMonotone(ws, list[l], list[k]); }
    }
    if BitAt(ws, i) {
      ListedAt(ws, list, i);
    }
  }

  lemma ListedAt(ws: seq<Word>, list: seq<nat>, i: nat)
    requires Lists(ws, list) && |list| == Count(ws, 64 * |ws|) && BitAt(ws, i)
    ensures i in list
  {
    var k := Count(ws, i);
    CountInjective(ws, i, 64 * |ws|);
    if list[k] < i {
      CountInjective(ws, list[k], i);
    } else if list[k] > i {
      CountInjective(ws, i, list[k]);
    }
    assert list[k] == i;
  }

  /** The set bits above `n`, ascending: what is left when the mask up to `n` is taken out. */
  method BitsAfter(ws: seq<Word>, n: nat) returns (list: seq<nat>)
    ensures forall k, l :: 0 <= k < l < |list| ==> list[k] < list[l]
    ensures forall i: nat :: i in list <==> BitAt(ws, i) && i > n
  {
    var mask := BuildRankMask(|ws|, n);
    InvertInPlace(mask);
    IntersectInPlace(mask, ws);
    var above := mask[..];
    list := Bits(above);
    forall i: nat ensures i in list <==> BitAt(ws, i) && i > n {
      ListsAll(above, list, i);
    }
    ListsAll(above, list, 0);
  }
}
