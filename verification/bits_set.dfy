/** Fixed-width bitsets over an array of words, updated in place. */
module Bitsets {
  import opened Common
  import opened Words

  predicate BitAt(ws: seq<Word>, i: nat) {
    i / 64 < |ws| && Bit(ws[i / 64], i % 64)
  }

  function OrWord(x: Word, y: Word): Word {
    assert Or(x, y) < LIMIT by {
      Pow2Of64();
      OrBound(x, y, 64);
    }
    Or(x, y)
  }

  function AndWord(x: Word, y: Word): Word {
    assert And(x, y) < LIMIT by { AndBound(x, y); }
    And(x, y)
  }

  /** Shifts that may leave nothing. */
  function UnboundedShr(w: Word, s: nat): Word {
    if s >= 64 then 0
    else
      assert Shr(w, s) < LIMIT by { ShrBound(w, s); }
      Shr(w, s)
  }

  function UnboundedShl(w: Word, s: nat): Word {
    if s >= 64 then 0 else Shl(w, s)
  }

  /** The word a left shift by `words` words and `bits` bits puts at `t`. */
  function ShlWord(ws: seq<Word>, t: nat, words: nat, bits: nat): Word
    requires words <= t < |ws| && bits < 64
  {
    var low := if t == words then 0 else ws[t - words - 1];
    OrWord(Shl(ws[t - words], bits), UnboundedShr(low, 64 - bits))
  }

  /** The word a right shift by `words` words and `bits` bits puts at `t`. */
  function ShrWord(ws: seq<Word>, t: nat, words: nat, bits: nat): Word
    requires t + words < |ws| && bits < 64
  {
    var high := if t + words + 1 < |ws| then ws[t + words + 1] else 0;
    OrWord(UnboundedShr(ws[t + words], bits), UnboundedShl(high, 64 - bits))
  }

  lemma ShlWordBit(ws: seq<Word>, t: nat, words: nat, bits: nat, k: nat)
    requires words <= t < |ws| && bits < 64 && k < 64
    ensures Bit(ShlWord(ws, t, words, bits), k) <==>
            64 * t + k >= 64 * words + bits && BitAt(ws, 64 * t + k - (64 * words + bits))
  {
    var low := if t == words then 0 else ws[t - words - 1];
    var x, y := Shl(ws[t - words], bits), UnboundedShr(low, 64 - bits);
    BitOr(x, y, k);
    BitShl(ws[t - words], bits, k);
    var i := 64 * t + k - (64 * words + bits);
    if k >= bits {
      assert i / 64 == t - words && i % 64 == k - bits;
      NoHighBits(low, 64 - bits, k);
    } else {
      BitShr(low, 64 - bits, k);
      if t > words {
        assert i / 64 == t - words - 1 && i % 64 == 64 - bits + k;
      } else {
        BitOfZero(64 - bits + k);
      }
    }
  }

  /** A right shift by at least `s` leaves no bit from `64 - s` up. */
  lemma NoHighBits(w: Word, s: nat, k: nat)
    requires s <= 64 && k >= 64 - s
    ensures !Bit(UnboundedShr(w, s), k)
  {
    if s < 64 {
      BitShr(w, s, k);
      Pow2Of64();
      BitBound(w, 64, k + s);
    } else {
      BitOfZero(k);
    }
  }

  lemma ShrWordBit(ws: seq<Word>, t: nat, words: nat, bits: nat, k: nat)
    requires t + words < |ws| && bits < 64 && k < 64
    ensures Bit(ShrWord(ws, t, words, bits), k) <==> BitAt(ws, 64 * t + k + (64 * words + bits))
  {
    var high := if t + words + 1 < |ws| then ws[t + words + 1] else 0;
    var x, y := UnboundedShr(ws[t + words], bits), UnboundedShl(high, 64 - bits);
    BitOr(x, y, k);
    BitShr(ws[t + words], bits, k);
    var i := 64 * t + k + (64 * words + bits);
    if k + bits < 64 {
      assert i / 64 == t + words && i % 64 == k + bits;
      if bits > 0 {
        BitShl(high, 64 - bits, k);
      } else {
        BitOfZero(k);
      }
    } else {
      Pow2Of64();
      BitBound(ws[t + words], 64, k + bits);
      BitShl(high, 64 - bits, k);
      assert i / 64 == t + words + 1 && i % 64 == k + bits - 64;
      BitOfZero(k + bits - 64);
    }
  }

  /** Bit `i` of `now` is bit `i - n` of `was`, or zero. */
  ghost predicate IsShl(was: seq<Word>, now: seq<Word>, n: nat) {
    |now| == |was| && forall i :: 0 <= i < 64 * |was| ==> (BitAt(now, i) <==> i >= n && BitAt(was, i - n))
  }

  /** Bit `i` of `now` is bit `i + n` of `was`, or zero. */
  ghost predicate IsShr(was: seq<Word>, now: seq<Word>, n: nat) {
    |now| == |was| && forall i :: 0 <= i < 64 * |was| ==> (BitAt(now, i) <==> BitAt(was, i + n))
  }

  /** Shift left in place, although each step overwrites the array it reads. */
  method ShlInPlace(a: array<Word>, rhs: nat)
    modifies a
    ensures IsShl(old(a[..]), a[..], rhs)
  {
    if rhs >= 64 * a.Length {
      FillZero(a, 0, a.Length);
      ShiftedOut(old(a[..]), a[..], rhs);
    } else {
      var words, bits := rhs / 64, rhs % 64;
      ShlWords(a, words, bits);
      AllShiftedLeft(old(a[..]), a[..], words, bits, rhs);
    }
  }

  lemma ShiftedOut(was: seq<Word>, now: seq<Word>, n: nat)
    requires n >= 64 * |was| && |now| == |was| && forall j :: 0 <= j < |now| ==> now[j] == 0
    ensures IsShl(was, now, n) && IsShr(was, now, n)
  {
    forall i | 0 <= i < 64 * |was| ensures !BitAt(now, i) {
      BitOfZero(i % 64);
    }
  }

  /** Word by word, `now` is `was` shifted left. */
  ghost predicate WordsShl(was: seq<Word>, now: seq<Word>, words: nat, bits: nat)
    requires bits < 64
  {
    |now| == |was| &&
    forall j :: 0 <= j < |was| ==> now[j] == if j < words then 0 else ShlWord(was, j, words, bits)
  }

  /** Word by word, `now` is `was` shifted right. */
  ghost predicate WordsShr(was: seq<Word>, now: seq<Word>, words: nat, bits: nat)
    requires bits < 64
  {
    |now| == |was| &&
    forall j :: 0 <= j < |was| ==> now[j] == if j + words < |was| then ShrWord(was, j, words, bits) else 0
  }

  lemma AllShiftedLeft(was: seq<Word>, now: seq<Word>, words: nat, bits: nat, n: nat)
    requires bits < 64 && WordsShl(was, now, words, bits) && n == 64 * words + bits
    ensures IsShl(was, now, n)
  {
    forall i | 0 <= i < 64 * |was|
      ensures BitAt(now, i) <==> i >= n && BitAt(was, i - n)
    {
      ShiftedLeft(was, now, words, bits, i);
    }
  }

  lemma AllShiftedRight(was: seq<Word>, now: seq<Word>, words: nat, bits: nat, n: nat)
    requires bits < 64 && WordsShr(was, now, words, bits) && n == 64 * words + bits
    ensures IsShr(was, now, n)
  {
    forall i | 0 <= i < 64 * |was|
      ensures BitAt(now, i) <==> BitAt(was, i + n)
    {
      ShiftedRight(was, now, words, bits, i);
    }
  }

  method ShlWords(a: array<Word>, words: nat, bits: nat)
    requires words < a.Length && bits < 64
    modifies a
    ensures WordsShl(old(a[..]), a[..], words, bits)
  {
    for t := a.Length downto words
      invariant forall j :: 0 <= j < t ==> a[j] == old(a[j])
      invariant forall j :: t <= j < a.Length ==> a[j] == ShlWord(old(a[..]), j, words, bits)
    {
      var src := t - words;
      var low := if src == 0 then 0 else a[src - 1];
      a[t] := OrWord(Shl(a[src], bits), UnboundedShr(low, 64 - bits));
    }
    FillZero(a, 0, words);
  }

  lemma ShiftedLeft(ws: seq<Word>, ws': seq<Word>, words: nat, bits: nat, i: nat)
    requires bits < 64 && WordsShl(ws, ws', words, bits) && i < 64 * |ws|
    ensures BitAt(ws', i) <==> i >= 64 * words + bits && BitAt(ws, i - (64 * words + bits))
  {
    if i / 64 >= words {
      ShlWordBit(ws, i / 64, words, bits, i % 64);
    } else {
      BitOfZero(i % 64);
    }
  }

  /** Shift right in place. */
  method ShrInPlace(a: array<Word>, rhs: nat)
    modifies a
    ensures IsShr(old(a[..]), a[..], rhs)
  {
    if rhs >= 64 * a.Length {
      FillZero(a, 0, a.Length);
      ShiftedOut(old(a[..]), a[..], rhs);
    } else {
      var words, bits := rhs / 64, rhs % 64;
      ShrWords(a, words, bits);
      AllShiftedRight(old(a[..]), a[..], words, bits, rhs);
    }
  }

  method ShrWords(a: array<Word>, words: nat, bits: nat)
    requires words < a.Length && bits < 64
    modifies a
    ensures WordsShr(old(a[..]), a[..], words, bits)
  {
    for t := 0 to a.Length - words
      invariant forall j :: 0 <= j < t ==> a[j] == ShrWord(old(a[..]), j, words, bits)
      invariant forall j :: t <= j < a.Length ==> a[j] == old(a[j])
    {
      var src := t + words;
      var high := if src + 1 < a.Length then a[src + 1] else 0;
      a[t] := OrWord(UnboundedShr(a[src], bits), UnboundedShl(high, 64 - bits));
    }
    FillZero(a, a.Length - words, a.Length);
  }

  lemma ShiftedRight(ws: seq<Word>, ws': seq<Word>, words: nat, bits: nat, i: nat)
    requires bits < 64 && WordsShr(ws, ws', words, bits) && i < 64 * |ws|
    ensures BitAt(ws', i) <==> BitAt(ws, i + 64 * words + bits)
  {
    if i / 64 + words < |ws| {
      ShrWordBit(ws, i / 64, words, bits, i % 64);
    } else {
      BitOfZero(i % 64);
    }
  }

  method FillZero(a: array<Word>, lo: nat, hi: nat)
    requires lo <= hi <= a.Length
    modifies a
    ensures forall j :: 0 <= j < a.Length ==> a[j] == if lo <= j < hi then 0 else old(a[j])
  {
    for i := lo to hi
      invariant forall j :: 0 <= j < a.Length ==> a[j] == if lo <= j < i then 0 else old(a[j])
    {
      a[i] := 0;
    }
  }

  function OneHot(k: nat): Word
    requires k < 64
  {
    assert Pow2(k) < LIMIT by {
      Pow2Of64();
      Pow2Monotone(k, 63);
    }
    Pow2(k)
  }

  predicate TestBit(ws: seq<Word>, i: nat)
    requires i / 64 < |ws|
  {
    AndWord(ws[i / 64], OneHot(i % 64)) != 0
  }

  lemma TestBitSpec(ws: seq<Word>, i: nat)
    requires i / 64 < |ws|
    ensures TestBit(ws, i) <==> BitAt(ws, i)
  {
    var w, k := ws[i / 64], i % 64;
    var both := AndWord(w, OneHot(k));
    BitAnd(w, OneHot(k), k);
    BitOneHot(k, k);
    BitOfZero(k);
    if both != 0 {
      Pow2Of64();
      TrailingZerosSpec(both, 64);
      var low := TrailingZeros(both);
      BitAnd(w, OneHot(k), low);
      BitOneHot(k, low);
    }
  }

  function SetBitAt(ws: seq<Word>, i: nat): seq<Word>
    requires i / 64 < |ws|
  {
    ws[i / 64 := OrWord(ws[i / 64], OneHot(i % 64))]
  }

  function ClearBitAt(ws: seq<Word>, i: nat): seq<Word>
    requires i / 64 < |ws|
  {
    ws[i / 64 := AndWord(ws[i / 64], Not(OneHot(i % 64)))]
  }

  lemma SetBitAtSpec(ws: seq<Word>, i: nat, j: nat)
    requires i / 64 < |ws|
    ensures BitAt(SetBitAt(ws, i), j) <==> BitAt(ws, j) || j == i
  {
    if j / 64 == i / 64 {
      BitOr(ws[i / 64], OneHot(i % 64), j % 64);
      BitOneHot(i % 64, j % 64);
      assert j % 64 == i % 64 <==> j == i;
    }
  }

  lemma ClearBitAtSpec(ws: seq<Word>, i: nat, j: nat)
    requires i / 64 < |ws|
    ensures BitAt(ClearBitAt(ws, i), j) <==> BitAt(ws, j) && j != i
  {
    if j / 64 == i / 64 {
      var k := i % 64;
      BitAnd(ws[i / 64], Not(OneHot(k)), j % 64);
      BitOneHot(k, j % 64);
      Pow2Of64();
      BitNot(OneHot(k), 64, j % 64);
      assert j % 64 == k <==> j == i;
    }
  }

  /** The lowest set bit, if any. */
  method FirstSet(ws: seq<Word>) returns (r: Option<nat>)
    ensures r.Some? ==> BitAt(ws, r.value) && forall j :: 0 <= j < r.value ==> !BitAt(ws, j)
    ensures r.None? ==> forall j :: 0 <= j ==> !BitAt(ws, j)
  {
    r := FirstSetFrom(ws, 0);
  }

  /** The lowest set bit in word `from` or above. */
  method FirstSetFrom(ws: seq<Word>, from: nat) returns (r: Option<nat>)
    ensures r.Some? ==> r.value >= 64 * from && BitAt(ws, r.value)
    ensures r.Some? ==> forall j :: 64 * from <= j < r.value ==> !BitAt(ws, j)
    ensures r.None? ==> forall j :: 64 * from <= j ==> !BitAt(ws, j)
  {
    var i := from;
    while i < |ws|
      invariant from <= i && forall j :: 64 * from <= j < 64 * i ==> !BitAt(ws, j)
    {
      EmptyOrLowest(ws, i);
      if TrailingZeros(ws[i]) != 64 {
        return Some(64 * i + TrailingZeros(ws[i]));
      }
      i := i + 1;
    }
    r := None;
  }

  lemma EmptyOrLowest(ws: seq<Word>, i: nat)
    requires i < |ws|
    ensures TrailingZeros(ws[i]) == 64 <==> ws[i] == 0
    ensures ws[i] == 0 ==> forall j :: 64 * i <= j < 64 * i + 64 ==> !BitAt(ws, j)
    ensures ws[i] != 0 ==>
              var low := 64 * i + TrailingZeros(ws[i]);
              low < 64 * i + 64 && BitAt(ws, low) && forall j :: 64 * i <= j < low ==> !BitAt(ws, j)
  {
    Pow2Of64();
    if ws[i] == 0 {
      forall j | 64 * i <= j < 64 * i + 64 ensures !BitAt(ws, j) {
        BitOfZero(j % 64);
      }
    } else {
      TrailingZerosSpec(ws[i], 64);
      var low := 64 * i + TrailingZeros(ws[i]);
      assert low / 64 == i && low % 64 == TrailingZeros(ws[i]);
      forall j | 64 * i <= j < low ensures !BitAt(ws, j) {
        assert j / 64 == i && j % 64 < TrailingZeros(ws[i]);
      }
    }
  }

  /** The lowest set bit from `bit` up. */
  method NextSet(ws: seq<Word>, bit: nat) returns (r: Option<nat>)
    requires bit / 64 < |ws|
    ensures r.Some? ==> r.value >= bit && BitAt(ws, r.value) && forall j :: bit <= j < r.value ==> !BitAt(ws, j)
    ensures r.None? ==> forall j :: bit <= j ==> !BitAt(ws, j)
  {
    var word := bit / 64;
    var first := UnboundedShr(ws[word], bit % 64);
    ShiftedLowest(ws, bit);
    if first != 0 {
      return Some(bit + TrailingZeros(first));
    }
    r := FirstSetFrom(ws, word + 1);
  }

  /** Shifting a word down by the bit's position shows the bits from there up. */
  lemma ShiftedLowest(ws: seq<Word>, bit: nat)
    requires bit / 64 < |ws|
    ensures var first := UnboundedShr(ws[bit / 64], bit % 64);
            if first == 0 then forall j :: bit <= j < 64 * (bit / 64 + 1) ==> !BitAt(ws, j)
            else
              var low := bit + TrailingZeros(first);
              BitAt(ws, low) && forall j :: bit <= j < low ==> !BitAt(ws, j)
  {
    if UnboundedShr(ws[bit / 64], bit % 64) == 0 {
      NothingAbove(ws, bit);
    } else {
      LowestAbove(ws, bit);
    }
  }

  lemma NothingAbove(ws: seq<Word>, bit: nat)
    requires bit / 64 < |ws| && UnboundedShr(ws[bit / 64], bit % 64) == 0
    ensures forall j :: bit <= j < 64 * (bit / 64 + 1) ==> !BitAt(ws, j)
  {
    forall j | bit <= j < 64 * (bit / 64 + 1) ensures !BitAt(ws, j) {
      BitShr(ws[bit / 64], bit % 64, j - bit);
      BitOfZero(j - bit);
      assert j / 64 == bit / 64 && j % 64 == j - bit + bit % 64;
    }
  }

  lemma LowestAbove(ws: seq<Word>, bit: nat)
    requires bit / 64 < |ws| && UnboundedShr(ws[bit / 64], bit % 64) != 0
    ensures var low := bit + TrailingZeros(UnboundedShr(ws[bit / 64], bit % 64));
            BitAt(ws, low) && forall j :: bit <= j < low ==> !BitAt(ws, j)
  {
    var w, s := ws[bit / 64], bit % 64;
    var z := TrailingZeros(UnboundedShr(w, s));
    LowestFrom(w, s);
    assert (bit + z) / 64 == bit / 64 && (bit + z) % 64 == z + s;
    forall j | bit <= j < bit + z ensures !BitAt(ws, j) {
      assert j / 64 == bit / 64 && s <= j % 64 < s + z;
    }
  }

  lemma LowestFrom(w: Word, s: nat)
    requires s < 64 && UnboundedShr(w, s) != 0
    ensures var z := TrailingZeros(UnboundedShr(w, s));
            z + s < 64 && Bit(w, z + s) && forall k :: s <= k < s + z ==> !Bit(w, k)
  {
    var first := UnboundedShr(w, s);
    var z := TrailingZeros(first);
    Pow2Of64();
    TrailingZerosSpec(first, 64);
    BitShr(w, s, z);
    if z + s >= 64 { BitBound(w, 64, z + s); }
    forall k | s <= k < s + z ensures !Bit(w, k) {
      BitShr(w, s, k - s);
    }
  }

  /** The highest bit set in both. */
  method IntersectionTop(x: seq<Word>, y: seq<Word>) returns (r: Option<nat>)
    requires |x| == |y|
    ensures r.Some? ==> BitAt(x, r.value) && BitAt(y, r.value)
    ensures r.Some? ==> forall j :: r.value < j ==> !(BitAt(x, j) && BitAt(y, j))
    ensures r.None? ==> forall j :: 0 <= j ==> !(BitAt(x, j) && BitAt(y, j))
  {
    for i := |x| downto 0
      invariant forall j :: 64 * i <= j ==> !(BitAt(x, j) && BitAt(y, j))
    {
      var both := AndWord(x[i], y[i]);
      EmptyOrHighest(x, y, i);
      if both != 0 {
        return Some(64 * i + Len(both) - 1);
      }
    }
    r := None;
  }

  /** The highest set bit, if any. */
  method LastSet(ws: seq<Word>) returns (r: Option<nat>)
    requires |ws| > 0
    ensures r.Some? ==> BitAt(ws, r.value) && forall j :: r.value < j ==> !BitAt(ws, j)
    ensures r.None? ==> forall j :: 0 <= j ==> !BitAt(ws, j)
  {
    var word := |ws| - 1;
    while true
      invariant 0 <= word < |ws| && forall j :: 64 * word + 64 <= j ==> !BitAt(ws, j)
      decreases word
    {
      var value := ws[word];
      AndSelf(value);
      EmptyOrHighest(ws, ws, word);
      if value != 0 {
        return Some(64 * word + (Len(value) - 1));
      }
      if word == 0 { break; }
      word := word - 1;
    }
    r := None;
  }

  lemma EmptyOrHighest(x: seq<Word>, y: seq<Word>, i: nat)
    requires i < |x| == |y|
    ensures var both := AndWord(x[i], y[i]);
            if both == 0 then forall j :: 64 * i <= j < 64 * i + 64 ==> !(BitAt(x, j) && BitAt(y, j))
            else
              var top := 64 * i + Len(both) - 1;
              && 64 * i <= top < 64 * i + 64 && BitAt(x, top) && BitAt(y, top)
              && forall j :: top < j < 64 * i + 64 ==> !(BitAt(x, j) && BitAt(y, j))
  {
    var both := AndWord(x[i], y[i]);
    if both == 0 {
      forall j | 64 * i <= j < 64 * i + 64 ensures !(BitAt(x, j) && BitAt(y, j)) {
        BitAnd(x[i], y[i], j % 64);
        BitOfZero(j % 64);
        assert j / 64 == i;
      }
    } else {
      TopShared(x, y, i);
    }
  }

  lemma TopShared(x: seq<Word>, y: seq<Word>, i: nat)
    requires i < |x| == |y| && AndWord(x[i], y[i]) != 0
    ensures var top := 64 * i + Len(AndWord(x[i], y[i])) - 1;
            && 64 * i <= top < 64 * i + 64 && BitAt(x, top) && BitAt(y, top)
            && forall j :: top < j < 64 * i + 64 ==> !(BitAt(x, j) && BitAt(y, j))
  {
    var both := AndWord(x[i], y[i]);
    var n := Len(both);
    assert 0 < n <= 64 && Bit(both, n - 1) && forall k :: k >= n ==> !Bit(both, k) by {
      Pow2Of64();
      LenSpec(both, 64);
    }
    BitAnd(x[i], y[i], n - 1);
    var top := 64 * i + n - 1;
    assert top / 64 == i && top % 64 == n - 1;
    forall j | top < j < 64 * i + 64 ensures !(BitAt(x, j) && BitAt(y, j)) {
      BitAnd(x[i], y[i], j % 64);
      assert j / 64 == i && j % 64 >= n;
    }
  }
}
