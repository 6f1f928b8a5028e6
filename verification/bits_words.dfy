/**
  64-bit words as the numbers they are.

  A bit is read off by halving, and the machine operations are arithmetic: a left
  shift multiplies and drops what no longer fits, a right shift divides.
 */
module Words {
  const LIMIT: nat := 0x1_0000_0000_0000_0000

  type Word = w: nat | w < LIMIT

  predicate Bit(w: nat, i: nat) {
    if i == 0 then w % 2 == 1 else Bit(w / 2, i - 1)
  }

  function Pow2(n: nat): (p: nat)
    ensures p > 0
  {
    if n == 0 then 1 else 2 * Pow2(n - 1)
  }

  function And(x: nat, y: nat): nat
    decreases x
  {
    if x == 0 then 0 else 2 * And(x / 2, y / 2) + (if x % 2 == 1 && y % 2 == 1 then 1 else 0)
  }

  function Or(x: nat, y: nat): nat
    decreases x + y
  {
    if x == 0 && y == 0 then 0 else 2 * Or(x / 2, y / 2) + (if x % 2 == 1 || y % 2 == 1 then 1 else 0)
  }

  /** `w << s`: double `s` times, dropping what leaves the 64 bits. */
  function Shl(w: Word, s: nat): Word
    decreases s
  {
    if s == 0 then w else Shl((2 * w) % LIMIT, s - 1)
  }

  /** `w >> s`: halve `s` times. */
  function Shr(w: nat, s: nat): nat
    decreases s
  {
    if s == 0 then w else Shr(w / 2, s - 1)
  }

  /** `!w`. */
  function Not(w: Word): Word {
    LIMIT - 1 - w
  }

  /** The number of zeros below the lowest set bit; 64 for zero. */
  function TrailingZeros(w: nat): nat
    decreases w
  {
    if w == 0 then 64 else if w % 2 == 1 then 0 else 1 + TrailingZeros(w / 2)
  }

  /** The number of bits needed to write `w`. */
  function Len(w: nat): nat {
    if w == 0 then 0 else 1 + Len(w / 2)
  }

  function CountOnes(w: nat): nat {
    if w == 0 then 0 else w % 2 + CountOnes(w / 2)
  }

  lemma {:induction false} BitOfZero(i: nat)
    ensures !Bit(0, i)
  {
    if i > 0 { BitOfZero(i - 1); }
  }

  lemma {:induction false} BitAnd(x: nat, y: nat, i: nat)
    ensures Bit(And(x, y), i) <==> Bit(x, i) && Bit(y, i)
    decreases i
  {
    if x == 0 {
      BitOfZero(i);
    } else if i > 0 {
      BitAnd(x / 2, y / 2, i - 1);
    }
  }

  lemma {:induction false} BitOr(x: nat, y: nat, i: nat)
    ensures Bit(Or(x, y), i) <==> Bit(x, i) || Bit(y, i)
    decreases i
  {
    if x == 0 && y == 0 {
      BitOfZero(i);
    } else if i > 0 {
      BitOr(x / 2, y / 2, i - 1);
    }
  }

  /** A number below 2^n has no bit from `n` up. */
  lemma {:induction false} BitBound(w: nat, n: nat, i: nat)
    requires w < Pow2(n) && i >= n
    ensures !Bit(w, i)
    decreases n
  {
    if n == 0 {
      BitOfZero(i);
    } else {
      BitBound(w / 2, n - 1, i - 1);
    }
  }

  lemma Pow2Of64()
    ensures Pow2(63) == 0x8000_0000_0000_0000 && Pow2(64) == LIMIT
  {
    assert Pow2(4) == 0x10 && Pow2(8) == 0x100 && Pow2(12) == 0x1000 && Pow2(16) == 0x1_0000;
    assert Pow2(20) == 0x10_0000 && Pow2(24) == 0x100_0000 && Pow2(28) == 0x1000_0000 && Pow2(32) == 0x1_0000_0000;
    assert Pow2(36) == 0x10_0000_0000 && Pow2(40) == 0x100_0000_0000 && Pow2(44) == 0x1000_0000_0000;
    assert Pow2(48) == 0x1_0000_0000_0000 && Pow2(52) == 0x10_0000_0000_0000 && Pow2(56) == 0x100_0000_0000_0000;
    assert Pow2(60) == 0x1000_0000_0000_0000 && Pow2(63) == 0x8000_0000_0000_0000;
  }

  /** Numbers below 2^n are the same when their bits are. */
  lemma {:induction false} BitsDetermine(x: nat, y: nat, n: nat)
    requires x < Pow2(n) && y < Pow2(n) && forall i :: 0 <= i < n ==> (Bit(x, i) <==> Bit(y, i))
    ensures x == y
    decreases n
  {
    if n > 0 {
      assert Bit(x, 0) <==> Bit(y, 0);
      forall i | 0 <= i < n - 1
        ensures Bit(x / 2, i) <==> Bit(y / 2, i)
      {
        assert Bit(x, i + 1) <==> Bit(y, i + 1);
      }
      BitsDetermine(x / 2, y / 2, n - 1);
    }
  }

  lemma {:induction false} OrBound(x: nat, y: nat, n: nat)
    requires x < Pow2(n) && y < Pow2(n)
    ensures Or(x, y) < Pow2(n)
    decreases n
  {
    if n > 0 { OrBound(x / 2, y / 2, n - 1); }
  }

  lemma {:induction false} AndBound(x: nat, y: nat)
    ensures And(x, y) <= x
    decreases x
  {
    if x > 0 { AndBound(x / 2, y / 2); }
  }

  lemma {:induction false} AndSelf(w: nat)
    ensures And(w, w) == w
  {
    if w > 0 { AndSelf(w / 2); }
  }

  lemma {:induction false} BitShr(w: nat, s: nat, i: nat)
    ensures Bit(Shr(w, s), i) <==> Bit(w, i + s)
    decreases s
  {
    if s > 0 { BitShr(w / 2, s - 1, i); }
  }

  lemma {:induction false} ShrBound(w: nat, s: nat)
    ensures Shr(w, s) <= w
    decreases s
  {
    if s > 0 { ShrBound(w / 2, s - 1); }
  }

  /** Taking the top bit out leaves the bits below it. */
  lemma {:induction false} DropTop(w: nat, n: nat, i: nat)
    requires Pow2(n) <= w < 2 * Pow2(n) && i < n
    ensures Bit(w - Pow2(n), i) <==> Bit(w, i)
    decreases n
  {
    if i > 0 {
      DropTop(w / 2, n - 1, i - 1);
      assert (w - Pow2(n)) / 2 == w / 2 - Pow2(n - 1);
    }
  }

  /** Doubling moves every bit up by one and drops the top one. */
  lemma BitDouble(w: Word, i: nat)
    requires i < 64
    ensures Bit((2 * w) % LIMIT, i) <==> i > 0 && Bit(w, i - 1)
  {
    var d := (2 * w) % LIMIT;
    Pow2Of64();
    if w >= Pow2(63) {
      assert d == 2 * (w - Pow2(63));
      if i > 0 { DropTop(w, 63, i - 1); }
    }
  }

  lemma {:induction false} BitShl(w: Word, s: nat, i: nat)
    requires i < 64
    ensures Bit(Shl(w, s), i) <==> i >= s && Bit(w, i - s)
    decreases s
  {
    if s > 0 {
      BitShl((2 * w) % LIMIT, s - 1, i);
      if i >= s - 1 { BitDouble(w, i - (s - 1)); }
    }
  }

  lemma {:induction false} BitNot(w: nat, n: nat, i: nat)
    requires w < Pow2(n) && i < n
    ensures Bit(Pow2(n) - 1 - w, i) <==> !Bit(w, i)
    decreases n
  {
    if i > 0 {
      assert (Pow2(n) - 1 - w) / 2 == Pow2(n - 1) - 1 - w / 2;
      BitNot(w / 2, n - 1, i - 1);
    }
  }

  lemma {:induction false} BitOneHot(k: nat, i: nat)
    ensures Bit(Pow2(k), i) <==> i == k
    decreases k
  {
    if k == 0 {
      if i > 0 { BitOfZero(i - 1); }
    } else if i > 0 {
      BitOneHot(k - 1, i - 1);
    }
  }

  lemma {:induction false} BitLowMask(n: nat, i: nat)
    ensures Bit(Pow2(n) - 1, i) <==> i < n
    decreases n
  {
    if n == 0 {
      BitOfZero(i);
    } else if i > 0 {
      assert (Pow2(n) - 1) / 2 == Pow2(n - 1) - 1;
      BitLowMask(n - 1, i - 1);
    }
  }

  lemma {:induction false} Pow2Monotone(m: nat, n: nat)
    requires m <= n
    ensures Pow2(m) <= Pow2(n)
    decreases n
  {
    if m < n { Pow2Monotone(m, n - 1); }
  }

  /** The lowest set bit is where the trailing zeros end. */
  lemma {:induction false} TrailingZerosSpec(w: nat, n: nat)
    requires 0 < w < Pow2(n)
    ensures TrailingZeros(w) < n && Bit(w, TrailingZeros(w))
    ensures forall j :: 0 <= j < TrailingZeros(w) ==> !Bit(w, j)
    decreases n
  {
    if w % 2 == 0 {
      TrailingZerosSpec(w / 2, n - 1);
    }
  }

  /** The highest set bit is one below the bit length. */
  lemma {:induction false} LenSpec(w: nat, n: nat)
    requires 0 < w < Pow2(n)
    ensures 0 < Len(w) <= n && Bit(w, Len(w) - 1)
    ensures forall j :: j >= Len(w) ==> !Bit(w, j)
    decreases n
  {
    if w == 1 {
      forall j: nat | j >= 1 ensures !Bit(1, j) {
        BitOfZero(j - 1);
      }
    } else {
      LenSpec(w / 2, n - 1);
    }
  }
}
