/**
  A sparse array of 256 slots: a bitset says which slots are taken, and the
  elements stand side by side in slot order.
 */
module SparseArrays {
  import opened Common
  import opened Words
  import opened Bitsets
  import opened BitRanks

  const SLOTS: nat := 256

  ghost predicate Fits<T>(ws: seq<Word>, elements: seq<T>) {
    |ws| == 4 && |elements| == Count(ws, 64 * |ws|)
  }

  ghost function ElementAt<T>(ws: seq<Word>, elements: seq<T>, i: nat): T
    requires Fits(ws, elements) && BitAt(ws, i)
  {
    assert Count(ws, i) < |elements| by { CountInjective(ws, i, 64 * |ws|); }
    elements[Count(ws, i)]
  }

  /** What the array holds, as a map from slots. */
  ghost function Contents<T>(ws: seq<Word>, elements: seq<T>): map<nat, T>
    requires Fits(ws, elements)
  {
    map i: nat | i < SLOTS && BitAt(ws, i) :: ElementAt(ws, elements, i)
  }

  lemma {:induction false} CountSet(ws: seq<Word>, i: nat, n: nat)
    requires i / 64 < |ws| && !BitAt(ws, i)
    ensures Count(SetBitAt(ws, i), n) == Count(ws, n) + One(i < n)
    decreases n
  {
    if n > 0 {
      CountSet(ws, i, n - 1);
      SetBitAtSpec(ws, i, n - 1);
    }
  }

  lemma {:induction false} CountCleared(ws: seq<Word>, i: nat, n: nat)
    requires i / 64 < |ws| && BitAt(ws, i)
    ensures Count(ws, n) == Count(ClearBitAt(ws, i), n) + One(i < n)
    decreases n
  {
    if n > 0 {
      CountCleared(ws, i, n - 1);
      ClearBitAtSpec(ws, i, n - 1);
    }
  }

  lemma ReplacedAt<T>(ws: seq<Word>, elements: seq<T>, i: nat, e: T, j: nat)
    requires Fits(ws, elements) && BitAt(ws, i) && BitAt(ws, j)
    ensures Count(ws, i) < |elements|
    ensures ElementAt(ws, elements[Count(ws, i) := e], j) == if j == i then e else ElementAt(ws, elements, j)
  {
    CountInjective(ws, i, 64 * |ws|);
    CountInjective(ws, j, 64 * |ws|);
    if j < i {
      CountInjective(ws, j, i);
    } else if i < j {
      CountInjective(ws, i, j);
    }
  }

  lemma Replaced<T>(ws: seq<Word>, elements: seq<T>, i: nat, e: T)
    requires Fits(ws, elements) && BitAt(ws, i) && i < SLOTS
    ensures Count(ws, i) < |elements|
    ensures Contents(ws, elements[Count(ws, i) := e]) == Contents(ws, elements)[i := e]
  {
    CountInjective(ws, i, 64 * |ws|);
    var was, now := Contents(ws, elements), Contents(ws, elements[Count(ws, i) := e]);
    assert i in was;
    forall j: nat ensures (j in now <==> j in was || j == i) && (j in now ==> now[j] == if j == i then e else was[j]) {
      if BitAt(ws, j) { ReplacedAt(ws, elements, i, e, j); }
    }
    MapWith(was, now, i, e);
  }

  function InsertedIn<T>(elements: seq<T>, c: nat, e: T): seq<T>
    requires c <= |elements|
  {
    elements[..c] + [e] + elements[c..]
  }

  function RemovedFrom<T>(elements: seq<T>, c: nat): seq<T>
    requires c < |elements|
  {
    elements[..c] + elements[c + 1..]
  }

  lemma MapWith<T>(was: map<nat, T>, now: map<nat, T>, i: nat, e: T)
    requires forall j: nat :: j in now <==> j in was || j == i
    requires forall j: nat :: j in now ==> now[j] == if j == i then e else was[j]
    ensures now == was[i := e]
  {
  }

  lemma MapWithout<T>(was: map<nat, T>, now: map<nat, T>, i: nat)
    requires forall j: nat :: (j in now <==> j in was && j != i) && (j in now ==> now[j] == was[j])
    ensures now == was - {i}
  {
  }

  lemma InsertedFits<T>(ws: seq<Word>, elements: seq<T>, i: nat, e: T)
    requires Fits(ws, elements) && !BitAt(ws, i) && i < SLOTS
    ensures Count(ws, i) <= |elements|
    ensures Fits(SetBitAt(ws, i), InsertedIn(elements, Count(ws, i), e))
  {
    CountMonotone(ws, i, 64 * |ws|);
    CountSet(ws, i, 64 * |ws|);
  }

  lemma InsertedAt<T>(ws: seq<Word>, elements: seq<T>, i: nat, e: T, j: nat)
    requires Fits(ws, elements) && !BitAt(ws, i) && i < SLOTS
    ensures BitAt(SetBitAt(ws, i), j) <==> BitAt(ws, j) || j == i
    ensures Count(ws, i) <= |elements| && Fits(SetBitAt(ws, i), InsertedIn(elements, Count(ws, i), e))
    ensures j == i ==> ElementAt(SetBitAt(ws, i), InsertedIn(elements, Count(ws, i), e), j) == e
    ensures BitAt(ws, j) ==>
              ElementAt(SetBitAt(ws, i), InsertedIn(elements, Count(ws, i), e), j) == ElementAt(ws, elements, j)
  {
    InsertedFits(ws, elements, i, e);
    SetBitAtSpec(ws, i, j);
    CountSet(ws, i, j);
    if BitAt(ws, j) {
      CountInjective(ws, j, 64 * |ws|);
      if j < i { CountInjective(ws, j, i); } else { CountMonotone(ws, i, j); }
    }
  }

  lemma Inserted<T>(ws: seq<Word>, elements: seq<T>, i: nat, e: T)
    requires Fits(ws, elements) && !BitAt(ws, i) && i < SLOTS
    ensures Count(ws, i) <= |elements|
    ensures Fits(SetBitAt(ws, i), InsertedIn(elements, Count(ws, i), e))
    ensures Contents(SetBitAt(ws, i), InsertedIn(elements, Count(ws, i), e)) == Contents(ws, elements)[i := e]
  {
    InsertedFits(ws, elements, i, e);
    var was, now := Contents(ws, elements), Contents(SetBitAt(ws, i), InsertedIn(elements, Count(ws, i), e));
    forall j: nat ensures (j in now <==> j in was || j == i) && (j in now ==> now[j] == if j == i then e else was[j]) {
      InsertedAt(ws, elements, i, e, j);
    }
    MapWith(was, now, i, e);
  }

  lemma RemovedFits<T>(ws: seq<Word>, elements: seq<T>, i: nat)
    requires Fits(ws, elements) && BitAt(ws, i) && i < SLOTS
    ensures Count(ws, i) < |elements|
    ensures Fits(ClearBitAt(ws, i), RemovedFrom(elements, Count(ws, i)))
  {
    CountInjective(ws, i, 64 * |ws|);
    CountCleared(ws, i, 64 * |ws|);
  }

  lemma RemovedAt<T>(ws: seq<Word>, elements: seq<T>, i: nat, j: nat)
    requires Fits(ws, elements) && BitAt(ws, i) && i < SLOTS
    ensures BitAt(ClearBitAt(ws, i), j) <==> BitAt(ws, j) && j != i
    ensures Count(ws, i) < |elements| && Fits(ClearBitAt(ws, i), RemovedFrom(elements, Count(ws, i)))
    ensures BitAt(ws, j) && j != i ==>
              ElementAt(ClearBitAt(ws, i), RemovedFrom(elements, Count(ws, i)), j) == ElementAt(ws, elements, j)
  {
    RemovedFits(ws, elements, i);
    ClearBitAtSpec(ws, i, j);
    CountCleared(ws, i, j);
    if BitAt(ws, j) {
      CountInjective(ws, j, 64 * |ws|);
      if j < i { CountInjective(ws, j, i); } else if i < j { CountInjective(ws, i, j); }
    }
  }

  lemma Removed<T>(ws: seq<Word>, elements: seq<T>, i: nat)
    requires Fits(ws, elements) && BitAt(ws, i) && i < SLOTS
    ensures Count(ws, i) < |elements|
    ensures Fits(ClearBitAt(ws, i), RemovedFrom(elements, Count(ws, i)))
    ensures Contents(ClearBitAt(ws, i), RemovedFrom(elements, Count(ws, i))) == Contents(ws, elements) - {i}
  {
    RemovedFits(ws, elements, i);
    var was, now := Contents(ws, elements), Contents(ClearBitAt(ws, i), RemovedFrom(elements, Count(ws, i)));
    forall j: nat ensures (j in now <==> j in was && j != i) && (j in now ==> now[j] == was[j]) {
      RemovedAt(ws, elements, i, j);
    }
    MapWithout(was, now, i);
  }

  /** `entries` lists, in slot order, the slots of `m` above `after` with their elements. */
  ghost predicate Enumerates<T(!new)>(m: map<nat, T>, after: int, entries: seq<(nat, T)>) {
    && (forall k :: 0 <= k < |entries| ==> entries[k].0 > after && entries[k].0 in m && entries[k].1 == m[entries[k].0])
    && (forall k, l :: 0 <= k < l < |entries| ==> entries[k].0 < entries[l].0)
    && (forall i :: i in m && i > after ==> exists k :: 0 <= k < |entries| && entries[k].0 == i)
  }

  class Array256<T(!new)> {
    var bitset: seq<Word>
    var storage: seq<T>

    ghost predicate Valid()
      reads this
    {
      Fits(bitset, storage)
    }

    ghost function View(): map<nat, T>
      requires Valid()
      reads this
    {
      Contents(bitset, storage)
    }

    constructor ()
      ensures Valid() && View() == map[]
    {
      bitset, storage := [0, 0, 0, 0], [];
      new;
      Nothing();
    }

    lemma Nothing()
      requires bitset == [0, 0, 0, 0] && storage == []
      ensures Valid() && View() == map[]
    {
      forall j: nat ensures !BitAt(bitset, j) {
        BitOfZero(j % 64);
      }
      CountFlat(bitset, 0, 64 * |bitset|);
    }

    predicate Test(i: nat)
      requires |bitset| == 4 && i < SLOTS
      reads this
    {
      TestBit(bitset, i)
    }

    /** Where slot `i` keeps its element, once its bit is set. */
    method StorageIndex(i: nat) returns (r: nat)
      requires BitAt(bitset, i)
      ensures r == Count(bitset, i)
    {
      r := Rank(bitset, i);
      r := r - 1;
    }

    method Get(i: nat) returns (r: Option<T>)
      requires Valid() && i < SLOTS
      ensures r == if i in View() then Some(View()[i]) else None
    {
      TestBitSpec(bitset, i);
      if Test(i) {
        var at := StorageIndex(i);
        CountInjective(bitset, i, 64 * |bitset|);
        r := Some(storage[at]);
      } else {
        r := None;
      }
    }

    method Insert(i: nat, e: T) returns (was: Option<T>)
      requires Valid() && i < SLOTS
      modifies this
      ensures Valid() && View() == old(View())[i := e]
      ensures was == if i in old(View()) then Some(old(View())[i]) else None
    {
      TestBitSpec(bitset, i);
      if Test(i) {
        var at := StorageIndex(i);
        Replaced(bitset, storage, i, e);
        was := Some(storage[at]);
        storage := storage[at := e];
      } else {
        Inserted(bitset, storage, i, e);
        CountSet(bitset, i, i);
        SetBitAtSpec(bitset, i, i);
        bitset := SetBitAt(bitset, i);
        var at := StorageIndex(i);
        storage := InsertedIn(storage, at, e);
        was := None;
      }
    }

    method Remove(i: nat) returns (was: Option<T>)
      requires Valid() && i < SLOTS
      modifies this
      ensures Valid() && View() == old(View()) - {i}
      ensures was == if i in old(View()) then Some(old(View())[i]) else None
    {
      TestBitSpec(bitset, i);
      if BitAt(bitset, i) { CountInjective(bitset, i, 64 * |bitset|); }
      if |storage| == 0 || !Test(i) {
        assert View() - {i} == View();
        return None;
      }
      Removed(bitset, storage, i);
      var at := StorageIndex(i);
      was := Some(storage[at]);
      storage := RemovedFrom(storage, at);
      bitset := ClearBitAt(bitset, i);
    }

    method Clear()
      modifies this
      ensures Valid() && View() == map[]
    {
      bitset, storage := [0, 0, 0, 0], [];
      Nothing();
    }

    /** All entries: the set bits side by side with the elements. */
    method Iter() returns (entries: seq<(nat, T)>)
      requires Valid()
      ensures Enumerates(View(), -1, entries)
    {
      var list := Bits(bitset);
      var elements := storage;
      entries := seq(|list|, k requires 0 <= k < |list| <= |elements| => (list[k], elements[k]));
      Listed(list, entries);
    }

    lemma Listed(list: seq<nat>, entries: seq<(nat, T)>)
      requires Valid() && Lists(bitset, list) && |list| == |storage| == |entries|
      requires forall k :: 0 <= k < |list| ==> entries[k] == (list[k], storage[k])
      ensures Enumerates(View(), -1, entries)
    {
      ListsAll(bitset, list, 0);
      forall i | i in View() ensures exists k :: 0 <= k < |entries| && entries[k].0 == i {
        ListsAll(bitset, list, i);
        var k :| 0 <= k < |list| && list[k] == i;
        assert entries[k].0 == i;
      }
    }

    /** The entries above slot `n`, each looked up by rank. */
    method IterAfter(n: nat) returns (entries: seq<(nat, T)>)
      requires Valid() && n < SLOTS
      ensures Enumerates(View(), n, entries)
    {
      var list := BitsAfter(bitset, n);
      entries := [];
      for k := 0 to |list|
        invariant |entries| == k
        invariant forall l :: 0 <= l < k ==> list[l] in View() && entries[l] == (list[l], View()[list[l]])
      {
        assert list[k] in list;
        CountInjective(bitset, list[k], 64 * |bitset|);
        var at := StorageIndex(list[k]);
        entries := entries + [(list[k], storage[at])];
      }
      forall i | i in View() && i > n ensures exists k :: 0 <= k < |entries| && entries[k].0 == i {
        var k :| 0 <= k < |list| && list[k] == i;
        assert entries[k].0 == i;
      }
    }
  }
}
