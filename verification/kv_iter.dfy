/** Iteration over a table, and over a base table through one of its indexes. */
module Iterators {
  import opened Common
  import opened VersionedValues
  import opened Tables
  import opened IndexViews
  import opened Passes

  /** The rows of `view` in the order of `keys`. */
  function Listing<K(==), V>(keys: seq<K>, view: map<K, V>): seq<(K, V)> {
    if keys == [] then []
    else
      var last := keys[|keys| - 1];
      Listing(keys[..|keys| - 1], view) + if last in view then [(last, view[last])] else []
  }


  /** A listing in any order of keys without repeats yields every row exactly once. */
  lemma {:induction false} ListsOnce<K(!new), V(!new)>(keys: seq<K>, view: map<K, V>)
    requires NoRepeats(keys)
    ensures forall k, v :: (k, v) in Listing(keys, view) <==> k in keys && k in view && view[k] == v
    ensures forall i, j :: 0 <= i < j < |Listing(keys, view)| ==> Listing(keys, view)[i].0 != Listing(keys, view)[j].0
    decreases |keys|
  {
    if keys != [] {
      var init, last := keys[..|keys| - 1], keys[|keys| - 1];
      ListsOnce(init, view);
      assert keys == init + [last];
      var l := Listing(init, view);
      assert forall i :: 0 <= i < |l| ==> (l[i].0, l[i].1) in l;
    }
  }

  /** An arbitrary order of a set's elements, as a hash map gives. */
  method Enumerate<K(==)>(s: set<K>) returns (keys: seq<K>)
    ensures NoRepeats(keys) && forall k :: k in keys <==> k in s
  {
    keys := [];
    var todo := s;
    while todo != {}
      invariant NoRepeats(keys)
      invariant forall k :: k in s <==> k in keys || k in todo
      invariant forall k :: k in keys ==> k !in todo
      decreases todo
    {
      var k :| k in todo;
      keys := keys + [k];
      todo := todo - {k};
    }
  }

  class TableIterator<K(==, !new), V(!new)> {
    const rows: Rows<K, V>
    const mask: DeleteMask<K, V>
    const txn: TxnId
    const order: seq<K>
    var pos: nat
    /** What the iterator ranges over, and what it has yielded so far. */
    ghost const view: map<K, V>
    ghost var yielded: seq<(K, V)>

    /** Whether the row at `k` of the underlying hash map is shown. */
    function Shown(k: K): Option<V>
      requires k in rows
    {
      if mask.Removed? && k in mask.keys then None else rows[k].Get(txn)
    }

    ghost predicate Valid()
      reads this
    {
      && NoRepeats(order) && (forall k :: k in order <==> k in rows)
      && (forall k :: k in view <==> k in rows && Shown(k).Some?)
      && (forall k :: k in view ==> view[k] == Shown(k).value)
      && pos <= |order|
      && yielded == Listing(order[..pos], view)
    }

    constructor (t: Table<K, V>, txn: TxnId, ghost max: TxnId)
      requires t.CanRead(txn, max)
      ensures Valid() && view == t.View(txn) && yielded == []
    {
      var data := if t.mask.All? then t.mask.rows else t.data;
      var keys := Enumerate(data.Keys);
      rows, mask, this.txn, order := data, t.mask, txn, keys;
      pos, yielded, view := 0, [], t.View(txn);
    }

    /** The next visible row; at the end, every visible row has been yielded. */
    method Next() returns (r: Option<(K, V)>)
      requires Valid()
      modifies this
      ensures Valid()
      ensures r.Some? ==> yielded == old(yielded) + [r.value] && pos > old(pos)
      ensures r.None? ==> yielded == old(yielded) && pos == |order|
    {
      while pos < |order|
        invariant Valid() && pos >= old(pos) && yielded == old(yielded)
      {
        var k := order[pos];
        assert order[..pos + 1][..pos] == order[..pos];
        assert k in order;
        pos := pos + 1;
        if Shown(k).Some? {
          r := Some((k, Shown(k).value));
          yielded := yielded + [r.value];
          return;
        }
      }
      r := None;
    }
  }

  /** Draining an iterator yields each visible row once, and nothing else. */
  method CollectRows<K(==, !new), V(!new)>(t: Table<K, V>, txn: TxnId, ghost max: TxnId) returns (out: seq<(K, V)>)
    requires t.CanRead(txn, max)
    ensures forall k, v :: (k, v) in out <==> k in t.View(txn) && t.View(txn)[k] == v
    ensures forall i, j :: 0 <= i < j < |out| ==> out[i].0 != out[j].0
  {
    var it := new TableIterator(t, txn, max);
    out := [];
    var r := it.Next();
    while r.Some?
      invariant it.Valid() && fresh(it) && it.view == t.View(txn)
      invariant it.yielded == out + (if r.Some? then [r.value] else [])
      invariant r.None? ==> it.pos == |it.order|
      decreases |it.order| - it.pos, r.Some?
    {
      out := out + [r.value];
      r := it.Next();
    }
    assert it.order[..|it.order|] == it.order;
    assert out == Listing(it.order, it.view);
    ListsOnce(it.order, it.view);
  }

  class IndexIterator<K(==, !new), V(!new), IK(==, !new)> {
    const base: Table<K, V>
    const inner: TableIterator<IK, K>
    const txn: TxnId

    constructor (base: Table<K, V>, index: Table<IK, K>, txn: TxnId, ghost max: TxnId)
      requires index.CanRead(txn, max)
      ensures this.base == base && this.txn == txn && fresh(inner)
      ensures inner.Valid() && inner.view == index.View(txn) && inner.yielded == []
    {
      this.base, this.txn := base, txn;
      inner := new TableIterator(index, txn, max);
    }

    /**
      The next index key with the row it points to.  A key that points to no row
      would end the iteration early; when every key points to a row it ends only
      after the whole index.
     */
    method Next() returns (r: Option<(IK, V)>)
      requires inner.Valid()
      modifies inner
      ensures inner.Valid() && inner.pos >= old(inner.pos)
      ensures r.Some? ==>
                && inner.pos > old(inner.pos)
                && exists k :: k in base.View(txn) && r.value.1 == base.View(txn)[k] &&
                     inner.yielded == old(inner.yielded) + [(r.value.0, k)]
      ensures r.None? && AllFound(inner.view, base.View(txn)) ==>
                inner.yielded == old(inner.yielded) && inner.pos == |inner.order|
    {
      var n := inner.Next();
      if n.None? { return None; }
      ghost var (ik, k) := n.value;
      ListsOnce(inner.order[..inner.pos], inner.view);
      assert (ik, k) in inner.yielded;
      var v := base.Get(n.value.1, txn);
      if v.None? { return None; }
      r := Some((n.value.0, v.value));
    }
  }

  /** Every index key points to a row. */
  ghost predicate AllFound<K, V, IK(!new)>(index: map<IK, K>, rows: map<K, V>) {
    forall ik :: ik in index ==> index[ik] in rows
  }

  /** The listing of an index, with each row key resolved to its row. */
  ghost predicate Resolves<K(!new), V, IK(!new)>(out: seq<(IK, V)>, listing: seq<(IK, K)>, rows: map<K, V>) {
    && |out| == |listing|
    && forall i :: 0 <= i < |out| ==>
         out[i].0 == listing[i].0 && listing[i].1 in rows && rows[listing[i].1] == out[i].1
  }

  /** Each row is listed under each of its keys, each key once. */
  ghost predicate ListsByKey<K(!new), V(!new), IK(!new)>(out: seq<(IK, V)>, rows: map<K, V>, ex: V -> seq<IK>) {
    && (forall ik, v :: (ik, v) in out ==> exists k :: k in rows && rows[k] == v && ik in ex(rows[k]))
    && (forall k, ik :: k in rows && ik in ex(rows[k]) ==> (ik, rows[k]) in out)
    && (forall i, j :: 0 <= i < j < |out| ==> out[i].0 != out[j].0)
  }

  lemma ResolvedOnce<K(!new), V(!new), IK(!new)>(out: seq<(IK, V)>, listing: seq<(IK, K)>, rows: map<K, V>,
                                                 index: map<IK, K>, ex: V -> seq<IK>)
    requires Resolves(out, listing, rows) && Inverse(rows, index, ex)
    requires forall ik, k :: (ik, k) in listing <==> ik in index && index[ik] == k
    requires forall i, j :: 0 <= i < j < |listing| ==> listing[i].0 != listing[j].0
    ensures ListsByKey(out, rows, ex)
  {
    forall ik, v | (ik, v) in out
      ensures exists k :: k in rows && rows[k] == v && ik in ex(rows[k])
    {
      var i :| 0 <= i < |out| && out[i] == (ik, v);
      var k := listing[i].1;
      assert (ik, k) in listing;
      assert k in rows && rows[k] == v && ik in ex(rows[k]);
    }
    forall k, ik | k in rows && ik in ex(rows[k])
      ensures (ik, rows[k]) in out
    {
      assert (ik, k) in listing;
      var i :| 0 <= i < |listing| && listing[i] == (ik, k);
      assert out[i] == (ik, rows[k]);
    }
  }

  /**
    When the index is the inverse of the base table, iterating through it never
    stops early: it yields every row under each of its keys, each key once.
   */
  method CollectByIndex<K(==, !new), V(!new), IK(==, !new)>(
      base: Table<K, V>, index: Table<IK, K>, ghost ex: V -> seq<IK>, txn: TxnId, ghost max: TxnId)
    returns (out: seq<(IK, V)>)
    requires index.CanRead(txn, max)
    ensures Inverse(base.View(txn), index.View(txn), ex) ==> ListsByKey(out, base.View(txn), ex)
  {
    var it := new IndexIterator(base, index, txn, max);
    out := DrainIndex(it);
    ghost var rows, keys := base.View(txn), index.View(txn);
    if Inverse(rows, keys, ex) {
      InverseFinds(rows, keys, ex);
      assert it.inner.order[..|it.inner.order|] == it.inner.order;
      ListsOnce(it.inner.order, keys);
      ResolvedOnce(out, it.inner.yielded, rows, keys, ex);
    }
  }

  method DrainIndex<K(==, !new), V(!new), IK(==, !new)>(it: IndexIterator<K, V, IK>) returns (out: seq<(IK, V)>)
    requires it.inner.Valid() && it.inner.yielded == [] && it.inner as object != it.base
    modifies it.inner
    ensures it.inner.Valid()
    ensures AllFound(it.inner.view, it.base.View(it.txn)) ==>
              Resolves(out, it.inner.yielded, it.base.View(it.txn)) && it.inner.pos == |it.inner.order|
  {
    out := [];
    ghost var rows, keys := it.base.View(it.txn), it.inner.view;
    var r := it.Next();
    while r.Some?
      invariant it.inner.Valid() && it.base.View(it.txn) == rows
      invariant r.Some? ==> Resolves(out + [r.value], it.inner.yielded, rows)
      invariant r.None? && AllFound(keys, rows) ==>
                  Resolves(out, it.inner.yielded, rows) && it.inner.pos == |it.inner.order|
      decreases |it.inner.order| - it.inner.pos, r.Some?
    {
      out := out + [r.value];
      r := it.Next();
    }
  }

  lemma InverseFinds<K(!new), V(!new), IK(!new)>(rows: map<K, V>, index: map<IK, K>, ex: V -> seq<IK>)
    requires Inverse(rows, index, ex)
    ensures AllFound(index, rows)
  {
  }
}
