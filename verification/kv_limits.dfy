/** Three places where the store's code falls short of its promise, each shown on a concrete run. */
module Limits {
  import opened Common
  import opened VersionedValues
  import opened Tables
  import opened IndexViews
  import opened Passes
  import opened IndexedTables

  /** A version of transaction 2 and one committed before it, both reading `v`. */
  ghost predicate Stale<V>(vv: VersionedValue<V>, v: V) {
    vv.WellFormed(2, 1) && vv.Holds(2) && vv.Get(2) == Some(v) && vv.Get(1) == Some(v)
  }

  /** A table with one committed row, in transaction 2. */
  method OneRow<K(==, !new), V(!new), IK(==, !new)>(k: K, v: V, ex: Extractors<V, IK>)
    returns (t: IndexedTable<K, V, IK>)
    ensures fresh(t.repr) && t.extract == ex && t.Valid(2, 1)
    ensures t.Sees(2) == t.Sees(1) == InsertRow(Nothing(ex), ex, k, v)
    ensures t.base.TrailAt(2) == Trail(false, {}, map[k := v])
  {
    t := new IndexedTable<K, V, IK>(ex);
    t.BlankValid();
    t.Insert(k, v, 1, 1);
    t.BeginValid(1, 2);
    assert t.Sees(1).rows == map[k := v];
  }

  /** Transaction 2 deletes the row. */
  method OneDeleted<K(==, !new), V(!new), IK(==, !new)>(k: K, v: V, ex: Extractors<V, IK>)
    returns (t: IndexedTable<K, V, IK>)
    ensures fresh(t.repr) && t.extract == ex && t.Valid(2, 1)
    ensures t.Sees(1) == InsertRow(Nothing(ex), ex, k, v) && t.Sees(2) == RemoveRow(t.Sees(1), ex, k, Some(v))
    ensures t.base.TrailAt(2) == Trail(false, {}, map[k := v])
  {
    t := OneRow(k, v, ex);
    t.Remove(k, 2, 1);
  }

  /** Transaction 2 deletes the row and runs `for_each_mut`. */
  method DeleteThenPass<K(==, !new), V(!new)>(k: K, v: V) returns (t: IndexedTable<K, V, K>)
    ensures fresh(t.repr) && t.CanRead(2, 1) && t.base.data.Keys == {k} && Stale(t.base.data[k], v)
    ensures !Recorded(t.base.modified, k) && !t.base.mask.All?
  {
    t := OneDeleted(k, v, []);
    assert t.Sees(1).rows == map[k := v] && t.Sees(2).rows == map[];
    PassOver(t, k, v);
    Leftover(t, k, v);
  }

  /** A pass over a table whose only row was deleted and is not on record. */
  method PassOver<K(==, !new), V(!new)>(t: IndexedTable<K, V, K>, k: K, v: V)
    requires t.Valid(2, 1) && t.Sees(2).rows == map[] && t.base.TrailAt(2) == Trail(false, {}, map[k := v])
    modifies t.base, t.indexes
    ensures t.CanRead(2, 1) && !t.Valid(2, 1) && t.Sees(1) == old(t.Sees(1))
    ensures t.base.TrailAt(2) == Trail(false, {}, map[k := v])
  {
    assert k in t.base.TrailAt(2).under;
    var f := (_: K, x: V) => x;
    assert MapRows(t.Sees(2).rows, t.Sees(2).rows.Keys, f) == map[];
    assert map[k := v] + map[] == map[k := v];
    ghost var _ := t.ForEachMut(f, 2, 1);
  }

  /** A deleted row that is not on record: the pass has cloned it, and the record does not know. */
  lemma Leftover<K(!new), V(!new)>(t: IndexedTable<K, V, K>, k: K, v: V)
    requires t.CanRead(2, 1) && !t.Valid(2, 1)
    requires t.base.TrailAt(2).under == map[k := v] && !t.base.TrailAt(2).cleared && t.base.View(1) == map[k := v]
    ensures t.base.data.Keys == {k} && Stale(t.base.data[k], v) && !Recorded(t.base.modified, k)
  {
    var b := t.base;
    StoredRows(b.data, b.mask, b.modified, 2, 1);
    assert b.data.Keys == {k};
    assert ViewOf(b.data, NoMask, 2)[k] == v && b.View(1)[k] == v;
    assert !Tracked(b.data, b.modified, 2);
  }

  lemma StaleReads<V>(vv: VersionedValue<V>, v0: V, v1: V)
    requires Stale(vv, v0)
    ensures vv.Set(v1, 1).Get(1) == Some(v1) && vv.Set(v1, 1).Get(3) == Some(v0)
  {
  }

  /**
    Deleting a row and then running `for_each_mut` in the same transaction leaves
    the deleted row's clone behind on rollback.  A later committed write is then
    invisible to the next transaction, which reads the stale clone.
    `IndexedTable.ForEachMut` says exactly when this cannot happen.
   */
  method StaleAfterRollback<K(==, !new), V(!new)>(k: K, v0: V, v1: V)
    returns (committed: Option<V>, nextTransaction: Option<V>)
    ensures committed == Some(v1)
    ensures nextTransaction == Some(v0)
  {
    var t := DeleteThenPass(k, v0);
    t.GcTxn(2, 1);
    assert k in t.base.data && Stale(t.base.data[k], v0);
    StaleReads(t.base.data[k], v0, v1);
    t.base.Insert(k, v1, 1, 1);
    committed := t.base.Get(k, 1);
    nextTransaction := t.base.Get(k, 3);
  }

  /**
    A pass of `for_each_mut` that gives the first row the key of the second, and the
    second a new key: keys are unique before and after it, and the first row is
    lost from the index.  `PassAgrees` says exactly when this cannot happen.
   */
  lemma PassLosesRow<K(!new), V(!new)>(k1: K, k2: K, a: V, b: V, c: V, ex: V -> seq<V>, f: (K, V) -> V)
    requires k1 != k2 && a != b && b != c && a != c && (forall x :: ex(x) == [x])
    requires f(k1, a) == b && f(k2, b) == c
    ensures var before := TableView(map[k1 := a, k2 := b], [map[a := k1, b := k2]]);
            var after := Pass(before, [ex], [k1, k2], f);
            && IndexesAgree(before, [ex])
            && after.rows == map[k1 := b, k2 := c] && UniqueKeys(after.rows, [ex])
            && b !in after.indexes[0] && !IndexesAgree(after, [ex])
  {
    var before := TableView(map[k1 := a, k2 := b], [map[a := k1, b := k2]]);
    var one, after := VisitRow(before, [ex], k1, f), Pass(before, [ex], [k1, k2], f);
    PassTwo(before, [ex], k1, k2, f);
    assert one.rows == map[k1 := b, k2 := b];
    DroppedKey(one, ex, k2, f, b);
    assert after.rows == map[k1 := b, k2 := c];
    BothIndexed(k1, k2, a, b, ex);
    LostDisagrees(after, [ex], 0, k1, b);
  }

  lemma BothIndexed<K(!new), V(!new)>(k1: K, k2: K, a: V, b: V, ex: V -> seq<V>)
    requires k1 != k2 && a != b && ex(a) == [a] && ex(b) == [b]
    ensures IndexesAgree(TableView(map[k1 := a, k2 := b], [map[a := k1, b := k2]]), [ex])
  {
    assert Inverse(map[k1 := a, k2 := b], map[a := k1, b := k2], ex);
  }

  lemma PassTwo<K(!new), V, IK(!new)>(c: TableView<K, V, IK>, ex: Extractors<V, IK>, k1: K, k2: K, f: (K, V) -> V)
    requires |c.indexes| == |ex|
    ensures Pass(c, ex, [k1, k2], f) == VisitRow(VisitRow(c, ex, k1, f), ex, k2, f)
  {
    assert [k1, k2][..1] == [k1] && [k1][..0] == [];
    assert Pass(c, ex, [k1], f) == VisitRow(c, ex, k1, f);
  }

  /** Visiting a row that gives up a key takes the key out of the index, whoever it leads to. */
  lemma DroppedKey<K(!new), V>(c: TableView<K, V, V>, ex: V -> seq<V>, k: K, f: (K, V) -> V, ik: V)
    requires |c.indexes| == 1 && k in c.rows && ik in ex(c.rows[k]) && ik !in ex(f(k, c.rows[k]))
    ensures ik !in VisitRow(c, [ex], k, f).indexes[0]
  {
  }

  /** In one transaction, move the only row from `k1` to `k2`, keeping its indexed value. */
  method MoveRow<K(==, !new), V(==, !new)>(k1: K, k2: K, v: V, ex: V -> seq<V>) returns (t: IndexedTable<K, V, V>)
    requires k1 != k2 && ex(v) == [v]
    ensures fresh(t.repr)
    ensures t.extract == [ex] && t.Valid(2, 1)
    ensures t.Sees(2) == TableView(map[k2 := v], [map[v := k2]])
    ensures t.base.TrailAt(2) == Trail(false, {k2}, map[k1 := v, k2 := v])
  {
    t := OneDeleted(k1, v, [ex]);
    Moved(ex, k1, k2, v);
    t.Insert(k2, v, 2, 1);
  }

  lemma Moved<K(!new), V(!new)>(ex: V -> seq<V>, k1: K, k2: K, v: V)
    requires k1 != k2 && ex(v) == [v]
    ensures var one := InsertRow(Nothing<K, V, V>([ex]), [ex], k1, v);
            var two := InsertRow(RemoveRow(one, [ex], k1, Some(v)), [ex], k2, v);
            && two == TableView(map[k2 := v], [map[v := k2]])
            && RemoveRow(two, [ex], k1, Some(v)) == TableView(map[k2 := v], [map[]])
    ensures Trail(false, {}, map[k1 := v]).With(map[k2 := v]) == Trail(false, {k2}, map[k1 := v, k2 := v])
  {
    var none := Nothing<K, V, V>([ex]);
    InsertOne(none, [ex], k1, v);
    var one := InsertRow(none, [ex], k1, v);
    RemoveOne(one, [ex], k1, v);
    var gone := RemoveRow(one, [ex], k1, Some(v));
    assert gone == TableView(map[], [map[]]);
    InsertOne(gone, [ex], k2, v);
    var two := InsertRow(gone, [ex], k2, v);
    assert two == TableView(map[k2 := v], [map[v := k2]]);
    RemoveOne(two, [ex], k1, v);
    assert map[k1 := v] + map[k2 := v] == map[k1 := v, k2 := v];
  }

  /**
    Removing a row twice in one transaction takes another row out of the index:
    the second removal reports the hidden value, whose key now belongs to a
    different row.  `RemoveAgrees` says exactly when a removal is harmless.
   */
  method DoubleRemoveDropsOther<K(==, !new), V(==, !new)>(k1: K, k2: K, v: V)
    returns (row: Option<V>, byIndex: Option<K>)
    requires k1 != k2
    ensures row == Some(v)
    ensures byIndex == None
  {
    var ex := (x: V) => [x];
    var t := MoveRow(k1, k2, v, ex);
    Moved(ex, k1, k2, v);
    t.Remove(k1, 2, 1);
    row, byIndex := ReadBoth(t, k2, v);
  }

  method ReadBoth<K(==, !new), V(==, !new)>(t: IndexedTable<K, V, V>, k: K, ik: V)
    returns (row: Option<V>, byIndex: Option<K>)
    requires t.CanRead(2, 1) && |t.indexes| == 1
    ensures row == if k in t.Sees(2).rows then Some(t.Sees(2).rows[k]) else None
    ensures byIndex == if ik in t.Sees(2).indexes[0] then Some(t.Sees(2).indexes[0][ik]) else None
  {
    ViewsAt(t.indexes, 2);
    row := t.base.Get(k, 2);
    byIndex := t.indexes[0].Get(ik, 2);
  }

  lemma InsertOne<K, V>(c: TableView<K, V, V>, ex: Extractors<V, V>, k: K, v: V)
    requires |c.indexes| == |ex| == 1 && ex[0](v) == [v] && k !in c.rows
    ensures InsertRow(c, ex, k, v) == TableView(c.rows[k := v], [c.indexes[0][v := k]])
  {
    assert Put(c.indexes[0], [v], k) == c.indexes[0][v := k];
    assert InsertRow(c, ex, k, v).indexes == [c.indexes[0][v := k]];
  }

  lemma RemoveOne<K, V>(c: TableView<K, V, V>, ex: Extractors<V, V>, k: K, v: V)
    requires |c.indexes| == |ex| == 1 && ex[0](v) == [v]
    ensures RemoveRow(c, ex, k, Some(v)) == TableView(c.rows - {k}, [c.indexes[0] - {v}])
  {
    assert Drop(c.indexes[0], [v]) == c.indexes[0] - {v};
    assert RemoveRow(c, ex, k, Some(v)).indexes == [c.indexes[0] - {v}];
  }
}
