/**
  What a reader sees of a base table with its secondary indexes, and when a write
  keeps the indexes the inverse of the table.

  An index is itself a table, from an extracted key to the primary key.  Every
  write of the base table takes the old value's keys out of each index and puts
  the new value's keys in.
 */
module IndexViews {
  import opened Common

  /** What a reader sees: the rows, and one map from extracted key to row key per index. */
  datatype TableView<K, V, IK> = TableView(rows: map<K, V>, indexes: seq<map<IK, K>>)

  type Extractors<!V, !IK> = seq<V -> seq<IK>>

  function Put<IK, K>(m: map<IK, K>, iks: seq<IK>, k: K): map<IK, K> {
    m + map ik | ik in iks :: k
  }

  function Drop<IK, K>(m: map<IK, K>, iks: seq<IK>): map<IK, K> {
    m - set ik | ik in iks
  }

  function PutAll<IK, K, V>(ms: seq<map<IK, K>>, ex: Extractors<V, IK>, k: K, v: V): (r: seq<map<IK, K>>)
    requires |ms| == |ex|
  {
    seq(|ms|, j requires 0 <= j < |ms| => Put(ms[j], ex[j](v), k))
  }

  function DropAll<IK, K, V>(ms: seq<map<IK, K>>, ex: Extractors<V, IK>, v: V): (r: seq<map<IK, K>>)
    requires |ms| == |ex|
  {
    seq(|ms|, j requires 0 <= j < |ms| => Drop(ms[j], ex[j](v)))
  }

  /** Writing a row: the old value's keys leave each index, then the new value's keys enter. */
  function InsertRow<K, V, IK>(c: TableView<K, V, IK>, ex: Extractors<V, IK>, k: K, v: V): TableView<K, V, IK>
    requires |c.indexes| == |ex|
  {
    var dropped := if k in c.rows then DropAll(c.indexes, ex, c.rows[k]) else c.indexes;
    TableView(c.rows[k := v], PutAll(dropped, ex, k, v))
  }

  /** What a write does to every row and every index entry, whether or not the indexes agree. */
  lemma InsertReads<K, V, IK>(c: TableView<K, V, IK>, ex: Extractors<V, IK>, k: K, v: V, i: K, j: nat, ik: IK)
    requires |c.indexes| == |ex| && j < |ex|
    ensures var c' := InsertRow(c, ex, k, v);
            && Find(c'.rows, i) == (if i == k then Some(v) else Find(c.rows, i))
            && |c'.indexes| == |ex|
            && Find(c'.indexes[j], ik) ==
               if ik in ex[j](v) then Some(k)
               else if k in c.rows && ik in ex[j](c.rows[k]) then None
               else Find(c.indexes[j], ik)
  {
  }

  /** Removing a row, reporting `doomed` to the indexes. */
  function RemoveRow<K, V, IK>(c: TableView<K, V, IK>, ex: Extractors<V, IK>, k: K, doomed: Option<V>)
    : TableView<K, V, IK>
    requires |c.indexes| == |ex|
  {
    TableView(c.rows - {k}, if doomed.Some? then DropAll(c.indexes, ex, doomed.value) else c.indexes)
  }

  /** What a removal does to every row and every index entry, whether or not the indexes agree. */
  lemma RemoveReads<K, V, IK>(c: TableView<K, V, IK>, ex: Extractors<V, IK>, k: K, doomed: Option<V>, i: K, j: nat,
                              ik: IK)
    requires |c.indexes| == |ex| && j < |ex|
    ensures var c' := RemoveRow(c, ex, k, doomed);
            && Find(c'.rows, i) == (if i == k then None else Find(c.rows, i))
            && |c'.indexes| == |ex|
            && Find(c'.indexes[j], ik) ==
               if doomed.Some? && ik in ex[j](doomed.value) then None else Find(c.indexes[j], ik)
  {
  }

  function ClearRows<K, V, IK>(c: TableView<K, V, IK>): TableView<K, V, IK> {
    TableView(map[], seq(|c.indexes|, _ => map[]))
  }

  /** The contents of a table nothing was ever written to. */
  function Nothing<K, V, IK>(ex: Extractors<V, IK>): TableView<K, V, IK> {
    TableView(map[], seq(|ex|, _ => map[]))
  }

  /** Index `j` is exactly the inverse of the rows under its extractor. */
  ghost predicate Inverse<K(!new), V, IK(!new)>(rows: map<K, V>, index: map<IK, K>, ex: V -> seq<IK>) {
    forall ik, k :: (ik in index && index[ik] == k) <==> (k in rows && ik in ex(rows[k]))
  }

  ghost predicate IndexesAgree<K(!new), V, IK(!new)>(c: TableView<K, V, IK>, ex: Extractors<V, IK>) {
    |c.indexes| == |ex| && forall j :: 0 <= j < |ex| ==> Inverse(c.rows, c.indexes[j], ex[j])
  }

  /** Every extracted key identifies one row. */
  ghost predicate UniqueKeys<K(!new), V, IK(!new)>(rows: map<K, V>, ex: Extractors<V, IK>) {
    forall j, k, k', ik ::
      0 <= j < |ex| && k in rows && k' in rows && ik in ex[j](rows[k]) && ik in ex[j](rows[k']) ==> k == k'
  }

  lemma AgreeImpliesUnique<K(!new), V, IK(!new)>(c: TableView<K, V, IK>, ex: Extractors<V, IK>)
    requires IndexesAgree(c, ex)
    ensures UniqueKeys(c.rows, ex)
  {
    forall j, k, k', ik |
        0 <= j < |ex| && k in c.rows && k' in c.rows && ik in ex[j](c.rows[k]) && ik in ex[j](c.rows[k'])
      ensures k == k'
    {
      assert Inverse(c.rows, c.indexes[j], ex[j]);
      assert c.indexes[j][ik] == k && c.indexes[j][ik] == k';
    }
  }

  /** A write keeps the indexes inverse to the rows exactly when it keeps extracted keys unique. */
  lemma InsertAgrees<K(!new), V, IK(!new)>(c: TableView<K, V, IK>, ex: Extractors<V, IK>, k: K, v: V)
    requires IndexesAgree(c, ex)
    ensures IndexesAgree(InsertRow(c, ex, k, v), ex) <==> UniqueKeys(c.rows[k := v], ex)
  {
    var c' := InsertRow(c, ex, k, v);
    if IndexesAgree(c', ex) {
      AgreeImpliesUnique(c', ex);
    }
    if UniqueKeys(c'.rows, ex) {
      forall j | 0 <= j < |ex|
        ensures Inverse(c'.rows, c'.indexes[j], ex[j])
      {
        InsertInverse(c, ex, k, v, j);
      }
    }
  }

  lemma InsertInverse<K(!new), V, IK(!new)>(c: TableView<K, V, IK>, ex: Extractors<V, IK>, k: K, v: V, j: nat)
    requires |c.indexes| == |ex| && j < |ex|
    requires Inverse(c.rows, c.indexes[j], ex[j]) && UniqueKeys(c.rows[k := v], ex)
    ensures Inverse(c.rows[k := v], InsertRow(c, ex, k, v).indexes[j], ex[j])
  {
    var rows, m' := c.rows[k := v], InsertRow(c, ex, k, v).indexes[j];
    var m := c.indexes[j];
    forall ik, i
      ensures (ik in m' && m'[ik] == i) <==> (i in rows && ik in ex[j](rows[i]))
    {
      if ik in ex[j](v) {
        assert m'[ik] == k;
        assert k in rows && ik in ex[j](rows[k]);
      } else if k in c.rows && ik in ex[j](c.rows[k]) {
        assert ik !in m';
        assert m[ik] == k;
      } else {
        assert (ik in m' && m'[ik] == i) <==> (ik in m && m[ik] == i);
      }
    }
  }

  /**
    Removing a visible row keeps the indexes inverse to the rows.  Removing a row
    the mask already hides does so exactly when no live row is found under a key
    of the hidden value.
   */
  lemma RemoveAgrees<K(!new), V, IK(!new)>(c: TableView<K, V, IK>, ex: Extractors<V, IK>, k: K, doomed: Option<V>)
    requires IndexesAgree(c, ex)
    requires k in c.rows ==> doomed == Some(c.rows[k])
    ensures IndexesAgree(RemoveRow(c, ex, k, doomed), ex) <==>
            (k !in c.rows && doomed.Some? ==>
               forall j, ik :: 0 <= j < |ex| && ik in ex[j](doomed.value) ==> ik !in c.indexes[j])
  {
    if k in c.rows {
      RemoveVisible(c, ex, k);
    } else if doomed.Some? {
      RemoveHidden(c, ex, k, doomed.value);
    }
  }

  lemma RemoveVisible<K(!new), V, IK(!new)>(c: TableView<K, V, IK>, ex: Extractors<V, IK>, k: K)
    requires IndexesAgree(c, ex) && k in c.rows
    ensures IndexesAgree(RemoveRow(c, ex, k, Some(c.rows[k])), ex)
  {
    var c' := RemoveRow(c, ex, k, Some(c.rows[k]));
    forall j | 0 <= j < |ex|
      ensures Inverse(c'.rows, c'.indexes[j], ex[j])
    {
      assert Inverse(c.rows, c.indexes[j], ex[j]);
    }
  }

  lemma RemoveHidden<K(!new), V, IK(!new)>(c: TableView<K, V, IK>, ex: Extractors<V, IK>, k: K, v: V)
    requires IndexesAgree(c, ex) && k !in c.rows
    ensures IndexesAgree(RemoveRow(c, ex, k, Some(v)), ex) <==>
            forall j, ik :: 0 <= j < |ex| && ik in ex[j](v) ==> ik !in c.indexes[j]
  {
    var c' := RemoveRow(c, ex, k, Some(v));
    assert c'.rows == c.rows;
    forall j | 0 <= j < |ex|
      ensures Inverse(c'.rows, c'.indexes[j], ex[j]) <==> forall ik :: ik in ex[j](v) ==> ik !in c.indexes[j]
    {
      DropInverse(c.rows, c.indexes[j], ex[j], ex[j](v));
    }
  }

  /** Taking keys out of an index keeps it the inverse exactly when they were not in it. */
  lemma DropInverse<K(!new), V, IK(!new)>(rows: map<K, V>, index: map<IK, K>, ex: V -> seq<IK>, iks: seq<IK>)
    requires Inverse(rows, index, ex)
    ensures Inverse(rows, Drop(index, iks), ex) <==> forall ik :: ik in iks ==> ik !in index
  {
    if ik :| ik in iks && ik in index {
      var k := index[ik];
      assert k in rows && ik in ex(rows[k]) && ik !in Drop(index, iks);
    } else {
      assert Drop(index, iks) == index;
    }
  }

  lemma NothingAgrees<K(!new), V, IK(!new)>(ex: Extractors<V, IK>)
    ensures IndexesAgree(Nothing<K, V, IK>(ex), ex)
  {
  }

  lemma ClearAgrees<K(!new), V, IK(!new)>(c: TableView<K, V, IK>, ex: Extractors<V, IK>)
    requires |c.indexes| == |ex|
    ensures IndexesAgree(ClearRows(c), ex)
  {
  }

  /** The rows that do not bear index key `ik`. */
  function NotBearing<K, V, IK(==)>(rows: map<K, V>, ex: V -> seq<IK>, ik: IK): map<K, V> {
    map k | k in rows && ik !in ex(rows[k]) :: rows[k]
  }

  /** The rows with those bearing index key `ik` mutated. */
  function MutateBearing<K, V, IK(==)>(rows: map<K, V>, ex: V -> seq<IK>, ik: IK, f: V -> V): map<K, V> {
    map k | k in rows :: if ik in ex(rows[k]) then f(rows[k]) else rows[k]
  }

  /** In an index that agrees, a key leads to the one row bearing it. */
  lemma BearerIs<K(!new), V, IK(!new)>(c: TableView<K, V, IK>, ex: Extractors<V, IK>, j: nat, ik: IK, f: V -> V)
    requires IndexesAgree(c, ex) && j < |ex|
    ensures ik !in c.indexes[j] ==>
              NotBearing(c.rows, ex[j], ik) == c.rows && MutateBearing(c.rows, ex[j], ik, f) == c.rows
    ensures ik in c.indexes[j] ==>
              var k := c.indexes[j][ik];
              && k in c.rows && ik in ex[j](c.rows[k])
              && NotBearing(c.rows, ex[j], ik) == c.rows - {k}
              && MutateBearing(c.rows, ex[j], ik, f) == c.rows[k := f(c.rows[k])]
  {
    assert Inverse(c.rows, c.indexes[j], ex[j]);
    forall k | k in c.rows && ik in ex[j](c.rows[k])
      ensures ik in c.indexes[j] && c.indexes[j][ik] == k
    {
    }
  }
}
