/** A base table and its secondary indexes, each a table of its own. */
module IndexedTables {
  import opened Common
  import opened VersionedValues
  import opened Tables
  import opened IndexViews
  import opened Passes

  ghost function Views<K(!new), V(!new)>(ts: seq<Table<K, V>>, txn: TxnId): (ms: seq<map<K, V>>)
    reads ts
    ensures |ms| == |ts|
  {
    if ts == [] then [] else Views(ts[..|ts| - 1], txn) + [ts[|ts| - 1].View(txn)]
  }

  /** Index by index. */
  lemma {:induction false} ViewsAt<K(!new), V(!new)>(ts: seq<Table<K, V>>, txn: TxnId)
    ensures forall j :: 0 <= j < |ts| ==> Views(ts, txn)[j] == ts[j].View(txn)
    decreases |ts|
  {
    if ts != [] { ViewsAt(ts[..|ts| - 1], txn); }
  }

  lemma ViewsAre<K(!new), V(!new)>(ts: seq<Table<K, V>>, txn: TxnId, ms: seq<map<K, V>>)
    requires |ms| == |ts| && forall j :: 0 <= j < |ts| ==> ms[j] == ts[j].View(txn)
    ensures Views(ts, txn) == ms
  {
    ViewsAt(ts, txn);
  }

  ghost predicate AllValid<K(!new), V(!new)>(ts: seq<Table<K, V>>, txn: TxnId, max: TxnId)
    reads ts
  {
    forall j :: 0 <= j < |ts| ==> ts[j].Valid(txn, max)
  }

  ghost predicate Distinct<K(!new), V(!new)>(ts: seq<Table<K, V>>) {
    forall i, j :: 0 <= i < j < |ts| ==> ts[i] != ts[j]
  }

  class IndexedTable<K(==, !new), V(!new), IK(==, !new)> {
    const base: Table<K, V>
    const indexes: seq<Table<IK, K>>
    const extract: Extractors<V, IK>

    /** The objects the table is made of. */
    ghost const repr: set<object>

    /** The base table and the indexes are separate tables. */
    ghost predicate Wired() {
      && |indexes| == |extract|
      && base in repr && (forall j :: 0 <= j < |indexes| ==> indexes[j] in repr)
      && base as object !in indexes
      && Distinct(indexes)
    }

    ghost predicate Valid(txn: TxnId, max: TxnId)
      reads base, indexes
    {
      Wired() && base.Valid(txn, max) && AllValid(indexes, txn, max)
    }

    /** Valid but for versions of the base table that a rollback would miss. */
    ghost predicate CanRead(txn: TxnId, max: TxnId)
      reads base, indexes
    {
      Wired() && base.CanRead(txn, max) && AllValid(indexes, txn, max)
    }

    ghost function Sees(txn: TxnId): TableView<K, V, IK>
      reads base, indexes
    {
      TableView(base.View(txn), Views(indexes, txn))
    }

    ghost predicate Blank()
      reads base, indexes
    {
      base.Blank() && forall j :: 0 <= j < |indexes| ==> indexes[j].Blank()
    }

    lemma BlankValid()
      requires Wired() && Blank()
      ensures Valid(FIRST_TXN, FIRST_TXN) && Sees(FIRST_TXN) == Nothing(extract)
    {
      ViewsAre(indexes, FIRST_TXN, seq(|extract|, _ => map[]));
    }

    /** Start empty, with one fresh index per extractor. */
    constructor (extract: Extractors<V, IK>)
      ensures fresh(repr)
      ensures this.extract == extract && Wired()
      ensures Blank()
    {
      var b := new Table<K, V>();
      var ts: seq<Table<IK, K>> := [];
      ghost var objs: set<object> := {b};
      for i := 0 to |extract|
        invariant |ts| == i && fresh(objs) && b in objs
        invariant forall j :: 0 <= j < i ==> ts[j] in objs && ts[j] as object != b
        invariant forall j :: 0 <= j < i ==> ts[j].Blank()
        invariant forall j, j' :: 0 <= j < j' < i ==> ts[j] != ts[j']
        invariant b.Blank()
      {
        var t := new Table<IK, K>();
        ts := ts + [t];
        objs := objs + {t};
      }
      this.base, this.indexes, this.extract, this.repr := b, ts, extract, objs;
    }

    /** A new transaction starts from the committed contents, with nothing on its trail. */
    lemma BeginValid(max: TxnId, txn: TxnId)
      requires Valid(max, max) && txn > max
      ensures Valid(txn, max) && Sees(txn) == Sees(max)
      ensures base.TrailAt(txn) == Trail(false, {}, Sees(max).rows)
    {
      BeginConsistent(base.data, base.mask, base.modified, max, txn);
      forall j | 0 <= j < |indexes|
        ensures indexes[j].Valid(txn, max) && indexes[j].View(txn) == indexes[j].View(max)
      {
        BeginConsistent(indexes[j].data, indexes[j].mask, indexes[j].modified, max, txn);
      }
      ViewsAt(indexes, max);
      ViewsAre(indexes, txn, Views(indexes, max));
    }

    method OnInsert(k: K, v: V, txn: TxnId, max: TxnId)
      requires Wired() && AllValid(indexes, txn, max)
      modifies indexes
      ensures AllValid(indexes, txn, max)
      ensures Views(indexes, txn) == PutAll(old(Views(indexes, txn)), extract, k, v)
      ensures txn > max ==> Views(indexes, max) == old(Views(indexes, max))
    {
      ghost var was, committed := Views(indexes, txn), Views(indexes, max);
      ViewsAt(indexes, txn);
      ViewsAt(indexes, max);
      InsertEach(k, v, txn, max);
      ViewsAre(indexes, txn, PutAll(was, extract, k, v));
      if txn > max { ViewsAre(indexes, max, committed); }
    }

    method InsertEach(k: K, v: V, txn: TxnId, max: TxnId)
      requires Wired() && AllValid(indexes, txn, max)
      modifies indexes
      ensures forall j :: 0 <= j < |indexes| ==>
                && indexes[j].Valid(txn, max)
                && indexes[j].View(txn) == Put(old(indexes[j].View(txn)), extract[j](v), k)
                && (txn > max ==> indexes[j].View(max) == old(indexes[j].View(max)))
    {
      for i := 0 to |indexes|
        invariant forall j :: i <= j < |indexes| ==> unchanged(indexes[j])
        invariant forall j :: 0 <= j < i ==>
                    && indexes[j].Valid(txn, max)
                    && indexes[j].View(txn) == Put(old(indexes[j].View(txn)), extract[j](v), k)
                    && (txn > max ==> indexes[j].View(max) == old(indexes[j].View(max)))
      {
        InsertKeys(indexes[i], extract[i](v), k, txn, max);
      }
    }

    method OnRemove(v: V, txn: TxnId, max: TxnId)
      requires Wired() && AllValid(indexes, txn, max)
      modifies indexes
      ensures AllValid(indexes, txn, max)
      ensures Views(indexes, txn) == DropAll(old(Views(indexes, txn)), extract, v)
      ensures txn > max ==> Views(indexes, max) == old(Views(indexes, max))
    {
      ghost var was, committed := Views(indexes, txn), Views(indexes, max);
      ViewsAt(indexes, txn);
      ViewsAt(indexes, max);
      RemoveEach(v, txn, max);
      ViewsAre(indexes, txn, DropAll(was, extract, v));
      if txn > max { ViewsAre(indexes, max, committed); }
    }

    method RemoveEach(v: V, txn: TxnId, max: TxnId)
      requires Wired() && AllValid(indexes, txn, max)
      modifies indexes
      ensures forall j :: 0 <= j < |indexes| ==>
                && indexes[j].Valid(txn, max)
                && indexes[j].View(txn) == Drop(old(indexes[j].View(txn)), extract[j](v))
                && (txn > max ==> indexes[j].View(max) == old(indexes[j].View(max)))
    {
      for i := 0 to |indexes|
        invariant forall j :: i <= j < |indexes| ==> unchanged(indexes[j])
        invariant forall j :: 0 <= j < i ==>
                    && indexes[j].Valid(txn, max)
                    && indexes[j].View(txn) == Drop(old(indexes[j].View(txn)), extract[j](v))
                    && (txn > max ==> indexes[j].View(max) == old(indexes[j].View(max)))
      {
        RemoveKeys(indexes[i], extract[i](v), txn, max);
      }
    }

    /** Move row `k` in every index from the keys of `before` to the keys of `v`. */
    method Reindex(before: Option<V>, k: K, v: V, txn: TxnId, max: TxnId)
      requires Wired() && AllValid(indexes, txn, max)
      modifies indexes
      ensures AllValid(indexes, txn, max)
      ensures var was := old(Views(indexes, txn));
              Views(indexes, txn) ==
              PutAll(if before.Some? then DropAll(was, extract, before.value) else was, extract, k, v)
      ensures txn > max ==> Views(indexes, max) == old(Views(indexes, max))
    {
      if before.Some? {
        OnRemove(before.value, txn, max);
      }
      OnInsert(k, v, txn, max);
    }

    method Insert(k: K, v: V, txn: TxnId, max: TxnId)
      requires CanRead(txn, max)
      modifies base, indexes
      ensures CanRead(txn, max)
      ensures Sees(txn) == InsertRow(old(Sees(txn)), extract, k, v)
      ensures old(Valid(txn, max)) ==> Valid(txn, max)
      ensures txn > max ==> Sees(max) == old(Sees(max))
      ensures txn > max ==>
                base.TrailAt(txn) == var was := old(base.TrailAt(txn));
                                     if was.cleared then was else was.With(map[k := v])
    {
      var before := base.Get(k, txn);
      Reindex(before, k, v, txn, max);
      base.Put(k, v, txn, max);
    }

    /**
      The indexes lose the keys of the value the trail finds, even when the mask
      hides that value from every reader.
     */
    method Remove(k: K, txn: TxnId, max: TxnId)
      requires CanRead(txn, max)
      modifies base, indexes
      ensures CanRead(txn, max)
      ensures Sees(txn) ==
              RemoveRow(old(Sees(txn)), extract, k, old(base.TrailAt(txn)).Doomed(old(Sees(txn)).rows, k))
      ensures old(Valid(txn, max)) ==> Valid(txn, max)
      ensures txn > max ==> Sees(max) == old(Sees(max))
      ensures txn > max ==> base.TrailAt(txn) == old(base.TrailAt(txn))
    {
      var doomed := base.Remove(k, txn, max);
      if doomed.Some? {
        OnRemove(doomed.value, txn, max);
      }
    }

    /** Mutate a row.  The index update is the one of writing the mutated value. */
    method WithMut(k: K, f: V -> V, txn: TxnId, max: TxnId) returns (found: bool)
      requires CanRead(txn, max)
      modifies base, indexes
      ensures CanRead(txn, max)
      ensures found <==> k in old(Sees(txn)).rows
      ensures Sees(txn) == if found then InsertRow(old(Sees(txn)), extract, k, f(old(Sees(txn)).rows[k]))
                           else old(Sees(txn))
      ensures old(Valid(txn, max)) ==> Valid(txn, max)
      ensures txn > max ==> Sees(max) == old(Sees(max))
      ensures txn > max ==>
                base.TrailAt(txn) == var was := old(base.TrailAt(txn));
                                     if found then was.With(map[k := f(old(Sees(txn)).rows[k])]) else was
    {
      var r := base.WithMut(k, f, txn, max);
      found := r.Some?;
      if found {
        Reindex(Some(r.value.0), k, r.value.1, txn, max);
      }
    }

    method Clear(txn: TxnId, max: TxnId)
      requires CanRead(txn, max)
      modifies base, indexes
      ensures CanRead(txn, max)
      ensures Sees(txn) == ClearRows(old(Sees(txn)))
      ensures old(Valid(txn, max)) ==> Valid(txn, max)
      ensures txn > max ==> Sees(max) == old(Sees(max))
      ensures txn > max ==> base.TrailAt(txn) == old(base.TrailAt(txn)).(cleared := true)
    {
      base.Clear(txn, max);
      ClearIndexes(txn, max);
    }

    method ClearIndexes(txn: TxnId, max: TxnId)
      requires Wired() && AllValid(indexes, txn, max)
      modifies indexes
      ensures AllValid(indexes, txn, max)
      ensures Views(indexes, txn) == seq(|indexes|, _ => map[])
      ensures txn > max ==> Views(indexes, max) == old(Views(indexes, max))
    {
      ghost var committed := Views(indexes, max);
      ViewsAt(indexes, max);
      ClearEach(txn, max);
      ViewsAre(indexes, txn, seq(|indexes|, _ => map[]));
      if txn > max { ViewsAre(indexes, max, committed); }
    }

    method ClearEach(txn: TxnId, max: TxnId)
      requires Wired() && AllValid(indexes, txn, max)
      modifies indexes
      ensures forall j :: 0 <= j < |indexes| ==>
                && indexes[j].Valid(txn, max) && indexes[j].View(txn) == map[]
                && (txn > max ==> indexes[j].View(max) == old(indexes[j].View(max)))
    {
      for i := 0 to |indexes|
        invariant forall j :: i <= j < |indexes| ==> unchanged(indexes[j])
        invariant forall j :: 0 <= j < i ==>
                    && indexes[j].Valid(txn, max) && indexes[j].View(txn) == map[]
                    && (txn > max ==> indexes[j].View(max) == old(indexes[j].View(max)))
      {
        indexes[i].Clear(txn, max);
      }
    }

    /** Mutate one row of a pass, if it is visible, and move it in every index. */
    method Visit(k: K, f: (K, V) -> V, txn: TxnId, max: TxnId)
      requires CanRead(txn, max) && k in base.Stored()
      modifies base, indexes
      ensures CanRead(txn, max) && base.Stored() == old(base.Stored())
      ensures Sees(txn) == VisitRow(old(Sees(txn)), extract, k, f)
      ensures txn > max ==> Sees(max) == old(Sees(max))
      ensures txn > max ==>
                base.TrailAt(txn) == if k in old(Sees(txn)).rows
                                     then old(base.TrailAt(txn)).With(map[k := f(k, old(Sees(txn)).rows[k])])
                                     else old(base.TrailAt(txn))
      ensures txn > max ==>
                base.Missed(txn) == if k in old(Sees(txn)).rows || k in old(base.TrailAt(txn)).written
                                    then old(base.Missed(txn)) - {k} else old(base.Missed(txn)) + {k}
    {
      var r := base.VisitRow(k, f, txn, max);
      if r.Some? {
        Reindex(Some(r.value.0), k, r.value.1, txn, max);
      }
    }

    /** The rows a pass goes over, in the order the hash map gives. */
    method Order() returns (order: seq<K>)
      ensures NoRepeats(order) && KeySet(order) == base.Stored()
    {
      order := [];
      var todo := base.Stored();
      while todo != {}
        invariant NoRepeats(order) && todo <= base.Stored() && KeySet(order) == base.Stored() - todo
        decreases todo
      {
        var k :| k in todo;
        KeySetSnoc(order, k);
        order, todo := order + [k], todo - {k};
      }
    }

    /**
      Mutate every visible row, one after the other, moving it in every index.
      `PassAgrees` and `AnyOrderAgrees` say when the indexes agree afterwards.
      Rows that the mask hides are cloned without being put on record, so the table
      stays valid exactly when every such row was on record before.
     */
    method ForEachMut(f: (K, V) -> V, txn: TxnId, max: TxnId) returns (ghost order: seq<K>)
      requires Valid(txn, max)
      modifies base, indexes
      ensures CanRead(txn, max) && Covers(order, old(Sees(txn)).rows)
      ensures Sees(txn) == Pass(old(Sees(txn)), extract, order, f)
      ensures Sees(txn).rows == MapRows(old(Sees(txn)).rows, old(Sees(txn)).rows.Keys, f)
      ensures txn > max ==> Sees(max) == old(Sees(max))
      ensures txn > max ==>
                base.TrailAt(txn) == var was := old(Sees(txn)).rows;
                                     old(base.TrailAt(txn)).With(MapRows(was, was.Keys, f))
      ensures Valid(txn, max) <==> txn == max || old(base.TrailAt(txn)).Unexposed(old(Sees(txn)).rows)
    {
      var keys := Order();
      order := keys;
      ghost var was, trail := Sees(txn), base.TrailAt(txn);
      StoredRows(base.data, base.mask, base.modified, txn, max);
      TrackedIff(base.data, base.modified, txn);
      Started(was, extract, keys, f, trail);
      for n := 0 to |keys|
        invariant CanRead(txn, max) && base.Stored() == KeySet(keys)
        invariant Sees(txn) == Pass(was, extract, keys[..n], f)
        invariant txn > max ==> Sees(max) == old(Sees(max))
        invariant txn > max ==> Passing(was.rows, trail, KeySet(keys[..n]), f, base.TrailAt(txn), base.Missed(txn))
      {
        PassStep(was, extract, keys, n, f);
        ghost var before, missed := base.TrailAt(txn), base.Missed(txn);
        Visit(keys[n], f, txn, max);
        if txn > max {
          Passed(was.rows, trail, KeySet(keys[..n]), f, keys[n], before, missed, base.TrailAt(txn), base.Missed(txn));
        }
      }
      assert keys[..|keys|] == keys;
      PassRows(was, extract, keys, f);
      Finished(was.rows, KeySet(keys), f, trail);
      TrackedIff(base.data, base.modified, txn);
    }

    /** Roll the table and its indexes back; exact when no version is missing from the record. */
    method GcTxn(txn: TxnId, ghost max: TxnId)
      requires CanRead(txn, max) && txn > max
      modifies base, indexes
      ensures old(Valid(txn, max)) ==> Valid(max, max) && Sees(max) == old(Sees(max))
      ensures base.mask == NoMask && base.modified == None
      ensures base.data == Collected(old(base.data), KeysOf(old(base.modified)), txn)
    {
      base.GcTxn(txn, max);
      GcIndexes(txn, max);
    }

    method GcIndexes(txn: TxnId, ghost max: TxnId)
      requires Wired() && AllValid(indexes, txn, max) && txn > max
      modifies indexes
      ensures AllValid(indexes, max, max) && Views(indexes, max) == old(Views(indexes, max))
    {
      ghost var committed := Views(indexes, max);
      ViewsAt(indexes, max);
      for i := 0 to |indexes|
        invariant forall j :: i <= j < |indexes| ==> unchanged(indexes[j])
        invariant forall j :: 0 <= j < i ==> indexes[j].Valid(max, max) && indexes[j].View(max) == committed[j]
      {
        indexes[i].GcTxn(txn, max);
      }
      ViewsAre(indexes, max, committed);
    }

    predicate Committable(txn: TxnId)
      reads base, indexes
    {
      base.Committable(txn) && forall j :: 0 <= j < |indexes| ==> indexes[j].Committable(txn)
    }

    method CheckTxnConsistency(txn: TxnId) returns (ok: bool)
      ensures ok <==> Committable(txn)
    {
      ok := base.CheckTxnConsistency(txn);
      if !ok { return; }
      for i := 0 to |indexes|
        invariant ok && forall j :: 0 <= j < i ==> indexes[j].Committable(txn)
      {
        ok := indexes[i].CheckTxnConsistency(txn);
        if !ok { return; }
      }
    }

    /** Commit the table and its indexes. */
    method CommitTxn(txn: TxnId, ghost max: TxnId)
      requires Wired() && Committable(txn)
      modifies base, indexes
      ensures old(CanRead(txn, max)) ==> Valid(txn, txn) && Sees(txn) == old(Sees(txn))
    {
      base.CommitTxn(txn, max);
      CommitIndexes(txn, max);
    }

    method CommitIndexes(txn: TxnId, ghost max: TxnId)
      requires Wired() && forall j :: 0 <= j < |indexes| ==> indexes[j].Committable(txn)
      modifies indexes
      ensures old(AllValid(indexes, txn, max)) ==>
                AllValid(indexes, txn, txn) && Views(indexes, txn) == old(Views(indexes, txn))
    {
      ghost var pending := Views(indexes, txn);
      ViewsAt(indexes, txn);
      for i := 0 to |indexes|
        invariant forall j :: i <= j < |indexes| ==> unchanged(indexes[j])
        invariant old(AllValid(indexes, txn, max)) ==>
                    forall j :: 0 <= j < i ==> indexes[j].Valid(txn, txn) && indexes[j].View(txn) == pending[j]
      {
        indexes[i].CommitTxn(txn, max);
      }
      if old(AllValid(indexes, txn, max)) { ViewsAre(indexes, txn, pending); }
    }

    /** Read through index `j`: the one row bearing the key, when the indexes agree. */
    method GetByIndex(j: nat, ik: IK, txn: TxnId, ghost max: TxnId) returns (r: Option<V>)
      requires CanRead(txn, max) && j < |indexes|
      ensures r == var c := Sees(txn);
                   if ik in c.indexes[j] && c.indexes[j][ik] in c.rows then Some(c.rows[c.indexes[j][ik]]) else None
    {
      ViewsAt(indexes, txn);
      var bk := indexes[j].Get(ik, txn);
      if bk.None? { return None; }
      r := base.Get(bk.value, txn);
    }

    /** Remove the row an index key leads to, and the key itself from its index. */
    method RemoveByIndex(j: nat, ik: IK, txn: TxnId, max: TxnId)
      requires CanRead(txn, max) && j < |indexes|
      modifies base, indexes
      ensures CanRead(txn, max)
      ensures Sees(txn) == RemoveBearer(old(Sees(txn)), extract, j, ik, old(base.TrailAt(txn)))
      ensures var was := old(Sees(txn)).indexes[j];
              && Sees(txn).rows == (if ik in was then old(Sees(txn)).rows - {was[ik]} else old(Sees(txn)).rows)
              && ik !in Sees(txn).indexes[j]
      ensures old(Valid(txn, max)) ==> Valid(txn, max)
      ensures txn > max ==> Sees(max) == old(Sees(max))
      ensures txn > max ==> base.TrailAt(txn) == old(base.TrailAt(txn))
    {
      ViewsAt(indexes, txn);
      var bk := indexes[j].Get(ik, txn);
      if bk.Some? {
        Remove(bk.value, txn, max);
        DropKey(j, ik, txn, max);
      }
    }

    method DropKey(j: nat, ik: IK, txn: TxnId, max: TxnId)
      requires Wired() && AllValid(indexes, txn, max) && j < |indexes|
      modifies indexes[j]
      ensures AllValid(indexes, txn, max)
      ensures var was := old(Views(indexes, txn)); Views(indexes, txn) == was[j := was[j] - {ik}]
      ensures txn > max ==> Views(indexes, max) == old(Views(indexes, max))
    {
      ghost var was, committed := Views(indexes, txn), Views(indexes, max);
      ViewsAt(indexes, txn);
      ViewsAt(indexes, max);
      var _ := indexes[j].Remove(ik, txn, max);
      forall i | 0 <= i < |indexes| && i != j
        ensures indexes[i].Valid(txn, max) && indexes[i].View(txn) == was[i] && indexes[i].View(max) == committed[i]
      {
        assert unchanged(indexes[i]);
      }
      ViewsAre(indexes, txn, was[j := was[j] - {ik}]);
      if txn > max { ViewsAre(indexes, max, committed); }
    }

    /** Mutate the row an index key leads to. */
    method WithMutByIndex(j: nat, ik: IK, f: V -> V, txn: TxnId, max: TxnId) returns (found: bool)
      requires CanRead(txn, max) && j < |indexes|
      modifies base, indexes
      ensures CanRead(txn, max)
      ensures var was := old(Sees(txn));
              && (found <==> ik in was.indexes[j] && was.indexes[j][ik] in was.rows)
              && Sees(txn) == MutateBearer(was, extract, j, ik, f)
              && Sees(txn).rows ==
                 if found then was.rows[was.indexes[j][ik] := f(was.rows[was.indexes[j][ik]])] else was.rows
      ensures old(Valid(txn, max)) ==> Valid(txn, max)
      ensures txn > max ==> Sees(max) == old(Sees(max))
      ensures txn > max ==>
                base.TrailAt(txn) ==
                var was, trail := old(Sees(txn)), old(base.TrailAt(txn));
                if found then trail.With(map[was.indexes[j][ik] := f(was.rows[was.indexes[j][ik]])]) else trail
    {
      ViewsAt(indexes, txn);
      var bk := indexes[j].Get(ik, txn);
      if bk.None? { return false; }
      found := WithMut(bk.value, f, txn, max);
    }
  }

  /** The view after a removal through index `j`, whether or not the indexes agree. */
  ghost function RemoveBearer<K, V, IK>(c: TableView<K, V, IK>, ex: Extractors<V, IK>, j: nat, ik: IK,
                                        trail: Trail<K, V>): TableView<K, V, IK>
    requires j < |ex| == |c.indexes|
  {
    if ik !in c.indexes[j] then c
    else
      var k := c.indexes[j][ik];
      var c' := RemoveRow(c, ex, k, trail.Doomed(c.rows, k));
      c'.(indexes := c'.indexes[j := c'.indexes[j] - {ik}])
  }

  /** The view after a mutation through index `j`, whether or not the indexes agree. */
  ghost function MutateBearer<K, V, IK>(c: TableView<K, V, IK>, ex: Extractors<V, IK>, j: nat, ik: IK, f: V -> V)
    : TableView<K, V, IK>
    requires j < |ex| == |c.indexes|
  {
    if ik in c.indexes[j] && c.indexes[j][ik] in c.rows then
      var k := c.indexes[j][ik];
      InsertRow(c, ex, k, f(c.rows[k]))
    else c
  }

  /** When the indexes agree, a removal by key removes the rows bearing the key, and the indexes still agree. */
  lemma RemoveBearerAgrees<K(!new), V, IK(!new)>(c: TableView<K, V, IK>, ex: Extractors<V, IK>, j: nat, ik: IK,
                                                 trail: Trail<K, V>)
    requires IndexesAgree(c, ex) && j < |ex|
    requires forall k :: k in c.rows ==> trail.Doomed(c.rows, k) == Some(c.rows[k])
    ensures var c' := RemoveBearer(c, ex, j, ik, trail);
            c'.rows == NotBearing(c.rows, ex[j], ik) && IndexesAgree(c', ex)
  {
    BearerIs(c, ex, j, ik, x => x);
    if ik in c.indexes[j] {
      var k := c.indexes[j][ik];
      RemoveAgrees(c, ex, k, Some(c.rows[k]));
      var c' := RemoveRow(c, ex, k, Some(c.rows[k]));
      assert c'.indexes[j] - {ik} == c'.indexes[j];
      assert c'.indexes[j := c'.indexes[j] - {ik}] == c'.indexes;
    }
  }

  /**
    When the indexes agree, a mutation by key mutates the rows bearing the key, and the
    indexes agree afterwards exactly when extracted keys are still unique.
   */
  lemma MutateBearerAgrees<K(!new), V, IK(!new)>(c: TableView<K, V, IK>, ex: Extractors<V, IK>, j: nat, ik: IK,
                                                 f: V -> V)
    requires IndexesAgree(c, ex) && j < |ex|
    ensures var c' := MutateBearer(c, ex, j, ik, f);
            && c'.rows == MutateBearing(c.rows, ex[j], ik, f)
            && (IndexesAgree(c', ex) <==> UniqueKeys(c'.rows, ex))
  {
    BearerIs(c, ex, j, ik, f);
    if ik in c.indexes[j] {
      var k := c.indexes[j][ik];
      InsertAgrees(c, ex, k, f(c.rows[k]));
    } else {
      AgreeImpliesUnique(c, ex);
    }
  }

  /** When the indexes agree, reading through index `j` finds the one row bearing the key. */
  lemma BearerFound<K(!new), V, IK(!new)>(c: TableView<K, V, IK>, ex: Extractors<V, IK>, j: nat, ik: IK)
    requires IndexesAgree(c, ex) && j < |ex|
    ensures ik in c.indexes[j] <==> exists k :: k in c.rows && ik in ex[j](c.rows[k])
    ensures ik in c.indexes[j] ==> c.indexes[j][ik] in c.rows && ik in ex[j](c.rows[c.indexes[j][ik]])
  {
    assert Inverse(c.rows, c.indexes[j], ex[j]);
    if ik in c.indexes[j] {
      var k := c.indexes[j][ik];
      assert k in c.rows && ik in ex[j](c.rows[k]);
    }
  }

  lemma PassStep<K(!new), V, IK>(c: TableView<K, V, IK>, ex: Extractors<V, IK>, keys: seq<K>, n: nat, f: (K, V) -> V)
    requires |c.indexes| == |ex| && n < |keys| && NoRepeats(keys)
    ensures Pass(c, ex, keys[..n + 1], f) == VisitRow(Pass(c, ex, keys[..n], f), ex, keys[n], f)
    ensures KeySet(keys[..n + 1]) == KeySet(keys[..n]) + {keys[n]}
    ensures var rows := Pass(c, ex, keys[..n], f).rows;
            && keys[n] !in keys[..n] && rows.Keys == c.rows.Keys
            && (keys[n] in c.rows ==> rows[keys[n]] == c.rows[keys[n]])
  {
    assert keys[..n + 1][..n] == keys[..n] && keys[..n + 1] == keys[..n] + [keys[n]];
    PassRows(c, ex, keys[..n], f);
    assert keys[n] !in keys[..n];
  }

  /** What a pass over the keys of `done` has left on the trail, and outside the record. */
  ghost predicate Passing<K(!new), V>(rows: map<K, V>, trail: Trail<K, V>, done: set<K>, f: (K, V) -> V,
                                      now: Trail<K, V>, missed: set<K>)
  {
    now == trail.With(MapSome(rows, done, f)) && missed == done - rows.Keys - trail.written
  }

  lemma Started<K(!new), V, IK>(c: TableView<K, V, IK>, ex: Extractors<V, IK>, keys: seq<K>, f: (K, V) -> V,
                                trail: Trail<K, V>)
    requires |c.indexes| == |ex|
    ensures keys[..0] == [] && Pass(c, ex, keys[..0], f) == c
    ensures Passing(c.rows, trail, KeySet(keys[..0]), f, trail, {})
  {
    var none := MapSome(c.rows, {}, f);
    assert none == map[] && trail.under + none == trail.under;
  }

  lemma Passed<K(!new), V>(rows: map<K, V>, trail: Trail<K, V>, done: set<K>, f: (K, V) -> V, k: K,
                           before: Trail<K, V>, missed: set<K>, after: Trail<K, V>, missed': set<K>)
    requires Passing(rows, trail, done, f, before, missed) && k !in done
    requires after == if k in rows then before.With(map[k := f(k, rows[k])]) else before
    requires missed' == if k in rows || k in before.written then missed - {k} else missed + {k}
    ensures Passing(rows, trail, done + {k}, f, after, missed')
  {
    var some, all := MapSome(rows, done, f), MapSome(rows, done + {k}, f);
    if k in rows {
      WithBoth(trail, some, map[k := f(k, rows[k])]);
      assert some + map[k := f(k, rows[k])] == all;
    } else {
      assert some == all;
    }
    assert missed' == (done + {k}) - rows.Keys - trail.written;
  }

  lemma WithBoth<K(!new), V>(trail: Trail<K, V>, a: map<K, V>, b: map<K, V>)
    ensures trail.With(a).With(b) == trail.With(a + b)
  {
    assert (a + b).Keys == a.Keys + b.Keys;
    assert trail.under + a + b == trail.under + (a + b);
  }

  lemma Finished<K(!new), V>(rows: map<K, V>, done: set<K>, f: (K, V) -> V, trail: Trail<K, V>)
    requires rows.Keys <= done
    ensures MapSome(rows, done, f) == MapRows(rows, rows.Keys, f) == MapRows(rows, done, f)
    ensures done == trail.under.Keys || done == rows.Keys ==>
              (done - rows.Keys - trail.written == {} <==>
               done == rows.Keys || forall k :: k in trail.under && k !in rows ==> k in trail.written)
  {
    var missed := done - rows.Keys - trail.written;
    if missed == {} {
      forall k | k in done && k !in rows ensures k in trail.written {
        assert k !in missed;
      }
    } else {
      var k :| k in missed;
      assert k in done && k !in rows && k !in trail.written;
    }
  }

  lemma PutSnoc<IK, K>(m: map<IK, K>, iks: seq<IK>, i: nat, k: K)
    requires i < |iks|
    ensures Put(m, iks[..i + 1], k) == Put(m, iks[..i], k)[iks[i] := k]
  {
    assert iks[..i + 1] == iks[..i] + [iks[i]];
  }

  lemma DropSnoc<IK, K>(m: map<IK, K>, iks: seq<IK>, i: nat)
    requires i < |iks|
    ensures Drop(m, iks[..i + 1]) == Drop(m, iks[..i]) - {iks[i]}
  {
    assert iks[..i + 1] == iks[..i] + [iks[i]];
  }

  method InsertKeys<IK(==, !new), K(!new)>(t: Table<IK, K>, iks: seq<IK>, k: K, txn: TxnId, max: TxnId)
    requires t.Valid(txn, max)
    modifies t
    ensures t.Valid(txn, max)
    ensures t.View(txn) == Put(old(t.View(txn)), iks, k)
    ensures txn > max ==> t.View(max) == old(t.View(max))
  {
    assert Put(t.View(txn), iks[..0], k) == t.View(txn);
    for i := 0 to |iks|
      invariant t.Valid(txn, max)
      invariant t.View(txn) == Put(old(t.View(txn)), iks[..i], k)
      invariant txn > max ==> t.View(max) == old(t.View(max))
    {
      PutSnoc(old(t.View(txn)), iks, i, k);
      t.Insert(iks[i], k, txn, max);
    }
    assert iks[..|iks|] == iks;
  }

  method RemoveKeys<IK(==, !new), K(!new)>(t: Table<IK, K>, iks: seq<IK>, txn: TxnId, max: TxnId)
    requires t.Valid(txn, max)
    modifies t
    ensures t.Valid(txn, max)
    ensures t.View(txn) == Drop(old(t.View(txn)), iks)
    ensures txn > max ==> t.View(max) == old(t.View(max))
  {
    assert Drop(t.View(txn), iks[..0]) == t.View(txn);
    for i := 0 to |iks|
      invariant t.Valid(txn, max)
      invariant t.View(txn) == Drop(old(t.View(txn)), iks[..i])
      invariant txn > max ==> t.View(max) == old(t.View(max))
    {
      DropSnoc(old(t.View(txn)), iks, i);
      var _ := t.Remove(iks[i], txn, max);
    }
    assert iks[..|iks|] == iks;
  }
}
