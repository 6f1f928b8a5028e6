/**
  One table of the store: versioned rows, a delete mask for the running
  transaction, and the list of keys that transaction has written.

  The store itself is the only heap object a table lives in, so a row is a
  value.  What a reader sees is `View(txn)`, a plain map from keys to values.
 */
module Tables {
  import opened Common
  import opened VersionedValues

  type Rows<K, V> = map<K, VersionedValue<V>>

  datatype DeleteMask<K, V> =
    | NoMask
    | All(id: TxnId, rows: Rows<K, V>)
    | Removed(id: TxnId, keys: set<K>)

  datatype Mutations<K> = Mutations(id: TxnId, keys: seq<K>)

  /** What a read of `k` at `txn` finds, looking through the mask first. */
  function Lookup<K, V>(data: Rows<K, V>, mask: DeleteMask<K, V>, k: K, txn: TxnId): Option<V> {
    if mask.All? && mask.id == txn then
      if k !in mask.rows then None
      else if mask.rows[k].Get(txn).Some? then mask.rows[k].Get(txn)
      else LookupData(data, k, txn)
    else if mask.Removed? && mask.id == txn && k in mask.keys then None
    else LookupData(data, k, txn)
  }

  function LookupData<K, V>(data: Rows<K, V>, k: K, txn: TxnId): Option<V> {
    if k in data then data[k].Get(txn) else None
  }

  ghost function ViewOf<K(!new), V>(data: Rows<K, V>, mask: DeleteMask<K, V>, txn: TxnId): (m: map<K, V>)
    ensures forall k :: k in m <==> Lookup(data, mask, k, txn).Some?
    ensures forall k :: k in m ==> m[k] == Lookup(data, mask, k, txn).value
  {
    map k | k in data.Keys + (if mask.All? then mask.rows.Keys else {}) && Lookup(data, mask, k, txn).Some?
      :: Lookup(data, mask, k, txn).value
  }

  predicate Recorded<K(==)>(modified: Option<Mutations<K>>, k: K) {
    modified.Some? && k in modified.value.keys
  }

  /** All slots of the mask's overlay were written by the running transaction. */
  predicate OverlayValid<V>(vv: VersionedValue<V>, txn: TxnId) {
    vv.a.Some? && vv.a.value.id == txn && vv.b.None?
  }

  /** The keys on record. */
  function Written<K>(modified: Option<Mutations<K>>): set<K> {
    set k | k in KeysOf(modified)
  }

  /**
    All that reads and a commit rely on: versions are committed or the running
    transaction's, and so is the mask.
   */
  ghost predicate Readable<K, V>(data: Rows<K, V>, mask: DeleteMask<K, V>, modified: Option<Mutations<K>>,
                                 txn: TxnId, max: TxnId)
  {
    && txn >= max
    && (forall k :: k in data ==> data[k].WellFormed(txn, max))
    && (modified.Some? ==> txn > max && modified.value.id == txn)
    && (!mask.NoMask? ==> txn > max && mask.id == txn)
    && (mask.All? ==> forall k :: k in mask.rows ==> OverlayValid(mask.rows[k], txn))
    && (mask.Removed? ==> mask.keys <= data.Keys)
  }

  /** Every version of `txn` is on record for rollback. */
  ghost predicate Tracked<K, V>(data: Rows<K, V>, modified: Option<Mutations<K>>, txn: TxnId) {
    forall k :: k in data && data[k].Holds(txn) ==> Recorded(modified, k)
  }

  /** The keys with a version of `txn` that is not among those on record. */
  ghost function Untracked<K, V>(data: Rows<K, V>, written: set<K>, txn: TxnId): set<K> {
    set k | k in data && data[k].Holds(txn) && k !in written
  }

  lemma TrackedIff<K(!new), V>(data: Rows<K, V>, modified: Option<Mutations<K>>, txn: TxnId)
    ensures Tracked(data, modified, txn) <==> Untracked(data, Written(modified), txn) == {}
  {
    if !Tracked(data, modified, txn) {
      var k :| k in data && data[k].Holds(txn) && !Recorded(modified, k);
      assert k in Untracked(data, Written(modified), txn);
    }
  }

  /** Readable, and a rollback will find every version of the running transaction. */
  ghost predicate Consistent<K, V>(data: Rows<K, V>, mask: DeleteMask<K, V>, modified: Option<Mutations<K>>,
                                   txn: TxnId, max: TxnId)
  {
    Readable(data, mask, modified, txn, max) && (txn > max ==> Tracked(data, modified, txn))
  }

  /**
    What a transaction has done to a table, as far as later operations depend on
    it: whether it cleared the table, which keys are on record, and the rows as
    they are below the delete mask.
   */
  datatype Trail<K, V> = Trail(cleared: bool, written: set<K>, under: map<K, V>) {
    /** The trail after the rows of `changed` were written below the mask, or in the overlay of a cleared table. */
    function With(changed: map<K, V>): Trail<K, V> {
      Trail(cleared, written + changed.Keys, if cleared then under else under + changed)
    }

    /** The value a removal of `k` reports to the indexes; it looks past the mask. */
    function Doomed(rows: map<K, V>, k: K): Option<V> {
      if cleared && k in rows then Some(rows[k]) else if k in under then Some(under[k]) else None
    }

    /** No row deleted in the transaction is missing from the record. */
    predicate Unexposed(rows: map<K, V>) {
      cleared || forall k :: k in under && k !in rows ==> k in written
    }
  }

  ghost function TrailOf<K(!new), V>(data: Rows<K, V>, mask: DeleteMask<K, V>, modified: Option<Mutations<K>>,
                                     txn: TxnId): Trail<K, V>
  {
    Trail(mask.All?, Written(modified), ViewOf(data, NoMask, txn))
  }

  /** Opening a transaction changes nothing a reader can see. */
  lemma BeginConsistent<K(!new), V>(data: Rows<K, V>, mask: DeleteMask<K, V>, modified: Option<Mutations<K>>,
                              max: TxnId, txn: TxnId)
    requires Consistent(data, mask, modified, max, max)
    requires txn > max
    ensures Consistent(data, mask, modified, txn, max)
    ensures ViewOf(data, mask, txn) == ViewOf(data, mask, max)
  {
  }

  /** The mask after `k` has been written to the data. */
  function Unmask<K, V>(mask: DeleteMask<K, V>, k: K): DeleteMask<K, V> {
    if mask.Removed? then Removed(mask.id, mask.keys - {k}) else mask
  }

  /** `after` has `k` on record for a transaction, besides what was on record before. */
  ghost predicate RecordedAfter<K(!new)>(before: Option<Mutations<K>>, after: Option<Mutations<K>>, k: K,
                                         txn: TxnId, max: TxnId)
  {
    if txn == max then after == before
    else
      after.Some? && after.value.id == txn && forall j :: Recorded(after, j) <==> j == k || Recorded(before, j)
  }

  lemma RowWritten<K(!new), V>(data: Rows<K, V>, mask: DeleteMask<K, V>, modified: Option<Mutations<K>>,
                               after: Option<Mutations<K>>, k: K, vv: VersionedValue<V>, txn: TxnId, max: TxnId)
    requires Readable(data, mask, modified, txn, max) && !mask.All?
    requires RecordedAfter(modified, after, k, txn, max)
    requires vv.WellFormed(txn, max)
    ensures Readable(data[k := vv], Unmask(mask, k), after, txn, max)
    ensures txn > max && Tracked(data, modified, txn) ==> Tracked(data[k := vv], after, txn)
  {
    var mask', data' := Unmask(mask, k), data[k := vv];
    assert mask'.Removed? ==> mask'.keys <= data'.Keys;
  }

  lemma RowWrittenView<K(!new), V>(data: Rows<K, V>, mask: DeleteMask<K, V>, k: K, vv: VersionedValue<V>,
                                   txn: TxnId, max: TxnId)
    requires !mask.All? && (mask.Removed? ==> txn > max && mask.id == txn)
    requires vv.Get(txn).Some?
    ensures ViewOf(data[k := vv], Unmask(mask, k), txn) == ViewOf(data, mask, txn)[k := vv.Get(txn).value]
    ensures txn > max && vv.Get(max) == LookupData(data, k, max) ==>
              ViewOf(data[k := vv], Unmask(mask, k), max) == ViewOf(data, mask, max)
  {
    var data', mask' := data[k := vv], Unmask(mask, k);
    assert forall j :: Lookup(data', mask', j, txn) == if j == k then vv.Get(txn) else Lookup(data, mask, j, txn);
    if txn > max && vv.Get(max) == LookupData(data, k, max) {
      assert forall j :: Lookup(data', mask', j, max) == Lookup(data, mask, j, max);
    }
  }

  lemma OverlayWritten<K(!new), V>(data: Rows<K, V>, mask: DeleteMask<K, V>, k: K, v: V, txn: TxnId, max: TxnId)
    requires mask.All? && mask.id == txn > max
    ensures var mask' := All(txn, mask.rows[k := New(v, txn)]);
            && ViewOf(data, mask', txn) == ViewOf(data, mask, txn)[k := v]
            && ViewOf(data, mask', max) == ViewOf(data, mask, max)
  {
    var mask' := All(txn, mask.rows[k := New(v, txn)]);
    assert forall j :: Lookup(data, mask', j, txn) == if j == k then Some(v) else Lookup(data, mask, j, txn);
    assert forall j :: Lookup(data, mask', j, max) == Lookup(data, mask, j, max);
  }

  /** Writing a row of the overlay: everything that follows for readers and for the trail. */
  lemma OverlayStored<K(!new), V>(data: Rows<K, V>, mask: DeleteMask<K, V>, modified: Option<Mutations<K>>,
                                  after: Option<Mutations<K>>, k: K, v: V, txn: TxnId, max: TxnId)
    requires Readable(data, mask, modified, txn, max) && mask.All?
    requires after.Some? ==> after.value.id == txn
    ensures var mask' := All(txn, mask.rows[k := New(v, txn)]);
            && Readable(data, mask', after, txn, max)
            && ViewOf(data, mask', txn) == ViewOf(data, mask, txn)[k := v]
            && ViewOf(data, mask', max) == ViewOf(data, mask, max)
            && TrailOf(data, mask', after, txn) == TrailOf(data, mask, modified, txn).(written := Written(after))
  {
    OverlayWritten(data, mask, k, v, txn, max);
  }

  /** The mask after deleting `k` in transaction `txn`; only visible rows are recorded as deleted. */
  function Hide<K, V>(mask: DeleteMask<K, V>, k: K, txn: TxnId, data: Rows<K, V>): DeleteMask<K, V> {
    match mask
    case NoMask => if LookupData(data, k, txn).Some? then Removed(txn, {k}) else NoMask
    case All(id, rows) => All(id, rows - {k})
    case Removed(id, keys) => if LookupData(data, k, txn).Some? then Removed(id, keys + {k}) else mask
  }

  lemma RowHidden<K(!new), V>(data: Rows<K, V>, mask: DeleteMask<K, V>, modified: Option<Mutations<K>>,
                              k: K, txn: TxnId, max: TxnId)
    requires Readable(data, mask, modified, txn, max) && txn > max
    ensures Readable(data, Hide(mask, k, txn, data), modified, txn, max)
  {
    var mask' := Hide(mask, k, txn, data);
    assert mask'.Removed? ==> mask'.keys <= data.Keys;
  }

  lemma RowHiddenView<K(!new), V>(data: Rows<K, V>, mask: DeleteMask<K, V>, k: K, txn: TxnId, max: TxnId)
    requires txn > max && (!mask.NoMask? ==> mask.id == txn)
    ensures ViewOf(data, Hide(mask, k, txn, data), txn) == ViewOf(data, mask, txn) - {k}
    ensures ViewOf(data, Hide(mask, k, txn, data), max) == ViewOf(data, mask, max)
  {
  }

  /** The rows left after the versions `txn` put on record have been collected. */
  function Collected<K, V>(data: Rows<K, V>, keys: seq<K>, txn: TxnId): Rows<K, V> {
    map k | k in data && !(k in keys && data[k].GcTxn(txn).IsEmpty())
      :: if k in keys then data[k].GcTxn(txn) else data[k]
  }

  lemma CollectedRow<K(!new), V>(data: Rows<K, V>, keys: seq<K>, k: K, txn: TxnId, max: TxnId)
    requires txn > max
    requires k in data ==> data[k].WellFormed(txn, max) && (data[k].Holds(txn) ==> k in keys)
    ensures var data' := Collected(data, keys, txn);
            && LookupData(data', k, max) == LookupData(data, k, max)
            && (k in data' ==> data'[k].WellFormed(max, max) && !data'[k].Holds(txn))
  {
    if k in data {
      GcRestores(data[k], txn, max);
    }
  }

  lemma CollectedConsistent<K(!new), V>(data: Rows<K, V>, mask: DeleteMask<K, V>, modified: Option<Mutations<K>>,
                                        txn: TxnId, max: TxnId)
    requires Consistent(data, mask, modified, txn, max) && txn > max
    ensures var data' := Collected(data, KeysOf(modified), txn);
            && Consistent(data', NoMask, None, max, max)
            && ViewOf(data', NoMask, max) == ViewOf(data, mask, max)
            && forall k :: k in data' ==> !data'[k].Holds(txn)
  {
    var data' := Collected(data, KeysOf(modified), txn);
    forall k
      ensures LookupData(data', k, max) == LookupData(data, k, max)
      ensures k in data' ==> data'[k].WellFormed(max, max) && !data'[k].Holds(txn)
    {
      CollectedRow(data, KeysOf(modified), k, txn, max);
    }
    assert forall k :: Lookup(data', NoMask, k, max) == Lookup(data, mask, k, max);
  }

  lemma CollectOne<K(!new), V>(data: Rows<K, V>, keys: seq<K>, i: nat, txn: TxnId)
    requires i < |keys|
    ensures var before := Collected(data, keys[..i], txn);
            var k := keys[i];
            Collected(data, keys[..i + 1], txn) ==
              if k !in before then before
              else if before[k].GcTxn(txn).IsEmpty() then before - {k}
              else before[k := before[k].GcTxn(txn)]
  {
    assert keys[..i + 1] == keys[..i] + [keys[i]];
  }

  function KeysOf<K>(modified: Option<Mutations<K>>): seq<K> {
    if modified.Some? then modified.value.keys else []
  }

  /** Applying the mask to the data commits the transaction, whatever is on record. */
  lemma CommitConsistent<K(!new), V>(data: Rows<K, V>, mask: DeleteMask<K, V>, modified: Option<Mutations<K>>,
                                     txn: TxnId, max: TxnId)
    requires Readable(data, mask, modified, txn, max)
    ensures var data' := Applied(data, mask);
            && Consistent(data', NoMask, None, txn, txn)
            && ViewOf(data', NoMask, txn) == ViewOf(data, mask, txn)
  {
  }

  function Applied<K, V>(data: Rows<K, V>, mask: DeleteMask<K, V>): Rows<K, V> {
    match mask
    case NoMask => data
    case All(_, rows) => rows
    case Removed(_, keys) => data - keys
  }

  /** The rows of `done` that are there, mapped. */
  function MapSome<K, V>(rows: map<K, V>, done: set<K>, f: (K, V) -> V): map<K, V> {
    map k | k in rows && k in done :: f(k, rows[k])
  }

  /** A row after `for_each_mut` has passed over it; a hidden row is cloned but not mutated. */
  function Touched<K, V>(k: K, vv: VersionedValue<V>, hidden: bool, f: (K, V) -> V, txn: TxnId): VersionedValue<V> {
    var cloned := vv.InternalClone(txn);
    if hidden || cloned.Get(txn).None? then cloned else cloned.Set(f(k, cloned.Get(txn).value), txn)
  }

  lemma TouchedRow<K(!new), V>(k: K, vv: VersionedValue<V>, hidden: bool, f: (K, V) -> V, txn: TxnId, max: TxnId)
    requires txn >= max && vv.WellFormed(txn, max)
    ensures vv.Get(txn).Some?
    ensures var t := Touched(k, vv, hidden, f, txn);
            && t.WellFormed(txn, max) && t.Holds(txn)
            && t.Get(txn) == Some(if hidden then vv.Get(txn).value else f(k, vv.Get(txn).value))
            && (txn > max ==> t.Get(max) == vv.Get(max))
  {
    CloneIsolated(vv, txn, max);
    var cloned := vv.InternalClone(txn);
    SetIsolated(cloned, f(k, cloned.Get(txn).value), txn, max);
  }

  /** What a cleared table shows is what its overlay holds. */
  lemma OverlayRow<K(!new), V>(data: Rows<K, V>, mask: DeleteMask<K, V>, k: K, txn: TxnId, max: TxnId)
    requires mask.All? && mask.id == txn > max
    requires forall j :: j in mask.rows ==> OverlayValid(mask.rows[j], txn)
    ensures k in ViewOf(data, mask, txn) <==> k in mask.rows
    ensures k in mask.rows ==> mask.rows[k].Get(txn) == Some(ViewOf(data, mask, txn)[k])
  {
  }

  lemma DoomedIs<K(!new), V>(data: Rows<K, V>, mask: DeleteMask<K, V>, modified: Option<Mutations<K>>, k: K,
                             txn: TxnId, max: TxnId)
    requires Readable(data, mask, modified, txn, max)
    ensures TrailOf(data, mask, modified, txn).Doomed(ViewOf(data, mask, txn), k) ==
            if mask.All? && k in mask.rows && mask.rows[k].Take(txn).0.Some? then mask.rows[k].Take(txn).0
            else LookupData(data, k, txn)
  {
    if mask.All? { OverlayRow(data, mask, k, txn, max); }
  }

  /** A removal reports a visible row as it is seen; outside a transaction there is nothing below the mask. */
  lemma FaithfulTrail<K(!new), V>(data: Rows<K, V>, mask: DeleteMask<K, V>, modified: Option<Mutations<K>>,
                                  txn: TxnId, max: TxnId)
    requires Readable(data, mask, modified, txn, max)
    ensures var view, trail := ViewOf(data, mask, txn), TrailOf(data, mask, modified, txn);
            && (forall k :: k in view ==> trail.Doomed(view, k) == Some(view[k]))
            && (txn == max ==> trail == Trail(false, {}, view))
  {
  }

  /** Writing a version of a row below the mask: everything that follows for readers and for the trail. */
  lemma RowStored<K(!new), V>(data: Rows<K, V>, mask: DeleteMask<K, V>, modified: Option<Mutations<K>>,
                              after: Option<Mutations<K>>, k: K, vv: VersionedValue<V>, txn: TxnId, max: TxnId)
    requires Readable(data, mask, modified, txn, max) && !mask.All?
    requires txn == max ==> after == modified
    requires txn > max ==> after.Some? && after.value.id == txn
    requires txn > max ==> forall j :: Recorded(after, j) <==> j == k || Recorded(modified, j)
    requires txn > max ==> Written(after) == Written(modified) + {k}
    requires vv.WellFormed(txn, max) && vv.Get(txn).Some?
    requires txn > max ==> vv.Get(max) == LookupData(data, k, max)
    ensures var data', mask' := data[k := vv], Unmask(mask, k);
            && Readable(data', mask', after, txn, max)
            && ViewOf(data', mask', txn) == ViewOf(data, mask, txn)[k := vv.Get(txn).value]
            && (txn > max ==> ViewOf(data', mask', max) == ViewOf(data, mask, max))
            && (txn > max && Tracked(data, modified, txn) ==> Tracked(data', after, txn))
            && (txn > max ==> TrailOf(data', mask', after, txn) ==
                              TrailOf(data, mask, modified, txn).With(map[k := vv.Get(txn).value]))
  {
    RowWritten(data, mask, modified, after, k, vv, txn, max);
    RowWrittenView(data, mask, k, vv, txn, max);
    if txn > max { RowTrail(data, mask, modified, after, k, vv, txn); }
  }

  lemma RowTrail<K(!new), V>(data: Rows<K, V>, mask: DeleteMask<K, V>, modified: Option<Mutations<K>>,
                             after: Option<Mutations<K>>, k: K, vv: VersionedValue<V>, txn: TxnId)
    requires !mask.All? && vv.Get(txn).Some? && Written(after) == Written(modified) + {k}
    ensures TrailOf(data[k := vv], Unmask(mask, k), after, txn) ==
            TrailOf(data, mask, modified, txn).With(map[k := vv.Get(txn).value])
  {
    var now := ViewOf(data[k := vv], NoMask, txn);
    assert now == ViewOf(data, NoMask, txn) + map[k := vv.Get(txn).value] by {
      assert forall j :: Lookup(data[k := vv], NoMask, j, txn) ==
                         if j == k then vv.Get(txn) else Lookup(data, NoMask, j, txn);
    }
  }

  /** The keys a pass goes over are the ones below the mask, and among them all visible ones. */
  lemma StoredRows<K(!new), V>(data: Rows<K, V>, mask: DeleteMask<K, V>, modified: Option<Mutations<K>>,
                               txn: TxnId, max: TxnId)
    requires Readable(data, mask, modified, txn, max)
    ensures mask.All? ==> ViewOf(data, mask, txn).Keys == mask.rows.Keys
    ensures !mask.All? ==> ViewOf(data, mask, txn).Keys <= data.Keys == ViewOf(data, NoMask, txn).Keys
  {
  }

  lemma UntrackedAfter<K(!new), V>(data: Rows<K, V>, data': Rows<K, V>, written: set<K>, written': set<K>, k: K,
                                   txn: TxnId)
    requires data'.Keys == data.Keys && forall j :: j in data && j != k ==> data'[j] == data[j]
    requires written' == written || written' == written + {k}
    ensures k in written' ==> Untracked(data', written', txn) == Untracked(data, written, txn) - {k}
    ensures k !in written' && k in data && data'[k].Holds(txn) ==>
              Untracked(data', written', txn) == Untracked(data, written, txn) + {k}
  {
  }

  /** Replacing a row by one that reads the same changes no view. */
  lemma RowKept<K(!new), V>(data: Rows<K, V>, mask: DeleteMask<K, V>, k: K, vv: VersionedValue<V>, txn: TxnId)
    requires !mask.All? && k in data && vv.Get(txn) == data[k].Get(txn)
    ensures ViewOf(data[k := vv], mask, txn) == ViewOf(data, mask, txn)
  {
    assert forall j :: Lookup(data[k := vv], mask, j, txn) == Lookup(data, mask, j, txn);
  }

  class Table<K(==, !new), V(!new)> {
    var data: Rows<K, V>
    var mask: DeleteMask<K, V>
    var modified: Option<Mutations<K>>

    /** The table is consistent for operations at `txn` over the commits up to `max`. */
    ghost predicate Valid(txn: TxnId, max: TxnId)
      reads this
    {
      Consistent(data, mask, modified, txn, max)
    }

    /** Consistent but for versions that a rollback would miss. */
    ghost predicate CanRead(txn: TxnId, max: TxnId)
      reads this
    {
      Readable(data, mask, modified, txn, max)
    }

    ghost function View(txn: TxnId): map<K, V>
      reads this
    {
      ViewOf(data, mask, txn)
    }

    ghost function TrailAt(txn: TxnId): Trail<K, V>
      reads this
    {
      TrailOf(data, mask, modified, txn)
    }

    ghost function Missed(txn: TxnId): set<K>
      reads this
    {
      Untracked(data, Written(modified), txn)
    }

    predicate Blank()
      reads this
    {
      data.Keys == {} && mask.NoMask? && modified.None?
    }

    constructor ()
      ensures Blank()
      ensures Valid(FIRST_TXN, FIRST_TXN) && View(FIRST_TXN) == map[]
    {
      data, mask, modified := map[], NoMask, None;
    }

    function Get(k: K, txn: TxnId): (r: Option<V>)
      reads this
      ensures r == if k in View(txn) then Some(View(txn)[k]) else None
    {
      Lookup(data, mask, k, txn)
    }

    method RecordMutation(k: K, txn: TxnId, max: TxnId)
      requires txn != max && modified.Some? ==> modified.value.id == txn
      modifies this`modified
      ensures txn == max ==> modified == old(modified)
      ensures txn != max ==>
                && modified.Some? && modified.value.id == txn
                && (forall j :: Recorded(modified, j) <==> j == k || Recorded(old(modified), j))
                && Written(modified) == Written(old(modified)) + {k}
    {
      if txn != max {
        match modified {
          case Some(m) => modified := Some(m.(keys := m.keys + [k]));
          case None => modified := Some(Mutations(txn, [k]));
        }
        assert modified.value.keys == KeysOf(old(modified)) + [k];
      }
    }

    method Insert(k: K, v: V, txn: TxnId, max: TxnId)
      requires txn != max && modified.Some? ==> modified.value.id == txn
      modifies this
      ensures !old(mask.All?) ==> mask == Unmask(old(mask), k)
      ensures !old(mask.All?) ==> data == old(data)[k := old(if k in data then data[k] else Empty()).Set(v, txn)]
      ensures old(Valid(txn, max)) ==> Valid(txn, max)
      ensures old(CanRead(txn, max)) ==>
                && CanRead(txn, max)
                && View(txn) == old(View(txn))[k := v]
                && (txn > max ==> View(max) == old(View(max)))
                && (txn > max ==> TrailAt(txn) == if old(mask.All?) then old(TrailAt(txn))
                                                  else old(TrailAt(txn)).With(map[k := v]))
    {
      if mask.All? {
        if CanRead(txn, max) { OverlayStored(data, mask, modified, modified, k, v, txn, max); }
        mask := All(mask.id, mask.rows[k := New(v, txn)]);
      } else {
        RecordMutation(k, txn, max);
        var entry := if k in data then data[k] else Empty();
        if old(CanRead(txn, max)) {
          SetIsolated(entry, v, txn, max);
          RowStored(data, mask, old(modified), modified, k, entry.Set(v, txn), txn, max);
        }
        mask := Unmask(mask, k);
        data := data[k := entry.Set(v, txn)];
      }
    }

    /** `Insert` on a table that can be read. */
    method Put(k: K, v: V, txn: TxnId, max: TxnId)
      requires CanRead(txn, max)
      modifies this
      ensures CanRead(txn, max) && View(txn) == old(View(txn))[k := v]
      ensures old(Valid(txn, max)) ==> Valid(txn, max)
      ensures txn > max ==> View(max) == old(View(max))
      ensures txn > max ==>
                TrailAt(txn) == var was := old(TrailAt(txn)); if was.cleared then was else was.With(map[k := v])
    {
      Insert(k, v, txn, max);
    }

    /**
      Remove a row.  Returns the value whose index entries must go, which for a
      row already hidden by the mask is the hidden one.
     */
    method Remove(k: K, txn: TxnId, max: TxnId) returns (doomed: Option<V>)
      requires CanRead(txn, max)
      modifies this
      ensures CanRead(txn, max)
      ensures View(txn) == old(View(txn)) - {k}
      ensures doomed == old(TrailAt(txn)).Doomed(old(View(txn)), k)
      ensures txn > max ==> View(max) == old(View(max)) && TrailAt(txn) == old(TrailAt(txn))
      ensures old(Valid(txn, max)) ==> Valid(txn, max)
    {
      if txn == max {
        doomed := if k in data then data[k].Take(txn).0 else None;
        data := data - {k};
      } else {
        DoomedIs(data, mask, modified, k, txn, max);
        doomed := if mask.All? && k in mask.rows && mask.rows[k].Take(txn).0.Some? then mask.rows[k].Take(txn).0
                  else LookupData(data, k, txn);
        RowHidden(data, mask, modified, k, txn, max);
        RowHiddenView(data, mask, k, txn, max);
        mask := Hide(mask, k, txn, data);
      }
    }

    /** Mutate a visible row through `f`; returns the value before and after. */
    method WithMut(k: K, f: V -> V, txn: TxnId, max: TxnId) returns (r: Option<(V, V)>)
      requires CanRead(txn, max)
      modifies this
      ensures CanRead(txn, max)
      ensures var was := old(View(txn));
              if k in was then r == Some((was[k], f(was[k]))) && View(txn) == was[k := f(was[k])]
              else r == None && unchanged(this)
      ensures txn > max ==> View(max) == old(View(max))
      ensures old(Valid(txn, max)) ==> Valid(txn, max)
      ensures txn > max && r.Some? ==> TrailAt(txn) == old(TrailAt(txn)).With(map[k := r.value.1])
    {
      var before := Get(k, txn);
      if before.None? { return None; }
      var v := f(before.value);
      r := Some((before.value, v));
      if mask.All? {
        OverlayRow(data, mask, k, txn, max);
        WriteOverlay(k, v, txn, max);
      } else {
        CloneIsolated(data[k], txn, max);
        SetIsolated(data[k].InternalClone(txn), v, txn, max);
        WriteRow(k, data[k].InternalClone(txn).Set(v, txn), v, txn, max);
      }
    }

    /** Put `v` in the overlay in place of a row it holds, on record. */
    method WriteOverlay(k: K, v: V, txn: TxnId, max: TxnId)
      requires CanRead(txn, max) && mask.All? && k in mask.rows
      modifies this
      ensures CanRead(txn, max) && mask.All? && mask.rows.Keys == old(mask.rows.Keys) && data == old(data)
      ensures old(Valid(txn, max)) ==> Valid(txn, max)
      ensures View(txn) == old(View(txn))[k := v] && View(max) == old(View(max))
      ensures TrailAt(txn) == old(TrailAt(txn)).With(map[k := v])
    {
      RecordMutation(k, txn, max);
      OverlayStored(data, mask, old(modified), modified, k, v, txn, max);
      assert mask.rows[k].Set(v, txn) == New(v, txn);
      mask := All(mask.id, mask.rows[k := mask.rows[k].Set(v, txn)]);
    }

    /** Put a version that reads `v` in place of a visible row of the data, on record. */
    method WriteRow(k: K, vv: VersionedValue<V>, ghost v: V, txn: TxnId, max: TxnId)
      requires CanRead(txn, max) && !mask.All? && k in data && k in View(txn)
      requires vv.WellFormed(txn, max) && vv.Get(txn) == Some(v) && (txn > max ==> vv.Get(max) == data[k].Get(max))
      modifies this
      ensures CanRead(txn, max) && mask == old(mask) && data == old(data)[k := vv]
      ensures old(Valid(txn, max)) ==> Valid(txn, max)
      ensures View(txn) == old(View(txn))[k := v]
      ensures txn > max ==> View(max) == old(View(max))
      ensures txn > max ==> TrailAt(txn) == old(TrailAt(txn)).With(map[k := v])
    {
      RecordMutation(k, txn, max);
      RowStored(data, mask, old(modified), modified, k, vv, txn, max);
      assert Unmask(mask, k) == mask;
      data := data[k := vv];
    }

    method Clear(txn: TxnId, max: TxnId)
      requires CanRead(txn, max)
      modifies this
      ensures CanRead(txn, max)
      ensures View(txn) == map[]
      ensures txn > max ==> View(max) == old(View(max))
      ensures old(Valid(txn, max)) ==> Valid(txn, max)
      ensures txn > max ==> TrailAt(txn) == old(TrailAt(txn)).(cleared := true)
    {
      if txn == max {
        data := map[];
      } else {
        mask := All(txn, map[]);
      }
    }

    /**
      Roll the table back.  From a consistent state this restores the committed
      view and leaves no slot written by `txn`.
     */
    method GcTxn(txn: TxnId, ghost max: TxnId)
      requires modified.Some? ==> modified.value.id == txn
      modifies this
      ensures mask == NoMask && modified == None
      ensures data == Collected(old(data), KeysOf(old(modified)), txn)
      ensures txn > max && old(Valid(txn, max)) ==>
                && Valid(max, max)
                && View(max) == old(View(max))
                && forall k :: k in data ==> !data[k].Holds(txn)
    {
      mask := NoMask;
      if modified.Some? {
        CollectKeys(modified.value.keys, txn);
        modified := None;
      }
      if txn > max && old(Valid(txn, max)) {
        CollectedConsistent(old(data), old(mask), old(modified), txn, max);
      }
    }

    method CollectKeys(keys: seq<K>, txn: TxnId)
      modifies this`data
      ensures data == Collected(old(data), keys, txn)
    {
      for i := 0 to |keys|
        invariant data == Collected(old(data), keys[..i], txn)
      {
        var k := keys[i];
        if k in data {
          var value := data[k].GcTxn(txn);
          data := if value.IsEmpty() then data - {k} else data[k := value];
        }
        CollectOne(old(data), keys, i, txn);
      }
      assert keys[..|keys|] == keys;
    }

    /** The table's transaction state, if it has any, belongs to `txn`. */
    predicate Committable(txn: TxnId)
      reads this
    {
      (modified.Some? ==> modified.value.id == txn) && (!mask.NoMask? ==> mask.id == txn)
    }

    method CheckTxnConsistency(txn: TxnId) returns (ok: bool)
      ensures ok <==> Committable(txn)
    {
      if modified.Some? && modified.value.id != txn { return false; }
      ok := mask.NoMask? || mask.id == txn;
    }

    /** Make the transaction's view the committed one; versions missing from the record do not matter. */
    method CommitTxn(txn: TxnId, ghost max: TxnId)
      requires Committable(txn)
      modifies this
      ensures old(CanRead(txn, max)) ==> Valid(txn, txn) && View(txn) == old(View(txn))
    {
      if CanRead(txn, max) {
        CommitConsistent(data, mask, modified, txn, max);
      }
      modified := None;
      data := Applied(data, mask);
      mask := NoMask;
    }

    /** The number of visible rows; the subtraction under a partial mask never underflows. */
    method Len(txn: TxnId, ghost max: TxnId) returns (n: nat)
      requires CanRead(txn, max)
      ensures n == |View(txn)|
    {
      var live := set k | k in data && data[k].Get(txn).Some?;
      assert live == data.Keys;
      match mask
      case NoMask =>
        assert View(txn).Keys == live;
        n := |live|;
      case All(_, rows) =>
        assert View(txn).Keys == rows.Keys;
        n := |rows|;
      case Removed(_, keys) =>
        assert View(txn).Keys == live - keys;
        assert live == (live - keys) + keys;
        n := |live| - |keys|;
    }

    method IsEmpty(txn: TxnId, ghost max: TxnId) returns (b: bool)
      requires CanRead(txn, max)
      ensures b <==> View(txn) == map[]
    {
      if mask.Removed? && data == map[] { return true; }
      var n := Len(txn, max);
      b := n == 0;
    }

    /** The keys `for_each_mut` passes over: those of the overlay of a cleared table, or of the data. */
    function Stored(): set<K>
      reads this
    {
      if mask.All? then mask.rows.Keys else data.Keys
    }

    /**
      One step of `for_each_mut`.  A visible row is mutated and put on record.  A
      row that the mask hides is cloned all the same, and not put on record.
     */
    method VisitRow(k: K, f: (K, V) -> V, txn: TxnId, max: TxnId) returns (r: Option<(V, V)>)
      requires CanRead(txn, max) && k in Stored()
      modifies this
      ensures CanRead(txn, max) && Stored() == old(Stored()) && (mask.All? <==> old(mask.All?))
      ensures r == if k in old(View(txn)) then Some((old(View(txn))[k], f(k, old(View(txn))[k]))) else None
      ensures View(txn) == if r.Some? then old(View(txn))[k := r.value.1] else old(View(txn))
      ensures txn > max ==> View(max) == old(View(max))
      ensures txn > max ==> TrailAt(txn) == if r.Some? then old(TrailAt(txn)).With(map[k := r.value.1])
                                            else old(TrailAt(txn))
      ensures txn > max ==>
                Missed(txn) == if r.Some? || k in old(TrailAt(txn)).written then old(Missed(txn)) - {k}
                               else old(Missed(txn)) + {k}
    {
      if mask.All? {
        OverlayRow(data, mask, k, txn, max);
        var v := mask.rows[k].Get(txn).value;
        r := Some((v, f(k, v)));
        WriteOverlay(k, f(k, v), txn, max);
      } else {
        r := TouchRow(k, f, txn, max);
      }
      if txn > max {
        UntrackedAfter(old(data), data, old(TrailAt(txn)).written, TrailAt(txn).written, k, txn);
      }
    }

    method TouchRow(k: K, f: (K, V) -> V, txn: TxnId, max: TxnId) returns (r: Option<(V, V)>)
      requires CanRead(txn, max) && !mask.All? && k in data
      modifies this
      ensures CanRead(txn, max) && mask == old(mask)
      ensures k in data && data == old(data)[k := data[k]] && data[k].Holds(txn)
      ensures r == if k in old(View(txn)) then Some((old(View(txn))[k], f(k, old(View(txn))[k]))) else None
      ensures View(txn) == if r.Some? then old(View(txn))[k := r.value.1] else old(View(txn))
      ensures txn > max ==> View(max) == old(View(max))
      ensures txn > max ==> TrailAt(txn) == if r.Some? then old(TrailAt(txn)).With(map[k := r.value.1])
                                            else old(TrailAt(txn))
    {
      var hidden := mask.Removed? && k in mask.keys;
      TouchedRow(k, data[k], hidden, f, txn, max);
      var vv := Touched(k, data[k], hidden, f, txn);
      if hidden {
        CloneRow(k, vv, txn, max);
        r := None;
      } else {
        r := Some((data[k].Get(txn).value, f(k, data[k].Get(txn).value)));
        WriteRow(k, vv, r.value.1, txn, max);
      }
    }

    /** Give the transaction its own version of a row that reads the same, without a record. */
    method CloneRow(k: K, vv: VersionedValue<V>, txn: TxnId, max: TxnId)
      requires CanRead(txn, max) && !mask.All? && k in data && txn > max
      requires vv.WellFormed(txn, max) && vv.Holds(txn)
      requires vv.Get(txn) == data[k].Get(txn) && vv.Get(max) == data[k].Get(max)
      modifies this`data
      ensures CanRead(txn, max) && data == old(data)[k := vv]
      ensures View(txn) == old(View(txn)) && View(max) == old(View(max)) && TrailAt(txn) == old(TrailAt(txn))
    {
      RowKept(data, mask, k, vv, txn);
      RowKept(data, mask, k, vv, max);
      RowKept(data, NoMask, k, vv, txn);
      data := data[k := vv];
    }
  }
}
