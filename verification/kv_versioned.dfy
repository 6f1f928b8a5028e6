/**
  The two-slot versioned value behind every row and singleton of the store.

  A transaction id is a counter.  `max` is the id of the last committed
  transaction and `txn` the id an operation runs at: `txn == max` outside a
  transaction, `txn > max` inside one.
 */
module VersionedValues {
  import opened Common

  type TxnId = nat

  const FIRST_TXN: TxnId := 1

  datatype Slot<T> = Slot(id: TxnId, value: T)

  datatype VersionedValue<T> = VersionedValue(a: Option<Slot<T>>, b: Option<Slot<T>>) {
    predicate IsEmpty() {
      a.None? && b.None?
    }

    /** True if some slot holds version `id`. */
    predicate Holds(id: TxnId) {
      (a.Some? && a.value.id == id) || (b.Some? && b.value.id == id)
    }

    /** The newest version no newer than `id`. */
    function Get(id: TxnId): Option<T> {
      if a.Some? && id >= a.value.id then
        if b.Some? && id >= b.value.id then
          if a.value.id > b.value.id then Some(a.value.value) else Some(b.value.value)
        else Some(a.value.value)
      else if b.Some? && id >= b.value.id then Some(b.value.value)
      else None
    }

    /** The value taken out at `id`, and what is left behind. */
    function Take(id: TxnId): (Option<T>, VersionedValue<T>) {
      if a.Some? && b.Some? && id >= a.value.id && id >= b.value.id then
        if a.value.id > b.value.id then (Some(a.value.value), this.(a := None))
        else (Some(b.value.value), this.(b := None))
      else if a.Some? && id >= a.value.id then (Some(a.value.value), this.(a := None))
      else if b.Some? && id >= b.value.id then (Some(b.value.value), this.(b := None))
      else (None, this)
    }

    /** Write `v` as version `id`, over the older version when both slots are full. */
    function Set(v: T, id: TxnId): VersionedValue<T> {
      var slot := Some(Slot(id, v));
      if a.Some? && id == a.value.id then this.(a := slot)
      else if b.Some? && id == b.value.id then this.(b := slot)
      else if a.Some? && b.Some? then
        if a.value.id > b.value.id then this.(b := slot) else this.(a := slot)
      else if a.None? then this.(a := slot)
      else this.(b := slot)
    }

    /** Make sure a non-empty value has its own version `id`, copied from the newest one. */
    function InternalClone(id: TxnId): VersionedValue<T> {
      if a.Some? then
        if id == a.value.id then this
        else if b.Some? then
          if id == b.value.id then this
          else if a.value.id > b.value.id then this.(b := Some(Slot(id, a.value.value)))
          else this.(a := Some(Slot(id, b.value.value)))
        else this.(b := Some(Slot(id, a.value.value)))
      else if b.Some? then
        if id == b.value.id then this
        else this.(a := Some(Slot(id, b.value.value)))
      else this
    }

    /** Drop the versions written by transaction `id`. */
    function GcTxn(id: TxnId): VersionedValue<T> {
      VersionedValue(
        if a.Some? && a.value.id == id then None else a,
        if b.Some? && b.value.id == id then None else b)
    }

    /**
      Every version is committed or belongs to the running transaction, and no
      two versions share an id.
     */
    predicate WellFormed(txn: TxnId, max: TxnId) {
      && !IsEmpty()
      && (a.Some? ==> a.value.id <= max || a.value.id == txn)
      && (b.Some? ==> b.value.id <= max || b.value.id == txn)
      && (a.Some? && b.Some? ==> a.value.id != b.value.id)
    }
  }

  function Empty<T>(): VersionedValue<T> {
    VersionedValue(None, None)
  }

  function New<T>(v: T, id: TxnId): VersionedValue<T> {
    VersionedValue(Some(Slot(id, v)), None)
  }

  /** A write is read back by its transaction and hidden from the committed view. */
  lemma SetIsolated<T>(vv: VersionedValue<T>, v: T, txn: TxnId, max: TxnId)
    requires txn >= max
    requires vv.IsEmpty() || vv.WellFormed(txn, max)
    ensures vv.Set(v, txn).WellFormed(txn, max)
    ensures vv.Set(v, txn).Holds(txn)
    ensures vv.Set(v, txn).Get(txn) == Some(v)
    ensures txn > max ==> vv.Set(v, txn).Get(max) == vv.Get(max)
  {
  }

  /** Cloning gives the transaction its own version and changes no read. */
  lemma CloneIsolated<T>(vv: VersionedValue<T>, txn: TxnId, max: TxnId)
    requires txn >= max
    requires vv.WellFormed(txn, max)
    ensures vv.InternalClone(txn).WellFormed(txn, max)
    ensures vv.InternalClone(txn).Holds(txn)
    ensures vv.InternalClone(txn).Get(txn) == vv.Get(txn)
    ensures vv.Get(txn).Some?
    ensures vv.InternalClone(txn).Get(max) == vv.Get(max)
  {
  }

  /** Collecting a transaction removes exactly its version. */
  lemma GcRestores<T>(vv: VersionedValue<T>, txn: TxnId, max: TxnId)
    requires txn > max
    requires vv.WellFormed(txn, max)
    ensures !vv.GcTxn(txn).Holds(txn)
    ensures vv.GcTxn(txn).IsEmpty() || vv.GcTxn(txn).WellFormed(max, max)
    ensures vv.GcTxn(txn).Get(max) == vv.Get(max)
    ensures vv.GcTxn(txn).IsEmpty() <==> vv.Get(max).None?
  {
  }
}
