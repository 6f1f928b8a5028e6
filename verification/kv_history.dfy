/**
  Two slots suffice: a versioned value answers like an unbounded version list.

  The reference keeps every version ever written in a map from transaction id to
  value.  The two-slot value forgets all but two of them, and still gives the
  same answer at the only two ids the store reads at.
 */
module VersionHistory {
  import opened Common
  import opened VersionedValues

  /** What the store does to one value, and the transaction events around it. */
  datatype Event<!T> =
    | Write(value: T)
    | Mutate(f: T -> T)
    | Begin
    | Commit
    | Rollback

  /** `next` is the id the next transaction will get. */
  datatype Clock = Clock(txn: TxnId, max: TxnId, next: TxnId) {
    predicate Valid() {
      max <= txn < next
    }

    function Tick<T>(e: Event<T>): Clock {
      match e
      case Begin => if txn == max then Clock(next, max, next + 1) else this
      case Commit => Clock(txn, txn, next)
      case Rollback => Clock(max, max, next)
      case _ => this
    }
  }

  /** The newest version no newer than `id` in an unbounded list. */
  ghost function Latest<T>(h: map<TxnId, T>, id: TxnId): Option<T> {
    if exists i :: IsLatest(h, id, i) then
      var i :| IsLatest(h, id, i);
      Some(h[i])
    else None
  }

  ghost predicate IsLatest<T>(h: map<TxnId, T>, id: TxnId, i: TxnId) {
    i in h && i <= id && forall j :: j in h && j <= id ==> j <= i
  }

  function StepSlots<T>(vv: VersionedValue<T>, c: Clock, e: Event<T>): VersionedValue<T> {
    match e
    case Write(v) => vv.Set(v, c.txn)
    case Mutate(f) =>
      var cloned := vv.InternalClone(c.txn);
      var r := cloned.Get(c.txn);
      if r.Some? then cloned.Set(f(r.value), c.txn) else cloned
    case Rollback => if c.txn > c.max then vv.GcTxn(c.txn) else vv
    case _ => vv
  }

  ghost function StepHistory<T>(h: map<TxnId, T>, c: Clock, e: Event<T>): map<TxnId, T> {
    match e
    case Write(v) => h[c.txn := v]
    case Mutate(f) =>
      var r := Latest(h, c.txn);
      if r.Some? then h[c.txn := f(r.value)] else h
    case Rollback => if c.txn > c.max then h - {c.txn} else h
    case _ => h
  }

  const START: Clock := Clock(FIRST_TXN, FIRST_TXN, FIRST_TXN + 1)

  function RunClock<T>(c: Clock, es: seq<Event<T>>): Clock
    decreases es
  {
    if es == [] then c else RunClock(c.Tick(es[0]), es[1..])
  }

  function RunSlots<T>(vv: VersionedValue<T>, c: Clock, es: seq<Event<T>>): VersionedValue<T>
    decreases es
  {
    if es == [] then vv else RunSlots(StepSlots(vv, c, es[0]), c.Tick(es[0]), es[1..])
  }

  ghost function RunHistory<T>(h: map<TxnId, T>, c: Clock, es: seq<Event<T>>): map<TxnId, T>
    decreases es
  {
    if es == [] then h else RunHistory(StepHistory(h, c, es[0]), c.Tick(es[0]), es[1..])
  }

  /** The slots answer like the history at the committed id and at the running id. */
  ghost predicate Agree<T>(vv: VersionedValue<T>, h: map<TxnId, T>, c: Clock) {
    && c.Valid()
    && (vv.IsEmpty() || vv.WellFormed(c.txn, c.max))
    && (forall i :: i in h ==> i <= c.max || i == c.txn)
    && vv.Get(c.max) == Latest(h, c.max)
    && vv.Get(c.txn) == Latest(h, c.txn)
    && (c.txn > c.max ==> (vv.Holds(c.txn) <==> c.txn in h))
  }

  lemma LatestIs<T>(h: map<TxnId, T>, id: TxnId, i: TxnId)
    requires IsLatest(h, id, i)
    ensures Latest(h, id) == Some(h[i])
  {
  }

  /** Two histories with the same versions up to `id` have the same newest one. */
  lemma LatestSame<T>(h: map<TxnId, T>, g: map<TxnId, T>, id: TxnId, jd: TxnId)
    requires forall i :: (i in h && i <= id) <==> (i in g && i <= jd)
    requires forall i :: i in h && i <= id ==> h[i] == g[i]
    ensures Latest(h, id) == Latest(g, jd)
  {
    if i :| IsLatest(h, id, i) {
      LatestIs(h, id, i);
      LatestIs(g, jd, i);
    } else {
      assert forall i :: IsLatest(g, jd, i) ==> IsLatest(h, id, i);
    }
  }

  lemma WriteAgrees<T>(vv: VersionedValue<T>, h: map<TxnId, T>, c: Clock, v: T)
    requires Agree(vv, h, c)
    ensures Agree(vv.Set(v, c.txn), h[c.txn := v], c)
  {
    var g := h[c.txn := v];
    SetIsolated(vv, v, c.txn, c.max);
    LatestIs(g, c.txn, c.txn);
    if c.txn > c.max {
      LatestSame(h, g, c.max, c.max);
    }
  }

  lemma StepAgrees<T>(vv: VersionedValue<T>, h: map<TxnId, T>, c: Clock, e: Event<T>)
    requires Agree(vv, h, c)
    ensures Agree(StepSlots(vv, c, e), StepHistory(h, c, e), c.Tick(e))
  {
    match e
    case Write(v) => WriteAgrees(vv, h, c, v);
    case Mutate(f) =>
      if !vv.IsEmpty() {
        CloneIsolated(vv, c.txn, c.max);
        var cloned := vv.InternalClone(c.txn);
        var v := f(cloned.Get(c.txn).value);
        WriteAgrees(vv, h, c, v);
        SetIsolated(cloned, v, c.txn, c.max);
      }
    case Begin =>
      if c.txn == c.max {
        LatestSame(h, h, c.max, c.next);
      }
    case Commit =>
    case Rollback =>
      if c.txn > c.max {
        LatestSame(h, h - {c.txn}, c.max, c.max);
        if !vv.IsEmpty() {
          GcRestores(vv, c.txn, c.max);
        }
      }
  }

  lemma {:induction false} RunAgrees<T>(vv: VersionedValue<T>, h: map<TxnId, T>, c: Clock, es: seq<Event<T>>)
    requires Agree(vv, h, c)
    ensures Agree(RunSlots(vv, c, es), RunHistory(h, c, es), RunClock(c, es))
    decreases es
  {
    if es != [] {
      StepAgrees(vv, h, c, es[0]);
      RunAgrees(StepSlots(vv, c, es[0]), StepHistory(h, c, es[0]), c.Tick(es[0]), es[1..]);
    }
  }

  /**
    Over every history of writes, in-place mutations, begins, commits and
    rollbacks, the two slots answer like the unbounded version list at the
    committed id and at the running id, and the slot ids stay distinct.
   */
  lemma TwoSlotsSuffice<T>(es: seq<Event<T>>)
    ensures var c := RunClock(START, es);
            var vv := RunSlots(Empty<T>(), START, es);
            var h := RunHistory<T>(map[], START, es);
            && vv.Get(c.max) == Latest(h, c.max)
            && vv.Get(c.txn) == Latest(h, c.txn)
            && (vv.a.Some? && vv.b.Some? ==> vv.a.value.id != vv.b.value.id)
  {
    RunAgrees(Empty<T>(), map[], START, es);
  }
}
