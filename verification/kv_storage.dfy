/** The storage behind the store's lock: all tables, the singletons and the transaction clock. */
module Storages {
  import opened Common
  import opened Schema
  import opened VersionedValues
  import opened Tables
  import opened IndexViews
  import opened TableStorages
  import M = Machine

  datatype PendingTxn = PendingTxn(id: TxnId, modified: seq<Name>)

  /** A singleton is deleted by writing a tombstone. */
  type SingleRows = Rows<Name, Option<Single>>

  ghost function Live(m: map<Name, Option<Single>>): map<Name, Single> {
    map n | n in m && m[n].Some? :: m[n].value
  }

  ghost function SinglesAt(rows: SingleRows, txn: TxnId): map<Name, Single> {
    Live(ViewOf(rows, NoMask, txn))
  }

  ghost function Changed(m: map<Name, Single>, n: Name, v: Option<Single>): map<Name, Single> {
    if v.Some? then m[n := v.value] else m - {n}
  }

  lemma LiveChanged(m: map<Name, Option<Single>>, n: Name, v: Option<Single>)
    ensures Live(m[n := v]) == Changed(Live(m), n, v)
  {
  }

  function Mods(p: Option<PendingTxn>): Option<Mutations<Name>> {
    if p.Some? then Some(Mutations(p.value.id, p.value.modified)) else None
  }

  /**
    The store behind the views of the committed and of the running transaction id,
    the running transaction's trails, and the singletons.
   */
  ghost function Stands(committedViews: seq<BaseView>, views: seq<BaseView>, trails: seq<BaseTrail>,
                        singles: SingleRows, committed: TxnId, pending: Option<PendingTxn>, next: TxnId): M.Store
  {
    M.Store(M.Database(RowsOf(committedViews), SinglesAt(singles, committed)), committed,
            if pending.None? then None
            else
              var id := pending.value.id;
              Some(M.Pending(id, M.Database(RowsOf(views), SinglesAt(singles, id)), trails)),
            next)
  }

  class Storage {
    const tables: TableStorage
    var singletons: SingleRows
    var committed: TxnId
    var pending: Option<PendingTxn>
    var next: TxnId

    function TxnIdOf(): TxnId
      reads this
    {
      if pending.Some? then pending.value.id else committed
    }

    ghost predicate Wired() {
      tables.Wired() && this !in tables.home
    }

    ghost predicate SinglesValid()
      reads this
    {
      && committed < next && (pending.Some? ==> committed < pending.value.id < next)
      && Consistent(singletons, NoMask, Mods(pending), TxnIdOf(), committed)
    }

    ghost predicate Valid()
      reads this, tables.home.Keys
    {
      Wired() && SinglesValid() && tables.Valid(TxnIdOf(), committed)
    }

    /** What the storage stands for. */
    ghost function Abs(): (s: M.Store)
      requires Wired()
      reads this, tables.home.Keys
      ensures SinglesValid() ==> s.Valid(tables.schema)
    {
      Stands(tables.Sees(committed), tables.Sees(TxnIdOf()), tables.Trails(TxnIdOf()),
             singletons, committed, pending, next)
    }

    /** Whether every index of every table is the inverse of its base table, committed and pending. */
    ghost function Health(): M.Health
      requires Wired()
      reads this, tables.home.Keys
    {
      M.Health(AllAgree(tables.Sees(committed), tables.schema), AllAgree(tables.Sees(TxnIdOf()), tables.schema))
    }

    /** A new, empty store over the declared tables. */
    constructor (schema: Layout)
      ensures Valid() && Health() == M.HEALTHY && tables.schema == schema && fresh(tables.home.Keys)
      ensures Abs() == M.Store(M.Database(seq(|schema|, _ => map[]), map[]), FIRST_TXN, None, FIRST_TXN + 1)
      ensures committed == 1 && next == 2 && singletons == map[]
    {
      tables := new TableStorage(schema);
      singletons := map[];
      committed, pending, next := FIRST_TXN, None, FIRST_TXN + 1;
      new;
      NothingStored(schema);
      NothingStands(tables.Sees(FIRST_TXN), tables.Trails(FIRST_TXN), schema);
    }

    /**
      A row command, with what it means for the abstract store.  A command through an
      index follows the index, so its meaning depends on the indexes being right.
     */
    method ExecuteTable(c: M.Command)
      requires Valid() && M.OnTable(c) && M.InSchema(c, tables.schema) && CanUndo(c)
      modifies tables.home.Keys
      ensures Valid() && M.Executed(old(Abs()), old(Health()), c, tables.schema, Abs(), Health())
    {
      ghost var txn, committedViews := TxnIdOf(), tables.Sees(committed);
      ghost var was, trails := tables.Sees(txn), tables.Trails(txn);
      tables.ReportsFaithfully(c.t, txn, committed);
      ghost var order := tables.Execute(c, TxnIdOf(), committed);
      ghost var o := Snapshot(committedViews, singletons, committed, pending, next);
      TableExecuted(o, was, trails, tables.schema, c, order,
                    tables.Sees(committed), tables.Sees(txn), tables.Trails(txn));
    }

    /** Inside a transaction, `for_each_mut` needs every row it deleted to be on record. */
    ghost predicate CanUndo(c: M.Command)
      requires Valid() && M.OnTable(c) && M.InSchema(c, tables.schema)
      reads this, tables.home.Keys
    {
      c.MutateAll? && pending.Some? ==>
        tables.Trails(TxnIdOf())[c.t].Unexposed(tables.Sees(TxnIdOf())[c.t].rows)
    }

    /** Write `v` as the running version of singleton `n`; a tombstone needs an entry to go to. */
    method WriteSingle(n: Name, v: Option<Single>)
      requires SinglesValid()
      modifies this`singletons, this`pending
      ensures SinglesValid()
      ensures TxnIdOf() == old(TxnIdOf()) && (pending.Some? <==> old(pending.Some?))
      ensures SinglesAt(singletons, TxnIdOf()) == Changed(SinglesAt(old(singletons), TxnIdOf()), n, v)
      ensures pending.Some? ==> SinglesAt(singletons, committed) == SinglesAt(old(singletons), committed)
    {
      var txn := TxnIdOf();
      RecordMutation(n);
      if v.Some? || n in singletons {
        var entry := if n in singletons then singletons[n] else Empty();
        SetIsolated(entry, v, txn, committed);
        RowWritten(singletons, NoMask, Mods(old(pending)), Mods(pending), n, entry.Set(v, txn), txn, committed);
        RowWrittenView(singletons, NoMask, n, entry.Set(v, txn), txn, committed);
        LiveChanged(ViewOf(singletons, NoMask, txn), n, v);
        singletons := singletons[n := entry.Set(v, txn)];
      }
    }

    method RecordMutation(n: Name)
      modifies this`pending
      ensures TxnIdOf() == old(TxnIdOf()) && (pending.Some? <==> old(pending.Some?))
      ensures pending.Some? ==> pending.value.id == old(pending).value.id
      ensures RecordedAfter(Mods(old(pending)), Mods(pending), n, TxnIdOf(), committed)
    {
      if committed != TxnIdOf() && pending.Some? {
        pending := Some(pending.value.(modified := pending.value.modified + [n]));
      }
    }

    /** Run a command at the current transaction id. */
    method Execute(c: M.Command)
      requires Valid() && M.InSchema(c, tables.schema) && (M.OnTable(c) ==> CanUndo(c))
      modifies this`singletons, this`pending, tables.home.Keys
      ensures Valid() && M.Executed(old(Abs()), old(Health()), c, tables.schema, Abs(), Health())
    {
      match c
      case SetSingle(n, s) => ExecuteSingle(c, n, Some(s));
      case RemoveSingle(n) => ExecuteSingle(c, n, None);
      case _ => ExecuteTable(c);
    }

    method ExecuteSingle(ghost c: M.Command, n: Name, v: Option<Single>)
      requires Valid()
      requires c == if v.Some? then M.SetSingle(n, v.value) else M.RemoveSingle(n)
      modifies this`singletons, this`pending
      ensures Valid() && M.Executed(old(Abs()), old(Health()), c, tables.schema, Abs(), Health())
    {
      ghost var txn, o := TxnIdOf(), Snapshot(tables.Sees(committed), singletons, committed, pending, next);
      ghost var vs, trails := tables.Sees(txn), tables.Trails(txn);
      WriteSingle(n, v);
      assert tables.Sees(committed) == o.views && tables.Sees(txn) == vs && tables.Trails(txn) == trails;
      SingleExecuted(o, vs, trails, tables.schema, c, n, v, singletons, pending);
    }

    /** Start a transaction: on a private copy of the committed database, if an earlier one has been cleared. */
    method BeginTransaction() returns (id: TxnId)
      requires Valid()
      modifies this`pending, this`next
      ensures id == old(next) && next == id + 1 && pending == Some(PendingTxn(id, []))
      ensures old(pending).None? ==>
                && Valid() && Abs() == M.Step(old(Abs()), M.Begin, tables.schema)
                && Abs().db == old(Abs()).db && Abs().Current() == old(Abs()).db
                && Health() == old(Health())
    {
      if pending.None? {
        id := BeginFresh();
      } else {
        id := next;
        pending, next := Some(PendingTxn(id, [])), id + 1;
      }
    }

    method BeginFresh() returns (id: TxnId)
      requires Valid() && pending.None?
      modifies this`pending, this`next
      ensures id == old(next) && next == id + 1 && pending == Some(PendingTxn(id, []))
      ensures Valid() && Abs() == M.Step(old(Abs()), M.Begin, tables.schema)
      ensures Health() == old(Health())
    {
      id := next;
      SinglesBegin(singletons, committed, id);
      tables.BeginValid(committed, id);
      BeginStands(tables.Sees(committed), tables.Trails(committed), singletons, committed, id, tables.schema);
      pending := Some(PendingTxn(id, []));
      next := id + 1;
    }

    /**
      Commit: fails, changing nothing, when `txn` is not the running transaction;
      otherwise the pending database becomes the committed one everywhere at once.
     */
    method CommitTransaction(txn: TxnId) returns (ok: bool)
      requires Valid()
      modifies this, tables.home.Keys
      ensures Valid()
      ensures ok <==> old(pending.Some? && pending.value.id == txn)
      ensures !ok ==> unchanged(this) && unchanged(tables.home.Keys)
      ensures Abs() == M.Step(old(Abs()), M.Commit(txn), tables.schema)
      ensures ok ==> Abs().db == old(Abs()).Current() && Abs().pending.None? && committed == txn
      ensures ok ==> Health() == M.Health(old(Health()).current, old(Health()).current)
    {
      if pending.None? || pending.value.id != txn { return false; }
      ok := CommitRunning(txn);
    }

    method CommitRunning(txn: TxnId) returns (ok: bool)
      requires Valid() && pending.Some? && pending.value.id == txn
      modifies this`committed, this`pending, tables.home.Keys
      ensures ok && Valid() && Abs() == M.Step(old(Abs()), M.Commit(txn), tables.schema)
      ensures Health() == M.Health(old(Health()).current, old(Health()).current)
    {
      SinglesCommit(singletons, Mods(pending), txn, committed);
      ok := CommitTables(txn);
      committed, pending := txn, None;
    }

    method CommitTables(txn: TxnId) returns (ok: bool)
      requires Wired() && tables.Valid(txn, committed)
      modifies tables.home.Keys
      ensures ok && tables.Valid(txn, txn) && tables.Sees(txn) == old(tables.Sees(txn))
    {
      ok := tables.CommitTxn(txn, committed);
    }

    /** Discard the running transaction, or what is left of an abandoned one. */
    method ClearTransaction()
      requires Valid()
      modifies this`singletons, this`pending, tables.home.Keys
      ensures Valid()
      ensures Abs() == old(Abs()).(pending := None)
      ensures pending.None? && Health() == M.Health(old(Health()).committed, old(Health()).committed)
    {
      if pending.Some? {
        var id := pending.value.id;
        CollectedConsistent(singletons, NoMask, Mods(pending), id, committed);
        GcSingletons(pending.value.modified, id);
        tables.GcTxn(id, committed);
        pending := None;
      }
    }

    method GcSingletons(keys: seq<Name>, id: TxnId)
      modifies this`singletons
      ensures singletons == Collected(old(singletons), keys, id)
    {
      for i := 0 to |keys|
        invariant singletons == Collected(old(singletons), keys[..i], id)
      {
        var n := keys[i];
        CollectOne(old(singletons), keys, i, id);
        if n in singletons {
          var v := singletons[n].GcTxn(id);
          singletons := if v.IsEmpty() then singletons - {n} else singletons[n := v];
        }
      }
      assert keys[..|keys|] == keys;
    }

    /** Roll a transaction back; does nothing if `txn` is not the running one. */
    method RollbackTransaction(txn: TxnId)
      requires Valid()
      modifies this`singletons, this`pending, tables.home.Keys
      ensures Valid()
      ensures Abs() == M.Step(old(Abs()), M.Rollback(txn), tables.schema)
      ensures if old(pending.Some? && pending.value.id == txn) then Abs() == old(Abs()).(pending := None)
              else unchanged(this) && unchanged(tables.home.Keys)
      ensures Health() == if old(pending.Some? && pending.value.id == txn)
                then M.Health(old(Health()).committed, old(Health()).committed) else old(Health())
    {
      if pending.None? || pending.value.id != txn { return; }
      ClearTransaction();
    }
  }

  lemma NothingStored(schema: Layout)
    ensures var vs := seq(|schema|, i requires 0 <= i < |schema| => Nothing(schema[i]));
            AllAgree(vs, schema) && RowsOf(vs) == seq(|schema|, _ => map[])
  {
    forall i | 0 <= i < |schema| {
      NothingAgrees<Key, Value, IndexKey>(schema[i]);
    }
  }

  lemma NothingStands(vs: seq<BaseView>, trails: seq<BaseTrail>, schema: Layout)
    requires RowsOf(vs) == seq(|schema|, _ => map[])
    ensures Stands(vs, vs, trails, map[], FIRST_TXN, None, FIRST_TXN + 1) ==
            M.Store(M.Database(seq(|schema|, _ => map[]), map[]), FIRST_TXN, None, FIRST_TXN + 1)
  {
    assert SinglesAt(map[], FIRST_TXN) == map[];
  }

  /** The part of a storage that a row command leaves alone, with the committed views before it. */
  datatype Snapshot = Snapshot(views: seq<BaseView>, singles: SingleRows, committed: TxnId, pending: Option<PendingTxn>,
                               next: TxnId)

  lemma TableExecuted(o: Snapshot, vs: seq<BaseView>, trails: seq<BaseTrail>, schema: Layout, c: M.Command,
                      order: seq<Key>, committed': seq<BaseView>, vs': seq<BaseView>, trails': seq<BaseTrail>)
    requires M.OnTable(c) && M.InSchema(c, schema) && o.committed < o.next
    requires o.pending.Some? ==> o.committed < o.pending.value.id < o.next
    requires |vs| == |vs'| == |trails| == |trails'| == |o.views| == |schema| && Faithful(vs[c.t], trails[c.t])
    requires Stepped(vs[c.t], trails[c.t], schema[c.t], c, order, vs'[c.t], trails'[c.t], o.pending.Some?)
    requires vs' == vs[c.t := vs'[c.t]]
    requires o.pending.Some? ==> trails' == trails[c.t := trails'[c.t]] && committed' == o.views
    requires o.pending.None? ==> o.views == vs && committed' == vs' && trails[c.t] == Trail(false, {}, vs[c.t].rows)
    ensures var s := Stands(o.views, vs, trails, o.singles, o.committed, o.pending, o.next);
            var s' := Stands(committed', vs', trails', o.singles, o.committed, o.pending, o.next);
            M.Executed(s, M.Health(AllAgree(o.views, schema), AllAgree(vs, schema)), c, schema,
                       s', M.Health(AllAgree(committed', schema), AllAgree(vs', schema)))
  {
    StepAll(vs, trails, schema, c, order, vs', trails', o.pending.Some?);
    var s := Stands(o.views, vs, trails, o.singles, o.committed, o.pending, o.next);
    assert s.Current().tables[c.t] == vs[c.t].rows && s.TrailIn(c.t) == trails[c.t];
    if !M.ByIndex(c) || AllAgree(vs, schema) {
      RowsStand(o, vs, trails, schema, c, committed', vs', trails');
    }
  }

  lemma RowsStand(o: Snapshot, vs: seq<BaseView>, trails: seq<BaseTrail>, schema: Layout, c: M.Command,
                  committed': seq<BaseView>, vs': seq<BaseView>, trails': seq<BaseTrail>)
    requires M.OnTable(c) && M.InSchema(c, schema) && o.committed < o.next
    requires o.pending.Some? ==> o.committed < o.pending.value.id < o.next
    requires |vs| == |vs'| == |trails| == |trails'| == |o.views| == |schema|
    requires RowsOf(vs') == RowsOf(vs)[c.t := M.ApplyRow(vs[c.t].rows, schema[c.t], c)]
    requires o.pending.None? ==> o.views == vs && committed' == vs'
    requires o.pending.Some? ==>
               && committed' == o.views
               && trails' == trails[c.t := M.StepTrail(trails[c.t], vs[c.t].rows, schema[c.t], c)]
    ensures Stands(committed', vs', trails', o.singles, o.committed, o.pending, o.next) ==
            M.Execute(Stands(o.views, vs, trails, o.singles, o.committed, o.pending, o.next), c, schema)
  {
  }

  lemma SinglesBegin(singles: SingleRows, committed: TxnId, id: TxnId)
    requires Consistent(singles, NoMask, None, committed, committed) && id > committed
    ensures Consistent(singles, NoMask, Some(Mutations(id, [])), id, committed)
    ensures SinglesAt(singles, id) == SinglesAt(singles, committed)
  {
    BeginConsistent(singles, NoMask, None, committed, id);
  }

  lemma SinglesCommit(singles: SingleRows, modified: Option<Mutations<Name>>, txn: TxnId, committed: TxnId)
    requires Consistent(singles, NoMask, modified, txn, committed)
    ensures Consistent(singles, NoMask, None, txn, txn)
  {
    CommitConsistent(singles, NoMask, modified, txn, committed);
  }

  lemma BeginStands(vs: seq<BaseView>, trails: seq<BaseTrail>, singles: SingleRows, committed: TxnId, id: TxnId,
                    schema: Layout)
    requires |vs| == |schema| && committed < id && SinglesAt(singles, id) == SinglesAt(singles, committed)
    ensures Stands(vs, vs, M.FreshTrails(RowsOf(vs)), singles, committed, Some(PendingTxn(id, [])), id + 1) ==
            M.Step(Stands(vs, vs, trails, singles, committed, None, id), M.Begin, schema)
  {
  }

  lemma SingleExecuted(o: Snapshot, vs: seq<BaseView>, trails: seq<BaseTrail>, schema: Layout, c: M.Command, n: Name,
                       v: Option<Single>, singles': SingleRows, pending': Option<PendingTxn>)
    requires c == if v.Some? then M.SetSingle(n, v.value) else M.RemoveSingle(n)
    requires |vs| == |o.views| == |trails| == |schema| && o.committed < o.next
    requires o.pending.Some? <==> pending'.Some?
    requires o.pending.Some? ==> pending'.value.id == o.pending.value.id && o.committed < o.pending.value.id < o.next
    requires var txn := if o.pending.Some? then o.pending.value.id else o.committed;
             SinglesAt(singles', txn) == Changed(SinglesAt(o.singles, txn), n, v)
    requires o.pending.Some? ==> SinglesAt(singles', o.committed) == SinglesAt(o.singles, o.committed)
    requires o.pending.None? ==> o.views == vs
    ensures var h := M.Health(AllAgree(o.views, schema), AllAgree(vs, schema));
            M.Executed(Stands(o.views, vs, trails, o.singles, o.committed, o.pending, o.next), h, c, schema,
                       Stands(o.views, vs, trails, singles', o.committed, pending', o.next), h)
  {
  }

  /** A row command changes its own table's rows and trail, and keeps the indexes right exactly when it is tame. */
  lemma StepAll(vs: seq<BaseView>, trails: seq<BaseTrail>, schema: Layout, c: M.Command, order: seq<Key>,
                vs': seq<BaseView>, trails': seq<BaseTrail>, inTxn: bool)
    requires M.OnTable(c) && M.InSchema(c, schema)
    requires |vs| == |vs'| == |trails| == |trails'| == |schema| && Faithful(vs[c.t], trails[c.t])
    requires Stepped(vs[c.t], trails[c.t], schema[c.t], c, order, vs'[c.t], trails'[c.t], inTxn)
    requires vs' == vs[c.t := vs'[c.t]] && (inTxn ==> trails' == trails[c.t := trails'[c.t]])
    ensures !M.ByIndex(c) || AllAgree(vs, schema) ==>
              && RowsOf(vs') == RowsOf(vs)[c.t := M.ApplyRow(vs[c.t].rows, schema[c.t], c)]
              && (inTxn ==> trails'[c.t] == M.StepTrail(trails[c.t], vs[c.t].rows, schema[c.t], c))
    ensures AllAgree(vs, schema) && M.Tame(vs[c.t].rows, trails[c.t], schema[c.t], c) ==> AllAgree(vs', schema)
    ensures AllAgree(vs, schema) && AllAgree(vs', schema) && !c.MutateAll? ==>
              M.Tame(vs[c.t].rows, trails[c.t], schema[c.t], c)
  {
    if !M.ByIndex(c) || AllAgree(vs, schema) {
      StepViewRows(vs[c.t], trails[c.t], schema[c.t], c, order);
      TrailViewIs(vs[c.t], trails[c.t], schema[c.t], c);
      RowsOfUpdate(vs, c.t, vs'[c.t]);
    }
    if AllAgree(vs, schema) {
      StepViewAgrees(vs[c.t], trails[c.t], schema[c.t], c, order);
      AgreeAfter(vs, vs', schema, c.t);
    }
  }

  lemma RowsOfUpdate(vs: seq<BaseView>, t: nat, v: BaseView)
    requires t < |vs|
    ensures RowsOf(vs[t := v]) == RowsOf(vs)[t := v.rows]
  {
  }

  lemma AgreeAfter(vs: seq<BaseView>, vs': seq<BaseView>, schema: Layout, t: nat)
    requires AllAgree(vs, schema) && t < |vs| == |vs'| && vs' == vs[t := vs'[t]]
    ensures AllAgree(vs', schema) <==> IndexesAgree(vs'[t], schema[t])
  {
    forall i | 0 <= i < |vs'| && i != t ensures IndexesAgree(vs'[i], schema[i]) {
      assert vs'[i] == vs[i];
    }
  }
}
