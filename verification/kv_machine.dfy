/** The types a schema gives the store.  Nothing is known about them. */
module Schema {
  import opened IndexViews

  type Key(==, !new)
  type Value(!new)
  type IndexKey(==, !new)
  type Name(==, !new)
  type Single(!new)

  /** One extractor per index of a table, and one list of extractors per table. */
  type BaseExtractors = Extractors<Value, IndexKey>
  type Layout = seq<BaseExtractors>
}

/**
  The store as its users see it: one committed database and, inside a
  transaction, a private copy of it.
 */
module Machine {
  import opened Common
  import opened Schema
  import opened VersionedValues
  import opened IndexViews
  import opened Passes
  import opened Tables

  datatype Database = Database(tables: seq<map<Key, Value>>, singles: map<Name, Single>)

  /** The mutating operations of the store. */
  datatype Command =
    | InsertRow(t: nat, k: Key, v: Value)
    | RemoveRow(t: nat, k: Key)
    | MutateRow(t: nat, k: Key, f: Value -> Value)
    | MutateAll(t: nat, g: (Key, Value) -> Value)
    | ClearTable(t: nat)
    | RemoveBy(t: nat, j: nat, ik: IndexKey)
    | MutateBy(t: nat, j: nat, ik: IndexKey, f: Value -> Value)
    | SetSingle(n: Name, s: Single)
    | RemoveSingle(n: Name)

  predicate OnTable(c: Command) {
    !c.SetSingle? && !c.RemoveSingle?
  }

  predicate ByIndex(c: Command) {
    c.RemoveBy? || c.MutateBy?
  }

  /** A command names a table, and an index of it, that the schema declares. */
  predicate InSchema(c: Command, schema: Layout) {
    OnTable(c) ==> c.t < |schema| && (ByIndex(c) ==> c.j < |schema[c.t]|)
  }

  /** The rows of a command's table after it. */
  function ApplyRow(rows: map<Key, Value>, ex: BaseExtractors, c: Command): map<Key, Value>
    requires OnTable(c) && (ByIndex(c) ==> c.j < |ex|)
  {
    match c
    case InsertRow(_, k, v) => rows[k := v]
    case RemoveRow(_, k) => rows - {k}
    case MutateRow(_, k, f) => if k in rows then rows[k := f(rows[k])] else rows
    case MutateAll(_, g) => MapRows(rows, rows.Keys, g)
    case ClearTable(_) => map[]
    case RemoveBy(_, j, ik) => NotBearing(rows, ex[j], ik)
    case MutateBy(_, j, ik, f) => MutateBearing(rows, ex[j], ik, f)
  }

  function Apply(db: Database, c: Command, schema: Layout): Database
    requires |db.tables| == |schema| && InSchema(c, schema)
  {
    match c
    case SetSingle(n, s) => db.(singles := db.singles[n := s])
    case RemoveSingle(n) => db.(singles := db.singles - {n})
    case _ => db.(tables := db.tables[c.t := ApplyRow(db.tables[c.t], schema[c.t], c)])
  }

  type BaseTrail = Trail<Key, Value>

  /** What a command adds to its transaction's trail in its table. */
  function StepTrail(trail: BaseTrail, rows: map<Key, Value>, ex: BaseExtractors, c: Command): BaseTrail
    requires OnTable(c) && (ByIndex(c) ==> c.j < |ex|)
  {
    match c
    case InsertRow(_, k, v) => if trail.cleared then trail else trail.With(map[k := v])
    case RemoveRow(_, k) => trail
    case MutateRow(_, k, f) => if k in rows then trail.With(map[k := f(rows[k])]) else trail
    case MutateAll(_, g) => trail.With(MapRows(rows, rows.Keys, g))
    case ClearTable(_) => trail.(cleared := true)
    case RemoveBy(_, j, ik) => trail
    case MutateBy(_, j, ik, f) => trail.With(map k | k in rows && ik in ex[j](rows[k]) :: f(rows[k]))
  }

  datatype Pending = Pending(id: TxnId, db: Database, trails: seq<BaseTrail>)

  datatype Store = Store(db: Database, committed: TxnId, pending: Option<Pending>, next: TxnId) {
    /** The database reads and writes go to. */
    function Current(): Database {
      if pending.Some? then pending.value.db else db
    }

    predicate Valid(schema: Layout) {
      && |db.tables| == |schema|
      && committed < next
      && (pending.Some? ==>
            && |pending.value.db.tables| == |pending.value.trails| == |schema|
            && committed < pending.value.id < next)
    }

    /** The trail a command on table `t` starts from; outside a transaction there is none. */
    function TrailIn(t: nat): BaseTrail
      requires t < |Current().tables| && (pending.Some? ==> t < |pending.value.trails|)
    {
      if pending.Some? then pending.value.trails[t] else Trail(false, {}, db.tables[t])
    }
  }

  /**
    One locked section of the store.  A raw command and a begin first discard a
    transaction whose handle was lost; a transaction that is simply dropped is
    a rollback.
   */
  datatype Op =
    | Raw(cmd: Command)
    | Begin
    | InTxn(cmd: Command)
    | Commit(id: TxnId)
    | Rollback(id: TxnId)

  predicate OpInSchema(op: Op, schema: Layout) {
    (op.Raw? || op.InTxn?) ==> InSchema(op.cmd, schema)
  }

  predicate OpsInSchema(ops: seq<Op>, schema: Layout) {
    forall i :: 0 <= i < |ops| ==> OpInSchema(ops[i], schema)
  }

  function Execute(s: Store, c: Command, schema: Layout): Store
    requires s.Valid(schema) && InSchema(c, schema)
  {
    if s.pending.None? then s.(db := Apply(s.db, c, schema))
    else
      var p := s.pending.value;
      var trails := if OnTable(c) then p.trails[c.t := StepTrail(p.trails[c.t], p.db.tables[c.t], schema[c.t], c)]
                    else p.trails;
      s.(pending := Some(Pending(p.id, Apply(p.db, c, schema), trails)))
  }

  /** What a command does to the reads of a row: it returns what was written, and other rows read as before. */
  lemma RowReads(s: Store, c: Command, schema: Layout, t: nat, k: Key)
    requires s.Valid(schema) && InSchema(c, schema) && t < |schema|
    ensures var before, after := Find(s.Current().tables[t], k), Find(Execute(s, c, schema).Current().tables[t], k);
            if !OnTable(c) || c.t != t then after == before
            else match c {
              case InsertRow(_, k', v) => after == if k' == k then Some(v) else before
              case RemoveRow(_, k') => after == if k' == k then None else before
              case MutateRow(_, k', f) =>
                after == if k' == k && before.Some? then Some(f(before.value)) else before
              case MutateAll(_, g) => after == if before.Some? then Some(g(k, before.value)) else None
              case ClearTable(_) => after == None
              case RemoveBy(_, j, ik) =>
                after == if before.Some? && ik in schema[t][j](before.value) then None else before
              case MutateBy(_, j, ik, f) =>
                after == if before.Some? && ik in schema[t][j](before.value) then Some(f(before.value)) else before
            }
  {
  }

  /** The same of a singleton. */
  lemma SingleReads(s: Store, c: Command, schema: Layout, n: Name)
    requires s.Valid(schema) && InSchema(c, schema)
    ensures var before, after := Find(s.Current().singles, n), Find(Execute(s, c, schema).Current().singles, n);
            after == match c {
              case SetSingle(n', v) => if n' == n then Some(v) else before
              case RemoveSingle(n') => if n' == n then None else before
              case _ => before
            }
  {
  }

  /** A transaction starts with the committed rows and nothing else on its trails. */
  function FreshTrails(tables: seq<map<Key, Value>>): (r: seq<BaseTrail>)
    ensures |r| == |tables| && forall i :: 0 <= i < |r| ==> r[i] == Trail(false, {}, tables[i])
  {
    seq(|tables|, i requires 0 <= i < |tables| => Trail(false, {}, tables[i]))
  }

  function Step(s: Store, op: Op, schema: Layout): (s': Store)
    requires s.Valid(schema) && OpInSchema(op, schema)
    ensures s'.Valid(schema)
  {
    match op
    case Raw(c) => Execute(s.(pending := None), c, schema)
    case Begin => s.(pending := Some(Pending(s.next, s.db, FreshTrails(s.db.tables))), next := s.next + 1)
    case InTxn(c) => Execute(s, c, schema)
    case Commit(id) =>
      if s.pending.Some? && s.pending.value.id == id then s.(db := s.pending.value.db, committed := id, pending := None)
      else s
    case Rollback(id) =>
      if s.pending.Some? && s.pending.value.id == id then s.(pending := None) else s
  }

  function Run(s: Store, ops: seq<Op>, schema: Layout): (s': Store)
    requires s.Valid(schema) && OpsInSchema(ops, schema)
    ensures s'.Valid(schema)
    decreases ops
  {
    if ops == [] then s else Step(Run(s, ops[..|ops| - 1], schema), ops[|ops| - 1], schema)
  }

  predicate AllInSchema(cs: seq<Command>, schema: Layout) {
    forall i :: 0 <= i < |cs| ==> InSchema(cs[i], schema)
  }

  function ApplyAll(db: Database, cs: seq<Command>, schema: Layout): (r: Database)
    requires |db.tables| == |schema| && AllInSchema(cs, schema)
    ensures |r.tables| == |db.tables|
  {
    if cs == [] then db else Apply(ApplyAll(db, cs[..|cs| - 1], schema), cs[|cs| - 1], schema)
  }

  /**
    Which commands count, told from the operations alone: raw ones at once, those
    of a transaction when its commit arrives, and none of a transaction that is
    rolled back, abandoned, or committed under the wrong id.
   */
  datatype Journal = Journal(effective: seq<Command>, open: Option<(TxnId, seq<Command>)>, next: TxnId)

  function Note(j: Journal, op: Op): Journal {
    match op
    case Raw(c) => Journal(j.effective + [c], None, j.next)
    case Begin => Journal(j.effective, Some((j.next, [])), j.next + 1)
    case InTxn(c) =>
      if j.open.Some? then j.(open := Some((j.open.value.0, j.open.value.1 + [c])))
      else j.(effective := j.effective + [c])
    case Commit(id) =>
      if j.open.Some? && j.open.value.0 == id then Journal(j.effective + j.open.value.1, None, j.next) else j
    case Rollback(id) =>
      if j.open.Some? && j.open.value.0 == id then j.(open := None) else j
  }

  function Journalled(next: TxnId, ops: seq<Op>): Journal
    decreases ops
  {
    if ops == [] then Journal([], None, next) else Note(Journalled(next, ops[..|ops| - 1]), ops[|ops| - 1])
  }

  ghost predicate JournalInSchema(j: Journal, schema: Layout) {
    AllInSchema(j.effective, schema) && (j.open.Some? ==> AllInSchema(j.open.value.1, schema))
  }

  /** What the journal says the store must look like. */
  ghost predicate Explains(j: Journal, start: Database, s: Store, schema: Layout) {
    && |start.tables| == |schema| && JournalInSchema(j, schema)
    && s.next == j.next
    && s.db == ApplyAll(start, j.effective, schema)
    && (s.pending.Some? <==> j.open.Some?)
    && (s.pending.Some? ==>
          && s.pending.value.id == j.open.value.0
          && s.pending.value.db == ApplyAll(start, j.effective + j.open.value.1, schema))
  }

  lemma ApplySnoc(db: Database, cs: seq<Command>, c: Command, schema: Layout)
    requires |db.tables| == |schema| && AllInSchema(cs, schema) && InSchema(c, schema)
    ensures ApplyAll(db, cs + [c], schema) == Apply(ApplyAll(db, cs, schema), c, schema)
  {
    assert (cs + [c])[..|cs|] == cs;
  }

  lemma NoteExplains(j: Journal, start: Database, s: Store, op: Op, schema: Layout)
    requires s.Valid(schema) && OpInSchema(op, schema) && Explains(j, start, s, schema)
    ensures Explains(Note(j, op), start, Step(s, op, schema), schema)
  {
    match op
    case Raw(c) => ApplySnoc(start, j.effective, c, schema);
    case Begin => assert j.effective + [] == j.effective;
    case InTxn(c) => NoteInTxn(j, start, s, c, schema);
    case Commit(id) =>
    case Rollback(id) =>
  }

  lemma NoteInTxn(j: Journal, start: Database, s: Store, c: Command, schema: Layout)
    requires s.Valid(schema) && InSchema(c, schema) && Explains(j, start, s, schema)
    ensures Explains(Note(j, InTxn(c)), start, Step(s, InTxn(c), schema), schema)
  {
    if j.open.Some? {
      ApplyOpen(start, j.effective, j.open.value.1, c, schema);
    } else {
      ApplySnoc(start, j.effective, c, schema);
    }
  }

  lemma ApplyOpen(db: Database, done: seq<Command>, open: seq<Command>, c: Command, schema: Layout)
    requires |db.tables| == |schema| && AllInSchema(done, schema) && AllInSchema(open, schema) && InSchema(c, schema)
    ensures AllInSchema(open + [c], schema) && AllInSchema(done + open, schema)
    ensures ApplyAll(db, done + (open + [c]), schema) == Apply(ApplyAll(db, done + open, schema), c, schema)
  {
    assert done + (open + [c]) == (done + open) + [c];
    ApplySnoc(db, done + open, c, schema);
  }

  /**
    Atomic and serializable: after any operations, the committed database is the
    one-by-one execution of exactly the effective commands, and an open
    transaction sees that database with its own commands on top.
   */
  lemma {:induction false} Serializable(s: Store, ops: seq<Op>, schema: Layout)
    requires s.Valid(schema) && s.pending.None? && OpsInSchema(ops, schema)
    ensures Explains(Journalled(s.next, ops), s.db, Run(s, ops, schema), schema)
    decreases ops
  {
    if ops != [] {
      var before := ops[..|ops| - 1];
      Serializable(s, before, schema);
      NoteExplains(Journalled(s.next, before), s.db, Run(s, before, schema), ops[|ops| - 1], schema);
    }
  }

  /** No live row of `rows` bears a key of `v`. */
  ghost predicate Unborne(rows: map<Key, Value>, ex: BaseExtractors, v: Value) {
    forall j, ik, i :: 0 <= j < |ex| && ik in ex[j](v) && i in rows ==> ik !in ex[j](rows[i])
  }

  /**
    What a command must not do for the indexes to stay right: leave two rows with
    one extracted key, or drop the keys of a row it deleted before when another
    row has taken one of them since.
   */
  ghost predicate Tame(rows: map<Key, Value>, trail: BaseTrail, ex: BaseExtractors, c: Command)
    requires OnTable(c) && (ByIndex(c) ==> c.j < |ex|)
  {
    match c
    case RemoveRow(_, k) =>
      k !in rows && trail.Doomed(rows, k).Some? ==> Unborne(rows, ex, trail.Doomed(rows, k).value)
    case MutateAll(_, g) => NoClash(rows, ex, g)
    case ClearTable(_) => true
    case RemoveBy(_, _, _) => true
    case _ => UniqueKeys(ApplyRow(rows, ex, c), ex)
  }

  ghost predicate TameOp(s: Store, op: Op, schema: Layout)
    requires s.Valid(schema) && OpInSchema(op, schema)
  {
    match op
    case Raw(c) => OnTable(c) ==> TameIn(s.(pending := None), c, schema)
    case InTxn(c) => OnTable(c) ==> TameIn(s, c, schema)
    case _ => true
  }

  ghost predicate TameIn(s: Store, c: Command, schema: Layout)
    requires s.Valid(schema) && InSchema(c, schema) && OnTable(c)
  {
    Tame(s.Current().tables[c.t], s.TrailIn(c.t), schema[c.t], c)
  }

  /** A transaction does not run `for_each_mut` over a row it has deleted and never written. */
  predicate Recoverable(s: Store, op: Op, schema: Layout)
    requires s.Valid(schema) && OpInSchema(op, schema)
  {
    op.InTxn? && op.cmd.MutateAll? ==> s.TrailIn(op.cmd.t).Unexposed(s.Current().tables[op.cmd.t])
  }

  predicate OpByIndex(op: Op) {
    (op.Raw? || op.InTxn?) && ByIndex(op.cmd)
  }

  /** Whether every index is the inverse of its table, in the committed database and in the current one. */
  datatype Health = Health(committed: bool, current: bool) {
    /** The indexes an operation goes through are right. */
    predicate Serves(op: Op) {
      OpByIndex(op) ==> if op.Raw? then committed else current
    }

    predicate AtMost(h: Health) {
      (committed ==> h.committed) && (current ==> h.current)
    }
  }

  const HEALTHY := Health(true, true)

  /** What an operation leaves of the indexes, as far as tameness tells. */
  ghost function Tend(h: Health, s: Store, op: Op, schema: Layout): Health
    requires s.Valid(schema) && OpInSchema(op, schema)
  {
    match op
    case Raw(_) => var ok := h.committed && TameOp(s, op, schema); Health(ok, ok)
    case Begin => Health(h.committed, h.committed)
    case InTxn(_) =>
      var ok := h.current && TameOp(s, op, schema);
      Health(if s.pending.Some? then h.committed else ok, ok)
    case Commit(id) => if s.pending.Some? && s.pending.value.id == id then Health(h.current, h.current) else h
    case Rollback(id) => if s.pending.Some? && s.pending.value.id == id then Health(h.committed, h.committed) else h
  }

  /**
    What a command does to the store and to its indexes.  One that goes through an
    index needs the index to be right.  Tame commands leave the indexes right, and
    of all but `for_each_mut` only those do.
   */
  ghost predicate Executed(s: Store, h: Health, c: Command, schema: Layout, s': Store, h': Health)
    requires s.Valid(schema) && InSchema(c, schema)
  {
    && (!ByIndex(c) || h.current ==> s' == Execute(s, c, schema))
    && (h.current && (OnTable(c) ==> TameIn(s, c, schema)) ==> h'.current)
    && (h.current && h'.current && OnTable(c) && !c.MutateAll? ==> TameIn(s, c, schema))
    && h'.committed == if s.pending.Some? then h.committed else h'.current
  }

  predicate Pass(op: Op) {
    (op.Raw? || op.InTxn?) && op.cmd.MutateAll?
  }

  /** The same of an operation. */
  ghost predicate Performed(s: Store, h: Health, op: Op, schema: Layout, s': Store, h': Health)
    requires s.Valid(schema) && OpInSchema(op, schema)
  {
    && (h.Serves(op) ==> s' == Step(s, op, schema))
    && Tend(h, s, op, schema).AtMost(h')
    && (h == h' == HEALTHY && !Pass(op) ==> TameOp(s, op, schema))
  }

  lemma RawPerformed(s: Store, h: Health, c: Command, schema: Layout, s': Store, h': Health)
    requires s.Valid(schema) && InSchema(c, schema)
    requires Executed(s.(pending := None), Health(h.committed, h.committed), c, schema, s', h')
    ensures Performed(s, h, Raw(c), schema, s', h')
  {
  }

  lemma InTxnPerformed(s: Store, h: Health, c: Command, schema: Layout, s': Store, h': Health)
    requires s.Valid(schema) && InSchema(c, schema) && Executed(s, h, c, schema, s', h')
    ensures Performed(s, h, InTxn(c), schema, s', h')
  {
  }

  ghost function HealthAfter(h: Health, s: Store, ops: seq<Op>, schema: Layout): Health
    requires s.Valid(schema) && OpsInSchema(ops, schema)
    decreases ops
  {
    if ops == [] then h
    else
      var before := ops[..|ops| - 1];
      Tend(HealthAfter(h, s, before, schema), Run(s, before, schema), ops[|ops| - 1], schema)
  }

  ghost predicate TameRun(s: Store, ops: seq<Op>, schema: Layout)
    requires s.Valid(schema) && OpsInSchema(ops, schema)
    decreases ops
  {
    ops == [] ||
    var before := ops[..|ops| - 1];
    TameRun(s, before, schema) && TameOp(Run(s, before, schema), ops[|ops| - 1], schema)
  }

  lemma {:induction false} TameRunHealthy(s: Store, ops: seq<Op>, schema: Layout)
    requires s.Valid(schema) && OpsInSchema(ops, schema) && TameRun(s, ops, schema)
    ensures HealthAfter(HEALTHY, s, ops, schema) == HEALTHY
    decreases ops
  {
    if ops != [] {
      TameRunHealthy(s, ops[..|ops| - 1], schema);
    }
  }

  /**
    What a run may not do: run `for_each_mut` over a row deleted in the transaction
    and not on record, which rollback could not undo, or go through an index that
    an earlier operation has made wrong.
   */
  ghost predicate Admissible(s: Store, h: Health, ops: seq<Op>, schema: Layout)
    requires s.Valid(schema) && OpsInSchema(ops, schema)
    decreases ops
  {
    ops == [] ||
    var before, op := ops[..|ops| - 1], ops[|ops| - 1];
    && Admissible(s, h, before, schema)
    && Recoverable(Run(s, before, schema), op, schema)
    && HealthAfter(h, s, before, schema).Serves(op)
  }

  lemma {:induction false} AdmissiblePrefix(s: Store, h: Health, ops: seq<Op>, schema: Layout, i: nat)
    requires s.Valid(schema) && OpsInSchema(ops, schema) && i <= |ops| && Admissible(s, h, ops, schema)
    ensures Admissible(s, h, ops[..i], schema)
    decreases ops
  {
    if i == |ops| {
      assert ops[..i] == ops;
    } else {
      var before := ops[..|ops| - 1];
      AdmissiblePrefix(s, h, before, schema, i);
      assert before[..i] == ops[..i];
    }
  }

  /** One more operation of a run. */
  lemma RunSnoc(s: Store, h: Health, ops: seq<Op>, schema: Layout, i: nat)
    requires s.Valid(schema) && OpsInSchema(ops, schema) && i < |ops| && Admissible(s, h, ops, schema)
    ensures OpsInSchema(ops[..i], schema) && OpsInSchema(ops[..i + 1], schema)
    ensures var now, health := Run(s, ops[..i], schema), HealthAfter(h, s, ops[..i], schema);
            && Recoverable(now, ops[i], schema) && health.Serves(ops[i])
            && Run(s, ops[..i + 1], schema) == Step(now, ops[i], schema)
            && HealthAfter(h, s, ops[..i + 1], schema) == Tend(health, now, ops[i], schema)
  {
    AdmissiblePrefix(s, h, ops, schema, i + 1);
    assert ops[..i + 1][..i] == ops[..i];
  }

  /** What is known of a store `s'` and its indexes after the first `i` operations. */
  ghost predicate Reached(s: Store, h: Health, ops: seq<Op>, i: nat, schema: Layout, s': Store, h': Health)
    requires s.Valid(schema) && OpsInSchema(ops, schema) && i <= |ops|
  {
    s' == Run(s, ops[..i], schema) && HealthAfter(h, s, ops[..i], schema).AtMost(h')
  }

  /** The next operation of an admissible run can be performed, and takes the run one further. */
  lemma Advance(s: Store, h: Health, ops: seq<Op>, i: nat, schema: Layout, s': Store, h': Health)
    requires s.Valid(schema) && OpsInSchema(ops, schema) && i < |ops| && Admissible(s, h, ops, schema)
    requires Reached(s, h, ops, i, schema, s', h')
    ensures s'.Valid(schema) && Recoverable(s', ops[i], schema) && h'.Serves(ops[i])
    ensures forall h'' :: Tend(h', s', ops[i], schema).AtMost(h'') ==>
              Reached(s, h, ops, i + 1, schema, Step(s', ops[i], schema), h'')
  {
    RunSnoc(s, h, ops, schema, i);
    TendMonotone(HealthAfter(h, s, ops[..i], schema), h', s', ops[i], schema);
  }

  lemma TendMonotone(h: Health, better: Health, s: Store, op: Op, schema: Layout)
    requires s.Valid(schema) && OpInSchema(op, schema) && h.AtMost(better)
    ensures Tend(h, s, op, schema).AtMost(Tend(better, s, op, schema))
    ensures h.Serves(op) ==> better.Serves(op)
  {
  }
}
