/**
  The store's public operations, each one locked section over the storage, and
  the guarantees over whole runs of them.
 */
module KvStores {
  import opened Common
  import opened Schema
  import opened VersionedValues
  import opened IndexViews
  import opened IndexedTables
  import opened TableStorages
  import opened Storages
  import M = Machine

  /** Read a row at the current transaction id. */
  method GetRow(s: Storage, t: nat, k: Key) returns (r: Option<Value>)
    requires s.Valid() && t < |s.tables.schema|
    ensures r == Find(s.Abs().Current().tables[t], k)
  {
    RowsSeen(s, t);
    r := s.tables.tables[t].base.Get(k, s.TxnIdOf());
  }

  /** The current rows of a table are those its base table shows at the current transaction id. */
  lemma RowsSeen(s: Storage, t: nat)
    requires s.Valid() && t < |s.tables.schema|
    ensures s.tables.Sees(s.TxnIdOf())[t] == s.tables.tables[t].Sees(s.TxnIdOf())
    ensures s.Abs().Current().tables[t] == s.tables.tables[t].base.View(s.TxnIdOf())
    ensures s.Health().current ==> IndexesAgree(s.tables.tables[t].Sees(s.TxnIdOf()), s.tables.schema[t])
  {
    s.tables.At(s.TxnIdOf());
  }

  method GetSingle(s: Storage, n: Name) returns (r: Option<Single>)
    requires s.Valid()
    ensures r == Find(s.Abs().Current().singles, n)
  {
    if n !in s.singletons { return None; }
    var v := s.singletons[n].Get(s.TxnIdOf());
    r := if v.Some? then v.value else None;
  }

  /** Read the row an index key identifies. */
  method GetByIndex(s: Storage, t: nat, j: nat, ik: IndexKey) returns (r: Option<Value>)
    requires s.Valid() && t < |s.tables.schema| && j < |s.tables.schema[t]|
    ensures s.Health().current ==> FoundBy(s.Abs().Current().tables[t], s.tables.schema[t][j], ik, r)
    ensures var c := s.tables.tables[t].Sees(s.TxnIdOf());
            r == if ik in c.indexes[j] then Find(c.rows, c.indexes[j][ik]) else None
  {
    RowsSeen(s, t);
    var table := s.tables.tables[t];
    r := table.GetByIndex(j, ik, s.TxnIdOf(), s.committed);
    if s.Health().current {
      BearerFound(table.Sees(s.TxnIdOf()), s.tables.schema[t], j, ik);
    }
  }

  /** `r` is a row bearing `ik`, or there is none. */
  ghost predicate FoundBy(rows: map<Key, Value>, ex: Value -> seq<IndexKey>, ik: IndexKey, r: Option<Value>) {
    && (r.None? <==> forall k :: k in rows ==> ik !in ex(rows[k]))
    && (r.Some? ==> ik in ex(r.value) && exists k :: k in rows && rows[k] == r.value)
  }

  /** One operation.  A raw command and a begin first clear what an abandoned transaction left. */
  method Perform(s: Storage, op: M.Op)
    requires s.Valid() && M.OpInSchema(op, s.tables.schema) && M.Recoverable(s.Abs(), op, s.tables.schema)
    modifies s, s.tables.home.Keys
    ensures s.Valid() && M.Performed(old(s.Abs()), old(s.Health()), op, s.tables.schema, s.Abs(), s.Health())
  {
    match op
    case Raw(c) => PerformRaw(s, c);
    case Begin => PerformBegin(s);
    case InTxn(c) => PerformInTxn(s, c);
    case Commit(id) => var _ := s.CommitTransaction(id);
    case Rollback(id) => s.RollbackTransaction(id);
  }

  method PerformRaw(s: Storage, c: M.Command)
    requires s.Valid() && M.InSchema(c, s.tables.schema)
    modifies s, s.tables.home.Keys
    ensures s.Valid() && M.Performed(old(s.Abs()), old(s.Health()), M.Raw(c), s.tables.schema, s.Abs(), s.Health())
  {
    ghost var was, health := s.Abs(), s.Health();
    s.ClearTransaction();
    s.Execute(c);
    M.RawPerformed(was, health, c, s.tables.schema, s.Abs(), s.Health());
  }

  method PerformInTxn(s: Storage, c: M.Command)
    requires s.Valid() && M.InSchema(c, s.tables.schema) && M.Recoverable(s.Abs(), M.InTxn(c), s.tables.schema)
    modifies s, s.tables.home.Keys
    ensures s.Valid() && M.Performed(old(s.Abs()), old(s.Health()), M.InTxn(c), s.tables.schema, s.Abs(), s.Health())
  {
    ghost var was, health := s.Abs(), s.Health();
    s.Execute(c);
    M.InTxnPerformed(was, health, c, s.tables.schema, s.Abs(), s.Health());
  }

  method PerformBegin(s: Storage)
    requires s.Valid()
    modifies s, s.tables.home.Keys
    ensures s.Valid() && M.Performed(old(s.Abs()), old(s.Health()), M.Begin, s.tables.schema, s.Abs(), s.Health())
  {
    s.ClearTransaction();
    var _ := s.BeginTransaction();
  }

  /** Reading a row before and after a command: what was written is read, and other rows read as before. */
  method RowAcross(s: Storage, c: M.Command, t: nat, k: Key) returns (before: Option<Value>, after: Option<Value>)
    requires s.Valid() && M.InSchema(c, s.tables.schema) && t < |s.tables.schema|
    requires M.Recoverable(s.Abs(), M.InTxn(c), s.tables.schema) && s.Health().Serves(M.InTxn(c))
    modifies s, s.tables.home.Keys
    ensures s.Valid()
    ensures !M.OnTable(c) || c.t != t ==> after == before
    ensures M.OnTable(c) && c.t == t ==>
              match c {
                case InsertRow(_, k', v) => after == if k' == k then Some(v) else before
                case RemoveRow(_, k') => after == if k' == k then None else before
                case MutateRow(_, k', f) =>
                  after == if k' == k && before.Some? then Some(f(before.value)) else before
                case MutateAll(_, g) => after == if before.Some? then Some(g(k, before.value)) else None
                case ClearTable(_) => after == None
                case RemoveBy(_, j, ik) =>
                  after == if before.Some? && ik in s.tables.schema[t][j](before.value) then None else before
                case MutateBy(_, j, ik, f) =>
                  after == if before.Some? && ik in s.tables.schema[t][j](before.value) then Some(f(before.value))
                           else before
              }
  {
    ghost var was := s.Abs();
    before := GetRow(s, t, k);
    after := RowAfter(s, c, t, k);
    M.RowReads(was, c, s.tables.schema, t, k);
  }

  method RowAfter(s: Storage, c: M.Command, t: nat, k: Key) returns (after: Option<Value>)
    requires s.Valid() && M.InSchema(c, s.tables.schema) && t < |s.tables.schema|
    requires M.Recoverable(s.Abs(), M.InTxn(c), s.tables.schema) && s.Health().Serves(M.InTxn(c))
    modifies s, s.tables.home.Keys
    ensures s.Valid() && after == Find(M.Execute(old(s.Abs()), c, s.tables.schema).Current().tables[t], k)
  {
    ExecuteSound(s, c);
    after := GetRow(s, t, k);
  }

  method ExecuteSound(s: Storage, c: M.Command)
    requires s.Valid() && M.InSchema(c, s.tables.schema)
    requires M.Recoverable(s.Abs(), M.InTxn(c), s.tables.schema) && s.Health().Serves(M.InTxn(c))
    modifies s, s.tables.home.Keys
    ensures s.Valid() && s.Abs() == M.Execute(old(s.Abs()), c, s.tables.schema)
  {
    PerformInTxn(s, c);
  }

  /** The same of a singleton. */
  method SingleAcross(s: Storage, c: M.Command, n: Name) returns (before: Option<Single>, after: Option<Single>)
    requires s.Valid() && M.InSchema(c, s.tables.schema)
    requires M.Recoverable(s.Abs(), M.InTxn(c), s.tables.schema) && s.Health().Serves(M.InTxn(c))
    modifies s, s.tables.home.Keys
    ensures s.Valid()
    ensures after == match c {
              case SetSingle(n', v) => if n' == n then Some(v) else before
              case RemoveSingle(n') => if n' == n then None else before
              case _ => before
            }
  {
    ghost var was := s.Abs();
    before := GetSingle(s, n);
    after := SingleAfter(s, c, n);
    M.SingleReads(was, c, s.tables.schema, n);
  }

  method SingleAfter(s: Storage, c: M.Command, n: Name) returns (after: Option<Single>)
    requires s.Valid() && M.InSchema(c, s.tables.schema)
    requires M.Recoverable(s.Abs(), M.InTxn(c), s.tables.schema) && s.Health().Serves(M.InTxn(c))
    modifies s, s.tables.home.Keys
    ensures s.Valid() && after == Find(M.Execute(old(s.Abs()), c, s.tables.schema).Current().singles, n)
  {
    ExecuteSound(s, c);
    after := GetSingle(s, n);
  }

  /**
    Every admissible run of operations simulates the abstract store, and the
    indexes are right wherever tameness tells, in particular after a run of tame
    operations, and in the committed database whatever was rolled back.
   */
  method RunAll(s: Storage, ops: seq<M.Op>)
    requires s.Valid() && M.OpsInSchema(ops, s.tables.schema)
    requires M.Admissible(s.Abs(), s.Health(), ops, s.tables.schema)
    modifies s, s.tables.home.Keys
    ensures s.Valid()
    ensures s.Abs() == M.Run(old(s.Abs()), ops, s.tables.schema)
    ensures M.HealthAfter(old(s.Health()), old(s.Abs()), ops, s.tables.schema).AtMost(s.Health())
    ensures old(s.Health()) == M.HEALTHY && M.TameRun(old(s.Abs()), ops, s.tables.schema) ==> s.Health() == M.HEALTHY
  {
    ghost var start, health, schema := s.Abs(), s.Health(), s.tables.schema;
    for i := 0 to |ops|
      invariant s.Valid() && M.Reached(start, health, ops, i, schema, s.Abs(), s.Health())
    {
      M.Advance(start, health, ops, i, schema, s.Abs(), s.Health());
      Perform(s, ops[i]);
    }
    assert ops[..|ops|] == ops;
    if health == M.HEALTHY && M.TameRun(start, ops, schema) {
      M.TameRunHealthy(start, ops, schema);
    }
  }

  /**
    From an empty store, whatever the operations, the committed database is the
    serial execution of the effective commands, a transaction in progress sees it
    with its own commands applied, and tame operations keep every index right.
   */
  method RunFresh(schema: Layout, ops: seq<M.Op>) returns (s: Storage)
    requires M.OpsInSchema(ops, schema) && M.Admissible(Empty(schema), M.HEALTHY, ops, schema)
    ensures fresh(s) && s.Valid() && s.tables.schema == schema
    ensures M.Explains(M.Journalled(FIRST_TXN + 1, ops), Empty(schema).db, s.Abs(), schema)
    ensures M.HealthAfter(M.HEALTHY, Empty(schema), ops, schema).AtMost(s.Health())
    ensures M.TameRun(Empty(schema), ops, schema) ==> s.Health() == M.HEALTHY
  {
    s := new Storage(schema);
    M.Serializable(s.Abs(), ops, schema);
    RunAll(s, ops);
  }

  /** A store nothing was ever written to. */
  function Empty(schema: Layout): (s: M.Store)
    ensures s.Valid(schema) && s.pending.None?
  {
    M.Store(M.Database(seq(|schema|, _ => map[]), map[]), FIRST_TXN, None, FIRST_TXN + 1)
  }
}
