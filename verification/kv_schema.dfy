/** All tables of the store, as the schema declares them. */
module TableStorages {
  import opened Common
  import opened Schema
  import opened VersionedValues
  import opened Tables
  import opened IndexViews
  import opened Passes
  import opened IndexedTables
  import M = Machine

  type BaseTable = IndexedTable<Key, Value, IndexKey>
  type BaseView = TableView<Key, Value, IndexKey>
  type BaseTrail = M.BaseTrail

  /** A row command on what a reader sees; `order` is the one a pass over all rows takes. */
  ghost function StepView(v: BaseView, trail: BaseTrail, ex: BaseExtractors, c: M.Command, order: seq<Key>)
    : (r: BaseView)
    requires M.OnTable(c) && |v.indexes| == |ex| && (M.ByIndex(c) ==> c.j < |ex|)
    ensures |r.indexes| == |ex|
  {
    match c
    case InsertRow(_, k, x) => InsertRow(v, ex, k, x)
    case RemoveRow(_, k) => RemoveRow(v, ex, k, trail.Doomed(v.rows, k))
    case MutateRow(_, k, f) => if k in v.rows then InsertRow(v, ex, k, f(v.rows[k])) else v
    case MutateAll(_, g) => Pass(v, ex, order, g)
    case ClearTable(_) => ClearRows(v)
    case RemoveBy(_, j, ik) => RemoveBearer(v, ex, j, ik, trail)
    case MutateBy(_, j, ik, f) => MutateBearer(v, ex, j, ik, f)
  }

  /** What a row command adds to the trail; through an index it follows the index, right or wrong. */
  ghost function TrailView(v: BaseView, trail: BaseTrail, ex: BaseExtractors, c: M.Command): BaseTrail
    requires M.OnTable(c) && |v.indexes| == |ex| && (M.ByIndex(c) ==> c.j < |ex|)
  {
    if c.MutateBy? then
      if c.ik in v.indexes[c.j] && v.indexes[c.j][c.ik] in v.rows then
        trail.With(map[v.indexes[c.j][c.ik] := c.f(v.rows[v.indexes[c.j][c.ik]])])
      else trail
    else M.StepTrail(trail, v.rows, ex, c)
  }

  /** A pass goes over all rows. */
  ghost predicate Ordered(v: BaseView, c: M.Command, order: seq<Key>) {
    c.MutateAll? ==> Covers(order, v.rows)
  }

  /** The value reported for a visible row is the visible one. */
  ghost predicate Faithful(v: BaseView, trail: BaseTrail) {
    forall k :: k in v.rows ==> trail.Doomed(v.rows, k) == Some(v.rows[k])
  }

  /** A row command changes the rows as the machine says; one through an index does so when the indexes agree. */
  lemma StepViewRows(v: BaseView, trail: BaseTrail, ex: BaseExtractors, c: M.Command, order: seq<Key>)
    requires M.OnTable(c) && |v.indexes| == |ex| && (M.ByIndex(c) ==> c.j < |ex| && IndexesAgree(v, ex))
    requires Ordered(v, c, order) && Faithful(v, trail)
    ensures StepView(v, trail, ex, c, order).rows == M.ApplyRow(v.rows, ex, c)
  {
    match c
    case MutateAll(_, g) =>
      PassRows(v, ex, order, g);
      assert MapRows(v.rows, KeySet(order), g) == MapRows(v.rows, v.rows.Keys, g);
    case RemoveBy(_, j, ik) => RemoveBearerAgrees(v, ex, j, ik, trail);
    case MutateBy(_, j, ik, f) => MutateBearerAgrees(v, ex, j, ik, f);
    case _ =>
  }

  lemma TrailViewIs(v: BaseView, trail: BaseTrail, ex: BaseExtractors, c: M.Command)
    requires M.OnTable(c) && |v.indexes| == |ex| && (M.ByIndex(c) ==> c.j < |ex| && IndexesAgree(v, ex))
    ensures TrailView(v, trail, ex, c) == M.StepTrail(trail, v.rows, ex, c)
  {
    if c.MutateBy? {
      var hit := map k | k in v.rows && c.ik in ex[c.j](v.rows[k]) :: c.f(v.rows[k]);
      assert Inverse(v.rows, v.indexes[c.j], ex[c.j]);
      if c.ik in v.indexes[c.j] {
        var k := v.indexes[c.j][c.ik];
        assert hit == map[k := c.f(v.rows[k])];
      } else {
        assert hit == map[] && trail.under + hit == trail.under;
      }
    }
  }

  /**
    A tame command keeps all indexes the inverse of their table, and for all
    commands but a pass over the rows, whose order is not ours, only a tame one does.
   */
  lemma StepViewAgrees(v: BaseView, trail: BaseTrail, ex: BaseExtractors, c: M.Command, order: seq<Key>)
    requires M.OnTable(c) && IndexesAgree(v, ex) && (M.ByIndex(c) ==> c.j < |ex|)
    requires Ordered(v, c, order) && Faithful(v, trail)
    ensures M.Tame(v.rows, trail, ex, c) ==> IndexesAgree(StepView(v, trail, ex, c, order), ex)
    ensures !c.MutateAll? && IndexesAgree(StepView(v, trail, ex, c, order), ex) ==> M.Tame(v.rows, trail, ex, c)
  {
    match c
    case InsertRow(_, k, x) => InsertAgrees(v, ex, k, x);
    case RemoveRow(_, k) => RemovalAgrees(v, trail, ex, k);
    case MutateRow(_, k, f) =>
      if k in v.rows {
        InsertAgrees(v, ex, k, f(v.rows[k]));
      } else {
        AgreeImpliesUnique(v, ex);
      }
    case MutateAll(_, g) => AnyOrderAgrees(v, ex, g);
    case ClearTable(_) => ClearAgrees(v, ex);
    case RemoveBy(_, j, ik) => RemoveBearerAgrees(v, ex, j, ik, trail);
    case MutateBy(_, j, ik, f) => MutateBearerAgrees(v, ex, j, ik, f);
  }

  lemma RemovalAgrees(v: BaseView, trail: BaseTrail, ex: BaseExtractors, k: Key)
    requires IndexesAgree(v, ex) && Faithful(v, trail)
    ensures var doomed := trail.Doomed(v.rows, k);
            IndexesAgree(RemoveRow(v, ex, k, doomed), ex) <==>
            (k !in v.rows && doomed.Some? ==> M.Unborne(v.rows, ex, doomed.value))
  {
    var doomed := trail.Doomed(v.rows, k);
    RemoveAgrees(v, ex, k, doomed);
    if doomed.Some? {
      UnborneIff(v, ex, doomed.value);
    }
  }

  lemma UnborneIff(v: BaseView, ex: BaseExtractors, x: Value)
    requires IndexesAgree(v, ex)
    ensures M.Unborne(v.rows, ex, x) <==> forall j, ik :: 0 <= j < |ex| && ik in ex[j](x) ==> ik !in v.indexes[j]
  {
    forall j, ik | 0 <= j < |ex|
      ensures ik in v.indexes[j] <==> exists i :: i in v.rows && ik in ex[j](v.rows[i])
    {
      BearerFound(v, ex, j, ik);
    }
  }

  /** Every index of every table is the inverse of its base table. */
  ghost predicate AllAgree(vs: seq<BaseView>, schema: Layout) {
    |vs| == |schema| && forall i :: 0 <= i < |vs| ==> IndexesAgree(vs[i], schema[i])
  }

  function RowsOf(vs: seq<BaseView>): (r: seq<map<Key, Value>>) {
    seq(|vs|, i requires 0 <= i < |vs| => vs[i].rows)
  }

  /** Table `i` is made of objects that belong to it alone. */
  ghost predicate Fits(t: BaseTable, i: nat, ex: BaseExtractors, home: map<object, nat>) {
    && t.Wired() && t.extract == ex
    && forall o :: o in t.repr ==> o in home && home[o] == i
  }

  class TableStorage {
    const tables: seq<BaseTable>
    ghost const schema: Layout
    /** Which table each heap object belongs to. */
    ghost const home: map<object, nat>

    ghost predicate Wired() {
      |tables| == |schema| && forall i :: 0 <= i < |tables| ==> Fits(tables[i], i, schema[i], home)
    }

    ghost predicate Valid(txn: TxnId, max: TxnId)
      reads home.Keys
    {
      Wired() && forall i :: 0 <= i < |tables| ==> tables[i].Valid(txn, max)
    }

    ghost function SeesUpTo(n: nat, txn: TxnId): (r: seq<BaseView>)
      requires Wired() && n <= |tables|
      reads home.Keys
      ensures |r| == n
    {
      if n == 0 then [] else SeesUpTo(n - 1, txn) + [tables[n - 1].Sees(txn)]
    }

    /** What a reader at `txn` sees of every table. */
    ghost function Sees(txn: TxnId): (r: seq<BaseView>)
      requires Wired()
      reads home.Keys
      ensures |r| == |tables|
    {
      SeesUpTo(|tables|, txn)
    }

    ghost function TrailsUpTo(n: nat, txn: TxnId): (r: seq<BaseTrail>)
      requires Wired() && n <= |tables|
      reads home.Keys
      ensures |r| == n
    {
      if n == 0 then [] else TrailsUpTo(n - 1, txn) + [tables[n - 1].base.TrailAt(txn)]
    }

    /** The trail of `txn` in every table. */
    ghost function Trails(txn: TxnId): (r: seq<BaseTrail>)
      requires Wired()
      reads home.Keys
      ensures |r| == |tables|
    {
      TrailsUpTo(|tables|, txn)
    }

    lemma {:induction false} UpTo(n: nat, txn: TxnId)
      requires Wired() && n <= |tables|
      ensures forall i :: 0 <= i < n ==> SeesUpTo(n, txn)[i] == tables[i].Sees(txn)
      ensures forall i :: 0 <= i < n ==> TrailsUpTo(n, txn)[i] == tables[i].base.TrailAt(txn)
      decreases n
    {
      if n > 0 { UpTo(n - 1, txn); }
    }

    /** Table by table. */
    lemma At(txn: TxnId)
      requires Wired()
      ensures forall i :: 0 <= i < |tables| ==> Sees(txn)[i] == tables[i].Sees(txn)
      ensures forall i :: 0 <= i < |tables| ==> Trails(txn)[i] == tables[i].base.TrailAt(txn)
    {
      UpTo(|tables|, txn);
    }

    lemma SeesIs(vs: seq<BaseView>, txn: TxnId)
      requires Wired() && |vs| == |tables| && forall i :: 0 <= i < |tables| ==> vs[i] == tables[i].Sees(txn)
      ensures Sees(txn) == vs
    {
      At(txn);
    }

    lemma TrailsIs(trails: seq<BaseTrail>, txn: TxnId)
      requires Wired() && |trails| == |tables|
      requires forall i :: 0 <= i < |tables| ==> trails[i] == tables[i].base.TrailAt(txn)
      ensures Trails(txn) == trails
    {
      At(txn);
    }

    /** Empty tables, one per extractor list. */
    constructor (schema: Layout)
      ensures this.schema == schema && Wired() && fresh(home.Keys)
      ensures Valid(FIRST_TXN, FIRST_TXN)
      ensures Sees(FIRST_TXN) == seq(|schema|, i requires 0 <= i < |schema| => Nothing(schema[i]))
    {
      var ts, owner := BuildTables(schema);
      this.tables, this.schema, this.home := ts, schema, owner;
      new;
      forall i | 0 <= i < |tables|
        ensures tables[i].Valid(FIRST_TXN, FIRST_TXN) && tables[i].Sees(FIRST_TXN) == Nothing(schema[i])
      {
        tables[i].BlankValid();
      }
      SeesIs(seq(|schema|, i requires 0 <= i < |schema| => Nothing(schema[i])), FIRST_TXN);
    }

    ghost predicate Fit(c: M.Command)
      requires Wired()
    {
      M.OnTable(c) && M.InSchema(c, schema)
    }

    /** The value a removal reports for a visible row is the visible one. */
    lemma ReportsFaithfully(t: nat, txn: TxnId, max: TxnId)
      requires Valid(txn, max) && t < |tables|
      ensures Faithful(Sees(txn)[t], Trails(txn)[t])
      ensures txn == max ==> Trails(txn)[t] == Trail(false, {}, Sees(txn)[t].rows)
    {
      var b := tables[t].base;
      At(txn);
      assert Sees(txn)[t].rows == b.View(txn) && Trails(txn)[t] == b.TrailAt(txn);
      FaithfulTrail(b.data, b.mask, b.modified, txn, max);
    }

    /**
      Run a row command on its table; the other tables stay as they are.  Inside a
      transaction, `for_each_mut` needs every row it deleted to be on record.
     */
    method Execute(c: M.Command, txn: TxnId, max: TxnId) returns (ghost order: seq<Key>)
      requires Valid(txn, max) && Fit(c)
      requires c.MutateAll? && txn > max ==> Trails(txn)[c.t].Unexposed(Sees(txn)[c.t].rows)
      modifies home.Keys
      ensures Valid(txn, max)
      ensures Stepped(old(Sees(txn))[c.t], old(Trails(txn))[c.t], schema[c.t], c, order,
                      Sees(txn)[c.t], Trails(txn)[c.t], txn > max)
      ensures Sees(txn) == old(Sees(txn))[c.t := Sees(txn)[c.t]]
      ensures txn > max ==> Trails(txn) == old(Trails(txn))[c.t := Trails(txn)[c.t]] && Sees(max) == old(Sees(max))
    {
      ghost var was, committed, trails := Sees(txn), Sees(max), Trails(txn);
      order := ExecuteAt(c, txn, max, was, committed, trails);
      OneChanged(c.t, txn, max, was, committed, trails);
    }

    /** Only table `t` has changed since `was` and `trails`, and at `max` not even that one, if `max` is another id. */
    ghost predicate OthersKept(t: nat, txn: TxnId, max: TxnId, was: seq<BaseView>, committed: seq<BaseView>,
                               trails: seq<BaseTrail>)
      requires Wired()
      reads home.Keys
    {
      && t < |tables| == |was| == |committed| == |trails|
      && (forall i :: 0 <= i < |tables| && i != t ==>
                        was[i] == tables[i].Sees(txn) && trails[i] == tables[i].base.TrailAt(txn))
      && (txn > max ==> forall i :: 0 <= i < |tables| ==> committed[i] == tables[i].Sees(max))
    }

    lemma OneChanged(t: nat, txn: TxnId, max: TxnId, was: seq<BaseView>, committed: seq<BaseView>,
                     trails: seq<BaseTrail>)
      requires Wired() && OthersKept(t, txn, max, was, committed, trails)
      ensures Sees(txn) == was[t := Sees(txn)[t]] && Trails(txn) == trails[t := Trails(txn)[t]]
      ensures txn > max ==> Sees(max) == committed
    {
      At(txn);
      SeesIs(was[t := tables[t].Sees(txn)], txn);
      TrailsIs(trails[t := tables[t].base.TrailAt(txn)], txn);
      if txn > max { SeesIs(committed, max); }
    }

    method ExecuteAt(c: M.Command, txn: TxnId, max: TxnId, ghost was: seq<BaseView>, ghost committed: seq<BaseView>,
                     ghost trails: seq<BaseTrail>) returns (ghost order: seq<Key>)
      requires Valid(txn, max) && Fit(c) && was == Sees(txn) && committed == Sees(max) && trails == Trails(txn)
      requires c.MutateAll? && txn > max ==> trails[c.t].Unexposed(was[c.t].rows)
      modifies home.Keys
      ensures Valid(txn, max) && OthersKept(c.t, txn, max, was, committed, trails)
      ensures Stepped(was[c.t], trails[c.t], schema[c.t], c, order, Sees(txn)[c.t], Trails(txn)[c.t], txn > max)
    {
      At(txn);
      At(max);
      order := ExecuteAlone(c, txn, max);
      At(txn);
    }

    method ExecuteAlone(c: M.Command, txn: TxnId, max: TxnId) returns (ghost order: seq<Key>)
      requires Valid(txn, max) && Fit(c)
      requires c.MutateAll? && txn > max ==> tables[c.t].base.TrailAt(txn).Unexposed(tables[c.t].Sees(txn).rows)
      modifies home.Keys
      ensures tables[c.t].Valid(txn, max)
      ensures Stepped(old(tables[c.t].Sees(txn)), old(tables[c.t].base.TrailAt(txn)), schema[c.t], c, order,
                      tables[c.t].Sees(txn), tables[c.t].base.TrailAt(txn), txn > max)
      ensures txn > max ==> tables[c.t].Sees(max) == old(tables[c.t].Sees(max))
      ensures forall i :: 0 <= i < |tables| && i != c.t ==>
                && tables[i].Valid(txn, max) && tables[i].Sees(txn) == old(tables[i].Sees(txn))
                && tables[i].Sees(max) == old(tables[i].Sees(max))
                && tables[i].base.TrailAt(txn) == old(tables[i].base.TrailAt(txn))
    {
      order := ExecuteOne(tables[c.t], c, txn, max);
      forall i | 0 <= i < |tables| && i != c.t ensures unchanged(tables[i].repr) {
      }
    }

    method ExecuteOne(t: BaseTable, c: M.Command, txn: TxnId, max: TxnId) returns (ghost order: seq<Key>)
      requires M.OnTable(c) && t.Valid(txn, max) && (M.ByIndex(c) ==> c.j < |t.extract|)
      requires c.MutateAll? && txn > max ==> t.base.TrailAt(txn).Unexposed(t.Sees(txn).rows)
      modifies t.base, t.indexes
      ensures t.Valid(txn, max)
      ensures Stepped(old(t.Sees(txn)), old(t.base.TrailAt(txn)), t.extract, c, order,
                      t.Sees(txn), t.base.TrailAt(txn), txn > max)
      ensures txn > max ==> t.Sees(max) == old(t.Sees(max))
    {
      order := [];
      if c.MutateAll? {
        order := t.ForEachMut(c.g, txn, max);
      } else if M.ByIndex(c) {
        ExecuteBy(t, c, txn, max);
      } else {
        ExecuteRow(t, c, txn, max);
      }
    }

    method ExecuteRow(t: BaseTable, c: M.Command, txn: TxnId, max: TxnId)
      requires M.OnTable(c) && t.Valid(txn, max) && !M.ByIndex(c) && !c.MutateAll?
      modifies t.base, t.indexes
      ensures t.Valid(txn, max)
      ensures Stepped(old(t.Sees(txn)), old(t.base.TrailAt(txn)), t.extract, c, [],
                      t.Sees(txn), t.base.TrailAt(txn), txn > max)
      ensures txn > max ==> t.Sees(max) == old(t.Sees(max))
    {
      if c.InsertRow? || c.RemoveRow? {
        ExecuteWrite(t, c, txn, max);
      } else if c.MutateRow? {
        var _ := t.WithMut(c.k, c.f, txn, max);
      } else {
        t.Clear(txn, max);
      }
    }

    method ExecuteWrite(t: BaseTable, c: M.Command, txn: TxnId, max: TxnId)
      requires (c.InsertRow? || c.RemoveRow?) && t.Valid(txn, max)
      modifies t.base, t.indexes
      ensures t.Valid(txn, max)
      ensures Stepped(old(t.Sees(txn)), old(t.base.TrailAt(txn)), t.extract, c, [],
                      t.Sees(txn), t.base.TrailAt(txn), txn > max)
      ensures txn > max ==> t.Sees(max) == old(t.Sees(max))
    {
      match c
      case InsertRow(_, k, x) => t.Insert(k, x, txn, max);
      case RemoveRow(_, k) => t.Remove(k, txn, max);
    }

    method ExecuteBy(t: BaseTable, c: M.Command, txn: TxnId, max: TxnId)
      requires M.ByIndex(c) && t.Valid(txn, max) && c.j < |t.extract|
      modifies t.base, t.indexes
      ensures t.Valid(txn, max)
      ensures Stepped(old(t.Sees(txn)), old(t.base.TrailAt(txn)), t.extract, c, [],
                      t.Sees(txn), t.base.TrailAt(txn), txn > max)
      ensures txn > max ==> t.Sees(max) == old(t.Sees(max))
    {
      match c
      case RemoveBy(_, j, ik) => t.RemoveByIndex(j, ik, txn, max);
      case MutateBy(_, j, ik, f) => var _ := t.WithMutByIndex(j, ik, f, txn, max);
    }

    /** A new transaction starts from the committed contents. */
    lemma BeginValid(max: TxnId, txn: TxnId)
      requires Valid(max, max) && txn > max
      ensures Valid(txn, max) && Sees(txn) == Sees(max)
      ensures Trails(txn) == M.FreshTrails(RowsOf(Sees(max)))
    {
      forall i | 0 <= i < |tables|
        ensures tables[i].Valid(txn, max) && tables[i].Sees(txn) == tables[i].Sees(max)
        ensures tables[i].base.TrailAt(txn) == Trail(false, {}, tables[i].Sees(max).rows)
      {
        tables[i].BeginValid(max, txn);
      }
      At(txn);
      At(max);
    }

    /** Roll every table and index back to the committed contents. */
    method GcTxn(txn: TxnId, ghost max: TxnId)
      requires Valid(txn, max) && txn > max
      modifies home.Keys
      ensures Valid(max, max)
      ensures Sees(max) == old(Sees(max))
    {
      ghost var committed := Sees(max);
      At(max);
      GcEach(txn, max);
      SeesIs(committed, max);
    }

    method GcEach(txn: TxnId, ghost max: TxnId)
      requires Valid(txn, max) && txn > max
      modifies home.Keys
      ensures forall i :: 0 <= i < |tables| ==>
                            tables[i].Valid(max, max) && tables[i].Sees(max) == old(tables[i].Sees(max))
    {
      for n := 0 to |tables|
        invariant forall i :: n <= i < |tables| ==> unchanged(tables[i].repr)
        invariant forall i :: 0 <= i < n ==>
                                tables[i].Valid(max, max) && tables[i].Sees(max) == old(tables[i].Sees(max))
      {
        GcAt(n, txn, max);
      }
    }

    method GcAt(n: nat, txn: TxnId, ghost max: TxnId)
      requires Wired() && n < |tables| && tables[n].Valid(txn, max) && txn > max
      modifies home.Keys
      ensures tables[n].Valid(max, max) && tables[n].Sees(max) == old(tables[n].Sees(max))
      ensures forall i :: 0 <= i < |tables| && i != n ==> unchanged(tables[i].repr)
    {
      tables[n].GcTxn(txn, max);
    }

    ghost predicate Committable(txn: TxnId)
      requires Wired()
      reads home.Keys
    {
      forall i :: 0 <= i < |tables| ==> tables[i].Committable(txn)
    }

    ghost predicate CanRead(txn: TxnId, max: TxnId)
      requires Wired()
      reads home.Keys
    {
      forall i :: 0 <= i < |tables| ==> tables[i].CanRead(txn, max)
    }

    /**
      Commit every table and index, after checking that all of them can be.
      A failed check changes nothing, and in a readable store no check fails.
     */
    method CommitTxn(txn: TxnId, ghost max: TxnId) returns (ok: bool)
      requires Wired()
      modifies home.Keys
      ensures ok <==> old(Committable(txn))
      ensures !ok ==> unchanged(home.Keys)
      ensures old(CanRead(txn, max)) ==> ok && Valid(txn, txn) && Sees(txn) == old(Sees(txn))
    {
      ok := CheckEach(txn);
      if !ok { return; }
      ghost var pending := Sees(txn);
      At(txn);
      CommitEach(txn, max);
      if old(CanRead(txn, max)) { SeesIs(pending, txn); }
    }

    method CheckEach(txn: TxnId) returns (ok: bool)
      requires Wired()
      ensures ok <==> Committable(txn)
    {
      for n := 0 to |tables|
        invariant forall i :: 0 <= i < n ==> tables[i].Committable(txn)
      {
        ok := tables[n].CheckTxnConsistency(txn);
        if !ok { return; }
      }
      ok := true;
    }

    method CommitEach(txn: TxnId, ghost max: TxnId)
      requires Wired() && Committable(txn)
      modifies home.Keys
      ensures old(CanRead(txn, max)) ==>
                forall i :: 0 <= i < |tables| ==>
                              tables[i].Valid(txn, txn) && tables[i].Sees(txn) == old(tables[i].Sees(txn))
    {
      for n := 0 to |tables|
        invariant forall i :: n <= i < |tables| ==> unchanged(tables[i].repr)
        invariant old(CanRead(txn, max)) ==>
                    forall i :: 0 <= i < n ==>
                                  tables[i].Valid(txn, txn) && tables[i].Sees(txn) == old(tables[i].Sees(txn))
      {
        CommitAt(n, txn, max);
      }
    }

    method CommitAt(n: nat, txn: TxnId, ghost max: TxnId)
      requires Wired() && n < |tables| && tables[n].Committable(txn)
      modifies home.Keys
      ensures old(tables[n].CanRead(txn, max)) ==>
                tables[n].Valid(txn, txn) && tables[n].Sees(txn) == old(tables[n].Sees(txn))
      ensures forall i :: 0 <= i < |tables| && i != n ==> unchanged(tables[i].repr)
    {
      tables[n].CommitTxn(txn, max);
    }
  }

  /** A command took a table from one view to another, and in a transaction from one trail to another. */
  ghost predicate Stepped(v: BaseView, trail: BaseTrail, ex: BaseExtractors, c: M.Command, order: seq<Key>,
                          v': BaseView, trail': BaseTrail, inTxn: bool)
  {
    && M.OnTable(c) && |v.indexes| == |ex| && (M.ByIndex(c) ==> c.j < |ex|)
    && Ordered(v, c, order)
    && v' == StepView(v, trail, ex, c, order)
    && (inTxn ==> trail' == TrailView(v, trail, ex, c))
  }

  method BuildTables(schema: Layout) returns (ts: seq<BaseTable>, ghost owner: map<object, nat>)
    ensures |ts| == |schema| && fresh(owner.Keys)
    ensures forall j :: 0 <= j < |ts| ==> Fits(ts[j], j, schema[j], owner) && ts[j].Blank()
  {
    ts, owner := [], map[];
    for i := 0 to |schema|
      invariant |ts| == i && fresh(owner.Keys)
      invariant forall j :: 0 <= j < i ==> Fits(ts[j], j, schema[j], owner) && ts[j].Blank()
    {
      var t := new IndexedTable<Key, Value, IndexKey>(schema[i]);
      owner := owner + map o | o in t.repr :: i;
      ts := ts + [t];
    }
  }
}
