/**
  The pass of `for_each_mut` over a table with indexes: each row is written anew,
  in an order the hash map chooses.
 */
module Passes {
  import opened Common
  import opened IndexViews

  predicate NoRepeats<K(==)>(keys: seq<K>) {
    forall i, j :: 0 <= i < j < |keys| ==> keys[i] != keys[j]
  }

  /** `order` visits every row, and no key twice. */
  ghost predicate Covers<K, V>(order: seq<K>, rows: map<K, V>) {
    NoRepeats(order) && rows.Keys <= KeySet(order)
  }

  /** One step of `for_each_mut`: the row, if it is visible, is written anew. */
  function VisitRow<K, V, IK>(c: TableView<K, V, IK>, ex: Extractors<V, IK>, k: K, f: (K, V) -> V): TableView<K, V, IK>
    requires |c.indexes| == |ex|
  {
    if k in c.rows then InsertRow(c, ex, k, f(k, c.rows[k])) else c
  }

  /** A pass of `for_each_mut` over the keys in their order. */
  function Pass<K, V, IK>(c: TableView<K, V, IK>, ex: Extractors<V, IK>, order: seq<K>, f: (K, V) -> V)
    : (r: TableView<K, V, IK>)
    requires |c.indexes| == |ex|
    ensures |r.indexes| == |ex|
    decreases |order|
  {
    if order == [] then c else VisitRow(Pass(c, ex, order[..|order| - 1], f), ex, order[|order| - 1], f)
  }

  /** The rows with those in `done` mapped. */
  function MapRows<K, V>(rows: map<K, V>, done: set<K>, f: (K, V) -> V): map<K, V> {
    map k | k in rows :: if k in done then f(k, rows[k]) else rows[k]
  }

  function KeySet<K>(order: seq<K>): set<K> {
    set k | k in order
  }

  lemma KeySetSnoc<K(!new)>(order: seq<K>, k: K)
    ensures KeySet(order + [k]) == KeySet(order) + {k}
  {
  }

  /** Whatever the order, the rows come out mapped. */
  lemma {:induction false} PassRows<K(!new), V, IK>(c: TableView<K, V, IK>, ex: Extractors<V, IK>, order: seq<K>,
                                                    f: (K, V) -> V)
    requires |c.indexes| == |ex| && NoRepeats(order)
    ensures Pass(c, ex, order, f).rows == MapRows(c.rows, KeySet(order), f)
    decreases |order|
  {
    if order == [] {
      assert MapRows(c.rows, {}, f) == c.rows;
    } else {
      var init, k := order[..|order| - 1], order[|order| - 1];
      PassRows(c, ex, init, f);
      KeySetSnoc(init, k);
      assert order == init + [k] && k !in KeySet(init);
      MapRowsStep(c.rows, KeySet(init), k, f);
    }
  }

  lemma MapRowsStep<K(!new), V>(rows: map<K, V>, done: set<K>, k: K, f: (K, V) -> V)
    requires k !in done
    ensures MapRows(rows, done, f).Keys == rows.Keys && (k in rows ==> MapRows(rows, done, f)[k] == rows[k])
    ensures MapRows(rows, done + {k}, f) ==
            if k in rows then MapRows(rows, done, f)[k := f(k, rows[k])] else MapRows(rows, done, f)
  {
  }

  /** Extracted keys are unique after every step of the pass. */
  ghost predicate UniqueThroughout<K(!new), V, IK(!new)>(rows: map<K, V>, ex: Extractors<V, IK>, order: seq<K>,
                                                         f: (K, V) -> V)
  {
    forall n :: 0 <= n <= |order| ==> UniqueKeys(MapRows(rows, KeySet(order[..n]), f), ex)
  }

  /** Row `k` is not found under its own key `ik` of index `j`, or will be dropped from it. */
  ghost predicate Lost<K(!new), V, IK>(c: TableView<K, V, IK>, ex: Extractors<V, IK>, j: nat, k: K, ik: IK)
    requires |c.indexes| == |ex| && j < |ex|
  {
    && k in c.rows && ik in ex[j](c.rows[k])
    && ((ik !in c.indexes[j] || c.indexes[j][ik] != k)
        || exists i :: i in c.rows && i != k && ik in ex[j](c.rows[i]))
  }

  /** Visiting other rows does not bring a lost row back. */
  lemma LostForGood<K(!new), V, IK>(c: TableView<K, V, IK>, ex: Extractors<V, IK>, j: nat, k: K, ik: IK, i: K,
                                    f: (K, V) -> V)
    requires |c.indexes| == |ex| && j < |ex| && Lost(c, ex, j, k, ik) && i != k
    ensures Lost(VisitRow(c, ex, i, f), ex, j, k, ik)
  {
    if i in c.rows {
      var c', v := VisitRow(c, ex, i, f), f(i, c.rows[i]);
      if ik in ex[j](v) {
        assert i in c'.rows && ik in ex[j](c'.rows[i]);
      } else if ik in ex[j](c.rows[i]) {
        assert ik !in c'.indexes[j];
      } else if x :| x in c.rows && x != k && ik in ex[j](c.rows[x]) {
        assert x in c'.rows && ik in ex[j](c'.rows[x]);
      } else {
        assert ik in c'.indexes[j] <==> ik in c.indexes[j];
      }
    }
  }

  lemma {:induction false} LostAtEnd<K(!new), V, IK>(c: TableView<K, V, IK>, ex: Extractors<V, IK>, order: seq<K>,
                                                     f: (K, V) -> V, n: nat, j: nat, k: K, ik: IK)
    requires |c.indexes| == |ex| && j < |ex| && n <= |order| && k !in order[n..]
    requires Lost(Pass(c, ex, order[..n], f), ex, j, k, ik)
    ensures Lost(Pass(c, ex, order, f), ex, j, k, ik)
    decreases |order|
  {
    if n == |order| {
      assert order[..n] == order;
    } else {
      var init, last := order[..|order| - 1], order[|order| - 1];
      assert init[..n] == order[..n];
      assert last in order[n..] && forall x :: x in init[n..] ==> x in order[n..];
      LostAtEnd(c, ex, init, f, n, j, k, ik);
      LostForGood(Pass(c, ex, init, f), ex, j, k, ik, last, f);
    }
  }

  /** A pass that has kept keys unique so far and breaks it with this step loses the row for good. */
  lemma ClashLoses<K(!new), V, IK(!new)>(c: TableView<K, V, IK>, ex: Extractors<V, IK>, k: K, f: (K, V) -> V)
    returns (j: nat, ik: IK)
    requires IndexesAgree(c, ex) && k in c.rows && !UniqueKeys(VisitRow(c, ex, k, f).rows, ex)
    ensures j < |ex| && Lost(VisitRow(c, ex, k, f), ex, j, k, ik)
  {
    AgreeImpliesUnique(c, ex);
    var rows := VisitRow(c, ex, k, f).rows;
    var j', x, y, ik' :| 0 <= j' < |ex| && x in rows && y in rows && ik' in ex[j'](rows[x]) && ik' in ex[j'](rows[y])
                         && x != y;
    j, ik := j', ik';
    assert x == k || y == k;
    var other := if x == k then y else x;
    assert other in rows && other != k && ik in ex[j](rows[other]);
  }

  /**
    `for_each_mut` keeps the indexes the inverse of the rows exactly when extracted
    keys are unique after every step of its pass: a row that takes a key another
    row still bears loses it when that row is visited.
   */
  lemma PassAgrees<K(!new), V, IK(!new)>(c: TableView<K, V, IK>, ex: Extractors<V, IK>, order: seq<K>, f: (K, V) -> V)
    requires IndexesAgree(c, ex) && NoRepeats(order)
    ensures IndexesAgree(Pass(c, ex, order, f), ex) <==> UniqueThroughout(c.rows, ex, order, f)
  {
    if UniqueThroughout(c.rows, ex, order, f) {
      KeptThroughout(c, ex, order, f);
    } else {
      AgreeImpliesUnique(c, ex);
      assert MapRows(c.rows, KeySet(order[..0]), f) == c.rows;
      var n := FirstClash(c.rows, ex, order, f);
      ClashDisagrees(c, ex, order, f, n - 1);
    }
  }

  /** Keys are unique up to step `n`, and not after it. */
  lemma ClashDisagrees<K(!new), V, IK(!new)>(c: TableView<K, V, IK>, ex: Extractors<V, IK>, order: seq<K>,
                                             f: (K, V) -> V, n: nat)
    requires IndexesAgree(c, ex) && NoRepeats(order) && n < |order|
    requires forall m :: 0 <= m <= n ==> UniqueKeys(MapRows(c.rows, KeySet(order[..m]), f), ex)
    requires !UniqueKeys(MapRows(c.rows, KeySet(order[..n + 1]), f), ex)
    ensures !IndexesAgree(Pass(c, ex, order, f), ex)
  {
    var before, k := order[..n], order[n];
    assert forall m :: 0 <= m <= n ==> before[..m] == order[..m];
    KeptThroughout(c, ex, before, f);
    var c' := Pass(c, ex, before, f);
    assert order[..n + 1][..n] == before;
    PassRows(c, ex, order[..n + 1], f);
    AgreeImpliesUnique(c', ex);
    var j, ik := ClashLoses(c', ex, k, f);
    assert k !in order[n + 1..];
    LostAtEnd(c, ex, order, f, n + 1, j, k, ik);
    LostDisagrees(Pass(c, ex, order, f), ex, j, k, ik);
  }

  lemma LostDisagrees<K(!new), V, IK(!new)>(c: TableView<K, V, IK>, ex: Extractors<V, IK>, j: nat, k: K, ik: IK)
    requires |c.indexes| == |ex| && j < |ex| && Lost(c, ex, j, k, ik)
    ensures !IndexesAgree(c, ex)
  {
    if IndexesAgree(c, ex) {
      assert Inverse(c.rows, c.indexes[j], ex[j]);
      AgreeImpliesUnique(c, ex);
    }
  }

  /** The first step after which keys are not unique. */
  lemma FirstClash<K(!new), V, IK(!new)>(rows: map<K, V>, ex: Extractors<V, IK>, order: seq<K>, f: (K, V) -> V)
    returns (n: nat)
    requires !UniqueThroughout(rows, ex, order, f)
    ensures n <= |order| && !UniqueKeys(MapRows(rows, KeySet(order[..n]), f), ex)
    ensures forall m :: 0 <= m < n ==> UniqueKeys(MapRows(rows, KeySet(order[..m]), f), ex)
  {
    n := 0;
    while UniqueKeys(MapRows(rows, KeySet(order[..n]), f), ex)
      invariant n <= |order| && forall m :: 0 <= m < n ==> UniqueKeys(MapRows(rows, KeySet(order[..m]), f), ex)
      decreases |order| - n
    {
      n := n + 1;
    }
  }

  lemma {:induction false} KeptThroughout<K(!new), V, IK(!new)>(c: TableView<K, V, IK>, ex: Extractors<V, IK>,
                                                                order: seq<K>, f: (K, V) -> V)
    requires IndexesAgree(c, ex) && NoRepeats(order) && UniqueThroughout(c.rows, ex, order, f)
    ensures IndexesAgree(Pass(c, ex, order, f), ex)
    decreases |order|
  {
    if order != [] {
      var init, k := order[..|order| - 1], order[|order| - 1];
      assert forall m :: 0 <= m <= |init| ==> init[..m] == order[..m];
      KeptThroughout(c, ex, init, f);
      PassRows(c, ex, order, f);
      assert order[..|order|] == order;
      var c' := Pass(c, ex, init, f);
      if k in c'.rows { InsertAgrees(c', ex, k, f(k, c'.rows[k])); }
    }
  }

  /** No row is given a key that another row bore before the pass, nor one another row is given. */
  ghost predicate NoClash<K(!new), V, IK(!new)>(rows: map<K, V>, ex: Extractors<V, IK>, f: (K, V) -> V) {
    && UniqueKeys(MapRows(rows, rows.Keys, f), ex)
    && forall j, k, i, ik ::
         0 <= j < |ex| && k in rows && i in rows && ik in ex[j](f(k, rows[k])) && ik in ex[j](rows[i]) ==> k == i
  }

  lemma NoClashSuffices<K(!new), V, IK(!new)>(rows: map<K, V>, ex: Extractors<V, IK>, order: seq<K>, f: (K, V) -> V)
    requires UniqueKeys(rows, ex) && NoClash(rows, ex, f)
    ensures UniqueThroughout(rows, ex, order, f)
  {
    var all := MapRows(rows, rows.Keys, f);
    forall n | 0 <= n <= |order| ensures UniqueKeys(MapRows(rows, KeySet(order[..n]), f), ex) {
      var some, done := MapRows(rows, KeySet(order[..n]), f), KeySet(order[..n]);
      forall j, k, i, ik | 0 <= j < |ex| && k in some && i in some && ik in ex[j](some[k]) && ik in ex[j](some[i])
        ensures k == i
      {
        assert k in done ==> some[k] == all[k];
        assert i in done ==> some[i] == all[i];
      }
    }
  }

  /** Whatever order the pass takes, the indexes agree after it exactly when no key clashes. */
  lemma AnyOrderAgrees<K(!new), V, IK(!new)>(c: TableView<K, V, IK>, ex: Extractors<V, IK>, f: (K, V) -> V)
    requires IndexesAgree(c, ex)
    ensures NoClash(c.rows, ex, f) <==>
            forall order :: Covers(order, c.rows) ==> IndexesAgree(Pass(c, ex, order, f), ex)
  {
    AgreeImpliesUnique(c, ex);
    if NoClash(c.rows, ex, f) {
      forall order | Covers(order, c.rows) ensures IndexesAgree(Pass(c, ex, order, f), ex) {
        NoClashSuffices(c.rows, ex, order, f);
        PassAgrees(c, ex, order, f);
      }
    } else {
      var order := ClashingOrder(c, ex, f);
      PassAgrees(c, ex, order, f);
    }
  }

  /** When keys clash, some order of the pass loses a key: that of the row which takes it, visited first. */
  lemma ClashingOrder<K(!new), V, IK(!new)>(c: TableView<K, V, IK>, ex: Extractors<V, IK>, f: (K, V) -> V)
    returns (order: seq<K>)
    requires IndexesAgree(c, ex) && !NoClash(c.rows, ex, f)
    ensures Covers(order, c.rows) && !UniqueThroughout(c.rows, ex, order, f)
  {
    if !UniqueKeys(MapRows(c.rows, c.rows.Keys, f), ex) {
      order := Listed(c.rows.Keys);
      assert order[..|order|] == order && KeySet(order) == c.rows.Keys;
    } else {
      var j, k, i, ik :| 0 <= j < |ex| && k in c.rows && i in c.rows && ik in ex[j](f(k, c.rows[k]))
                         && ik in ex[j](c.rows[i]) && k != i;
      var rest := Listed(c.rows.Keys - {k});
      order := [k] + rest;
      assert KeySet(order) == {k} + KeySet(rest);
      assert order[..1] == [k] && KeySet(order[..1]) == {k};
      var one := MapRows(c.rows, KeySet(order[..1]), f);
      assert ik in ex[j](one[k]) && ik in ex[j](one[i]);
    }
  }

  lemma Listed<K(!new)>(s: set<K>) returns (order: seq<K>)
    ensures NoRepeats(order) && KeySet(order) == s
  {
    order := [];
    var todo := s;
    while todo != {}
      invariant NoRepeats(order) && todo <= s && KeySet(order) == s - todo
      decreases todo
    {
      var k :| k in todo;
      KeySetSnoc(order, k);
      order, todo := order + [k], todo - {k};
    }
  }
}
