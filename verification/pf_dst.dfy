/** Destination lookup: one reusable id per (rule, destination) pair, indexed by address and by port. */
module DstLookups {
  import opened Common
  import opened FilterRules
  import opened IdSets

  /** The tables over destination ids, with `of` naming the destination each live id stands for. */
  datatype Tables = Tables(ips: BitTable<Prefix>, ports: BitTable<PortRange>, ids: BitTable<DstMatch>)

  /** Every table holds an id exactly where the destination it stands for says. */
  ghost predicate Indexed(t: Tables, of: map<nat, DstMatch>) {
    && NoEmpty(t.ips) && NoEmpty(t.ports) && NoEmpty(t.ids)
    && (forall d, i :: Has(t.ids, d, i) <==> i in of && of[i] == d)
    && (forall p, i :: Has(t.ips, p, i) <==> i in of && p in of[i].ips)
    && (forall r, i :: Has(t.ports, r, i) <==> i in of && of[i].ports == r)
  }

  /** Live ids are the occupied slots, and no two stand for the same rule and destination. */
  ghost predicate Owned(rules: seq<Option<nat>>, of: map<nat, DstMatch>) {
    && (forall i :: i in of <==> 0 <= i < |rules| && rules[i].Some?)
    && (forall i, j :: i in of && j in of && of[i] == of[j] && rules[i] == rules[j] ==> i == j)
  }

  /** The (rule, destination) pairs stored. */
  ghost function Pairs(rules: seq<Option<nat>>, of: map<nat, DstMatch>): set<(nat, DstMatch)>
    requires Owned(rules, of)
  {
    set i | i in of :: (rules[i].value, of[i])
  }

  lemma OwnedAdd(rules: seq<Option<nat>>, of: map<nat, DstMatch>, id: nat, rule: nat, d: DstMatch)
    requires Owned(rules, of) && id < |rules| && rules[id].None?
    requires (rule, d) !in Pairs(rules, of)
    ensures Owned(rules[id := Some(rule)], of[id := d])
  {
    forall i | i in of && rules[i] == Some(rule) ensures of[i] != d {
      assert (rules[i].value, of[i]) in Pairs(rules, of);
    }
  }

  lemma PairsAdd(rules: seq<Option<nat>>, of: map<nat, DstMatch>, id: nat, rule: nat, d: DstMatch)
    requires Owned(rules, of) && id < |rules| && rules[id].None?
    requires (rule, d) !in Pairs(rules, of)
    ensures Owned(rules[id := Some(rule)], of[id := d])
    ensures Pairs(rules[id := Some(rule)], of[id := d]) == Pairs(rules, of) + {(rule, d)}
  {
    OwnedAdd(rules, of, id, rule, d);
    var rules', of' := rules[id := Some(rule)], of[id := d];
    forall q | q in Pairs(rules, of)
      ensures q in Pairs(rules', of')
    {
      var i :| i in of && q == (rules[i].value, of[i]);
      assert i in of' && q == (rules'[i].value, of'[i]);
    }
    assert id in of' && (rules'[id].value, of'[id]) == (rule, d);
    forall q | q in Pairs(rules', of') && q != (rule, d)
      ensures q in Pairs(rules, of)
    {
      var i :| i in of' && q == (rules'[i].value, of'[i]);
      assert i in of && q == (rules[i].value, of[i]);
    }
  }

  lemma PairsDrop(rules: seq<Option<nat>>, of: map<nat, DstMatch>, id: nat)
    requires Owned(rules, of) && id in of
    ensures Owned(rules[id := None], of - {id})
    ensures Pairs(rules[id := None], of - {id}) == Pairs(rules, of) - {(rules[id].value, of[id])}
  {
    var rules', of' := rules[id := None], of - {id};
    forall q | q in Pairs(rules, of) && q != (rules[id].value, of[id])
      ensures q in Pairs(rules', of')
    {
      var i :| i in of && q == (rules[i].value, of[i]);
      assert i in of' && q == (rules'[i].value, of'[i]);
    }
  }

  lemma PairsResized(rules: seq<Option<nat>>, of: map<nat, DstMatch>, rules': seq<Option<nat>>)
    requires Owned(rules, of)
    requires rules' <= rules || rules <= rules'
    requires forall i :: |rules'| <= i < |rules| ==> rules[i].None?
    requires forall i :: |rules| <= i < |rules'| ==> rules'[i].None?
    ensures Owned(rules', of) && Pairs(rules', of) == Pairs(rules, of)
  {
    forall i | i in of
      ensures i < |rules'| && rules'[i] == rules[i]
    {
    }
  }

  class DstMatchLookup {
    var tables: Tables
    var rules: seq<Option<nat>>
    var freelist: set<nat>
    ghost var of: map<nat, DstMatch>

    ghost predicate Valid()
      reads this
    {
      Allocated(rules, freelist) && Owned(rules, of) && Indexed(tables, of)
    }

    /** The (rule, destination) pairs the lookup answers for. */
    ghost function Stored(): set<(nat, DstMatch)>
      requires Valid()
      reads this
    {
      Pairs(rules, of)
    }

    constructor ()
      ensures Valid() && Stored() == {}
    {
      tables, rules, freelist, of := Tables(map[], map[], map[]), [], {}, map[];
    }

    method Clear()
      modifies this
      ensures Valid() && Stored() == {}
    {
      tables, rules, freelist, of := Tables(map[], map[], map[]), [], {}, map[];
    }

    /** The id allocated to a rule and destination, if there is one. */
    method LookupId(rule: nat, d: DstMatch) returns (r: Option<nat>)
      requires Valid()
      ensures r.Some? ==> r.value in of && of[r.value] == d && rules[r.value] == Some(rule)
      ensures r.None? ==> (rule, d) !in Stored()
    {
      if d !in tables.ids {
        assert forall i :: i in of ==> Has(tables.ids, of[i], i);
        return None;
      }
      var bits := Ascending(tables.ids[d]);
      AscendingSpec(tables.ids[d]);
      forall i
        ensures i in bits <==> i in of && of[i] == d
      {
        assert Has(tables.ids, d, i) <==> i in of && of[i] == d;
      }
      for n := 0 to |bits|
        invariant forall m :: 0 <= m < n ==> bits[m] in of && rules[bits[m]] != Some(rule)
      {
        assert bits[n] in bits;
        if rules[bits[n]] == Some(rule) { return Some(bits[n]); }
      }
      r := None;
    }

    /** Enter an id into the address and port tables and under its destination. */
    method IndexId(id: nat, d: DstMatch)
      requires Indexed(tables, of) && (id in of ==> of[id] == d)
      modifies this`tables, this`of
      ensures of == old(of)[id := d] && Indexed(tables, of)
    {
      var ips := SetAll(tables.ips, d.ips, id);
      SetBitHas(tables.ports, d.ports, id);
      SetBitHas(tables.ids, d, id);
      tables := Tables(ips, SetBit(tables.ports, d.ports, id), SetBit(tables.ids, d, id));
      of := of[id := d];
    }

    /** Take an id out of every table it is in. */
    method UnindexId(id: nat, d: DstMatch)
      requires Indexed(tables, of) && id in of && of[id] == d
      modifies this`tables, this`of
      ensures of == old(of) - {id} && Indexed(tables, of)
    {
      var ips := ClearAll(tables.ips, d.ips, id);
      ClearBitHas(tables.ports, d.ports, id);
      ClearBitHas(tables.ids, d, id);
      tables := Tables(ips, ClearBit(tables.ports, d.ports, id), ClearBit(tables.ids, d, id));
      of := of - {id};
    }

    method Insert(rule: nat, d: DstMatch)
      requires Valid()
      modifies this
      ensures Valid() && Stored() == old(Stored()) + {(rule, d)}
    {
      var found := LookupId(rule, d);
      if found.Some? {
        assert (rule, d) in Stored();
        IndexId(found.value, d);
        assert of == old(of);
      } else {
        var id := Allocate();
        PairsResized(old(rules), of, rules);
        PairsAdd(rules, of, id, rule, d);
        IndexId(id, d);
        HolesFilled(rules, id, rule);
        rules := rules[id := Some(rule)];
      }
      CompactSlots();
    }

    /** An unused id: the lowest free one, or a new one at the end. */
    method Allocate() returns (id: nat)
      requires freelist == Holes(rules)
      modifies this`freelist, this`rules
      ensures id < |rules| && rules[id].None? && freelist == Holes(rules) - {id}
      ensures old(rules) <= rules && forall i :: |old(rules)| <= i < |rules| ==> rules[i].None?
    {
      var first, rest := PopFreelist(freelist);
      if first.Some? {
        id, freelist := first.value, rest;
      } else {
        id := |rules|;
        rules := rules + [None];
      }
    }

    method CompactSlots()
      requires freelist == Holes(rules) && Owned(rules, of) && Indexed(tables, of)
      modifies this`freelist, this`rules
      ensures Valid() && Stored() == Pairs(old(rules), of)
    {
      rules, freelist := Compact(rules, freelist);
      PairsResized(old(rules), of, rules);
    }

    method Remove(rule: nat, d: DstMatch)
      requires Valid()
      modifies this
      ensures Valid() && Stored() == old(Stored()) - {(rule, d)}
    {
      var found := LookupId(rule, d);
      if found.None? { return; }
      var id := found.value;
      PairsDrop(rules, of, id);
      UnindexId(id, d);
      HolesFreed(rules, id);
      rules := rules[id := None];
      freelist := freelist + {id};
      CompactSlots();
    }

    /** The rules with a single destination that covers both the address and the port. */
    method Lookup(dst: Addr, port: nat) returns (r: set<nat>)
      requires Valid()
      ensures forall rule :: rule in r <==> exists d :: (rule, d) in Stored() && d.Matches(dst, port)
      ensures forall rule :: rule in r <==>
                exists d, p ::
                  && (rule, d) in Stored() && p in d.ips && d.ports.lo <= port <= d.ports.hi
                  && p.v4 == dst.v4 && |p.bits| <= |dst.bits| && p.bits == dst.bits[..|p.bits|]
    {
      var portMatches := UnionWhere(tables.ports, range => Contains(range, port));
      var dstMatches := UnionWhere(tables.ips, p => Covers(p, dst));
      var ids := portMatches * dstMatches;
      forall i
        ensures i in ids <==> i in of && of[i].Matches(dst, port)
      {
        IdMatches(tables, of, i, dst, port);
      }
      r := set i | i in ids && rules[i].Some? :: rules[i].value;
      PairsMatch(rules, of, ids, r, dst, port);
      PairsSpelled(Stored(), r, dst, port);
    }
  }

  /** The union of the bitsets under the selected keys. */
  method UnionWhere<K(==, !new)>(m: BitTable<K>, sel: K -> bool) returns (r: set<nat>)
    ensures forall i :: i in r <==> exists k :: sel(k) && Has(m, k, i)
  {
    r := {};
    var todo := m.Keys;
    while todo != {}
      invariant todo <= m.Keys
      invariant forall i :: i in r <==> exists k :: k !in todo && sel(k) && Has(m, k, i)
    {
      var k :| k in todo;
      todo := todo - {k};
      if sel(k) {
        r := r + m[k];
      }
    }
  }

  lemma IdMatches(t: Tables, of: map<nat, DstMatch>, i: nat, dst: Addr, port: nat)
    requires Indexed(t, of)
    ensures i in of && of[i].Matches(dst, port) <==>
            && (exists r :: Contains(r, port) && Has(t.ports, r, i))
            && (exists p :: Covers(p, dst) && Has(t.ips, p, i))
  {
    if i in of {
      assert Has(t.ports, of[i].ports, i);
      if p :| p in of[i].ips && Covers(p, dst) {
        assert Has(t.ips, p, i);
      }
    }
  }

  /** Matching destinations, down to the port numbers and the address bits. */
  lemma PairsSpelled(pairs: set<(nat, DstMatch)>, r: set<nat>, dst: Addr, port: nat)
    requires forall rule :: rule in r <==> exists d :: (rule, d) in pairs && d.Matches(dst, port)
    ensures forall rule :: rule in r <==>
              exists d, p ::
                && (rule, d) in pairs && p in d.ips && d.ports.lo <= port <= d.ports.hi
                && p.v4 == dst.v4 && |p.bits| <= |dst.bits| && p.bits == dst.bits[..|p.bits|]
  {
    forall d: DstMatch
      ensures d.Matches(dst, port) <==>
              exists p ::
                && p in d.ips && d.ports.lo <= port <= d.ports.hi
                && p.v4 == dst.v4 && |p.bits| <= |dst.bits| && p.bits == dst.bits[..|p.bits|]
    {
      if p :| p in d.ips && d.ports.lo <= port <= d.ports.hi &&
              p.v4 == dst.v4 && |p.bits| <= |dst.bits| && p.bits == dst.bits[..|p.bits|] {
        assert Covers(p, dst);
      }
    }
  }

  lemma PairsMatch(rules: seq<Option<nat>>, of: map<nat, DstMatch>, ids: set<nat>, r: set<nat>, dst: Addr, port: nat)
    requires Owned(rules, of)
    requires forall i :: i in ids <==> i in of && of[i].Matches(dst, port)
    requires r == set i | i in ids && rules[i].Some? :: rules[i].value
    ensures forall rule :: rule in r <==> exists d :: (rule, d) in Pairs(rules, of) && d.Matches(dst, port)
  {
    forall rule | rule in r
      ensures exists d :: (rule, d) in Pairs(rules, of) && d.Matches(dst, port)
    {
      var i :| i in ids && rules[i] == Some(rule);
      assert (rule, of[i]) in Pairs(rules, of);
    }
    forall rule, d | (rule, d) in Pairs(rules, of) && d.Matches(dst, port)
      ensures rule in r
    {
      var i :| i in of && (rule, d) == (rules[i].value, of[i]);
    }
  }
}
