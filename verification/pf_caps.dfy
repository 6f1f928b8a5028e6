/** Capability lookup: from capability names, through reusable numeric ids, to rule ids. */
module CapLookups {
  import opened Common
  import opened FilterRules
  import opened IdSets

  type Slots = seq<Option<set<nat>>>

  /** `names` inverts `ids`, and the occupied slots are the ids in use. */
  ghost predicate Matched(ids: map<Cap, nat>, slots: Slots, names: map<nat, Cap>) {
    && (forall i :: i in names <==> 0 <= i < |slots| && slots[i].Some?)
    && (forall i :: i in names ==> slots[i].value != {} && names[i] in ids && ids[names[i]] == i)
    && (forall c :: c in ids ==> ids[c] in names && names[ids[c]] == c)
  }

  ghost function Rules(ids: map<Cap, nat>, slots: Slots, names: map<nat, Cap>): BitTable<Cap>
    requires Matched(ids, slots, names)
  {
    map c | c in ids :: slots[ids[c]].value
  }

  lemma SlotSet(ids: map<Cap, nat>, slots: Slots, names: map<nat, Cap>, cap: Cap, id: nat, s: set<nat>)
    requires Matched(ids, slots, names) && id < |slots| && s != {}
    requires if cap in ids then id == ids[cap] else slots[id].None?
    ensures Matched(ids[cap := id], slots[id := Some(s)], names[id := cap])
    ensures Rules(ids[cap := id], slots[id := Some(s)], names[id := cap]) == Rules(ids, slots, names)[cap := s]
  {
  }

  lemma SlotFreed(ids: map<Cap, nat>, slots: Slots, names: map<nat, Cap>, cap: Cap)
    requires Matched(ids, slots, names) && cap in ids
    ensures Matched(ids - {cap}, slots[ids[cap] := None], names - {ids[cap]})
    ensures Rules(ids - {cap}, slots[ids[cap] := None], names - {ids[cap]}) == Rules(ids, slots, names) - {cap}
  {
  }

  /** Empty slots at the end carry nothing. */
  lemma SlotsResized(ids: map<Cap, nat>, slots: Slots, names: map<nat, Cap>, slots': Slots)
    requires Matched(ids, slots, names)
    requires slots' <= slots || slots <= slots'
    requires forall i :: |slots'| <= i < |slots| ==> slots[i].None?
    requires forall i :: |slots| <= i < |slots'| ==> slots'[i].None?
    ensures Matched(ids, slots', names) && Rules(ids, slots', names) == Rules(ids, slots, names)
  {
  }

  class CapLookup {
    var ids: map<Cap, nat>
    var capsToRules: Slots
    var freelist: set<nat>
    ghost var names: map<nat, Cap>

    /** Names have ids of their own, the ids in use are the occupied slots, and the rest are free. */
    ghost predicate Valid()
      reads this
    {
      Allocated(capsToRules, freelist) && Matched(ids, capsToRules, names)
    }

    /** Which rules each name accepts for. */
    ghost function Accepts(): (m: BitTable<Cap>)
      requires Valid()
      reads this
      ensures NoEmpty(m)
    {
      Rules(ids, capsToRules, names)
    }

    constructor ()
      ensures Valid() && Accepts() == map[]
    {
      ids, capsToRules, freelist, names := map[], [], {}, map[];
    }

    method Insert(cap: Cap, rule: nat) returns (id: nat)
      requires Valid()
      modifies this
      ensures Valid() && Accepts() == SetBit(old(Accepts()), cap, rule)
      ensures cap in ids && id == ids[cap]
    {
      if cap in ids {
        id := ids[cap];
      } else {
        id := Allocate();
        SlotsResized(ids, old(capsToRules), names, capsToRules);
      }
      var rules := if capsToRules[id].Some? then capsToRules[id].value else {};
      Store(cap, id, rules + {rule});
    }

    /** Bind a name to its own or to a free id, with these rules. */
    method Store(cap: Cap, id: nat, rules: set<nat>)
      requires Matched(ids, capsToRules, names) && id < |capsToRules| && rules != {}
      requires capsToRules[|capsToRules| - 1].None? ==> id == |capsToRules| - 1
      requires if cap in ids then id == ids[cap] else capsToRules[id].None?
      requires freelist == Holes(capsToRules) - {id}
      modifies this
      ensures Valid() && Accepts() == Rules(old(ids), old(capsToRules), old(names))[cap := rules]
      ensures ids == old(ids)[cap := id]
    {
      SlotSet(ids, capsToRules, names, cap, id, rules);
      HolesFilled(capsToRules, id, rules);
      ids, names := ids[cap := id], names[id := cap];
      capsToRules := capsToRules[id := Some(rules)];
    }

    /** An unused id: the lowest free one, or a new one at the end. */
    method Allocate() returns (id: nat)
      requires Valid()
      modifies this`freelist, this`capsToRules
      ensures id < |capsToRules| && capsToRules[id].None? && freelist == Holes(capsToRules) - {id}
      ensures old(capsToRules) <= capsToRules && |capsToRules| <= |old(capsToRules)| + 1
      ensures |capsToRules| > |old(capsToRules)| ==> id == |old(capsToRules)|
    {
      var first, rest := PopFreelist(freelist);
      if first.Some? {
        id, freelist := first.value, rest;
      } else {
        id := |capsToRules|;
        capsToRules := capsToRules + [None];
      }
    }

    method Remove(rule: nat, cap: Cap)
      requires Valid()
      modifies this
      ensures Valid() && Accepts() == ClearBit(old(Accepts()), cap, rule)
    {
      if cap !in ids { return; }
      var id := ids[cap];
      var rules := capsToRules[id].value - {rule};
      if rules == {} {
        Free(cap);
      } else {
        Store(cap, id, rules);
      }
      CompactSlots();
    }

    /** Give up a name and its id. */
    method Free(cap: Cap)
      requires Valid() && cap in ids
      modifies this
      ensures Matched(ids, capsToRules, names) && freelist == Holes(capsToRules)
      ensures Rules(ids, capsToRules, names) == old(Accepts()) - {cap}
    {
      var id := ids[cap];
      SlotFreed(ids, capsToRules, names, cap);
      HolesFreed(capsToRules, id);
      capsToRules := capsToRules[id := None];
      ids, names := ids - {cap}, names - {id};
      freelist := freelist + {id};
    }

    method CompactSlots()
      requires Matched(ids, capsToRules, names) && freelist == Holes(capsToRules)
      modifies this`capsToRules, this`freelist
      ensures Valid() && Accepts() == Rules(ids, old(capsToRules), names)
    {
      capsToRules, freelist := Compact(capsToRules, freelist);
      SlotsResized(ids, old(capsToRules), names, capsToRules);
    }

    method Clear()
      modifies this
      ensures Valid() && Accepts() == map[]
    {
      ids, capsToRules, freelist, names := map[], [], {}, map[];
    }

    /** The rules any of the names accepts for. */
    method Lookup(caps: seq<Cap>) returns (r: set<nat>)
      requires Valid()
      ensures forall id :: id in r <==> AcceptedBy(Accepts(), caps, id)
    {
      r := {};
      for n := 0 to |caps|
        invariant forall id :: id in r <==> AcceptedBy(Accepts(), caps[..n], id)
      {
        var c := caps[n];
        forall id
          ensures AcceptedBy(Accepts(), caps[..n + 1], id) <==>
                  AcceptedBy(Accepts(), caps[..n], id) || (c in ids && id in capsToRules[ids[c]].value)
        {
          AcceptedSnoc(Accepts(), caps, n, id);
        }
        if c in ids {
          r := r + capsToRules[ids[c]].value;
        }
      }
      assert caps[..|caps|] == caps;
    }
  }

  ghost predicate AcceptedBy(m: BitTable<Cap>, caps: seq<Cap>, id: nat) {
    exists c :: c in caps && Has(m, c, id)
  }

  lemma AcceptedSnoc(m: BitTable<Cap>, caps: seq<Cap>, n: nat, id: nat)
    requires n < |caps|
    ensures AcceptedBy(m, caps[..n + 1], id) <==> AcceptedBy(m, caps[..n], id) || Has(m, caps[n], id)
  {
    assert caps[..n + 1] == caps[..n] + [caps[n]];
    assert caps[n] in caps[..n + 1];
  }
}
