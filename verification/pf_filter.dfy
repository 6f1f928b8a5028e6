/** The accelerated packet filter: four indexes over bitsets of rule ids. */
module BartFilters {
  import opened Common
  import opened FilterRules
  import opened IdSets
  import opened CapLookups
  import opened DstLookups

  type RulesetName(==, !new)

  datatype RulesetEntry = RulesetEntry(ruleset: seq<Rule>, ruleIds: set<nat>)

  /** The live rules, by id. */
  type Live = map<nat, Rule>

  ghost predicate ProtosOk(m: BitTable<Proto>, live: Live) {
    NoEmpty(m) && forall k, i :: Has(m, k, i) <==> i in live && k in live[i].protos
  }

  ghost predicate SrcsOk(m: BitTable<Prefix>, live: Live) {
    NoEmpty(m) && forall k, i :: Has(m, k, i) <==> i in live && k in live[i].src.pfxs
  }

  ghost predicate CapsOk(m: BitTable<Cap>, live: Live) {
    NoEmpty(m) && forall k, i :: Has(m, k, i) <==> i in live && k in live[i].src.caps
  }

  ghost predicate DstsOk(pairs: set<(nat, DstMatch)>, live: Live) {
    forall i, d :: (i, d) in pairs <==> i in live && d in live[i].dst
  }

  ghost predicate Listed(ids: seq<nat>, rules: seq<Rule>, live: Live) {
    |ids| == |rules| && forall j :: 0 <= j < |ids| ==> ids[j] in live && live[ids[j]] == rules[j]
  }

  type Rulesets = map<RulesetName, RulesetEntry>

  /** Reading a ruleset's ids upward gives its rules in their listed order. */
  ghost predicate AllListed(rulesets: Rulesets, live: Live) {
    forall n {:trigger Ascending(rulesets[n].ruleIds)} ::
      n in rulesets ==> Listed(Ascending(rulesets[n].ruleIds), rulesets[n].ruleset, live)
  }

  /** Each live rule belongs to one ruleset, and the id table says which. */
  ghost predicate OwnersOk(rulesets: Rulesets, owners: seq<Option<RulesetName>>, live: Live) {
    && (forall i :: i in live <==> 0 <= i < |owners| && owners[i].Some?)
    && (forall i :: i in live ==> owners[i].value in rulesets && i in rulesets[owners[i].value].ruleIds)
    && (forall n :: n in rulesets ==> Owns(n, rulesets[n].ruleIds, owners))
  }

  ghost predicate Owns(n: RulesetName, ids: set<nat>, owners: seq<Option<RulesetName>>) {
    forall i :: i in ids ==> i < |owners| && owners[i] == Some(n)
  }

  function RulesOf(rulesets: Rulesets): map<RulesetName, seq<Rule>> {
    map n | n in rulesets :: rulesets[n].ruleset
  }

  function IdsOf(rulesets: Rulesets, name: RulesetName): set<nat> {
    if name in rulesets then rulesets[name].ruleIds else {}
  }

  lemma RulesOfUpdate(rulesets: Rulesets, name: RulesetName, e: RulesetEntry)
    ensures RulesOf(rulesets[name := e]) == RulesOf(rulesets)[name := e.ruleset]
    ensures RulesOf(rulesets - {name}) == RulesOf(rulesets) - {name}
  {
  }

  lemma RulesStored(rulesets: Rulesets, name: RulesetName)
    ensures forall e {:trigger rulesets[name := e]} ::
              RulesOf(rulesets[name := e]) == RulesOf(rulesets)[name := e.ruleset]
  {
    forall e ensures RulesOf(rulesets[name := e]) == RulesOf(rulesets)[name := e.ruleset] {
      RulesOfUpdate(rulesets, name, e);
    }
  }

  lemma RulesReplaced(rules: map<RulesetName, seq<Rule>>, name: RulesetName, ruleset: seq<Rule>)
    ensures (rules - {name})[name := ruleset] == rules[name := ruleset]
  {
  }

  ghost predicate Registered(rulesets: Rulesets, owners: seq<Option<RulesetName>>, live: Live) {
    AllListed(rulesets, live) && OwnersOk(rulesets, owners, live)
  }

  /** An empty ruleset needs no ids. */
  lemma RegisterNone(rulesets: Rulesets, owners: seq<Option<RulesetName>>, live: Live, name: RulesetName)
    requires Registered(rulesets, owners, live) && name !in rulesets
    ensures Registered(rulesets[name := RulesetEntry([], {})], owners, live)
  {
    var after := rulesets[name := RulesetEntry([], {})];
    forall n | n in after
      ensures Listed(Ascending(after[n].ruleIds), after[n].ruleset, live)
    {
      if n != name {
        assert Listed(Ascending(rulesets[n].ruleIds), rulesets[n].ruleset, live);
      }
    }
  }

  lemma RegisterOwner(rulesets: Rulesets, owners: seq<Option<RulesetName>>, live: Live,
                      name: RulesetName, id: nat, rule: Rule, e: RulesetEntry)
    requires OwnersOk(rulesets, owners, live) && name in rulesets
    requires id < |owners| && owners[id].None?
    requires e.ruleIds == rulesets[name].ruleIds + {id}
    ensures OwnersOk(rulesets[name := e], owners[id := Some(name)], live[id := rule])
  {
  }

  lemma RegisterListed(rulesets: Rulesets, live: Live, name: RulesetName, id: nat, rule: Rule)
    requires AllListed(rulesets, live) && name in rulesets && id !in live
    requires forall x :: x in rulesets[name].ruleIds ==> x < id
    ensures var e := rulesets[name];
            AllListed(rulesets[name := RulesetEntry(e.ruleset + [rule], e.ruleIds + {id})], live[id := rule])
  {
    var e, live' := rulesets[name], live[id := rule];
    var after := rulesets[name := RulesetEntry(e.ruleset + [rule], e.ruleIds + {id})];
    forall n | n in after
      ensures Listed(Ascending(after[n].ruleIds), after[n].ruleset, live')
    {
      if n in rulesets {
        ListedKept(Ascending(rulesets[n].ruleIds), rulesets[n].ruleset, live, live');
      }
      if n == name {
        AscendingAppend(e.ruleIds, id);
        ListedSnoc(Ascending(e.ruleIds), e.ruleset, live', id, rule);
      }
    }
  }

  /** A rule under a new id, above those of its ruleset, registers the ruleset with the rule at its end. */
  lemma RegisterRule(rulesets: Rulesets, owners: seq<Option<RulesetName>>, owners': seq<Option<RulesetName>>,
                     live: Live, name: RulesetName, id: nat, rule: Rule)
    requires Registered(rulesets, owners, live) && name in rulesets && owners <= owners'
    requires forall i :: |owners| <= i < |owners'| ==> owners'[i].None?
    requires id < |owners'| && owners'[id].None? && forall x :: x in rulesets[name].ruleIds ==> x < id
    ensures id !in live
    ensures var e := rulesets[name];
            Registered(rulesets[name := RulesetEntry(e.ruleset + [rule], e.ruleIds + {id})], owners'[id := Some(name)],
                       live[id := rule])
  {
    var e := rulesets[name];
    OwnersResized(rulesets, owners, live, owners');
    RegisterListed(rulesets, live, name, id, rule);
    RegisterOwner(rulesets, owners', live, name, id, rule, RulesetEntry(e.ruleset + [rule], e.ruleIds + {id}));
  }

  lemma ListedSnoc(ids: seq<nat>, rules: seq<Rule>, live: Live, id: nat, rule: Rule)
    requires Listed(ids, rules, live) && id in live && live[id] == rule
    ensures Listed(ids + [id], rules + [rule], live)
  {
  }

  lemma ListedKept(ids: seq<nat>, rules: seq<Rule>, live: Live, live': Live)
    requires Listed(ids, rules, live)
    requires forall i :: i in ids && i in live ==> i in live' && live'[i] == live[i]
    ensures Listed(ids, rules, live')
  {
  }

  /** Rulesets share no ids. */
  lemma IdsDisjoint(rulesets: Rulesets, owners: seq<Option<RulesetName>>, live: Live, m: RulesetName, n: RulesetName)
    requires OwnersOk(rulesets, owners, live) && m in rulesets && n in rulesets && m != n
    ensures rulesets[m].ruleIds !! rulesets[n].ruleIds
  {
    assert Owns(m, rulesets[m].ruleIds, owners) && Owns(n, rulesets[n].ruleIds, owners);
  }

  /** Forgetting a ruleset frees its ids and leaves the others as they were. */
  lemma UnregisterOwner(rulesets: Rulesets, owners: seq<Option<RulesetName>>, live: Live,
                        name: RulesetName, owners': seq<Option<RulesetName>>)
    requires OwnersOk(rulesets, owners, live) && name in rulesets
    requires |owners'| == |owners|
    requires forall i :: 0 <= i < |owners| ==> owners'[i] == if i in rulesets[name].ruleIds then None else owners[i]
    ensures OwnersOk(rulesets - {name}, owners', live - rulesets[name].ruleIds)
    ensures Holes(owners') == Holes(owners) + rulesets[name].ruleIds
  {
    forall n | n in rulesets && n != name {
      IdsDisjoint(rulesets, owners, live, n, name);
    }
    assert Owns(name, rulesets[name].ruleIds, owners);
  }

  lemma UnregisterListed(rulesets: Rulesets, owners: seq<Option<RulesetName>>, live: Live, name: RulesetName)
    requires Registered(rulesets, owners, live) && name in rulesets
    ensures AllListed(rulesets - {name}, live - rulesets[name].ruleIds)
  {
    var live' := live - rulesets[name].ruleIds;
    forall n | n in rulesets && n != name
      ensures Listed(Ascending(rulesets[n].ruleIds), rulesets[n].ruleset, live')
    {
      IdsDisjoint(rulesets, owners, live, n, name);
      OthersListed(rulesets[n], live, rulesets[name].ruleIds);
    }
  }

  lemma OthersListed(e: RulesetEntry, live: Live, ids: set<nat>)
    requires Listed(Ascending(e.ruleIds), e.ruleset, live) && e.ruleIds !! ids
    ensures Listed(Ascending(e.ruleIds), e.ruleset, live - ids)
  {
    AscendingSpec(e.ruleIds);
    ListedKept(Ascending(e.ruleIds), e.ruleset, live, live - ids);
  }

  lemma OwnersResized(rulesets: Rulesets, owners: seq<Option<RulesetName>>, live: Live,
                      owners': seq<Option<RulesetName>>)
    requires OwnersOk(rulesets, owners, live)
    requires owners' <= owners || owners <= owners'
    requires forall i :: |owners'| <= i < |owners| ==> owners[i].None?
    requires forall i :: |owners| <= i < |owners'| ==> owners'[i].None?
    ensures OwnersOk(rulesets, owners', live)
  {
  }

  ghost predicate IndexedBy(caps: CapLookup, dsts: DstMatchLookup, srcs: BitTable<Prefix>,
                            ipProtos: BitTable<Proto>, live: Live)
    reads caps, dsts
  {
    && caps.Valid() && dsts.Valid()
    && ProtosOk(ipProtos, live) && SrcsOk(srcs, live)
    && CapsOk(caps.Accepts(), live) && DstsOk(dsts.Stored(), live)
  }

  lemma LiveGrows(live: Live, ids: set<nat>, id: nat, rule: Rule)
    requires id !in live
    ensures live[id := rule] - (ids + {id}) == live - ids
  {
  }

  /** The ids of a ruleset, upward: distinct, in range, and paired with its rules. */
  lemma EntryBits(rulesets: Rulesets, owners: seq<Option<RulesetName>>, live: Live, name: RulesetName, bits: seq<nat>)
    requires Registered(rulesets, owners, live) && name in rulesets
    requires bits == Ascending(rulesets[name].ruleIds)
    ensures Listed(bits, rulesets[name].ruleset, live)
    ensures forall i, j :: 0 <= i < j < |bits| ==> bits[i] != bits[j]
    ensures forall i :: i in bits ==> i < |owners|
    ensures forall i :: i in bits <==> i in rulesets[name].ruleIds
  {
    AscendingSpec(rulesets[name].ruleIds);
    assert Owns(name, rulesets[name].ruleIds, owners);
  }

  class BartFilter {
    const caps: CapLookup
    var srcs: BitTable<Prefix>
    const dsts: DstMatchLookup
    var ipProtos: BitTable<Proto>
    var rulesToRulesets: seq<Option<RulesetName>>
    var ruleFreelist: set<nat>
    var rulesets: Rulesets
    ghost var live: Live

    /** The four indexes say of every rule id what the live rule of that id says. */
    ghost predicate Indexed()
      reads this, caps, dsts
    {
      IndexedBy(caps, dsts, srcs, ipProtos, live)
    }

    ghost predicate Valid()
      reads this, caps, dsts
    {
      && Indexed()
      && Allocated(rulesToRulesets, ruleFreelist)
      && Registered(rulesets, rulesToRulesets, live)
    }

    /** The rulesets the filter enforces. */
    ghost function Rules(): map<RulesetName, seq<Rule>>
      reads this
    {
      RulesOf(rulesets)
    }

    constructor ()
      ensures Valid() && Rules() == map[] && fresh(caps) && fresh(dsts)
    {
      caps := new CapLookup();
      dsts := new DstMatchLookup();
      srcs, ipProtos, rulesToRulesets, ruleFreelist, rulesets, live := map[], map[], [], {}, map[], map[];
    }

    lemma IndexesFrom()
      requires Valid()
      ensures caps.Valid() && dsts.Valid()
      ensures ProtosOk(ipProtos, live) && SrcsOk(srcs, live)
      ensures CapsOk(caps.Accepts(), live) && DstsOk(dsts.Stored(), live)
    {
    }

    /** Enter a rule into the four indexes. */
    method AddRule(id: nat, rule: Rule)
      requires Indexed() && id !in live
      modifies this`srcs, this`ipProtos, this`live, caps, dsts
      ensures Indexed() && live == old(live)[id := rule]
    {
      ipProtos := SetAll(ipProtos, rule.protos, id);
      ProtosAdded(old(ipProtos), ipProtos, live, id, rule);
      AddCaps(caps, rule.src.caps, id);
      CapsAdded(old(caps.Accepts()), caps.Accepts(), live, id, rule);
      srcs := SetAll(srcs, rule.src.pfxs, id);
      SrcsAdded(old(srcs), srcs, live, id, rule);
      DstsAdded(dsts.Stored(), live, id, rule);
      AddDsts(dsts, rule.dst, id);
      live := live[id := rule];
    }

    /** Take a rule out of the four indexes. */
    method DropRule(id: nat, rule: Rule)
      requires Indexed() && id in live && live[id] == rule
      modifies this`srcs, this`ipProtos, this`live, caps, dsts
      ensures Indexed() && live == old(live) - {id}
    {
      ipProtos := ClearAll(ipProtos, rule.protos, id);
      ProtosDropped(old(ipProtos), ipProtos, live, id);
      DstsDropped(dsts.Stored(), live, id);
      DropDsts(dsts, rule.dst, id);
      DropCaps(caps, rule.src.caps, id);
      CapsDropped(old(caps.Accepts()), caps.Accepts(), live, id);
      srcs := ClearAll(srcs, rule.src.pfxs, id);
      SrcsDropped(old(srcs), srcs, live, id);
      live := live - {id};
    }

    /** An unused rule id: the lowest free one, or a new one at the end. */
    method AllocateId() returns (id: nat)
      requires ruleFreelist == Holes(rulesToRulesets)
      modifies this`ruleFreelist, this`rulesToRulesets
      ensures id < |rulesToRulesets| && rulesToRulesets[id].None?
      ensures ruleFreelist == Holes(rulesToRulesets) - {id} && forall y :: y in ruleFreelist ==> id < y
      ensures id in old(ruleFreelist) || id == |old(rulesToRulesets)|
      ensures old(rulesToRulesets) <= rulesToRulesets
      ensures forall i :: |old(rulesToRulesets)| <= i < |rulesToRulesets| ==> rulesToRulesets[i].None?
    {
      var first, rest := PopFreelist(ruleFreelist);
      if first.Some? {
        id, ruleFreelist := first.value, rest;
      } else {
        id := |rulesToRulesets|;
        rulesToRulesets := rulesToRulesets + [None];
      }
    }

    method CompactIds()
      requires Indexed() && ruleFreelist == Holes(rulesToRulesets)
      requires Registered(rulesets, rulesToRulesets, live)
      modifies this`ruleFreelist, this`rulesToRulesets
      ensures Valid()
    {
      rulesToRulesets, ruleFreelist := Compact(rulesToRulesets, ruleFreelist);
      OwnersResized(rulesets, old(rulesToRulesets), live, rulesToRulesets);
    }

    /** Free the ids of a ruleset in the id table. */
    method ReleaseIds(bits: seq<nat>)
      requires forall i :: i in bits ==> i < |rulesToRulesets|
      modifies this`rulesToRulesets
      ensures |rulesToRulesets| == |old(rulesToRulesets)|
      ensures forall i :: 0 <= i < |rulesToRulesets| ==>
                rulesToRulesets[i] == if i in bits then None else old(rulesToRulesets)[i]
    {
      for j := 0 to |bits|
        invariant |rulesToRulesets| == |old(rulesToRulesets)|
        invariant forall i :: 0 <= i < |rulesToRulesets| ==>
                    rulesToRulesets[i] == if i in bits[..j] then None else old(rulesToRulesets)[i]
      {
        assert bits[j] in bits;
        rulesToRulesets := rulesToRulesets[bits[j] := None];
      }
    }

    /** Take a ruleset's rules, paired with its ids in ascending order, out of the indexes. */
    method DropRules(bits: seq<nat>, ruleset: seq<Rule>)
      requires Indexed() && Listed(bits, ruleset, live)
      requires forall i, j :: 0 <= i < j < |bits| ==> bits[i] != bits[j]
      modifies this`srcs, this`ipProtos, this`live, caps, dsts
      ensures Indexed() && live == old(live) - set i | i in bits
    {
      for j := 0 to |bits|
        invariant Indexed() && live == old(live) - set i | i in bits[..j]
      {
        assert bits[j] !in bits[..j];
        DropRule(bits[j], ruleset[j]);
        assert bits[..j + 1] == bits[..j] + [bits[j]];
      }
      assert bits[..|bits|] == bits;
    }

    method Remove(name: RulesetName)
      requires Valid()
      modifies this, caps, dsts
      ensures Valid() && Rules() == old(Rules()) - {name} && name !in rulesets
      ensures live == old(live) - IdsOf(old(rulesets), name)
    {
      if name in rulesets {
        RulesOfUpdate(rulesets, name, rulesets[name]);
        RemoveExisting(name);
      }
    }

    method RemoveExisting(name: RulesetName)
      requires Valid() && name in rulesets
      modifies this, caps, dsts
      ensures Valid() && rulesets == old(rulesets) - {name} && live == old(live) - old(rulesets)[name].ruleIds
    {
      var entry := rulesets[name];
      var bits := Ascending(entry.ruleIds);
      EntryBits(rulesets, rulesToRulesets, live, name, bits);
      Forget(name, entry, bits);
      CompactIds();
    }

    method Forget(name: RulesetName, entry: RulesetEntry, bits: seq<nat>)
      requires Valid() && name in rulesets && entry == rulesets[name]
      requires Listed(bits, entry.ruleset, live)
      requires forall i, j :: 0 <= i < j < |bits| ==> bits[i] != bits[j]
      requires forall i :: i in bits ==> i < |rulesToRulesets|
      requires forall i :: i in bits <==> i in entry.ruleIds
      modifies this, caps, dsts
      ensures Indexed() && ruleFreelist == Holes(rulesToRulesets)
      ensures Registered(rulesets, rulesToRulesets, live)
      ensures rulesets == old(rulesets) - {name} && live == old(live) - entry.ruleIds
    {
      Unindex(entry, bits);
      UnregisterOwner(rulesets, old(rulesToRulesets), old(live), name, rulesToRulesets);
      UnregisterListed(rulesets, old(rulesToRulesets), old(live), name);
      ruleFreelist := ruleFreelist + entry.ruleIds;
      rulesets := rulesets - {name};
    }

    method Unindex(entry: RulesetEntry, bits: seq<nat>)
      requires Indexed() && Listed(bits, entry.ruleset, live)
      requires forall i, j :: 0 <= i < j < |bits| ==> bits[i] != bits[j]
      requires forall i :: i in bits ==> i < |rulesToRulesets|
      requires forall i :: i in bits <==> i in entry.ruleIds
      modifies this`rulesToRulesets, this`srcs, this`ipProtos, this`live, caps, dsts
      ensures Indexed() && live == old(live) - entry.ruleIds
      ensures |rulesToRulesets| == |old(rulesToRulesets)|
      ensures forall i :: 0 <= i < |rulesToRulesets| ==>
                rulesToRulesets[i] == if i in entry.ruleIds then None else old(rulesToRulesets)[i]
    {
      ReleaseIds(bits);
      DropRules(bits, entry.ruleset);
      assert (set i | i in bits) == entry.ruleIds;
    }

    /**
      The rules `done` of ruleset `name` are indexed under `ids`, all of them below
      every free id.
     */
    ghost predicate Filling(name: RulesetName, done: seq<Rule>, ids: set<nat>)
      reads this, caps, dsts
    {
      && Indexed() && ruleFreelist == Holes(rulesToRulesets)
      && Registered(rulesets[name := RulesetEntry(done, ids)], rulesToRulesets, live)
      && forall x, y :: x in ids && y in ruleFreelist ==> x < y
    }

    /** Give the next rule of ruleset `name` an id above the earlier ones. */
    method ReserveId(name: RulesetName, ghost rule: Rule, ghost done: seq<Rule>, ghost ids: set<nat>) returns (id: nat)
      requires ruleFreelist == Holes(rulesToRulesets)
      requires Registered(rulesets[name := RulesetEntry(done, ids)], rulesToRulesets, live)
      requires forall x, y :: x in ids && y in ruleFreelist ==> x < y
      modifies this`rulesToRulesets, this`ruleFreelist
      ensures id !in live && ruleFreelist == Holes(rulesToRulesets)
      ensures Registered(rulesets[name := RulesetEntry(done + [rule], ids + {id})], rulesToRulesets, live[id := rule])
      ensures forall x, y :: x in ids + {id} && y in ruleFreelist ==> x < y
    {
      ghost var open := rulesets[name := RulesetEntry(done, ids)];
      assert Owns(name, open[name].ruleIds, rulesToRulesets);
      id := AllocateId();
      RegisterRule(open, old(rulesToRulesets), rulesToRulesets, live, name, id, rule);
      assert open[name := RulesetEntry(done + [rule], ids + {id})] ==
             rulesets[name := RulesetEntry(done + [rule], ids + {id})];
      HolesFilled(rulesToRulesets, id, name);
      rulesToRulesets := rulesToRulesets[id := Some(name)];
    }

    /** Give the next rule of ruleset `name` its id, and index it. */
    method InsertRule(name: RulesetName, rule: Rule, ghost done: seq<Rule>, ghost ids: set<nat>) returns (id: nat)
      requires Filling(name, done, ids)
      modifies this`rulesToRulesets, this`ruleFreelist, this`srcs, this`ipProtos, this`live, caps, dsts
      ensures Filling(name, done + [rule], ids + {id})
      ensures live - (ids + {id}) == old(live) - ids
    {
      id := ReserveId(name, rule, done, ids);
      LiveGrows(live, ids, id, rule);
      AddRule(id, rule);
    }

    /** Store a ruleset under a name, replacing the one that was there. */
    method Insert(name: RulesetName, ruleset: seq<Rule>)
      requires Valid()
      modifies this, caps, dsts
      ensures Valid() && Rules() == old(Rules())[name := ruleset]
      ensures live - IdsOf(rulesets, name) == old(live) - IdsOf(old(rulesets), name)
    {
      RulesReplaced(Rules(), name, ruleset);
      Remove(name);
      RulesStored(rulesets, name);
      InsertNew(name, ruleset);
    }

    method InsertNew(name: RulesetName, ruleset: seq<Rule>)
      requires Valid() && name !in rulesets
      modifies this, caps, dsts
      ensures Valid() && name in rulesets && rulesets == old(rulesets)[name := rulesets[name]]
      ensures rulesets[name].ruleset == ruleset && live - rulesets[name].ruleIds == old(live)
    {
      var ids := InsertAll(name, ruleset);
      rulesets := rulesets[name := RulesetEntry(ruleset, ids)];
      CompactIds();
    }

    method InsertAll(name: RulesetName, ruleset: seq<Rule>) returns (ids: set<nat>)
      requires Valid() && name !in rulesets
      modifies this`rulesToRulesets, this`ruleFreelist, this`srcs, this`ipProtos, this`live, caps, dsts
      ensures Filling(name, ruleset, ids) && live - ids == old(live)
    {
      ids := {};
      StartFilling(name);
      ghost var start := live;
      for j := 0 to |ruleset|
        invariant Filling(name, ruleset[..j], ids) && live - ids == start
      {
        assert ruleset[..j + 1] == ruleset[..j] + [ruleset[j]];
        var id := InsertRule(name, ruleset[j], ruleset[..j], ids);
        ids := ids + {id};
      }
      assert ruleset[..|ruleset|] == ruleset;
    }

    lemma StartFilling(name: RulesetName)
      requires Valid() && name !in rulesets
      ensures Filling(name, [], {}) && live - {} == live
    {
      RegisterNone(rulesets, rulesToRulesets, live, name);
    }

    method Clear()
      modifies this, caps, dsts
      ensures Valid() && Rules() == map[]
    {
      caps.Clear();
      dsts.Clear();
      srcs, ipProtos, rulesToRulesets, ruleFreelist, rulesets, live := map[], map[], [], {}, map[], map[];
    }

    /**
      The ids of the live rules that list the protocol, reach the destination
      through a single entry, and either share a capability or list the longest
      stored source prefix covering the source.
     */
    method Lookup(info: PacketInfo, senderCaps: seq<Cap>) returns (r: set<nat>)
      requires Valid()
      ensures forall id :: id in r <==> AcceptedId(live, id, info, senderCaps)
      ensures forall id :: id in r <==>
                && id in live && info.proto in live[id].protos
                && (exists d, p ::
                      && d in live[id].dst && p in d.ips && d.ports.lo <= info.port <= d.ports.hi
                      && p.v4 == info.dst.v4 && |p.bits| <= |info.dst.bits| && p.bits == info.dst.bits[..|p.bits|])
                && ((exists c :: c in senderCaps && c in live[id].src.caps) ||
                    (exists p ::
                       && p in live[id].src.pfxs
                       && p.v4 == info.src.v4 && |p.bits| <= |info.src.bits| && p.bits == info.src.bits[..|p.bits|]
                       && forall i, q |
                            && i in live && q in live[i].src.pfxs
                            && q.v4 == info.src.v4 && |q.bits| <= |info.src.bits| && q.bits == info.src.bits[..|q.bits|]
                          :: |q.bits| <= |p.bits|))
    {
      r := LookupIds(info, senderCaps);
      forall id { AcceptedSpelled(live, id, info, senderCaps); }
    }

    method LookupIds(info: PacketInfo, senderCaps: seq<Cap>) returns (r: set<nat>)
      requires Valid()
      ensures forall id :: id in r <==> AcceptedId(live, id, info, senderCaps)
    {
      r := caps.Lookup(senderCaps);
      var longest := LookupLongest(srcs, info.src);
      if longest.Some? {
        r := r + srcs[longest.value];
      }
      forall id
        ensures id in r <==> id in live && SourceOk(live, live[id], info.src, senderCaps)
      {
        SourceBits(caps.Accepts(), srcs, live, longest, info.src, senderCaps, id);
      }
      if r == {} { return; }
      r := r * (if info.proto in ipProtos then ipProtos[info.proto] else {});
      assert forall id :: Has(ipProtos, info.proto, id) <==> id in live && info.proto in live[id].protos;
      if r == {} { return; }
      var dstMatches := dsts.Lookup(info.dst, info.port);
      forall id
        ensures id in dstMatches <==> id in live && live[id].ReachesDst(info)
      {
        ReachedBy(dsts.Stored(), live, id, info);
      }
      r := r * dstMatches;
    }
  }

  /** `p` is the longest prefix any live rule lists that covers `a`. */
  ghost predicate LongestSrc(live: Live, p: Prefix, a: Addr) {
    Covers(p, a) && forall i, q :: i in live && q in live[i].src.pfxs && Covers(q, a) ==> |q.bits| <= |p.bits|
  }

  ghost predicate SourceOk(live: Live, rule: Rule, a: Addr, caps: seq<Cap>) {
    rule.SharesCap(caps) || exists p :: p in rule.src.pfxs && LongestSrc(live, p, a)
  }

  ghost predicate AcceptedId(live: Live, id: nat, info: PacketInfo, caps: seq<Cap>) {
    && id in live && info.proto in live[id].protos && live[id].ReachesDst(info)
    && SourceOk(live, live[id], info.src, caps)
  }

  /** An accepted rule, down to the port numbers and the address bits. */
  lemma AcceptedSpelled(live: Live, id: nat, info: PacketInfo, caps: seq<Cap>)
    ensures AcceptedId(live, id, info, caps) <==>
            && id in live && info.proto in live[id].protos
            && (exists d, p ::
                  && d in live[id].dst && p in d.ips && d.ports.lo <= info.port <= d.ports.hi
                  && p.v4 == info.dst.v4 && |p.bits| <= |info.dst.bits| && p.bits == info.dst.bits[..|p.bits|])
            && ((exists c :: c in caps && c in live[id].src.caps) ||
                (exists p ::
                   && p in live[id].src.pfxs
                   && p.v4 == info.src.v4 && |p.bits| <= |info.src.bits| && p.bits == info.src.bits[..|p.bits|]
                   && forall i, q |
                        && i in live && q in live[i].src.pfxs
                        && q.v4 == info.src.v4 && |q.bits| <= |info.src.bits| && q.bits == info.src.bits[..|q.bits|]
                      :: |q.bits| <= |p.bits|))
  {
    if id in live {
      DstSpelled(live[id], info);
      SrcSpelled(live, live[id], info.src);
    }
  }

  lemma DstSpelled(rule: Rule, info: PacketInfo)
    ensures rule.ReachesDst(info) <==>
            exists d, p ::
              && d in rule.dst && p in d.ips && d.ports.lo <= info.port <= d.ports.hi
              && p.v4 == info.dst.v4 && |p.bits| <= |info.dst.bits| && p.bits == info.dst.bits[..|p.bits|]
  {
    if d, p :| d in rule.dst && p in d.ips && d.ports.lo <= info.port <= d.ports.hi &&
               p.v4 == info.dst.v4 && |p.bits| <= |info.dst.bits| && p.bits == info.dst.bits[..|p.bits|] {
      assert Covers(p, info.dst) && d.Matches(info.dst, info.port);
    }
  }

  lemma SrcSpelled(live: Live, rule: Rule, a: Addr)
    ensures (exists p :: p in rule.src.pfxs && LongestSrc(live, p, a)) <==>
            exists p ::
              && p in rule.src.pfxs && p.v4 == a.v4 && |p.bits| <= |a.bits| && p.bits == a.bits[..|p.bits|]
              && forall i, q |
                   && i in live && q in live[i].src.pfxs
                   && q.v4 == a.v4 && |q.bits| <= |a.bits| && q.bits == a.bits[..|q.bits|]
                 :: |q.bits| <= |p.bits|
  {
    forall p: Prefix
      ensures Covers(p, a) <==> p.v4 == a.v4 && |p.bits| <= |a.bits| && p.bits == a.bits[..|p.bits|]
    {
    }
  }

  ghost predicate IsLongest<V>(m: map<Prefix, V>, p: Prefix, a: Addr) {
    p in m && Covers(p, a) && forall q :: q in m && Covers(q, a) ==> |q.bits| <= |p.bits|
  }

  /** Longest-prefix match, as the routing table answers it. */
  method LookupLongest<V>(m: map<Prefix, V>, a: Addr) returns (r: Option<Prefix>)
    ensures r.Some? ==> IsLongest(m, r.value, a)
    ensures r.None? ==> forall q :: q in m ==> !Covers(q, a)
  {
    r := None;
    var todo := m.Keys;
    while todo != {}
      invariant todo <= m.Keys
      invariant r.Some? ==> r.value in m && Covers(r.value, a)
      invariant forall q :: q in m && q !in todo && Covers(q, a) ==> r.Some? && |q.bits| <= |r.value.bits|
    {
      var p :| p in todo;
      todo := todo - {p};
      if Covers(p, a) && (r.None? || |r.value.bits| < |p.bits|) {
        r := Some(p);
      }
    }
  }

  /** Prefixes of the same length covering one address are the same prefix. */
  lemma SameLength(p: Prefix, q: Prefix, a: Addr)
    requires Covers(p, a) && Covers(q, a) && |p.bits| == |q.bits|
    ensures p == q
  {
  }

  lemma SourceBits(accepts: BitTable<Cap>, srcs: BitTable<Prefix>, live: Live, longest: Option<Prefix>,
                   a: Addr, caps: seq<Cap>, id: nat)
    requires CapsOk(accepts, live) && SrcsOk(srcs, live)
    requires longest.Some? ==> IsLongest(srcs, longest.value, a)
    requires longest.None? ==> forall q :: q in srcs ==> !Covers(q, a)
    ensures AcceptedBy(accepts, caps, id) || (longest.Some? && id in srcs[longest.value]) <==>
            id in live && SourceOk(live, live[id], a, caps)
  {
    if longest.Some? {
      LongestIs(srcs, live, longest.value, a);
      assert Has(srcs, longest.value, id) <==> id in live && longest.value in live[id].src.pfxs;
    }
    assert AcceptedBy(accepts, caps, id) <==> id in live && live[id].SharesCap(caps) by {
      assert forall c :: Has(accepts, c, id) <==> id in live && c in live[id].src.caps;
    }
    if id in live {
      forall p | p in live[id].src.pfxs && LongestSrc(live, p, a)
        ensures longest == Some(p)
      {
        assert Has(srcs, p, id);
        SameLength(longest.value, p, a);
      }
      assert forall p :: Has(srcs, p, id) <==> p in live[id].src.pfxs;
    }
  }

  lemma LongestIs(srcs: BitTable<Prefix>, live: Live, p: Prefix, a: Addr)
    requires SrcsOk(srcs, live) && IsLongest(srcs, p, a)
    ensures LongestSrc(live, p, a)
    ensures exists i :: Has(srcs, p, i)
  {
    forall i, q | i in live && q in live[i].src.pfxs && Covers(q, a)
      ensures |q.bits| <= |p.bits|
    {
      assert Has(srcs, q, i);
    }
    assert srcs[p] != {};
    var i :| i in srcs[p];
    assert Has(srcs, p, i);
  }

  lemma ReachedBy(pairs: set<(nat, DstMatch)>, live: Live, id: nat, info: PacketInfo)
    requires DstsOk(pairs, live)
    ensures id in live && live[id].ReachesDst(info) <==>
            exists d :: (id, d) in pairs && d.Matches(info.dst, info.port)
  {
  }

  method AddCaps(t: CapLookup, caps: seq<Cap>, id: nat)
    requires t.Valid()
    modifies t
    ensures t.Valid()
    ensures forall c, i :: Has(t.Accepts(), c, i) <==> Has(old(t.Accepts()), c, i) || (c in caps && i == id)
  {
    for n := 0 to |caps|
      invariant t.Valid()
      invariant forall c, i :: Has(t.Accepts(), c, i) <==> Has(old(t.Accepts()), c, i) || (c in caps[..n] && i == id)
    {
      SetBitHas(t.Accepts(), caps[n], id);
      var _ := t.Insert(caps[n], id);
    }
  }

  method DropCaps(t: CapLookup, caps: seq<Cap>, id: nat)
    requires t.Valid()
    modifies t
    ensures t.Valid()
    ensures forall c, i :: Has(t.Accepts(), c, i) <==> Has(old(t.Accepts()), c, i) && !(c in caps && i == id)
  {
    for n := 0 to |caps|
      invariant t.Valid()
      invariant forall c, i :: Has(t.Accepts(), c, i) <==> Has(old(t.Accepts()), c, i) && !(c in caps[..n] && i == id)
    {
      ClearBitHas(t.Accepts(), caps[n], id);
      t.Remove(id, caps[n]);
    }
  }

  method AddDsts(t: DstMatchLookup, ds: seq<DstMatch>, id: nat)
    requires t.Valid()
    modifies t
    ensures t.Valid() && t.Stored() == old(t.Stored()) + Pairing(id, ds)
  {
    for n := 0 to |ds|
      invariant t.Valid() && t.Stored() == old(t.Stored()) + Pairing(id, ds[..n])
    {
      PairingSnoc(id, ds, n);
      t.Insert(id, ds[n]);
    }
    assert ds[..|ds|] == ds;
  }

  method DropDsts(t: DstMatchLookup, ds: seq<DstMatch>, id: nat)
    requires t.Valid()
    modifies t
    ensures t.Valid() && t.Stored() == old(t.Stored()) - Pairing(id, ds)
  {
    for n := 0 to |ds|
      invariant t.Valid() && t.Stored() == old(t.Stored()) - Pairing(id, ds[..n])
    {
      PairingSnoc(id, ds, n);
      t.Remove(id, ds[n]);
    }
    assert ds[..|ds|] == ds;
  }

  function Pairing(id: nat, ds: seq<DstMatch>): set<(nat, DstMatch)> {
    set d | d in ds :: (id, d)
  }

  lemma PairingSnoc(id: nat, ds: seq<DstMatch>, n: nat)
    requires n < |ds|
    ensures Pairing(id, ds[..n + 1]) == Pairing(id, ds[..n]) + {(id, ds[n])}
  {
    assert ds[..n + 1] == ds[..n] + [ds[n]];
  }

  lemma ProtosAdded(m: BitTable<Proto>, m': BitTable<Proto>, live: Live, id: nat, rule: Rule)
    requires ProtosOk(m, live) && id !in live && NoEmpty(m')
    requires forall k, i :: Has(m', k, i) <==> Has(m, k, i) || (k in rule.protos && i == id)
    ensures ProtosOk(m', live[id := rule])
  {
  }

  lemma SrcsAdded(m: BitTable<Prefix>, m': BitTable<Prefix>, live: Live, id: nat, rule: Rule)
    requires SrcsOk(m, live) && id !in live && NoEmpty(m')
    requires forall k, i :: Has(m', k, i) <==> Has(m, k, i) || (k in rule.src.pfxs && i == id)
    ensures SrcsOk(m', live[id := rule])
  {
  }

  lemma CapsAdded(m: BitTable<Cap>, m': BitTable<Cap>, live: Live, id: nat, rule: Rule)
    requires CapsOk(m, live) && id !in live && NoEmpty(m')
    requires forall k, i :: Has(m', k, i) <==> Has(m, k, i) || (k in rule.src.caps && i == id)
    ensures CapsOk(m', live[id := rule])
  {
  }

  lemma DstsAdded(pairs: set<(nat, DstMatch)>, live: Live, id: nat, rule: Rule)
    requires DstsOk(pairs, live) && id !in live
    ensures DstsOk(pairs + Pairing(id, rule.dst), live[id := rule])
  {
  }

  lemma ProtosDropped(m: BitTable<Proto>, m': BitTable<Proto>, live: Live, id: nat)
    requires ProtosOk(m, live) && id in live && NoEmpty(m')
    requires forall k, i :: Has(m', k, i) <==> Has(m, k, i) && !(k in live[id].protos && i == id)
    ensures ProtosOk(m', live - {id})
  {
  }

  lemma SrcsDropped(m: BitTable<Prefix>, m': BitTable<Prefix>, live: Live, id: nat)
    requires SrcsOk(m, live) && id in live && NoEmpty(m')
    requires forall k, i :: Has(m', k, i) <==> Has(m, k, i) && !(k in live[id].src.pfxs && i == id)
    ensures SrcsOk(m', live - {id})
  {
  }

  lemma CapsDropped(m: BitTable<Cap>, m': BitTable<Cap>, live: Live, id: nat)
    requires CapsOk(m, live) && id in live && NoEmpty(m')
    requires forall k, i :: Has(m', k, i) <==> Has(m, k, i) && !(k in live[id].src.caps && i == id)
    ensures CapsOk(m', live - {id})
  {
  }

  lemma DstsDropped(pairs: set<(nat, DstMatch)>, live: Live, id: nat)
    requires DstsOk(pairs, live) && id in live
    ensures DstsOk(pairs - Pairing(id, live[id].dst), live - {id})
  {
  }
}
