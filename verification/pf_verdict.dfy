/** What the accelerated filter decides, in terms of the rulesets alone, against the plain scan. */
module FilterVerdicts {
  import opened Common
  import opened FilterRules
  import opened IdSets
  import opened BartFilters

  type RuleMap = map<RulesetName, seq<Rule>>

  ghost predicate Stores(rules: RuleMap, rule: Rule) {
    exists n :: n in rules && rule in rules[n]
  }

  /** `p` is the longest source prefix stored anywhere that covers `a`. */
  ghost predicate LongestStored(rules: RuleMap, p: Prefix, a: Addr) {
    Covers(p, a) && forall rule, q :: Stores(rules, rule) && q in rule.src.pfxs && Covers(q, a) ==> |q.bits| <= |p.bits|
  }

  /** The accelerated filter's test of one rule. */
  ghost predicate Verdict(rules: RuleMap, rule: Rule, info: PacketInfo, caps: seq<Cap>) {
    && info.proto in rule.protos && rule.ReachesDst(info)
    && (rule.SharesCap(caps) || exists p :: p in rule.src.pfxs && LongestStored(rules, p, info.src))
  }

  /** The accelerated filter never accepts through a rule the scan rejects. */
  lemma VerdictSound(rules: RuleMap, rule: Rule, info: PacketInfo, caps: seq<Cap>)
    requires Verdict(rules, rule, info, caps)
    ensures rule.Matches(info, caps)
  {
  }

  /** No stored source prefix strictly extends another. */
  ghost predicate FlatSources(rules: RuleMap) {
    forall r, s, p, q :: Stores(rules, r) && Stores(rules, s) && p in r.src.pfxs && q in s.src.pfxs ==>
      (p.v4 == q.v4 && p.bits <= q.bits ==> p == q)
  }

  /** The rule shares no capability, and a longer stored source prefix covers the source past each of its own. */
  ghost predicate Beaten(rules: RuleMap, rule: Rule, info: PacketInfo, caps: seq<Cap>) {
    && !rule.SharesCap(caps)
    && forall p :: p in rule.src.pfxs && Covers(p, info.src) ==>
         exists s, q :: Stores(rules, s) && q in s.src.pfxs && Covers(q, info.src) && |q.bits| > |p.bits|
  }

  /** A stored rule the scan accepts is missed exactly when it is beaten. */
  lemma MissedExactly(rules: RuleMap, rule: Rule, info: PacketInfo, caps: seq<Cap>)
    requires Stores(rules, rule) && rule.Matches(info, caps)
    ensures !Verdict(rules, rule, info, caps) <==> Beaten(rules, rule, info, caps)
  {
  }

  /** When stored source prefixes do not nest, the filter and the scan agree on every rule and packet. */
  lemma FlatAgrees(rules: RuleMap, rule: Rule, info: PacketInfo, caps: seq<Cap>)
    requires FlatSources(rules) && Stores(rules, rule)
    ensures Verdict(rules, rule, info, caps) <==> rule.Matches(info, caps)
  {
  }

  /** A linear scan of the stored rules accepts the packet. */
  ghost predicate ScanAccepts(rules: RuleMap, info: PacketInfo, caps: seq<Cap>) {
    exists rule :: Stores(rules, rule) && rule.Matches(info, caps)
  }

  /** Some stored rule gets the verdict to accept the packet. */
  ghost predicate FilterAccepts(rules: RuleMap, info: PacketInfo, caps: seq<Cap>) {
    exists rule :: Stores(rules, rule) && Verdict(rules, rule, info, caps)
  }

  /** Every stored rule the scan accepts is beaten. */
  ghost predicate AllBeaten(rules: RuleMap, info: PacketInfo, caps: seq<Cap>) {
    forall rule :: Stores(rules, rule) && rule.Matches(info, caps) ==> Beaten(rules, rule, info, caps)
  }

  /**
    Filter and scan on one packet: the filter accepts exactly when the scan does by
    a rule that is not beaten, so never more than the scan, and as much as the scan
    when stored source prefixes do not nest.
   */
  lemma PacketVerdict(rules: RuleMap, info: PacketInfo, caps: seq<Cap>)
    ensures FilterAccepts(rules, info, caps) <==> ScanAccepts(rules, info, caps) && !AllBeaten(rules, info, caps)
    ensures FlatSources(rules) ==> (FilterAccepts(rules, info, caps) <==> ScanAccepts(rules, info, caps))
  {
    forall rule | Stores(rules, rule)
      ensures Verdict(rules, rule, info, caps) <==> rule.Matches(info, caps) && !Beaten(rules, rule, info, caps)
      ensures FlatSources(rules) ==> (Verdict(rules, rule, info, caps) <==> rule.Matches(info, caps))
    {
      if rule.Matches(info, caps) { MissedExactly(rules, rule, info, caps); }
      if FlatSources(rules) { FlatAgrees(rules, rule, info, caps); }
    }
  }

  /** The live rules are the stored rules. */
  lemma LiveIsStored(rulesets: Rulesets, owners: seq<Option<RulesetName>>, live: Live)
    requires Registered(rulesets, owners, live)
    ensures forall i :: i in live ==>
                          var rules := RulesOf(rulesets);
                          owners[i].value in rules && live[i] in rules[owners[i].value] && Stores(rules, live[i])
    ensures forall rule :: Stores(RulesOf(rulesets), rule) ==> exists i :: i in live && live[i] == rule
  {
    forall i | i in live
      ensures owners[i].value in RulesOf(rulesets) && live[i] in RulesOf(rulesets)[owners[i].value]
    {
      var e := rulesets[owners[i].value];
      AscendingSpec(e.ruleIds);
      assert i in Ascending(e.ruleIds);
      var j :| 0 <= j < |Ascending(e.ruleIds)| && Ascending(e.ruleIds)[j] == i;
      assert e.ruleset[j] == live[i];
      assert RulesOf(rulesets)[owners[i].value] == e.ruleset;
    }
    forall rule | Stores(RulesOf(rulesets), rule)
      ensures exists i :: i in live && live[i] == rule
    {
      var n :| n in rulesets && rule in rulesets[n].ruleset;
      var bits := Ascending(rulesets[n].ruleIds);
      var j :| 0 <= j < |rulesets[n].ruleset| && rulesets[n].ruleset[j] == rule;
      assert live[bits[j]] == rule;
    }
  }

  lemma VerdictOfId(rulesets: Rulesets, owners: seq<Option<RulesetName>>, live: Live, id: nat,
                    info: PacketInfo, caps: seq<Cap>)
    requires Registered(rulesets, owners, live) && id in live
    ensures AcceptedId(live, id, info, caps) <==> Verdict(RulesOf(rulesets), live[id], info, caps)
  {
    LiveIsStored(rulesets, owners, live);
    var rules := RulesOf(rulesets);
    forall p
      ensures LongestSrc(live, p, info.src) <==> LongestStored(rules, p, info.src)
    {
      if LongestSrc(live, p, info.src) {
        forall rule, q | Stores(rules, rule) && q in rule.src.pfxs && Covers(q, info.src)
          ensures |q.bits| <= |p.bits|
        {
          var i :| i in live && live[i] == rule;
        }
      }
    }
  }

  /** No live rule is accepted exactly when no stored rule is. */
  lemma NoneAccepted(f: BartFilter, info: PacketInfo, caps: seq<Cap>)
    requires f.Valid()
    ensures (forall id :: !AcceptedId(f.live, id, info, caps)) <==> !FilterAccepts(f.Rules(), info, caps)
  {
    LiveIsStored(f.rulesets, f.rulesToRulesets, f.live);
    forall id | id in f.live
      ensures AcceptedId(f.live, id, info, caps) <==> Verdict(f.Rules(), f.live[id], info, caps)
    {
      VerdictOfId(f.rulesets, f.rulesToRulesets, f.live, id, info, caps);
    }
    if rule :| Stores(f.Rules(), rule) && Verdict(f.Rules(), rule, info, caps) {
      var id :| id in f.live && f.live[id] == rule;
      assert AcceptedId(f.live, id, info, caps);
    }
    if id :| AcceptedId(f.live, id, info, caps) {
      assert Stores(f.Rules(), f.live[id]);
    }
  }

  /**
    Whether the filter accepts the packet: exactly when the scan does by a rule that
    is not beaten; what the scan does when stored source prefixes do not nest.
   */
  method Matches(f: BartFilter, info: PacketInfo, caps: seq<Cap>) returns (b: bool)
    requires f.Valid()
    ensures b <==> FilterAccepts(f.Rules(), info, caps)
    ensures b <==> ScanAccepts(f.Rules(), info, caps) && !AllBeaten(f.Rules(), info, caps)
    ensures FlatSources(f.Rules()) ==> (b <==> ScanAccepts(f.Rules(), info, caps))
  {
    var r := f.Lookup(info, caps);
    b := r != {};
    NoneAccepted(f, info, caps);
    PacketVerdict(f.Rules(), info, caps);
  }

  /** The name of the ruleset of the first accepting rule, if the filter accepts the packet. */
  method MatchFor(f: BartFilter, info: PacketInfo, caps: seq<Cap>) returns (name: Option<RulesetName>)
    requires f.Valid()
    ensures name.Some? ==> name.value in f.Rules() &&
                           exists rule :: rule in f.Rules()[name.value] && Verdict(f.Rules(), rule, info, caps)
                                          && rule.Matches(info, caps)
    ensures name.Some? ==> exists id: nat :: id < |f.rulesToRulesets| && f.rulesToRulesets[id] == name
                                             && AcceptedId(f.live, id, info, caps)
                                             && forall j :: AcceptedId(f.live, j, info, caps) ==> id <= j
    ensures name.Some? <==> FilterAccepts(f.Rules(), info, caps)
    ensures FlatSources(f.Rules()) ==> (name.Some? <==> ScanAccepts(f.Rules(), info, caps))
  {
    var first := FirstMatch(f, info, caps);
    NoneAccepted(f, info, caps);
    PacketVerdict(f.Rules(), info, caps);
    if first.None? { return None; }
    OwnerAccepts(f, first.value, info, caps);
    name := f.rulesToRulesets[first.value];
  }

  /** The least accepted id. */
  method FirstMatch(f: BartFilter, info: PacketInfo, caps: seq<Cap>) returns (id: Option<nat>)
    requires f.Valid()
    ensures id.None? ==> forall j :: !AcceptedId(f.live, j, info, caps)
    ensures id.Some? ==> AcceptedId(f.live, id.value, info, caps)
                         && forall j :: AcceptedId(f.live, j, info, caps) ==> id.value <= j
  {
    var r := f.Lookup(info, caps);
    id := if r == {} then None else Some(Least(r));
  }

  /** An accepted id belongs to a stored ruleset with an accepting rule. */
  lemma OwnerAccepts(f: BartFilter, id: nat, info: PacketInfo, caps: seq<Cap>)
    requires f.Valid() && AcceptedId(f.live, id, info, caps)
    ensures id < |f.rulesToRulesets| && f.rulesToRulesets[id].Some?
    ensures var n := f.rulesToRulesets[id].value;
            && n in f.Rules() && f.live[id] in f.Rules()[n]
            && Verdict(f.Rules(), f.live[id], info, caps) && f.live[id].Matches(info, caps)
  {
    LiveIsStored(f.rulesets, f.rulesToRulesets, f.live);
    VerdictOfId(f.rulesets, f.rulesToRulesets, f.live, id, info, caps);
    VerdictSound(f.Rules(), f.live[id], info, caps);
  }

  datatype FilterOp = InsertOp(name: RulesetName, rules: seq<Rule>) | RemoveOp(name: RulesetName) | ClearOp

  /** The rulesets after a series of operations, as a plain map of rulesets has them. */
  function After(rules: RuleMap, ops: seq<FilterOp>): RuleMap
    decreases ops
  {
    if ops == [] then rules
    else
      var before := After(rules, ops[..|ops| - 1]);
      match ops[|ops| - 1]
      case InsertOp(n, rs) => before[n := rs]
      case RemoveOp(n) => before - {n}
      case ClearOp => map[]
  }

  /** Over every run, the filter stays consistent and holds the rulesets the plain map holds. */
  method RunOps(f: BartFilter, ops: seq<FilterOp>)
    requires f.Valid()
    modifies f, f.caps, f.dsts
    ensures f.Valid() && f.Rules() == After(old(f.Rules()), ops)
  {
    ghost var start := f.Rules();
    for i := 0 to |ops|
      invariant f.Valid() && f.Rules() == After(start, ops[..i])
    {
      assert ops[..i + 1][..i] == ops[..i];
      match ops[i]
      case InsertOp(n, rs) => f.Insert(n, rs);
      case RemoveOp(n) => f.Remove(n);
      case ClearOp => f.Clear();
    }
    assert ops[..|ops|] == ops;
  }

  lemma PutDrop(rules: RuleMap, name: RulesetName, ruleset: seq<Rule>)
    requires name !in rules
    ensures rules[name := ruleset] - {name} == rules
  {
  }

  method InsertRemove(f: BartFilter, name: RulesetName, rules: seq<Rule>)
    requires f.Valid() && name !in f.rulesets
    modifies f, f.caps, f.dsts
    ensures f.Valid() && f.Rules() == old(f.Rules()) && f.live == old(f.live)
  {
    PutDrop(f.Rules(), name, rules);
    assert f.live - IdsOf(f.rulesets, name) == f.live;
    f.Insert(name, rules);
    f.Remove(name);
  }

  /** Removing a ruleset takes out of the four indexes exactly what inserting it put in. */
  method InsertThenRemove(f: BartFilter, name: RulesetName, rules: seq<Rule>)
    requires f.Valid() && name !in f.rulesets
    modifies f, f.caps, f.dsts
    ensures f.Valid() && f.Rules() == old(f.Rules())
    ensures f.ipProtos == old(f.ipProtos) && f.srcs == old(f.srcs)
    ensures f.caps.Accepts() == old(f.caps.Accepts()) && f.dsts.Stored() == old(f.dsts.Stored())
  {
    ghost var live, protos, srcs := f.live, f.ipProtos, f.srcs;
    ghost var accepts, stored := f.caps.Accepts(), f.dsts.Stored();
    f.IndexesFrom();
    InsertRemove(f, name, rules);
    f.IndexesFrom();
    SameLive(live, f.ipProtos, protos, f.srcs, srcs, f.caps.Accepts(), accepts, f.dsts.Stored(), stored);
  }

  /** The live rules determine the contents of every index. */
  lemma SameLive(live: Live, protos: BitTable<Proto>, protos': BitTable<Proto>, srcs: BitTable<Prefix>,
                 srcs': BitTable<Prefix>, caps: BitTable<Cap>, caps': BitTable<Cap>,
                 dsts: set<(nat, DstMatch)>, dsts': set<(nat, DstMatch)>)
    requires ProtosOk(protos, live) && ProtosOk(protos', live) && SrcsOk(srcs, live) && SrcsOk(srcs', live)
    requires CapsOk(caps, live) && CapsOk(caps', live) && DstsOk(dsts, live) && DstsOk(dsts', live)
    ensures protos == protos' && srcs == srcs' && caps == caps' && dsts == dsts'
  {
    SameBits(protos, protos');
    SameBits(srcs, srcs');
    SameBits(caps, caps');
    forall x | x in dsts ensures x in dsts' {
      assert (x.0, x.1) in dsts;
    }
    forall x | x in dsts' ensures x in dsts {
      assert (x.0, x.1) in dsts';
    }
  }

  /**
    Nested source prefixes: a rule open to every source is missed for a source
    that a second rule's longer prefix covers, although the scan accepts it.
   */
  method NestedSourceMissed(n1: RulesetName, n2: RulesetName, proto: Proto, src: Addr, dst: Addr, port: nat)
    returns (rule: Rule, info: PacketInfo, accepted: bool)
    requires n1 != n2 && src.bits != []
    ensures rule.Matches(info, []) && !accepted
  {
    info := PacketInfo(src, dst, proto, port);
    var all := DstMatch(PortRange(port, port), [Prefix(dst.v4, [])]);
    rule := Rule(SrcMatch([Prefix(src.v4, [])], []), [proto], [all]);
    var inner := Rule(SrcMatch([Prefix(src.v4, src.bits[..1])], []), [], []);
    var f := new BartFilter();
    f.Insert(n1, [rule]);
    f.Insert(n2, [inner]);
    assert f.Rules() == map[n1 := [rule], n2 := [inner]];
    accepted := Matches(f, info, []);
    NestedVerdicts(f.Rules(), n1, n2, rule, inner, info);
  }

  lemma NestedVerdicts(rules: RuleMap, n1: RulesetName, n2: RulesetName, rule: Rule, inner: Rule, info: PacketInfo)
    requires n1 != n2 && info.src.bits != [] && rules == map[n1 := [rule], n2 := [inner]]
    requires rule == Rule(SrcMatch([Prefix(info.src.v4, [])], []), [info.proto],
                          [DstMatch(PortRange(info.port, info.port), [Prefix(info.dst.v4, [])])])
    requires inner == Rule(SrcMatch([Prefix(info.src.v4, info.src.bits[..1])], []), [], [])
    ensures rule.Matches(info, [])
    ensures forall r :: Stores(rules, r) ==> !Verdict(rules, r, info, [])
  {
    assert Covers(rule.src.pfxs[0], info.src) && Covers(rule.dst[0].ips[0], info.dst);
    assert rule.dst[0] in rule.dst && rule.dst[0].Matches(info.dst, info.port);
    var q := inner.src.pfxs[0];
    assert inner in rules[n2] && Stores(rules, inner) && q in inner.src.pfxs && Covers(q, info.src);
    assert !LongestStored(rules, rule.src.pfxs[0], info.src);
    forall r | Stores(rules, r)
      ensures r == rule || r == inner
    {
      var n :| n in rules && r in rules[n];
    }
  }
}
