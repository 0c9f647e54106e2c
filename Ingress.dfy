/**
  `generateIngressRules` (internal/synth/policy.go): one ingress rule per
  source label set, holding the destination ports the flows from that
  source reached, bucketed into one port rule per protocol.
 */
module Ingress {
  import opened Strings
  import opened Sorting
  import opened Labels
  import opened Hubble
  import opened PolicyTypes
  import opened GoMaps

  /** A flow contributes to a rule only with source labels and a port. */
  predicate Usable(f: ParsedFlow)
  {
    |f.sourceLabels| > 0 && f.destPort != 0
  }

  /** An empty protocol counts as TCP. */
  function EffectiveProtocol(protocol: string): string
  {
    if protocol == "" then "TCP" else protocol
  }

  /** The port entry a flow asks for: `fmt.Sprintf("%d", port)` and its protocol. */
  function Entry(f: ParsedFlow): PortProtocol
  {
    PortProtocol(NatToString(f.destPort), EffectiveProtocol(f.protocol))
  }

  // ---------------------------------------------------------------------
  // Port rules of one ingress rule
  // ---------------------------------------------------------------------

  /** Some port rule already lists `pp`. */
  predicate HasPort(rules: seq<PortRule>, pp: PortProtocol)
  {
    exists j, l | 0 <= j < |rules| && 0 <= l < |rules[j].ports| :: rules[j].ports[l] == pp
  }

  /** The port rule's first port uses `protocol`. */
  predicate HeadProtocol(pr: PortRule, protocol: string)
  {
    |pr.ports| > 0 && pr.ports[0].protocol == protocol
  }

  /** Index of the first port rule whose first port uses `protocol`, or -1. */
  function FindProtocol(rules: seq<PortRule>, protocol: string): (i: int)
    ensures -1 <= i < |rules|
    ensures 0 <= i ==> HeadProtocol(rules[i], protocol)
    ensures forall j | 0 <= j < |rules| && (i < 0 || j < i) :: !HeadProtocol(rules[j], protocol)
  {
    if |rules| == 0 then -1
    else if HeadProtocol(rules[0], protocol) then 0
    else
      var j := FindProtocol(rules[1..], protocol);
      if j < 0 then -1 else j + 1
  }

  /** Adds `pp` unless it is listed: to the port rule of its protocol if
      there is one, else as a new port rule of its own. */
  function AddPort(rules: seq<PortRule>, pp: PortProtocol): seq<PortRule>
  {
    if HasPort(rules, pp) then rules
    else
      var i := FindProtocol(rules, pp.protocol);
      if i >= 0 then rules[i := PortRule(rules[i].ports + [pp])]
      else rules + [PortRule([pp])]
  }

  /**
    The shape `generateIngressRules` keeps: no port rule is empty, each
    holds a single protocol, two port rules never share a protocol, and no
    `(port, protocol)` pair is listed twice.
   */
  ghost predicate WellFormedPorts(rules: seq<PortRule>)
  {
    (forall j | 0 <= j < |rules| :: |rules[j].ports| > 0)
    && (forall j, l | 0 <= j < |rules| && 0 <= l < |rules[j].ports| ::
          rules[j].ports[l].protocol == rules[j].ports[0].protocol)
    && (forall j, j' | 0 <= j < j' < |rules| && |rules[j].ports| > 0 && |rules[j'].ports| > 0 ::
          rules[j].ports[0].protocol != rules[j'].ports[0].protocol)
    && (forall j | 0 <= j < |rules| :: NoDup(rules[j].ports))
  }

  /** Adding a port keeps the shape and adds exactly that port. */
  lemma AddPortKeepsShape(rules: seq<PortRule>, pp: PortProtocol)
    requires WellFormedPorts(rules)
    ensures WellFormedPorts(AddPort(rules, pp))
    ensures forall q :: HasPort(AddPort(rules, pp), q) <==> HasPort(rules, q) || q == pp
  {
    if !HasPort(rules, pp) {
      var i := FindProtocol(rules, pp.protocol);
      if i >= 0 {
        AppendToRule(rules, i, pp);
      } else {
        AppendRule(rules, pp);
      }
    }
  }

  lemma AppendToRule(rules: seq<PortRule>, i: nat, pp: PortProtocol)
    requires WellFormedPorts(rules)
    requires i < |rules| && HeadProtocol(rules[i], pp.protocol) && !HasPort(rules, pp)
    ensures WellFormedPorts(rules[i := PortRule(rules[i].ports + [pp])])
    ensures forall q :: HasPort(rules[i := PortRule(rules[i].ports + [pp])], q) <==> HasPort(rules, q) || q == pp
  {
    AppendToRuleShape(rules, i, pp);
    AppendToRulePorts(rules, i, pp);
  }

  lemma AppendToRuleShape(rules: seq<PortRule>, i: nat, pp: PortProtocol)
    requires WellFormedPorts(rules)
    requires i < |rules| && HeadProtocol(rules[i], pp.protocol) && !HasPort(rules, pp)
    ensures WellFormedPorts(rules[i := PortRule(rules[i].ports + [pp])])
  {
    assert forall l | 0 <= l < |rules[i].ports| :: rules[i].ports[l] != pp;
  }

  lemma AppendToRulePorts(rules: seq<PortRule>, i: nat, pp: PortProtocol)
    requires i < |rules|
    ensures forall q :: HasPort(rules[i := PortRule(rules[i].ports + [pp])], q) <==> HasPort(rules, q) || q == pp
  {
    var r := rules[i := PortRule(rules[i].ports + [pp])];
    assert r[i].ports[|r[i].ports| - 1] == pp;
    forall q | HasPort(r, q) ensures HasPort(rules, q) || q == pp {
      var j, l :| 0 <= j < |r| && 0 <= l < |r[j].ports| && r[j].ports[l] == q;
      if j != i || l < |rules[i].ports| {
        assert rules[j].ports[l] == q;
      }
    }
    forall q | HasPort(rules, q) ensures HasPort(r, q) {
      var j, l :| 0 <= j < |rules| && 0 <= l < |rules[j].ports| && rules[j].ports[l] == q;
      assert r[j].ports[l] == q;
    }
  }

  lemma AppendRule(rules: seq<PortRule>, pp: PortProtocol)
    requires WellFormedPorts(rules)
    requires forall j | 0 <= j < |rules| :: !HeadProtocol(rules[j], pp.protocol)
    ensures WellFormedPorts(rules + [PortRule([pp])])
    ensures forall q :: HasPort(rules + [PortRule([pp])], q) <==> HasPort(rules, q) || q == pp
  {
    var r := rules + [PortRule([pp])];
    assert r[|rules|].ports[0] == pp;
    forall q | HasPort(r, q) ensures HasPort(rules, q) || q == pp {
      var j, l :| 0 <= j < |r| && 0 <= l < |r[j].ports| && r[j].ports[l] == q;
      if j < |rules| {
        assert rules[j].ports[l] == q;
      }
    }
    forall q | HasPort(rules, q) ensures HasPort(r, q) {
      var j, l :| 0 <= j < |rules| && 0 <= l < |rules[j].ports| && rules[j].ports[l] == q;
      assert r[j].ports[l] == q;
    }
  }

  /** Go's nested search loops over the port rules, with their `portExists` flag. */
  method PortExists(rules: seq<PortRule>, pp: PortProtocol) returns (found: bool)
    ensures found == HasPort(rules, pp)
  {
    found := false;
    var j := 0;
    while j < |rules|
      invariant 0 <= j <= |rules|
      invariant !found
      invariant forall j', l | 0 <= j' < j && 0 <= l < |rules[j'].ports| :: rules[j'].ports[l] != pp
    {
      var ports := rules[j].ports;
      var l := 0;
      while l < |ports|
        invariant 0 <= l <= |ports|
        invariant !found
        invariant forall l' | 0 <= l' < l :: ports[l'] != pp
      {
        if ports[l].port == pp.port && ports[l].protocol == pp.protocol {
          found := true;
          break;
        }
        l := l + 1;
      }
      if found {
        break;
      }
      j := j + 1;
    }
  }

  /** Go's loop looking for the port rule of a protocol. */
  method FindPortRule(rules: seq<PortRule>, protocol: string) returns (index: int)
    ensures index == FindProtocol(rules, protocol)
  {
    index := -1;
    for i := 0 to |rules|
      invariant forall j | 0 <= j < i :: !HeadProtocol(rules[j], protocol)
    {
      if |rules[i].ports| > 0 && rules[i].ports[0].protocol == protocol {
        index := i;
        break;
      }
    }
  }

  // ---------------------------------------------------------------------
  // The rule map
  // ---------------------------------------------------------------------

  /** The effect of one flow on the rule map, for a key function `keyOf` on
      source labels (the source uses `%v`, that is `FormatMap`). */
  function RuleStep(m: map<string, IngressRule>, f: ParsedFlow, keyOf: Labels -> string): map<string, IngressRule>
  {
    if |f.sourceLabels| == 0 || f.destPort == 0 then m
    else
      var k := keyOf(f.sourceLabels);
      var rule := if k in m then m[k] else IngressRule([EndpointSelector(f.sourceLabels)], []);
      m[k := rule.(toPorts := AddPort(rule.toPorts, Entry(f)))]
  }

  function RuleMapBy(flows: seq<ParsedFlow>, keyOf: Labels -> string): map<string, IngressRule>
  {
    if |flows| == 0 then map[]
    else RuleStep(RuleMapBy(flows[..|flows| - 1], keyOf), flows[|flows| - 1], keyOf)
  }

  /** A rule of the map under key `k`: one source selector with non-empty
      labels whose key is `k`, and well-formed, non-empty port rules. */
  ghost predicate GoodRule(rule: IngressRule, k: string, keyOf: Labels -> string)
  {
    |rule.fromEndpoints| == 1
    && |rule.fromEndpoints[0].matchLabels| > 0
    && keyOf(rule.fromEndpoints[0].matchLabels) == k
    && |rule.toPorts| > 0
    && WellFormedPorts(rule.toPorts)
  }

  /** Some flow from a source with key `k` asked for `pp`. */
  ghost predicate Requested(flows: seq<ParsedFlow>, k: string, keyOf: Labels -> string, pp: PortProtocol)
  {
    exists i | 0 <= i < |flows| :: Usable(flows[i]) && keyOf(flows[i].sourceLabels) == k && Entry(flows[i]) == pp
  }

  /** One flow either leaves the rule under `k` alone or adds its own entry
      to it, creating the rule first if needed. */
  lemma RuleStepSpec(m: map<string, IngressRule>, f: ParsedFlow, keyOf: Labels -> string, k: string)
    requires k in m ==> GoodRule(m[k], k, keyOf)
    ensures k in RuleStep(m, f, keyOf) <==> k in m || (Usable(f) && keyOf(f.sourceLabels) == k)
    ensures k in RuleStep(m, f, keyOf) ==> GoodRule(RuleStep(m, f, keyOf)[k], k, keyOf)
    ensures k in RuleStep(m, f, keyOf) ==> forall pp ::
      HasPort(RuleStep(m, f, keyOf)[k].toPorts, pp) <==>
        (k in m && HasPort(m[k].toPorts, pp)) || (Usable(f) && keyOf(f.sourceLabels) == k && pp == Entry(f))
  {
    if Usable(f) && keyOf(f.sourceLabels) == k {
      var rule := if k in m then m[k] else IngressRule([EndpointSelector(f.sourceLabels)], []);
      AddPortKeepsShape(rule.toPorts, Entry(f));
      assert HasPort(AddPort(rule.toPorts, Entry(f)), Entry(f));
    }
  }

  /** The entries requested by a prefix and one more flow. */
  lemma RequestedSnoc(flows: seq<ParsedFlow>, keyOf: Labels -> string, k: string, pp: PortProtocol)
    requires |flows| > 0
    ensures Requested(flows, k, keyOf, pp) <==>
      Requested(flows[..|flows| - 1], k, keyOf, pp)
      || (Usable(flows[|flows| - 1]) && keyOf(flows[|flows| - 1].sourceLabels) == k && Entry(flows[|flows| - 1]) == pp)
  {
    var asks := (f: ParsedFlow) => Usable(f) && keyOf(f.sourceLabels) == k && Entry(f) == pp;
    ExistsSnoc(flows, asks);
  }

  /** Some usable flow comes from a source with key `k`. */
  ghost predicate HasSource(flows: seq<ParsedFlow>, k: string, keyOf: Labels -> string)
  {
    exists i | 0 <= i < |flows| :: Usable(flows[i]) && keyOf(flows[i].sourceLabels) == k
  }

  /** `flows[i]` is the first usable flow from a source with key `k`. */
  ghost predicate FirstSource(flows: seq<ParsedFlow>, k: string, keyOf: Labels -> string, i: int)
  {
    0 <= i < |flows| && Usable(flows[i]) && keyOf(flows[i].sourceLabels) == k
    && !HasSource(flows[..i], k, keyOf)
  }

  /** The selector of the rule under `k` is taken from the first usable
      flow with that source key; later flows only add ports. */
  lemma RuleSelectorStep(flows: seq<ParsedFlow>, keyOf: Labels -> string, k: string)
    requires |flows| > 0
    requires var init := flows[..|flows| - 1];
      (k in RuleMapBy(init, keyOf) <==> HasSource(init, k, keyOf))
      && (k in RuleMapBy(init, keyOf) ==>
            exists i :: FirstSource(init, k, keyOf, i) && RuleMapBy(init, keyOf)[k].fromEndpoints == [EndpointSelector(init[i].sourceLabels)])
    ensures k in RuleMapBy(flows, keyOf) ==>
      exists i :: FirstSource(flows, k, keyOf, i) && RuleMapBy(flows, keyOf)[k].fromEndpoints == [EndpointSelector(flows[i].sourceLabels)]
  {
    var n := |flows| - 1;
    var init := flows[..n];
    var m := RuleMapBy(init, keyOf);
    if k in m {
      var i :| FirstSource(init, k, keyOf, i) && m[k].fromEndpoints == [EndpointSelector(init[i].sourceLabels)];
      assert flows[..i] == init[..i];
      assert FirstSource(flows, k, keyOf, i);
    } else if k in RuleMapBy(flows, keyOf) {
      assert flows[..n] == init;
      assert FirstSource(flows, k, keyOf, n);
    }
  }

  /**
    The rule map has one key per source key some usable flow has; the rule
    under it is well formed, selects the source labels of the first usable
    flow with that key, and lists exactly the port entries the flows from
    that source asked for.
   */
  lemma {:induction false} RuleMapSpec(flows: seq<ParsedFlow>, keyOf: Labels -> string, k: string)
    ensures k in RuleMapBy(flows, keyOf) <==> HasSource(flows, k, keyOf)
    ensures k in RuleMapBy(flows, keyOf) ==> GoodRule(RuleMapBy(flows, keyOf)[k], k, keyOf)
    ensures k in RuleMapBy(flows, keyOf) ==>
      exists i :: FirstSource(flows, k, keyOf, i) && RuleMapBy(flows, keyOf)[k].fromEndpoints == [EndpointSelector(flows[i].sourceLabels)]
    ensures k in RuleMapBy(flows, keyOf) ==> forall pp ::
      HasPort(RuleMapBy(flows, keyOf)[k].toPorts, pp) <==> Requested(flows, k, keyOf, pp)
  {
    if |flows| > 0 {
      var n := |flows| - 1;
      var init := flows[..n];
      RuleMapSpec(init, keyOf, k);
      RuleSelectorStep(flows, keyOf, k);
      RuleStepSpec(RuleMapBy(init, keyOf), flows[n], keyOf, k);
      forall pp {
        RequestedSnoc(flows, keyOf, k, pp);
      }
      assert HasSource(flows, k, keyOf) <==> HasSource(init, k, keyOf) || (Usable(flows[n]) && keyOf(flows[n].sourceLabels) == k) by {
        if HasSource(init, k, keyOf) {
          var i :| 0 <= i < n && Usable(init[i]) && keyOf(init[i].sourceLabels) == k;
          assert flows[i] == init[i];
        }
        if HasSource(flows, k, keyOf) {
          var i :| 0 <= i < |flows| && Usable(flows[i]) && keyOf(flows[i].sourceLabels) == k;
          if i < n {
            assert init[i] == flows[i];
          }
        }
      }
    }
  }

  // ---------------------------------------------------------------------
  // Sorting the result
  // ---------------------------------------------------------------------

  /** Ports inside a port rule are ordered by their port string. */
  function PortOrder(pp: PortProtocol): SortKey
  {
    StringKey(pp.port)
  }

  function SortPortRule(pr: PortRule): PortRule
  {
    PortRule(SortBy(pr.ports, PortOrder))
  }

  /** A rule as it is returned: each port rule's ports sorted. */
  function Finalize(rule: IngressRule): IngressRule
  {
    rule.(toPorts := Map(SortPortRule, rule.toPorts))
  }

  /** Rules are ordered by the key of their first selector's labels (the
      source uses their `%v` rendering); every rule built here has exactly
      one selector. */
  function RuleOrderBy(keyOf: Labels -> string): IngressRule -> SortKey
  {
    (rule: IngressRule) => if |rule.fromEndpoints| == 0 then StringKey("")
      else StringKey(keyOf(rule.fromEndpoints[0].matchLabels))
  }

  function FinalRuleFn(m: map<string, IngressRule>): string -> IngressRule
  {
    k => if k in m then Finalize(m[k]) else IngressRule([], [])
  }

  /** The finalised rules of the rule map, in the order of their keys. */
  function IngressRulesBy(flows: seq<ParsedFlow>, keyOf: Labels -> string): seq<IngressRule>
  {
    var m := RuleMapBy(flows, keyOf);
    Map(FinalRuleFn(m), SortedElements(m.Keys))
  }

  /** The rules `generateIngressRules` returns. */
  function IngressRules(flows: seq<ParsedFlow>): seq<IngressRule>
  {
    IngressRulesBy(flows, FormatMap)
  }

  /** Sorting a port rule's ports keeps its entries and their number. */
  lemma SortPortRuleKeeps(pr: PortRule)
    ensures |SortPortRule(pr).ports| == |pr.ports|
    ensures forall q :: q in SortPortRule(pr).ports <==> q in pr.ports
    ensures NoDup(pr.ports) ==> NoDup(SortPortRule(pr).ports)
    ensures SortedBy(SortPortRule(pr).ports, PortOrder)
  {
    var r := SortPortRule(pr).ports;
    assert |r| == |multiset(r)| == |pr.ports|;
    forall q ensures q in r <==> q in pr.ports {
      assert q in r <==> q in multiset(r);
    }
    if NoDup(pr.ports) {
      NoDupPermutation(pr.ports, r);
    }
  }

  /** Sorting the ports of each port rule keeps the shape and the entries. */
  lemma FinalizeKeepsShape(rules: seq<PortRule>)
    requires WellFormedPorts(rules)
    ensures WellFormedPorts(Map(SortPortRule, rules))
    ensures forall pp :: HasPort(Map(SortPortRule, rules), pp) <==> HasPort(rules, pp)
    ensures forall pr | pr in Map(SortPortRule, rules) :: SortedBy(pr.ports, PortOrder)
  {
    var r := Map(SortPortRule, rules);
    forall j | 0 <= j < |rules|
      ensures |r[j].ports| == |rules[j].ports| && NoDup(r[j].ports)
      ensures forall q :: q in r[j].ports <==> q in rules[j].ports
      ensures SortedBy(r[j].ports, PortOrder)
    {
      SortPortRuleKeeps(rules[j]);
    }
    ReorderedShape(rules, r);
    forall pp ensures HasPort(r, pp) <==> HasPort(rules, pp) {
      FinalizeHasPort(rules, r, pp);
    }
  }

  /** Reordering the ports inside each port rule keeps the shape. */
  lemma ReorderedShape(rules: seq<PortRule>, r: seq<PortRule>)
    requires WellFormedPorts(rules) && |r| == |rules|
    requires forall j | 0 <= j < |rules| ::
      |r[j].ports| == |rules[j].ports| && NoDup(r[j].ports) && forall q :: q in r[j].ports <==> q in rules[j].ports
    ensures WellFormedPorts(r)
  {
    forall j, l | 0 <= j < |r| && 0 <= l < |r[j].ports|
      ensures r[j].ports[l].protocol == rules[j].ports[0].protocol
    {
      assert r[j].ports[l] in rules[j].ports;
    }
  }

  lemma FinalizeHasPort(rules: seq<PortRule>, r: seq<PortRule>, pp: PortProtocol)
    requires |r| == |rules|
    requires forall j | 0 <= j < |rules| :: forall q :: q in r[j].ports <==> q in rules[j].ports
    ensures HasPort(r, pp) <==> HasPort(rules, pp)
  {
    if HasPort(r, pp) {
      var j, l :| 0 <= j < |r| && 0 <= l < |r[j].ports| && r[j].ports[l] == pp;
      assert pp in rules[j].ports;
      var l' :| 0 <= l' < |rules[j].ports| && rules[j].ports[l'] == pp;
    }
    if HasPort(rules, pp) {
      var j, l :| 0 <= j < |rules| && 0 <= l < |rules[j].ports| && rules[j].ports[l] == pp;
      assert pp in r[j].ports;
      var l' :| 0 <= l' < |r[j].ports| && r[j].ports[l'] == pp;
    }
  }

  /**
    Whatever order the rule map is visited in, sorting the finalised rules
    by their labels' key gives the rules in key order: a rule's order is
    its map key, so no two rules tie.
   */
  lemma RulesAnyOrder(m: map<string, IngressRule>, order: seq<string>, keyOf: Labels -> string)
    requires NoDup(order) && forall k :: k in order <==> k in m
    requires forall k | k in m :: GoodRule(m[k], k, keyOf)
    ensures SortBy(Map(FinalRuleFn(m), order), RuleOrderBy(keyOf)) == Map(FinalRuleFn(m), SortedElements(m.Keys))
  {
    var keys := SortedElements(m.Keys);
    var spec := Map(FinalRuleFn(m), keys);
    var key := RuleOrderBy(keyOf);
    StrictlySortedNoDup(keys, StringKey);
    NoDupSameElements(order, keys);
    MapPermutation(FinalRuleFn(m), order, keys);
    forall i | 0 <= i < |keys| ensures key(spec[i]) == StringKey(keys[i]) {
      assert spec[i] == Finalize(m[keys[i]]);
    }
    assert SortedBy(spec, key) by {
      forall i, j | 0 <= i < j < |spec| ensures KeyLessEq(key(spec[i]), key(spec[j])) {
        assert KeyLess(StringKey(keys[i]), StringKey(keys[j]));
      }
    }
    SortedUnique(spec, SortBy(Map(FinalRuleFn(m), order), key), key);
  }

  /** Visiting the rule map of `flows` in any order and sorting gives
      `IngressRulesBy`. */
  lemma CollectedRules(flows: seq<ParsedFlow>, keyOf: Labels -> string, order: seq<string>)
    requires NoDup(order) && forall k :: k in order <==> k in RuleMapBy(flows, keyOf)
    ensures SortBy(Map(FinalRuleFn(RuleMapBy(flows, keyOf)), order), RuleOrderBy(keyOf)) == IngressRulesBy(flows, keyOf)
  {
    var m := RuleMapBy(flows, keyOf);
    forall k | k in m ensures GoodRule(m[k], k, keyOf) {
      RuleMapSpec(flows, keyOf, k);
    }
    RulesAnyOrder(m, order, keyOf);
  }

  /** Go's loop sorting the ports of every port rule of a rule in place. */
  method SortRulePorts(rule: IngressRule) returns (r: IngressRule)
    ensures r == Finalize(rule)
  {
    r := rule;
    for i := 0 to |r.toPorts|
      invariant r.fromEndpoints == rule.fromEndpoints && |r.toPorts| == |rule.toPorts|
      invariant forall j | 0 <= j < i :: r.toPorts[j] == SortPortRule(rule.toPorts[j])
      invariant forall j | i <= j < |r.toPorts| :: r.toPorts[j] == rule.toPorts[j]
    {
      r := r.(toPorts := r.toPorts[i := PortRule(SortBy(r.toPorts[i].ports, PortOrder))]);
    }
  }

  /** The first half of `generateIngressRules`: the rule map, filled flow
      by flow, for the key function `keyOf` on source labels. */
  method BuildRuleMap(flows: seq<ParsedFlow>, keyOf: Labels -> string) returns (ruleMap: map<string, IngressRule>)
    ensures ruleMap == RuleMapBy(flows, keyOf)
  {
    ruleMap := map[];
    for i := 0 to |flows|
      invariant ruleMap == RuleMapBy(flows[..i], keyOf)
    {
      assert flows[..i + 1][..i] == flows[..i];
      var flow := flows[i];
      if |flow.sourceLabels| == 0 {
        continue;
      }
      if flow.destPort == 0 {
        continue;
      }
      var sourceKey := keyOf(flow.sourceLabels);
      var rule: IngressRule;
      if sourceKey in ruleMap {
        rule := ruleMap[sourceKey];
      } else {
        rule := IngressRule([EndpointSelector(flow.sourceLabels)], []);
      }
      var portStr := NatToString(flow.destPort);
      var protocol := flow.protocol;
      if protocol == "" {
        protocol := "TCP";
      }
      var entry := PortProtocol(portStr, protocol);
      assert entry == Entry(flow);
      var portExists := PortExists(rule.toPorts, entry);
      if !portExists {
        var index := FindPortRule(rule.toPorts, protocol);
        if index >= 0 {
          rule := rule.(toPorts := rule.toPorts[index := PortRule(rule.toPorts[index].ports + [entry])]);
        } else {
          rule := rule.(toPorts := rule.toPorts + [PortRule([entry])]);
        }
      }
      assert rule.toPorts == AddPort((if sourceKey in ruleMap then ruleMap[sourceKey] else IngressRule([EndpointSelector(flow.sourceLabels)], [])).toPorts, Entry(flow));
      ruleMap := ruleMap[sourceKey := rule];
    }
    assert flows[..|flows|] == flows;
  }

  /** The second half of `generateIngressRules`: collects the rules in the
      map's order, sorts each port rule's ports, then sorts the rules by the
      key of their source labels. */
  method SortedRules(ghost flows: seq<ParsedFlow>, ruleMap: map<string, IngressRule>, keyOf: Labels -> string)
    returns (rules: seq<IngressRule>)
    requires ruleMap == RuleMapBy(flows, keyOf)
    ensures rules == IngressRulesBy(flows, keyOf)
  {
    var collected, order := CollectValues(ruleMap);
    rules := [];
    for i := 0 to |collected|
      invariant rules == Map(Finalize, collected[..i])
    {
      var rule := SortRulePorts(collected[i]);
      MapPrefixSnoc(Finalize, collected, i);
      rules := rules + [rule];
    }
    MapPrefixAll(Finalize, collected);
    FinalizedInOrder(ruleMap, collected, order, rules);
    CollectedRules(flows, keyOf, order);
    rules := SortBy(rules, RuleOrderBy(keyOf));
  }

  /** The finalised values, listed in a visiting order of the keys, are
      the map's finalised rules in that order. */
  lemma FinalizedInOrder(m: map<string, IngressRule>, collected: seq<IngressRule>, order: seq<string>, rules: seq<IngressRule>)
    requires forall k :: k in order <==> k in m
    requires |collected| == |order| && forall i | 0 <= i < |order| :: collected[i] == m[order[i]]
    requires rules == Map(Finalize, collected)
    ensures rules == Map(FinalRuleFn(m), order)
  {
    forall j | 0 <= j < |order| ensures rules[j] == FinalRuleFn(m)(order[j]) {
      assert order[j] in m;
    }
  }

  /**
    `generateIngressRules`: the rule map and the order of the rules are
    both keyed by `fmt.Sprintf("%v", labels)` of the source labels.
   */
  method GenerateIngressRules(flows: seq<ParsedFlow>) returns (rules: seq<IngressRule>)
    ensures rules == IngressRules(flows)
  {
    var ruleMap := BuildRuleMap(flows, FormatMap);
    rules := SortedRules(flows, ruleMap, FormatMap);
  }

  // ---------------------------------------------------------------------
  // Properties of the result
  // ---------------------------------------------------------------------

  /** A rule of the result, seen through the rule map it comes from. */
  lemma RuleAt(flows: seq<ParsedFlow>, keyOf: Labels -> string, i: nat)
    requires i < |IngressRulesBy(flows, keyOf)|
    ensures var keys := SortedElements(RuleMapBy(flows, keyOf).Keys);
      var rule := IngressRulesBy(flows, keyOf)[i];
      |keys| == |IngressRulesBy(flows, keyOf)| && keys[i] in RuleMapBy(flows, keyOf)
      && rule == Finalize(RuleMapBy(flows, keyOf)[keys[i]])
      && GoodRule(RuleMapBy(flows, keyOf)[keys[i]], keys[i], keyOf)
      && RuleOrderBy(keyOf)(rule) == StringKey(keys[i])
      && forall pp :: HasPort(rule.toPorts, pp) <==> Requested(flows, keys[i], keyOf, pp)
    ensures var keys := SortedElements(RuleMapBy(flows, keyOf).Keys);
      exists j :: FirstSource(flows, keys[i], keyOf, j)
        && IngressRulesBy(flows, keyOf)[i].fromEndpoints == [EndpointSelector(flows[j].sourceLabels)]
  {
    var m := RuleMapBy(flows, keyOf);
    var keys := SortedElements(m.Keys);
    RuleMapSpec(flows, keyOf, keys[i]);
    FinalizeKeepsShape(m[keys[i]].toPorts);
  }

  /**
    The shape of every rule returned: one source selector with non-empty
    labels, at least one port rule, one protocol per port rule and distinct
    protocols across them, no repeated `(port, protocol)`, the ports of
    each port rule sorted by their string; and the rules strictly sorted
    by the key of their labels.
   */
  lemma IngressRulesShape(flows: seq<ParsedFlow>, keyOf: Labels -> string)
    ensures StrictlySortedBy(IngressRulesBy(flows, keyOf), RuleOrderBy(keyOf))
    ensures forall r | r in IngressRulesBy(flows, keyOf) ::
      |r.fromEndpoints| == 1 && |r.fromEndpoints[0].matchLabels| > 0
      && |r.toPorts| > 0 && WellFormedPorts(r.toPorts)
      && forall pr | pr in r.toPorts :: SortedBy(pr.ports, PortOrder)
  {
    var rules := IngressRulesBy(flows, keyOf);
    var keys := SortedElements(RuleMapBy(flows, keyOf).Keys);
    forall i | 0 <= i < |rules|
      ensures RuleOrderBy(keyOf)(rules[i]) == StringKey(keys[i])
      ensures |rules[i].fromEndpoints| == 1 && |rules[i].fromEndpoints[0].matchLabels| > 0
      ensures |rules[i].toPorts| > 0 && WellFormedPorts(rules[i].toPorts)
      ensures forall pr | pr in rules[i].toPorts :: SortedBy(pr.ports, PortOrder)
    {
      RuleAt(flows, keyOf, i);
      var m := RuleMapBy(flows, keyOf);
      FinalizeKeepsShape(m[keys[i]].toPorts);
    }
    forall i, j | 0 <= i < j < |rules|
      ensures KeyLess(RuleOrderBy(keyOf)(rules[i]), RuleOrderBy(keyOf)(rules[j]))
    {
      assert KeyLess(StringKey(keys[i]), StringKey(keys[j]));
    }
  }

  /** A rule selects the source labels of the first usable flow from its
      source, and lists a `(port, protocol)` pair iff some usable flow from
      that source asked for it. */
  lemma IngressRulesPorts(flows: seq<ParsedFlow>, keyOf: Labels -> string, r: IngressRule)
    requires r in IngressRulesBy(flows, keyOf)
    ensures |r.fromEndpoints| == 1
    ensures HasSource(flows, keyOf(r.fromEndpoints[0].matchLabels), keyOf)
    ensures forall pp :: HasPort(r.toPorts, pp) <==> Requested(flows, keyOf(r.fromEndpoints[0].matchLabels), keyOf, pp)
    ensures exists j :: FirstSource(flows, keyOf(r.fromEndpoints[0].matchLabels), keyOf, j)
              && r.fromEndpoints == [EndpointSelector(flows[j].sourceLabels)]
  {
    var rules := IngressRulesBy(flows, keyOf);
    var keys := SortedElements(RuleMapBy(flows, keyOf).Keys);
    var i :| 0 <= i < |rules| && rules[i] == r;
    RuleAt(flows, keyOf, i);
    RuleMapSpec(flows, keyOf, keys[i]);
  }

  /** Every usable flow finds its `(port, protocol)` entry in the rule of its
      source. */
  lemma IngressRulesCover(flows: seq<ParsedFlow>, keyOf: Labels -> string, i: nat)
    requires i < |flows| && Usable(flows[i])
    ensures exists r | r in IngressRulesBy(flows, keyOf) ::
      |r.fromEndpoints| == 1 && keyOf(r.fromEndpoints[0].matchLabels) == keyOf(flows[i].sourceLabels)
      && HasPort(r.toPorts, Entry(flows[i]))
  {
    var rules := IngressRulesBy(flows, keyOf);
    var keys := SortedElements(RuleMapBy(flows, keyOf).Keys);
    var k := keyOf(flows[i].sourceLabels);
    RuleMapSpec(flows, keyOf, k);
    assert HasSource(flows, k, keyOf);
    assert k in keys;
    var j :| 0 <= j < |keys| && keys[j] == k;
    RuleAt(flows, keyOf, j);
    assert Requested(flows, k, keyOf, Entry(flows[i]));
    assert rules[j] in rules;
  }

  lemma AddFirstPort(pp: PortProtocol)
    ensures AddPort([], pp) == [PortRule([pp])]
  {
  }

  lemma AddSecondPort(pp: PortProtocol, q: PortProtocol)
    requires pp != q && pp.protocol == q.protocol
    ensures AddPort([PortRule([pp])], q) == [PortRule([pp, q])]
  {
    assert !HasPort([PortRule([pp])], q);
    assert FindProtocol([PortRule([pp])], q.protocol) == 0;
    assert [pp] + [q] == [pp, q];
  }

  /** A rule map with a single key gives a single rule. */
  lemma SingleRule(flows: seq<ParsedFlow>, keyOf: Labels -> string, k: string, rule: IngressRule)
    requires RuleMapBy(flows, keyOf) == map[k := rule]
    ensures IngressRulesBy(flows, keyOf) == [Finalize(rule)]
  {
    SingletonElements(k);
    assert map[k := rule].Keys == {k};
  }

  /** Finalising a rule with one port rule sorts that port rule. */
  lemma FinalizeOne(sel: seq<EndpointSelector>, ports: seq<PortProtocol>)
    ensures Finalize(IngressRule(sel, [PortRule(ports)])) == IngressRule(sel, [PortRule(SortBy(ports, PortOrder))])
  {
    assert [PortRule(ports)][..0] == [];
  }

  /** Distinct numbers give distinct port strings. */
  lemma PortStringsDiffer(p: nat, q: nat)
    requires p != q
    ensures NatToString(p) != NatToString(q)
  {
    DecimalRoundTrip(p);
    DecimalRoundTrip(q);
  }

  /** The rule map of two usable flows from one source, on distinct
      entries of one protocol. */
  lemma TwoFlowMap(f1: ParsedFlow, f2: ParsedFlow, keyOf: Labels -> string)
    requires Usable(f1) && Usable(f2) && f1.sourceLabels == f2.sourceLabels
    requires Entry(f1) != Entry(f2) && Entry(f1).protocol == Entry(f2).protocol
    ensures RuleMapBy([f1, f2], keyOf)
      == map[keyOf(f1.sourceLabels) := IngressRule([EndpointSelector(f1.sourceLabels)], [PortRule([Entry(f1), Entry(f2)])])]
  {
    var k := keyOf(f1.sourceLabels);
    var sel := [EndpointSelector(f1.sourceLabels)];
    AddFirstPort(Entry(f1));
    AddSecondPort(Entry(f1), Entry(f2));
    assert [f1, f2][..1] == [f1] && [f1][..0] == [];
    var m0: map<string, IngressRule> := RuleMapBy([], keyOf);
    assert m0 == map[];
    var m1 := RuleMapBy([f1], keyOf);
    assert m1 == RuleStep(m0, f1, keyOf);
    assert m1 == map[k := IngressRule(sel, [PortRule([Entry(f1)])])];
    assert RuleMapBy([f1, f2], keyOf) == RuleStep(m1, f2, keyOf);
  }

  /**
    Two usable flows from the same source on two ports of the same
    protocol give one rule with one port rule holding both ports, ordered
    by their strings whichever flow came first.
   */
  lemma TwoPortsOneRule(f1: ParsedFlow, f2: ParsedFlow, keyOf: Labels -> string)
    requires Usable(f1) && Usable(f2) && f1.sourceLabels == f2.sourceLabels
    requires EffectiveProtocol(f1.protocol) == EffectiveProtocol(f2.protocol)
    requires Less(NatToString(f1.destPort), NatToString(f2.destPort))
    ensures IngressRulesBy([f1, f2], keyOf)
      == [IngressRule([EndpointSelector(f1.sourceLabels)], [PortRule([Entry(f1), Entry(f2)])])]
    ensures IngressRulesBy([f2, f1], keyOf)
      == [IngressRule([EndpointSelector(f1.sourceLabels)], [PortRule([Entry(f1), Entry(f2)])])]
  {
    var e1, e2 := Entry(f1), Entry(f2);
    LessIrreflexive(e1.port);
    var k := keyOf(f1.sourceLabels);
    var sel := [EndpointSelector(f1.sourceLabels)];
    SortTwo(e1, e2, PortOrder);
    TwoFlowMap(f1, f2, keyOf);
    TwoFlowMap(f2, f1, keyOf);
    SingleRule([f1, f2], keyOf, k, IngressRule(sel, [PortRule([e1, e2])]));
    SingleRule([f2, f1], keyOf, k, IngressRule(sel, [PortRule([e2, e1])]));
    FinalizeOne(sel, [e1, e2]);
    FinalizeOne(sel, [e2, e1]);
  }

  /** The test scenario of two ports of one source: flows to 8080 and 8081
      over TCP from the same labels aggregate into a single rule. */
  lemma AggregatesPorts(f1: ParsedFlow, keyOf: Labels -> string)
    requires |f1.sourceLabels| > 0 && f1.destPort == 8080 && f1.protocol == "TCP"
    ensures IngressRulesBy([f1, f1.(destPort := 8081)], keyOf)
      == [IngressRule([EndpointSelector(f1.sourceLabels)], [PortRule([PortProtocol("8080", "TCP"), PortProtocol("8081", "TCP")])])]
  {
    var f2 := f1.(destPort := 8081);
    PortStrings();
    TwoPortsOneRule(f1, f2, keyOf);
  }

  lemma PortDigits()
    ensures NatToString(8080) == "8080" && NatToString(8081) == "8081" && NatToString(10000) == "10000"
  {
    assert NatToString(80) == "80";
    assert NatToString(808) == "808";
    assert NatToString(10) == "10";
    assert NatToString(100) == "100";
    assert NatToString(1000) == "1000";
  }

  /** The port strings of the two test scenarios and their order. */
  lemma PortStrings()
    ensures NatToString(8080) == "8080" && NatToString(8081) == "8081" && NatToString(10000) == "10000"
    ensures Less("8080", "8081") && Less("10000", "8080")
  {
    PortDigits();
    assert Less("0", "1");
    assert Less("80", "81") by { assert "80"[1..] == "0" && "81"[1..] == "1"; }
    assert Less("080", "081") by { assert "080"[1..] == "80" && "081"[1..] == "81"; }
    assert Less("8080", "8081") by { assert "8080"[1..] == "080" && "8081"[1..] == "081"; }
    assert Less("10000", "8080");
  }

  /** Ports sort as strings, not numbers: `10000` comes before `8080`. */
  lemma PortsSortAsStrings(labels: Labels, keyOf: Labels -> string)
    requires |labels| > 0
    ensures var f1 := ParsedFlow(labels, "", "", map[], "", "", 8080, "TCP", "ingress", "");
      var f2 := f1.(destPort := 10000);
      IngressRulesBy([f1, f2], keyOf)
        == [IngressRule([EndpointSelector(labels)], [PortRule([PortProtocol("10000", "TCP"), PortProtocol("8080", "TCP")])])]
  {
    var f1 := ParsedFlow(labels, "", "", map[], "", "", 8080, "TCP", "ingress", "");
    var f2 := f1.(destPort := 10000);
    PortStrings();
    TwoPortsOneRule(f2, f1, keyOf);
  }

  /** A single usable flow gives a single rule. */
  lemma OneFlowOneRule(f: ParsedFlow, keyOf: Labels -> string)
    requires Usable(f)
    ensures |IngressRulesBy([f], keyOf)| == 1
  {
    AddFirstPort(Entry(f));
    assert [f][..0] == [];
    var m0: map<string, IngressRule> := RuleMapBy([], keyOf);
    assert m0 == map[];
    assert RuleMapBy([f], keyOf) == RuleStep(m0, f, keyOf);
    SingleRule([f], keyOf, keyOf(f.sourceLabels), IngressRule([EndpointSelector(f.sourceLabels)], [PortRule([Entry(f)])]));
  }
}
