/**
  The policy synthesiser's top level (internal/synth/policy.go): naming a
  policy, building the policy of one destination endpoint, and
  `SynthesizePolicies`, which groups the flows and keeps one policy per
  group that has ingress rules.
 */
module Synth {
  import opened Wrappers
  import opened Sorting
  import opened Labels
  import opened Hubble
  import opened PolicyTypes
  import opened Grouping
  import opened Ingress

  /** The label keys a policy name is taken from, in order of preference. */
  const PreferredKeys: seq<string> := ["app", "k8s:app", "name", "component"]

  /**
    The names `generatePolicyName` may return: the value of the first
    preferred key present, plus `-policy`; failing that, the value of some
    label (Go's map order decides which), plus `-policy`; for no labels at
    all, `default-policy`.
   */
  ghost predicate IsPolicyName(labels: Labels, name: string)
  {
    match FirstPresent(labels, PreferredKeys)
    case Some(k) => name == labels[k] + "-policy"
    case None =>
      if |labels| == 0 then name == "default-policy"
      else exists v | v in labels.Values :: name == v + "-policy"
  }

  /** `generatePolicyName`. */
  method GeneratePolicyName(labels: Labels) returns (name: string)
    ensures IsPolicyName(labels, name)
  {
    var preferred := LookupFirst(labels, PreferredKeys);
    if preferred.Some? {
      return preferred.value + "-policy";
    }
    var any := AnyValue(labels);
    if any.Some? {
      return any.value + "-policy";
    }
    return "default-policy";
  }

  /** The name is fixed unless the source must fall back on a Go map walk
      over two or more labels. */
  lemma PolicyNameDeterministic(labels: Labels, n1: string, n2: string)
    requires IsPolicyName(labels, n1) && IsPolicyName(labels, n2)
    requires FirstPresent(labels, PreferredKeys).Some? || |labels| <= 1
    ensures n1 == n2
  {
    if FirstPresent(labels, PreferredKeys).None? && |labels| == 1 {
      var k :| k in labels;
      var rest := labels.Keys - {k};
      assert labels.Keys == rest + {k};
      assert |rest| == 0;
      assert labels.Values == {labels[k]} by {
        forall v | v in labels.Values ensures v == labels[k] {
          var k' :| k' in labels && labels[k'] == v;
          assert k' !in rest;
        }
      }
    }
  }

  /** `app` is preferred to `k8s:app`, whatever else the labels hold. */
  lemma AppPreferred(labels: Labels, name: string)
    requires "app" in labels && IsPolicyName(labels, name)
    ensures name == labels["app"] + "-policy"
  {
  }

  /** Test case: the `k8s:app` label names the policy. */
  lemma K8sAppName()
    ensures IsPolicyName(map["k8s:app" := "catalog"], "catalog-policy")
  {
    var l := map["k8s:app" := "catalog"];
    assert PreferredKeys[1..] == ["k8s:app", "name", "component"];
    assert FirstPresent(l, PreferredKeys) == FirstPresent(l, PreferredKeys[1..]);
  }

  /** Test case: the `name` label names the policy. */
  lemma NameLabelName()
    ensures IsPolicyName(map["name" := "myapp"], "myapp-policy")
  {
    var l := map["name" := "myapp"];
    assert PreferredKeys[1..][1..] == ["name", "component"];
    assert FirstPresent(l, PreferredKeys) == FirstPresent(l, PreferredKeys[1..][1..]);
  }

  /** Test case: a single label that is not preferred names the policy,
      and no other name is possible. */
  lemma FallbackName()
    ensures IsPolicyName(map["version" := "v1"], "v1-policy")
    ensures forall n | IsPolicyName(map["version" := "v1"], n) :: n == "v1-policy"
  {
    var l := map["version" := "v1"];
    assert FirstPresent(l, PreferredKeys) == None;
    assert l["version"] == "v1";
    assert "v1" in l.Values;
    forall n | IsPolicyName(l, n) ensures n == "v1-policy" {
      PolicyNameDeterministic(l, n, "v1-policy");
    }
  }

  /** The policy of a group, for a function `rulesOf` giving the ingress
      rules of a list of flows (the source uses `IngressRules`): fixed API
      version and kind, the group's namespace, its labels as the endpoint
      selector, the rules of its flows and no egress rules. */
  ghost predicate IsPolicyFor(group: EndpointFlows, p: Policy, rulesOf: seq<ParsedFlow> -> seq<IngressRule>)
  {
    p.apiVersion == ApiVersion && p.kind == Kind
    && p.metadata.namespace == group.key.namespace
    && IsPolicyName(group.key.labels, p.metadata.name)
    && p.spec.endpointSelector.matchLabels == group.key.labels
    && p.spec.ingress == rulesOf(group.flows)
    && p.spec.egress == []
  }

  /** A group with no usable flow has no ingress rules. */
  lemma {:induction false} NoRulesWithoutUsableFlows(flows: seq<ParsedFlow>, keyOf: Labels -> string)
    ensures |IngressRulesBy(flows, keyOf)| == 0 <==> forall i | 0 <= i < |flows| :: !Usable(flows[i])
  {
    var m := RuleMapBy(flows, keyOf);
    if exists i | 0 <= i < |flows| :: Usable(flows[i]) {
      var i :| 0 <= i < |flows| && Usable(flows[i]);
      RuleMapSpec(flows, keyOf, keyOf(flows[i].sourceLabels));
      assert keyOf(flows[i].sourceLabels) in SortedElements(m.Keys);
    } else if |IngressRulesBy(flows, keyOf)| > 0 {
      var k := SortedElements(m.Keys)[0];
      RuleMapSpec(flows, keyOf, k);
    }
  }

  /**
    `generatePolicyForEndpoint`: no policy for a group without flows or
    without ingress rules, otherwise the policy of the group. The source
    also returns an error value, which is always nil.
   */
  method GeneratePolicyForEndpoint(group: EndpointFlows) returns (policy: Option<Policy>)
    ensures policy.None? <==> |IngressRules(group.flows)| == 0
    ensures policy.Some? ==> IsPolicyFor(group, policy.value, IngressRules)
  {
    if |group.flows| == 0 {
      return None;
    }
    var policyName := GeneratePolicyName(group.key.labels);
    var ingressRules := GenerateIngressRules(group.flows);
    if |ingressRules| == 0 {
      return None;
    }
    return Some(Policy(
      ApiVersion,
      Kind,
      PolicyMetadata(policyName, group.key.namespace),
      PolicySpec(EndpointSelector(group.key.labels), ingressRules, [])));
  }

  /** The groups that yield a policy, in order. */
  function Kept(groups: seq<EndpointFlows>, rulesOf: seq<ParsedFlow> -> seq<IngressRule>): (r: seq<EndpointFlows>)
    ensures |r| <= |groups|
  {
    if |groups| == 0 then []
    else
      var init := Kept(groups[..|groups| - 1], rulesOf);
      var g := groups[|groups| - 1];
      if |rulesOf(g.flows)| > 0 then init + [g] else init
  }

  /** A kept group is a group of the list that has ingress rules. */
  lemma {:induction false} KeptFrom(groups: seq<EndpointFlows>, g: EndpointFlows, rulesOf: seq<ParsedFlow> -> seq<IngressRule>)
    requires g in Kept(groups, rulesOf)
    ensures g in groups && |rulesOf(g.flows)| > 0
  {
    var init := groups[..|groups| - 1];
    if g in Kept(init, rulesOf) {
      KeptFrom(init, g, rulesOf);
    }
  }

  lemma KeptSnoc(groups: seq<EndpointFlows>, g: EndpointFlows, rulesOf: seq<ParsedFlow> -> seq<IngressRule>)
    ensures Kept(groups + [g], rulesOf) == if |rulesOf(g.flows)| > 0 then Kept(groups, rulesOf) + [g] else Kept(groups, rulesOf)
  {
    assert (groups + [g])[..|groups|] == groups;
  }

  /** The policies are those of the kept groups, one each, in order. */
  ghost predicate PoliciesOf(groups: seq<EndpointFlows>, policies: seq<Policy>, rulesOf: seq<ParsedFlow> -> seq<IngressRule>)
  {
    |policies| == |Kept(groups, rulesOf)|
    && forall i | 0 <= i < |policies| :: IsPolicyFor(Kept(groups, rulesOf)[i], policies[i], rulesOf)
  }

  lemma PoliciesOfSnoc(groups: seq<EndpointFlows>, policies: seq<Policy>, g: EndpointFlows, p: Policy, rulesOf: seq<ParsedFlow> -> seq<IngressRule>)
    requires PoliciesOf(groups, policies, rulesOf) && |rulesOf(g.flows)| > 0 && IsPolicyFor(g, p, rulesOf)
    ensures PoliciesOf(groups + [g], policies + [p], rulesOf)
  {
    KeptSnoc(groups, g, rulesOf);
  }

  lemma PoliciesOfSkip(groups: seq<EndpointFlows>, policies: seq<Policy>, g: EndpointFlows, rulesOf: seq<ParsedFlow> -> seq<IngressRule>)
    requires PoliciesOf(groups, policies, rulesOf) && |rulesOf(g.flows)| == 0
    ensures PoliciesOf(groups + [g], policies, rulesOf)
  {
    KeptSnoc(groups, g, rulesOf);
  }

  /** One more group: its policy, if it has one, follows the others. */
  lemma PoliciesForStep(groups: seq<EndpointFlows>, i: nat, policies: seq<Policy>, p: Option<Policy>, rulesOf: seq<ParsedFlow> -> seq<IngressRule>)
    requires i < |groups| && PoliciesOf(groups[..i], policies, rulesOf)
    requires p.None? <==> |rulesOf(groups[i].flows)| == 0
    requires p.Some? ==> IsPolicyFor(groups[i], p.value, rulesOf)
    ensures PoliciesOf(groups[..i + 1], if p.Some? then policies + [p.value] else policies, rulesOf)
  {
    assert groups[..i + 1] == groups[..i] + [groups[i]];
    if p.Some? {
      PoliciesOfSnoc(groups[..i], policies, groups[i], p.value, rulesOf);
    } else {
      PoliciesOfSkip(groups[..i], policies, groups[i], rulesOf);
    }
  }

  /** The loop of `SynthesizePolicies`: the policy of each group in turn,
      skipping the groups that give none. */
  method PoliciesFor(groups: seq<EndpointFlows>) returns (policies: seq<Policy>)
    ensures PoliciesOf(groups, policies, IngressRules)
  {
    policies := [];
    for i := 0 to |groups|
      invariant PoliciesOf(groups[..i], policies, IngressRules)
    {
      var policy := GeneratePolicyForEndpoint(groups[i]);
      PoliciesForStep(groups, i, policies, policy, IngressRules);
      if policy.Some? {
        policies := policies + [policy.value];
      }
    }
    assert groups[..|groups|] == groups;
  }

  /** What `SynthesizePolicies` returns for flows grouped into `groups`:
      the groups of `groupFlowsByEndpoint`, and a policy per kept group. */
  ghost predicate Synthesised(flows: seq<ParsedFlow>, groups: seq<EndpointFlows>, policies: seq<Policy>)
  {
    (forall g :: g in groups <==> g in GroupMap(flows).Values)
    && |groups| == |GroupMap(flows)|
    && SortedBy(groups, GroupOrder)
    && PoliciesOf(groups, policies, IngressRules)
  }

  /**
    `SynthesizePolicies`: an error for no flows; otherwise the flows are
    grouped by destination and each group that has ingress rules gives
    one policy, in the order of the groups. `groups` is the grouping the
    policies come from.
   */
  method SynthesizePolicies(flows: seq<ParsedFlow>) returns (r: Result<seq<Policy>, string>, ghost groups: seq<EndpointFlows>)
    ensures r.Failure? <==> |flows| == 0
    ensures r.Failure? ==> r.error == "no flows provided"
    ensures r.Success? ==> Synthesised(flows, groups, r.value)
  {
    groups := [];
    if |flows| == 0 {
      return Failure("no flows provided"), groups;
    }
    var endpointGroups := GroupFlowsByEndpoint(flows);
    groups := endpointGroups;
    var policies := PoliciesFor(endpointGroups);
    return Success(policies), groups;
  }

  /** Flows that all lack a destination give no policy. */
  lemma NoDestinationNoPolicies(flows: seq<ParsedFlow>, groups: seq<EndpointFlows>, policies: seq<Policy>)
    requires Synthesised(flows, groups, policies)
    requires forall i | 0 <= i < |flows| :: !HasDestination(flows[i])
    ensures policies == []
  {
    NoDestinationNoGroups(flows, KeyString);
  }

  /** `PolicyPerDestination` for any key and rule functions. */
  lemma PolicyOfGroup(flows: seq<ParsedFlow>, groups: seq<EndpointFlows>, policies: seq<Policy>, i: nat,
                      keyOf: ParsedFlow -> string, rulesOf: seq<ParsedFlow> -> seq<IngressRule>)
    requires forall g :: g in groups <==> g in GroupMapBy(flows, keyOf).Values
    requires PoliciesOf(groups, policies, rulesOf) && i < |policies|
    ensures exists g | g in groups ::
      |g.flows| > 0 && IsPolicyFor(g, policies[i], rulesOf)
      && policies[i].spec.endpointSelector.matchLabels == g.flows[0].destLabels
      && policies[i].metadata.namespace == g.flows[0].destNamespace
      && forall f | f in g.flows :: HasDestination(f) && keyOf(f) == keyOf(g.flows[0])
  {
    var g := Kept(groups, rulesOf)[i];
    KeptFrom(groups, g, rulesOf);
    var m := GroupMapBy(flows, keyOf);
    var k :| k in m && m[k] == g;
    GroupsPartition(flows, keyOf);
  }

  /** Each policy protects the destination of the flows of its group, and
      all flows of that group reach the same destination key. */
  lemma PolicyPerDestination(flows: seq<ParsedFlow>, groups: seq<EndpointFlows>, policies: seq<Policy>, i: nat)
    requires Synthesised(flows, groups, policies) && i < |policies|
    ensures exists g | g in groups ::
      |g.flows| > 0 && IsPolicyFor(g, policies[i], IngressRules)
      && policies[i].spec.endpointSelector.matchLabels == g.flows[0].destLabels
      && policies[i].metadata.namespace == g.flows[0].destNamespace
      && forall f | f in g.flows :: HasDestination(f) && KeyString(f) == KeyString(g.flows[0])
  {
    PolicyOfGroup(flows, groups, policies, i, KeyString, IngressRules);
  }

  /** Flows that all form one group give one policy, if the group has
      ingress rules (for any key and rule functions). */
  lemma OneGroupOnePolicy(flows: seq<ParsedFlow>, groups: seq<EndpointFlows>, policies: seq<Policy>,
                          keyOf: ParsedFlow -> string, rulesOf: seq<ParsedFlow> -> seq<IngressRule>, k: string, g: EndpointFlows)
    requires GroupMapBy(flows, keyOf) == map[k := g]
    requires forall g' :: g' in groups <==> g' in GroupMapBy(flows, keyOf).Values
    requires |groups| == |GroupMapBy(flows, keyOf)|
    requires PoliciesOf(groups, policies, rulesOf)
    requires |rulesOf(g.flows)| > 0
    ensures |policies| == 1 && IsPolicyFor(g, policies[0], rulesOf)
  {
    assert GroupMapBy(flows, keyOf).Values == {g};
    assert |groups| == 1 && groups[0] in groups;
    assert groups == [g];
    assert Kept(groups, rulesOf) == [g];
  }

  /** The group of a single flow with a destination. */
  lemma SingleFlowGroup(f: ParsedFlow, keyOf: ParsedFlow -> string)
    requires HasDestination(f)
    ensures GroupMapBy([f], keyOf) == map[keyOf(f) := EndpointFlows(DestKey(f), [f])]
  {
    assert [f][..0] == [];
    var m0: map<string, EndpointFlows> := GroupMapBy([], keyOf);
    assert m0 == map[];
    assert GroupMapBy([f], keyOf) == GroupStep(m0, f, keyOf);
    assert [] + [f] == [f];
  }

  /** The group of two flows to the same destination. */
  lemma TwoFlowGroup(f1: ParsedFlow, f2: ParsedFlow, keyOf: ParsedFlow -> string)
    requires HasDestination(f1) && DestKey(f1) == DestKey(f2) && keyOf(f1) == keyOf(f2)
    ensures GroupMapBy([f1, f2], keyOf) == map[keyOf(f1) := EndpointFlows(DestKey(f1), [f1, f2])]
  {
    SingleFlowGroup(f1, keyOf);
    assert [f1, f2][..1] == [f1];
    assert GroupMapBy([f1, f2], keyOf) == GroupStep(GroupMapBy([f1], keyOf), f2, keyOf);
    assert [f1] + [f2] == [f1, f2];
  }

  /** One flow with a destination, source labels and a port gives one
      policy, with one ingress rule. */
  lemma SingleFlowOnePolicy(f: ParsedFlow, groups: seq<EndpointFlows>, policies: seq<Policy>)
    requires Synthesised([f], groups, policies)
    requires HasDestination(f) && Usable(f)
    ensures |policies| == 1
    ensures IsPolicyFor(EndpointFlows(DestKey(f), [f]), policies[0], IngressRules)
    ensures |policies[0].spec.ingress| == 1
  {
    OneFlowOneRule(f, FormatMap);
    SingleFlowGroup(f, KeyString);
    OneGroupOnePolicy([f], groups, policies, KeyString, IngressRules, KeyString(f), EndpointFlows(DestKey(f), [f]));
  }

  /** Test case: two flows from one source to one destination, on ports
      8080 and 8081 over TCP, give one policy whose single rule lists both
      ports in one port rule. */
  lemma TwoPortsOnePolicy(f1: ParsedFlow, groups: seq<EndpointFlows>, policies: seq<Policy>)
    requires HasDestination(f1) && |f1.sourceLabels| > 0
    requires f1.destPort == 8080 && f1.protocol == "TCP"
    requires Synthesised([f1, f1.(destPort := 8081)], groups, policies)
    ensures |policies| == 1
    ensures policies[0].spec.ingress == [IngressRule([EndpointSelector(f1.sourceLabels)],
      [PortRule([PortProtocol("8080", "TCP"), PortProtocol("8081", "TCP")])])]
  {
    var f2 := f1.(destPort := 8081);
    AggregatesPorts(f1, FormatMap);
    assert KeyString(f1) == KeyString(f2);
    TwoFlowGroup(f1, f2, KeyString);
    OneGroupOnePolicy([f1, f2], groups, policies, KeyString, IngressRules, KeyString(f1), EndpointFlows(DestKey(f1), [f1, f2]));
  }
}
