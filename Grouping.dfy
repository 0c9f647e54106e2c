/**
  `groupFlowsByEndpoint` and `endpointKeyToString` (internal/synth/policy.go):
  flows are grouped by destination endpoint, the group of a flow being
  found through the canonical string of its destination namespace and
  labels.
 */
module Grouping {
  import opened Strings
  import opened Sorting
  import opened Labels
  import opened Hubble
  import opened GoMaps

  /** A destination endpoint: namespace and pod labels. */
  datatype EndpointKey = EndpointKey(namespace: string, labels: Labels)

  /** The flows to one destination endpoint, in the order they came in. */
  datatype EndpointFlows = EndpointFlows(key: EndpointKey, flows: seq<ParsedFlow>)

  /** `endpointKeyToString`: the namespace, `:`, then the sorted `k=v` pairs
      joined by `,`. The pairs are collected by ranging over the label map;
      `PairsAnyOrder` shows the visiting order does not matter. */
  function EndpointKeyToString(key: EndpointKey): string
  {
    key.namespace + ":" + Join(LabelPairs(key.labels), ",")
  }

  /** A flow with no destination namespace or no destination labels joins
      no group. */
  predicate HasDestination(f: ParsedFlow)
  {
    f.destNamespace != "" && |f.destLabels| > 0
  }

  function DestKey(f: ParsedFlow): EndpointKey
  {
    EndpointKey(f.destNamespace, f.destLabels)
  }

  function KeyString(f: ParsedFlow): string
  {
    EndpointKeyToString(DestKey(f))
  }

  /** The effect of one flow on the map of groups, for a key function
      `keyOf` (the source uses `KeyString`). */
  function GroupStep(groups: map<string, EndpointFlows>, f: ParsedFlow, keyOf: ParsedFlow -> string)
    : map<string, EndpointFlows>
  {
    if !HasDestination(f) then groups
    else
      var k := keyOf(f);
      var g := if k in groups then groups[k] else EndpointFlows(DestKey(f), []);
      groups[k := g.(flows := g.flows + [f])]
  }

  /** The map of groups after the grouping loop. */
  function GroupMapBy(flows: seq<ParsedFlow>, keyOf: ParsedFlow -> string): map<string, EndpointFlows>
  {
    if |flows| == 0 then map[]
    else GroupStep(GroupMapBy(flows[..|flows| - 1], keyOf), flows[|flows| - 1], keyOf)
  }

  /** The groups `groupFlowsByEndpoint` builds. */
  function GroupMap(flows: seq<ParsedFlow>): map<string, EndpointFlows>
  {
    GroupMapBy(flows, KeyString)
  }

  /** The flows that belong under key string `k`, in order. */
  function Members(flows: seq<ParsedFlow>, k: string, keyOf: ParsedFlow -> string): (r: seq<ParsedFlow>)
    ensures forall f | f in r :: HasDestination(f) && keyOf(f) == k
    ensures forall i | 0 <= i < |flows| && HasDestination(flows[i]) && keyOf(flows[i]) == k :: flows[i] in r
  {
    if |flows| == 0 then []
    else
      var init := Members(flows[..|flows| - 1], k, keyOf);
      var f := flows[|flows| - 1];
      assert forall i | 0 <= i < |flows| - 1 :: flows[..|flows| - 1][i] == flows[i];
      if HasDestination(f) && keyOf(f) == k then init + [f] else init
  }

  /**
    The grouping loop builds exactly one group per key that some flow with
    a destination has; the group holds those flows in their original
    order, and its key is the destination of the first of them.
   */
  lemma {:induction false} GroupMapMembers(flows: seq<ParsedFlow>, k: string, keyOf: ParsedFlow -> string)
    ensures k in GroupMapBy(flows, keyOf) <==> |Members(flows, k, keyOf)| > 0
    ensures k in GroupMapBy(flows, keyOf) ==>
      GroupMapBy(flows, keyOf)[k].flows == Members(flows, k, keyOf)
      && GroupMapBy(flows, keyOf)[k].key == DestKey(Members(flows, k, keyOf)[0])
  {
    if |flows| > 0 {
      GroupMapMembers(flows[..|flows| - 1], k, keyOf);
    }
  }

  /**
    Grouping is a partition of the flows with a destination: each of them
    is in the group of its own key, and a group holds only flows whose key
    is the group's, the key of its first flow included.
   */
  lemma GroupsPartition(flows: seq<ParsedFlow>, keyOf: ParsedFlow -> string)
    ensures forall i | 0 <= i < |flows| && HasDestination(flows[i]) ::
      keyOf(flows[i]) in GroupMapBy(flows, keyOf) && flows[i] in GroupMapBy(flows, keyOf)[keyOf(flows[i])].flows
    ensures forall k | k in GroupMapBy(flows, keyOf) ::
      var g := GroupMapBy(flows, keyOf)[k];
      |g.flows| > 0 && g.key == DestKey(g.flows[0])
      && forall f | f in g.flows :: HasDestination(f) && keyOf(f) == k
  {
    forall i | 0 <= i < |flows| && HasDestination(flows[i])
      ensures keyOf(flows[i]) in GroupMapBy(flows, keyOf)
        && flows[i] in GroupMapBy(flows, keyOf)[keyOf(flows[i])].flows
    {
      GroupMapMembers(flows, keyOf(flows[i]), keyOf);
    }
    forall k | k in GroupMapBy(flows, keyOf)
      ensures var g := GroupMapBy(flows, keyOf)[k];
        |g.flows| > 0 && g.key == DestKey(g.flows[0])
        && forall f | f in g.flows :: HasDestination(f) && keyOf(f) == k
    {
      GroupMapMembers(flows, k, keyOf);
    }
  }

  /** Flows without a destination form no group at all. */
  lemma {:induction false} NoDestinationNoGroups(flows: seq<ParsedFlow>, keyOf: ParsedFlow -> string)
    requires forall i | 0 <= i < |flows| :: !HasDestination(flows[i])
    ensures GroupMapBy(flows, keyOf) == map[]
  {
    if |flows| > 0 {
      NoDestinationNoGroups(flows[..|flows| - 1], keyOf);
    }
  }

  lemma GroupMapSnoc(flows: seq<ParsedFlow>, i: nat, keyOf: ParsedFlow -> string)
    requires i < |flows|
    ensures GroupMapBy(flows[..i + 1], keyOf) == GroupStep(GroupMapBy(flows[..i], keyOf), flows[i], keyOf)
  {
    assert flows[..i + 1][..i] == flows[..i];
  }

  /** The order the groups are returned in: namespace, then the `%v`
      rendering of the label map. */
  function GroupOrder(g: EndpointFlows): SortKey
  {
    (g.key.namespace, FormatMap(g.key.labels))
  }

  /**
    `groupFlowsByEndpoint`: fills a map of groups flow by flow, collects the
    groups in the map's (unspecified) order, then sorts them by namespace
    and label rendering. The result holds each group of `GroupMap` once.
   */
  method GroupFlowsByEndpoint(flows: seq<ParsedFlow>) returns (result: seq<EndpointFlows>)
    ensures forall g :: g in result <==> g in GroupMap(flows).Values
    ensures |result| == |GroupMap(flows)|
    ensures SortedBy(result, GroupOrder)
  {
    var groups: map<string, EndpointFlows> := map[];
    for i := 0 to |flows|
      invariant groups == GroupMapBy(flows[..i], KeyString)
    {
      GroupMapSnoc(flows, i, KeyString);
      var flow := flows[i];
      if flow.destNamespace == "" || |flow.destLabels| == 0 {
        continue;
      }
      var key := EndpointKey(flow.destNamespace, flow.destLabels);
      var keyStr := EndpointKeyToString(key);
      assert keyStr == KeyString(flow);
      var group: EndpointFlows;
      if keyStr in groups {
        group := groups[keyStr];
      } else {
        group := EndpointFlows(key, []);
      }
      groups := groups[keyStr := group.(flows := group.flows + [flow])];
    }
    assert flows[..|flows|] == flows;

    var collected, order := CollectValues(groups);
    result := SortBy(collected, GroupOrder);
    PermutationMembers(result, collected);
  }
}
