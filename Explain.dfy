/**
  The statistics of the HTML report (internal/explain/report.go): the
  namespaces seen, the number of flows per protocol, the text of a label
  set, and the counts `GenerateReport` records. The HTML itself and the
  file it is written to are not part of this model.
 */
module Explain {
  import opened Wrappers
  import opened Strings
  import opened Sorting
  import opened Labels
  import opened Hubble
  import opened PolicyTypes
  import opened GoMaps
  import opened Graph

  // ---------------------------------------------------------------------
  // collectNamespaces
  // ---------------------------------------------------------------------

  /** The non-empty namespaces at the two ends of a flow. */
  function FlowNamespaces(f: ParsedFlow): set<string>
  {
    (if f.sourceNamespace != "" then {f.sourceNamespace} else {})
    + (if f.destNamespace != "" then {f.destNamespace} else {})
  }

  /** The namespaces of the flows, gathered flow by flow. */
  function NamespaceSet(flows: seq<ParsedFlow>): set<string>
  {
    if |flows| == 0 then {}
    else NamespaceSet(flows[..|flows| - 1]) + FlowNamespaces(flows[|flows| - 1])
  }

  /** The namespaces gathered are exactly the non-empty namespaces that
      occur at either end of some flow. */
  lemma {:induction false} NamespaceSetMembers(flows: seq<ParsedFlow>)
    ensures forall ns :: ns in NamespaceSet(flows) <==>
      ns != "" && exists i | 0 <= i < |flows| :: flows[i].sourceNamespace == ns || flows[i].destNamespace == ns
  {
    if |flows| > 0 {
      var n := |flows| - 1;
      var init := flows[..n];
      NamespaceSetMembers(init);
      forall ns ensures ns in NamespaceSet(flows) <==>
        ns != "" && exists i | 0 <= i < |flows| :: flows[i].sourceNamespace == ns || flows[i].destNamespace == ns
      {
        if ns != "" && exists i | 0 <= i < |flows| :: flows[i].sourceNamespace == ns || flows[i].destNamespace == ns {
          var i :| 0 <= i < |flows| && (flows[i].sourceNamespace == ns || flows[i].destNamespace == ns);
          if i < n {
            assert init[i] == flows[i];
          }
        }
        if ns in NamespaceSet(init) {
          var i :| 0 <= i < |init| && (init[i].sourceNamespace == ns || init[i].destNamespace == ns);
          assert flows[i] == init[i];
        }
      }
    }
  }

  /**
    `collectNamespaces`: marks every non-empty namespace in a map, lists
    the map's keys in whatever order ranging over it visits them, and sorts
    them. The result is the namespaces, each once, in increasing order.
   */
  method CollectNamespaces(flows: seq<ParsedFlow>) returns (namespaces: seq<string>)
    ensures namespaces == SortedElements(NamespaceSet(flows))
  {
    var nsMap: map<string, bool> := map[];
    for i := 0 to |flows|
      invariant nsMap.Keys == NamespaceSet(flows[..i])
    {
      assert flows[..i + 1][..i] == flows[..i];
      if flows[i].sourceNamespace != "" {
        nsMap := nsMap[flows[i].sourceNamespace := true];
      }
      if flows[i].destNamespace != "" {
        nsMap := nsMap[flows[i].destNamespace := true];
      }
    }
    assert flows[..|flows|] == flows;
    var keys := CollectKeys(nsMap);
    namespaces := SortBy(keys, StringKey);
    SortAnyOrder(nsMap.Keys, keys);
  }

  // ---------------------------------------------------------------------
  // collectProtocols
  // ---------------------------------------------------------------------

  /** The protocol count after the flows: every non-empty protocol
      counts one more for each flow that carries it. */
  function ProtocolCounts(flows: seq<ParsedFlow>): map<string, nat>
  {
    if |flows| == 0 then map[]
    else
      var m := ProtocolCounts(flows[..|flows| - 1]);
      var p := flows[|flows| - 1].protocol;
      if p == "" then m else m[p := (if p in m then m[p] else 0) + 1]
  }

  /** `collectProtocols`: one counter per protocol, a missing one read as
      zero. */
  method CollectProtocols(flows: seq<ParsedFlow>) returns (protocols: map<string, nat>)
    ensures protocols == ProtocolCounts(flows)
  {
    protocols := map[];
    for i := 0 to |flows|
      invariant protocols == ProtocolCounts(flows[..i])
    {
      assert flows[..i + 1][..i] == flows[..i];
      var p := flows[i].protocol;
      if p != "" {
        protocols := protocols[p := (if p in protocols then protocols[p] else 0) + 1];
      }
    }
    assert flows[..|flows|] == flows;
  }

  /** The protocols of the flows, in order. */
  function Protocols(flows: seq<ParsedFlow>): seq<string>
  {
    Map(ProtocolOf, flows)
  }

  function ProtocolOf(f: ParsedFlow): string
  {
    f.protocol
  }

  /** The count of a protocol is the number of flows that carry it, and a
      protocol has a count exactly when it is non-empty and some flow
      carries it. */
  lemma {:induction false} ProtocolCountIsMultiplicity(flows: seq<ParsedFlow>, p: string)
    ensures p in ProtocolCounts(flows) <==> p != "" && multiset(Protocols(flows))[p] > 0
    ensures p in ProtocolCounts(flows) ==> ProtocolCounts(flows)[p] == multiset(Protocols(flows))[p]
  {
    if |flows| > 0 {
      var n := |flows| - 1;
      var init := flows[..n];
      ProtocolCountIsMultiplicity(init, p);
      InitLast(flows);
      ProtocolCountStep(init, flows[n], p);
    }
  }

  /** One more flow adds one to its own protocol's count. */
  lemma ProtocolCountStep(init: seq<ParsedFlow>, f: ParsedFlow, p: string)
    requires p in ProtocolCounts(init) <==> p != "" && multiset(Protocols(init))[p] > 0
    requires p in ProtocolCounts(init) ==> ProtocolCounts(init)[p] == multiset(Protocols(init))[p]
    ensures p in ProtocolCounts(init + [f]) <==> p != "" && multiset(Protocols(init + [f]))[p] > 0
    ensures p in ProtocolCounts(init + [f]) ==> ProtocolCounts(init + [f])[p] == multiset(Protocols(init + [f]))[p]
  {
    ProtocolCountsSnoc(init, f);
    MultisetMapSnoc(ProtocolOf, init, f);
    assert multiset(Protocols(init + [f]))[p] == multiset(Protocols(init))[p] + (if p == f.protocol then 1 else 0);
  }

  lemma ProtocolCountsSnoc(init: seq<ParsedFlow>, f: ParsedFlow)
    ensures var m := ProtocolCounts(init);
      ProtocolCounts(init + [f]) ==
        if f.protocol == "" then m else m[f.protocol := (if f.protocol in m then m[f.protocol] else 0) + 1]
  {
    assert (init + [f])[..|init|] == init;
  }

  /** The number of flows whose protocol is known. */
  function FlowsWithProtocol(flows: seq<ParsedFlow>): nat
  {
    if |flows| == 0 then 0
    else FlowsWithProtocol(flows[..|flows| - 1]) + (if flows[|flows| - 1].protocol != "" then 1 else 0)
  }

  /** The sum of the values under `keys`, taken key by key. */
  ghost function SumOver(keys: set<string>, m: map<string, nat>): nat
    requires keys <= m.Keys
    decreases keys
  {
    if keys == {} then 0
    else
      var k :| k in keys;
      m[k] + SumOver(keys - {k}, m)
  }

  /** The sum of the values of a map. */
  ghost function SumValues(m: map<string, nat>): nat
  {
    SumOver(m.Keys, m)
  }

  /** The sum does not depend on which key is taken first. */
  lemma {:induction false} SumOverRemove(keys: set<string>, m: map<string, nat>, k: string)
    requires keys <= m.Keys && k in keys
    ensures SumOver(keys, m) == m[k] + SumOver(keys - {k}, m)
    decreases keys
  {
    var j :| j in keys && SumOver(keys, m) == m[j] + SumOver(keys - {j}, m);
    if j != k {
      SumOverRemove(keys - {j}, m, k);
      SumOverRemove(keys - {k}, m, j);
      assert keys - {j} - {k} == keys - {k} - {j};
    }
  }

  /** Maps that agree on `keys` have the same sum over them. */
  lemma {:induction false} SumOverAgree(keys: set<string>, m: map<string, nat>, m': map<string, nat>)
    requires keys <= m.Keys && keys <= m'.Keys
    requires forall k | k in keys :: m[k] == m'[k]
    ensures SumOver(keys, m) == SumOver(keys, m')
    decreases keys
  {
    if keys != {} {
      var k :| k in keys;
      SumOverRemove(keys, m, k);
      SumOverRemove(keys, m', k);
      SumOverAgree(keys - {k}, m, m');
    }
  }

  /** Counting one more occurrence adds one to the sum. */
  lemma SumValuesIncrement(m: map<string, nat>, p: string)
    ensures SumValues(m[p := (if p in m then m[p] else 0) + 1]) == SumValues(m) + 1
  {
    var m' := m[p := (if p in m then m[p] else 0) + 1];
    SumOverRemove(m'.Keys, m', p);
    if p in m {
      assert m'.Keys == m.Keys;
      SumOverRemove(m.Keys, m, p);
      SumOverAgree(m.Keys - {p}, m, m');
    } else {
      assert m'.Keys - {p} == m.Keys;
      SumOverAgree(m.Keys, m, m');
    }
  }

  /** The counts add up to the number of flows with a protocol. */
  lemma {:induction false} ProtocolCountsSum(flows: seq<ParsedFlow>)
    ensures SumValues(ProtocolCounts(flows)) == FlowsWithProtocol(flows)
  {
    if |flows| > 0 {
      var n := |flows| - 1;
      ProtocolCountsSum(flows[..n]);
      var p := flows[n].protocol;
      if p != "" {
        SumValuesIncrement(ProtocolCounts(flows[..n]), p);
      }
    } else {
      assert ProtocolCounts(flows) == map[];
    }
  }

  // ---------------------------------------------------------------------
  // formatLabels
  // ---------------------------------------------------------------------

  /** The text of a label set: `none`, or its sorted `k=v` pairs joined
      by a comma and a space. */
  function LabelsText(labels: Labels): string
  {
    if |labels| == 0 then "none" else Join(LabelPairs(labels), ", ")
  }

  /** `formatLabels`: collects `k=v` for each entry in the order ranging
      over the map visits them, sorts and joins. */
  method FormatLabels(labels: Labels) returns (s: string)
    ensures s == LabelsText(labels)
  {
    if |labels| == 0 {
      return "none";
    }
    var pairs;
    ghost var order;
    pairs, order := CollectMapped(labels, Pair);
    assert pairs == Map(PairFn(labels), order);
    PairsAnyOrder(labels, order);
    s := Join(SortBy(pairs, StringKey), ", ");
  }

  /** `none` stands for the empty label set only: every pair holds `=`. */
  lemma LabelsTextNone(labels: Labels)
    ensures LabelsText(labels) == "none" <==> |labels| == 0
  {
    if |labels| > 0 {
      var pairs := LabelPairs(labels);
      var first := pairs[0];
      assert first in pairs;
      var j :| j in labels && first == Pair(j, labels[j]);
      assert first[|j|] == '=';
      JoinStartsWith(pairs, ", ");
      var text := Join(pairs, ", ");
      NoneHasNoEquals(text, |j|);
    }
  }

  lemma NoneHasNoEquals(text: string, i: nat)
    requires i < |text| && text[i] == '='
    ensures text != "none"
  {
    if |text| == 4 {
      assert "none"[i] != '=';
    }
  }

  /** A join begins with its first part. */
  lemma JoinStartsWith(parts: seq<string>, sep: string)
    requires |parts| > 0
    ensures |parts[0]| <= |Join(parts, sep)| && Join(parts, sep)[..|parts[0]|] == parts[0]
  {
    if |parts| > 1 {
      assert Join(parts, sep) == parts[0] + (sep + Join(parts[1..], sep));
    }
  }

  // ---------------------------------------------------------------------
  // GenerateReport
  // ---------------------------------------------------------------------

  /** The data behind the report. `generatedAt` is the clock reading the
      caller passes in. */
  datatype ReportData = ReportData(
    generatedAt: int,
    flowCount: nat,
    parsedFlowCount: nat,
    policyCount: nat,
    policies: seq<Policy>,
    graph: NetworkGraph,
    namespaces: seq<string>,
    protocols: map<string, nat>)

  /** `GenerateReport`: the graph and the statistics of the flows, and the
      policies with their number. It has no failure path. */
  method GenerateReport(flows: seq<ParsedFlow>, policies: seq<Policy>, now: int)
    returns (r: Result<ReportData, string>, ghost choices: seq<Choice>)
    ensures r.Success?
    ensures r.value.generatedAt == now
    ensures r.value.flowCount == r.value.parsedFlowCount == |flows|
    ensures r.value.policyCount == |policies| && r.value.policies == policies
    ensures AllChosen(flows, choices)
    ensures forall n :: n in r.value.graph.nodes <==> n in NodeMapOf(flows, choices).Values
    ensures StrictlySortedBy(r.value.graph.nodes, NodeKey)
    ensures SortedBy(r.value.graph.edges, EdgeKey)
    ensures multiset(r.value.graph.edges) == multiset(EdgesOf(flows, choices))
    ensures r.value.namespaces == SortedElements(NamespaceSet(flows))
    ensures r.value.protocols == ProtocolCounts(flows)
  {
    var networkGraph;
    networkGraph, choices := GenerateGraph(flows);
    var namespaces := CollectNamespaces(flows);
    var protocols := CollectProtocols(flows);
    r := Success(ReportData(now, |flows|, |flows|, |policies|, policies, networkGraph, namespaces, protocols));
  }
}
