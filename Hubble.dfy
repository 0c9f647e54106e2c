/**
  Hubble flow records and their normalisation into the flat record the
  policy synthesiser consumes (internal/hubble/types.go and parser.go).

  Only the fields the normalisation reads are kept: the flow's time, IP
  layer, flow type and event type, and an endpoint's workloads and
  identity, are not part of this model.
 */
module Hubble {
  import opened Wrappers
  import opened Strings
  import opened Labels
  import opened Sorting

  /** Go's `uint16`. */
  type Port = x: int | 0 <= x < 0x1_0000

  /** A pod: its `key=value` label strings, namespace and name. */
  datatype Endpoint = Endpoint(labels: seq<string>, namespace: string, podName: string)

  /** The TCP and UDP headers have the same two fields. */
  datatype PortPair = PortPair(sourcePort: Port, destinationPort: Port)

  /** Transport layer: each of TCP and UDP may be absent (nil in Go). */
  datatype Layer4 = Layer4(tcp: Option<PortPair>, udp: Option<PortPair>)

  datatype Flow = Flow(
    source: Option<Endpoint>,
    destination: Option<Endpoint>,
    l4: Option<Layer4>,
    verdict: string)

  /** A file of flows; an entry of `flows` may be nil. */
  datatype FlowCollection = FlowCollection(schema: string, flows: seq<Option<Flow>>)

  /** The flat record the synthesiser, the graph and the report consume. */
  datatype ParsedFlow = ParsedFlow(
    sourceLabels: Labels,
    sourceNamespace: string,
    sourcePod: string,
    destLabels: Labels,
    destNamespace: string,
    destPod: string,
    destPort: Port,
    protocol: string,
    direction: string,
    verdict: string)

  // ---------------------------------------------------------------------
  // ParseLabels
  // ---------------------------------------------------------------------

  /** The key of a label entry: what precedes its first `=`, or all of it. */
  function EntryKey(s: string): string
  {
    var i := IndexOf(s, '=');
    if i >= 0 then s[..i] else s
  }

  /** The value of a label entry: what follows its first `=`, or nothing. */
  function EntryValue(s: string): string
  {
    var i := IndexOf(s, '=');
    if i >= 0 then s[i + 1..] else ""
  }

  /** The effect of one entry on the map being filled. */
  function EntryStep(labels: Labels, s: string): Labels
  {
    var i := IndexOf(s, '=');
    if i >= 0 then labels[s[..i] := s[i + 1..]]
    else if s != "" then labels[s := ""]
    else labels
  }

  /** The map `ParseLabels` returns: the entries applied in order. */
  function LabelsOf(entries: seq<string>): Labels
  {
    if |entries| == 0 then map[]
    else EntryStep(LabelsOf(entries[..|entries| - 1]), entries[|entries| - 1])
  }

  /** `ParseLabels`: scans each entry for its first `=`; an entry without
      one becomes a key with an empty value, an empty entry is skipped. */
  method ParseLabels(entries: seq<string>) returns (labels: Labels)
    ensures labels == LabelsOf(entries)
  {
    labels := map[];
    for n := 0 to |entries|
      invariant labels == LabelsOf(entries[..n])
    {
      assert entries[..n + 1][..n] == entries[..n];
      var s := entries[n];
      ghost var before := labels;
      var found := false;
      var i := 0;
      while i < |s|
        invariant 0 <= i <= |s|
        invariant '=' !in s[..i]
        invariant !found && labels == before
      {
        if s[i] == '=' {
          assert s[..i + 1] == s[..i] + [s[i]];
          labels := labels[s[..i] := s[i + 1..]];
          found := true;
          break;
        }
        assert s[..i + 1] == s[..i] + [s[i]];
        i := i + 1;
      }
      if !found && s != "" {
        labels := labels[s := ""];
      }
    }
    assert entries[..|entries|] == entries;
  }

  /** An entry is split at its first `=`: the key holds no `=`, and the
      value is everything after it, further `=` included. */
  lemma EntrySplitsAtFirstEquals(s: string)
    ensures '=' !in EntryKey(s)
    ensures '=' in s ==> s == EntryKey(s) + "=" + EntryValue(s)
    ensures '=' !in s ==> EntryKey(s) == s && EntryValue(s) == ""
  {
    var i := IndexOf(s, '=');
    if i >= 0 {
      assert s == s[..i] + [s[i]] + s[i + 1..];
    }
  }

  /** One entry sets its key to its value, unless it is empty. */
  lemma EntryStepSets(labels: Labels, s: string)
    ensures EntryStep(labels, s) == if s == "" then labels else labels[EntryKey(s) := EntryValue(s)]
  {
  }

  /** The keys of `LabelsOf(entries)` are the keys of its non-empty entries. */
  lemma {:induction false} LabelsOfKeys(entries: seq<string>, k: string)
    ensures k in LabelsOf(entries) <==>
      exists j | 0 <= j < |entries| :: entries[j] != "" && EntryKey(entries[j]) == k
  {
    if |entries| > 0 {
      var n := |entries| - 1;
      var init := entries[..n];
      LabelsOfKeys(init, k);
      EntryStepSets(LabelsOf(init), entries[n]);
      assert forall j | 0 <= j < n :: init[j] == entries[j];
    }
  }

  /** Entry `j` is the last non-empty entry with key `k`. */
  ghost predicate LastEntryFor(entries: seq<string>, k: string, j: int)
  {
    0 <= j < |entries| && entries[j] != "" && EntryKey(entries[j]) == k
    && forall j' | j < j' < |entries| :: entries[j'] == "" || EntryKey(entries[j']) != k
  }

  /** A later entry overwrites an earlier one: each key holds the value of
      the last non-empty entry with that key. */
  lemma {:induction false} LabelsOfLastWins(entries: seq<string>, k: string)
    requires k in LabelsOf(entries)
    ensures exists j :: LastEntryFor(entries, k, j) && LabelsOf(entries)[k] == EntryValue(entries[j])
  {
    var n := |entries| - 1;
    var init := entries[..n];
    var s := entries[n];
    EntryStepSets(LabelsOf(init), s);
    if s != "" && EntryKey(s) == k {
      assert LastEntryFor(entries, k, n);
    } else {
      LabelsOfLastWins(init, k);
      var j :| LastEntryFor(init, k, j) && LabelsOf(init)[k] == EntryValue(init[j]);
      assert entries == init + [s];
      LastEntryExtend(init, s, k, j);
    }
  }

  lemma LastEntryExtend(init: seq<string>, s: string, k: string, j: int)
    requires LastEntryFor(init, k, j)
    requires s == "" || EntryKey(s) != k
    ensures LastEntryFor(init + [s], k, j)
  {
    var entries := init + [s];
    assert forall j' | 0 <= j' < |init| :: entries[j'] == init[j'];
  }

  /** Overwriting means there are never more keys than entries. */
  lemma {:induction false} LabelsOfSize(entries: seq<string>)
    ensures |LabelsOf(entries)| <= |entries|
  {
    if |entries| > 0 {
      var init := entries[..|entries| - 1];
      LabelsOfSize(init);
      var s := entries[|entries| - 1];
      EntryStepSets(LabelsOf(init), s);
      if s != "" {
        var m := LabelsOf(init);
        assert LabelsOf(entries).Keys == m.Keys + {EntryKey(s)};
        assert |m.Keys + {EntryKey(s)}| <= |m.Keys| + 1;
      }
    }
  }

  // ---------------------------------------------------------------------
  // ParseFlow / ParseFlows
  // ---------------------------------------------------------------------

  /** `ParseFlow`: the record starts from its defaults (protocol `TCP`,
      direction `ingress`, port 0, empty labels) and each present part of
      the flow overwrites the fields it carries. */
  function ParseFlow(flow: Option<Flow>): (r: Result<ParsedFlow, string>)
    ensures r.Failure? <==> flow.None?
    ensures flow.None? ==> r.error == "flow is nil"
    ensures r.Success? ==> r.value.direction == "ingress" && r.value.verdict == flow.value.verdict
    ensures r.Success? ==> r.value.protocol in {"TCP", "UDP"}
    ensures r.Success? && (flow.value.l4.None? || (flow.value.l4.value.tcp.None? && flow.value.l4.value.udp.None?)) ==>
      r.value.protocol == "TCP" && r.value.destPort == 0
    ensures r.Success? && flow.value.l4.Some? && flow.value.l4.value.tcp.Some? ==>
      r.value.protocol == "TCP" && r.value.destPort == flow.value.l4.value.tcp.value.destinationPort
    ensures r.Success? && flow.value.l4.Some? && flow.value.l4.value.tcp.None? && flow.value.l4.value.udp.Some? ==>
      r.value.protocol == "UDP" && r.value.destPort == flow.value.l4.value.udp.value.destinationPort
    ensures r.Success? ==>
      (flow.value.source.Some? ==>
        r.value.sourceLabels == LabelsOf(flow.value.source.value.labels)
        && r.value.sourceNamespace == flow.value.source.value.namespace
        && r.value.sourcePod == flow.value.source.value.podName)
      && (flow.value.source.None? ==>
        r.value.sourceLabels == map[] && r.value.sourceNamespace == "" && r.value.sourcePod == "")
    ensures r.Success? ==>
      (flow.value.destination.Some? ==>
        r.value.destLabels == LabelsOf(flow.value.destination.value.labels)
        && r.value.destNamespace == flow.value.destination.value.namespace
        && r.value.destPod == flow.value.destination.value.podName)
      && (flow.value.destination.None? ==>
        r.value.destLabels == map[] && r.value.destNamespace == "" && r.value.destPod == "")
  {
    if flow.None? then Failure("flow is nil")
    else
      var f := flow.value;
      var p := ParsedFlow(map[], "", "", map[], "", "", 0, "TCP", "ingress", f.verdict);
      var p := if f.source.Some? then
          p.(sourceLabels := LabelsOf(f.source.value.labels),
             sourceNamespace := f.source.value.namespace,
             sourcePod := f.source.value.podName)
        else p;
      var p := if f.destination.Some? then
          p.(destLabels := LabelsOf(f.destination.value.labels),
             destNamespace := f.destination.value.namespace,
             destPod := f.destination.value.podName)
        else p;
      var p := if f.l4.None? then p
        else if f.l4.value.tcp.Some? then p.(protocol := "TCP", destPort := f.l4.value.tcp.value.destinationPort)
        else if f.l4.value.udp.Some? then p.(protocol := "UDP", destPort := f.l4.value.udp.value.destinationPort)
        else p;
      var p := if p.destPod != "" then p.(direction := "ingress") else p;
      Success(p)
  }

  /** The record a present flow parses to. */
  function Parsed(f: Flow): ParsedFlow
  {
    ParseFlow(Some(f)).value
  }

  /** The non-nil entries of a flow list, in order. */
  function Present(flows: seq<Option<Flow>>): (r: seq<Flow>)
    ensures |r| <= |flows|
    ensures forall f :: f in r <==> Some(f) in flows
  {
    if |flows| == 0 then []
    else
      var init := Present(flows[..|flows| - 1]);
      assert flows == flows[..|flows| - 1] + [flows[|flows| - 1]];
      if flows[|flows| - 1].Some? then init + [flows[|flows| - 1].value] else init
  }

  /** One more entry: a present flow adds its image at the end. */
  lemma MapPresentSnoc<U>(f: Flow -> U, flows: seq<Option<Flow>>, i: nat)
    requires i < |flows|
    ensures Map(f, Present(flows[..i + 1])) ==
      if flows[i].Some? then Map(f, Present(flows[..i])) + [f(flows[i].value)] else Map(f, Present(flows[..i]))
  {
    assert flows[..i + 1][..i] == flows[..i];
    if flows[i].Some? {
      MapSnoc(f, Present(flows[..i]), flows[i].value);
    }
  }

  /** `ParseFlows`: a nil collection is an error; otherwise every non-nil
      flow is parsed and kept, in the order of the collection. */
  method ParseFlows(collection: Option<FlowCollection>) returns (r: Result<seq<ParsedFlow>, string>)
    ensures r.Failure? <==> collection.None?
    ensures collection.None? ==> r.error == "flow collection is nil"
    ensures collection.Some? ==> r.value == Map(Parsed, Present(collection.value.flows))
  {
    if collection.None? {
      return Failure("flow collection is nil");
    }
    var flows := collection.value.flows;
    var parsedFlows: seq<ParsedFlow> := [];
    for i := 0 to |flows|
      invariant parsedFlows == Map(Parsed, Present(flows[..i]))
    {
      MapPresentSnoc(Parsed, flows, i);
      var parsed := ParseFlow(flows[i]);
      if parsed.Failure? {
        continue;
      }
      assert flows[i] == Some(flows[i].value);
      parsedFlows := parsedFlows + [parsed.value];
    }
    assert flows[..|flows|] == flows;
    return Success(parsedFlows);
  }
}
