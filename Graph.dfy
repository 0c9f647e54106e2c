/**
  The flow graph (internal/graph/graph.go): one node per workload seen at
  either end of a flow, one edge per flow, and its rendering as a Mermaid
  diagram. Node IDs are derived from labels and cleaned up so that Mermaid
  accepts them.
 */
module Graph {
  import opened Wrappers
  import opened Strings
  import opened Sorting
  import opened Labels
  import opened Hubble
  import opened GoMaps

  datatype GraphNode = GraphNode(id: string, caption: string, namespace: string, kind: string)

  datatype Edge = Edge(from: string, to: string, port: Port, protocol: string, caption: string)

  datatype NetworkGraph = NetworkGraph(nodes: seq<GraphNode>, edges: seq<Edge>)

  // ---------------------------------------------------------------------
  // sanitizeID
  // ---------------------------------------------------------------------

  /** The characters `sanitizeID` turns into hyphens. */
  predicate Replaced(c: char)
  {
    c == ':' || c == '.' || c == '_' || c == ' '
  }

  /** `strings.ReplaceAll(s, string(c), "-")`. */
  function ReplaceChar(s: string, c: char): string
  {
    if |s| == 0 then [] else [if s[0] == c then '-' else s[0]] + ReplaceChar(s[1..], c)
  }

  /** Each occurrence of `c` becomes a hyphen; nothing else changes. */
  lemma {:induction false} ReplaceCharAt(s: string, c: char)
    ensures |ReplaceChar(s, c)| == |s|
    ensures forall i | 0 <= i < |s| :: ReplaceChar(s, c)[i] == if s[i] == c then '-' else s[i]
  {
    if |s| > 0 {
      ReplaceCharAt(s[1..], c);
    }
  }

  /** Every character that needs it turned into a hyphen. */
  function Hyphenate(s: string): string
  {
    ReplaceChar(ReplaceChar(ReplaceChar(ReplaceChar(s, ':'), '.'), '_'), ' ')
  }

  /** A pair of hyphens starts at `i`. */
  predicate PairAt(s: string, i: nat)
    requires i + 1 < |s|
  {
    s[i] == '-' && s[i + 1] == '-'
  }

  /** `strings.Contains(s, "--")`. */
  predicate HasDoubleHyphen(s: string)
  {
    exists i: nat | i + 1 < |s| :: PairAt(s, i)
  }

  /** A piece of a text without a pair of hyphens has none either. */
  lemma NoDoubleHyphenSlice(piece: string, s: string, from: nat)
    requires from + |piece| <= |s| && piece == s[from..from + |piece|]
    requires !HasDoubleHyphen(s)
    ensures !HasDoubleHyphen(piece)
  {
    forall i: nat | i + 1 < |piece| ensures !PairAt(piece, i) {
      assert piece[i] == s[from + i] && piece[i + 1] == s[from + i + 1];
      assert !PairAt(s, from + i);
    }
  }

  /** A pair of hyphens not at the front lies in the tail. */
  lemma NoDoubleHyphenCons(s: string)
    requires |s| >= 2 && !PairAt(s, 0) && !HasDoubleHyphen(s[1..])
    ensures !HasDoubleHyphen(s)
  {
    forall i: nat | 0 < i && i + 1 < |s| ensures !PairAt(s, i) {
      assert s[i] == s[1..][i - 1] && s[i + 1] == s[1..][i];
      assert !PairAt(s[1..], i - 1);
    }
  }

  /** `strings.ReplaceAll(s, "--", "-")`: non-overlapping pairs, left to
      right, so a run of three hyphens becomes two. */
  function ReplaceDoubleHyphens(s: string): (r: string)
    ensures |r| <= |s|
    ensures HasDoubleHyphen(s) ==> |r| < |s|
  {
    if |s| < 2 then s
    else if s[0] == '-' && s[1] == '-' then "-" + ReplaceDoubleHyphens(s[2..])
    else
      assert HasDoubleHyphen(s) ==> HasDoubleHyphen(s[1..]) by {
        if !HasDoubleHyphen(s[1..]) {
          NoDoubleHyphenCons(s);
        }
      }
      [s[0]] + ReplaceDoubleHyphens(s[1..])
  }

  /** Every run of hyphens shortened to a single hyphen: what repeating
      `ReplaceDoubleHyphens` until no pair is left arrives at. */
  function SqueezeHyphens(s: string): string
  {
    if |s| < 2 then s
    else if s[0] == '-' && s[1] == '-' then SqueezeHyphens(s[1..])
    else [s[0]] + SqueezeHyphens(s[1..])
  }

  /** Squeezing keeps the first character, adds no character and leaves
      no pair of hyphens. */
  lemma {:induction false} SqueezeProps(s: string)
    ensures |s| > 0 ==> |SqueezeHyphens(s)| > 0 && SqueezeHyphens(s)[0] == s[0]
    ensures forall c | c in SqueezeHyphens(s) :: c in s
    ensures !HasDoubleHyphen(SqueezeHyphens(s))
  {
    if |s| >= 2 {
      SqueezeProps(s[1..]);
      if !(s[0] == '-' && s[1] == '-') {
        var rest := SqueezeHyphens(s[1..]);
        var r := [s[0]] + rest;
        assert r[1..] == rest;
        assert !PairAt(r, 0);
        NoDoubleHyphenCons(r);
        assert forall c | c in r :: c == s[0] || c in rest;
      }
    }
  }

  /** A hyphen put in front of a squeezed text, unless one is already there. */
  function PrependHyphen(s: string): string
  {
    if |s| > 0 && s[0] == '-' then s else "-" + s
  }

  lemma SqueezeCons(c: char, s: string)
    ensures SqueezeHyphens([c] + s) == if c == '-' then PrependHyphen(SqueezeHyphens(s)) else [c] + SqueezeHyphens(s)
  {
    assert ([c] + s)[1..] == s;
    SqueezeProps(s);
  }

  /** One round of the loop does not change what the loop arrives at. */
  lemma {:induction false} SqueezeReplace(s: string)
    ensures SqueezeHyphens(ReplaceDoubleHyphens(s)) == SqueezeHyphens(s)
  {
    if |s| >= 2 {
      if s[0] == '-' && s[1] == '-' {
        var t := s[2..];
        SqueezeReplace(t);
        assert "-" + ReplaceDoubleHyphens(t) == ['-'] + ReplaceDoubleHyphens(t);
        SqueezeCons('-', ReplaceDoubleHyphens(t));
        assert s == ['-'] + (['-'] + t);
        SqueezeCons('-', ['-'] + t);
        SqueezeCons('-', t);
      } else {
        SqueezeReplace(s[1..]);
        SqueezeCons(s[0], ReplaceDoubleHyphens(s[1..]));
        SqueezeCons(s[0], s[1..]);
        assert s == [s[0]] + s[1..];
      }
    }
  }

  /** Without a pair of hyphens there is nothing to squeeze. */
  lemma {:induction false} SqueezeFixed(s: string)
    requires !HasDoubleHyphen(s)
    ensures SqueezeHyphens(s) == s
  {
    if |s| >= 2 {
      NoDoubleHyphenSlice(s[1..], s, 1);
      SqueezeFixed(s[1..]);
      assert !PairAt(s, 0);
      assert s == [s[0]] + s[1..];
    }
  }

  function TrimLeftHyphens(s: string): string
  {
    if |s| > 0 && s[0] == '-' then TrimLeftHyphens(s[1..]) else s
  }

  function TrimRightHyphens(s: string): string
  {
    if |s| > 0 && s[|s| - 1] == '-' then TrimRightHyphens(s[..|s| - 1]) else s
  }

  /** `strings.Trim(s, "-")`: the text between the leading and the trailing
      hyphens. */
  function TrimHyphens(s: string): string
  {
    TrimRightHyphens(TrimLeftHyphens(s))
  }

  /** Trimming on the left leaves a suffix that does not start with a
      hyphen, and nothing to do if there is no leading hyphen. */
  lemma {:induction false} TrimLeftProps(s: string)
    ensures var r := TrimLeftHyphens(s);
      |r| <= |s| && r == s[|s| - |r|..|s|]
      && (|r| > 0 ==> r[0] != '-')
      && (|s| > 0 && s[0] != '-' ==> r == s)
  {
    if |s| > 0 && s[0] == '-' {
      TrimLeftProps(s[1..]);
      var r := TrimLeftHyphens(s[1..]);
      assert s[1..][|s| - 1 - |r|..|s| - 1] == s[|s| - |r|..|s|];
    }
  }

  lemma {:induction false} TrimRightProps(s: string)
    ensures var r := TrimRightHyphens(s);
      |r| <= |s| && r == s[..|r|]
      && (|r| > 0 ==> r[|r| - 1] != '-')
      && (|s| > 0 && s[|s| - 1] != '-' ==> r == s)
  {
    if |s| > 0 && s[|s| - 1] == '-' {
      TrimRightProps(s[..|s| - 1]);
      var r := TrimRightHyphens(s[..|s| - 1]);
      assert s[..|s| - 1][..|r|] == s[..|r|];
    }
  }

  /** The trimmed text is a piece of the text with no hyphen at either
      end. */
  lemma TrimProps(s: string)
    ensures var r := TrimHyphens(s);
      (|r| > 0 ==> r[0] != '-' && r[|r| - 1] != '-')
      && (forall c | c in r :: c in s)
      && (!HasDoubleHyphen(s) ==> !HasDoubleHyphen(r))
      && ((|s| > 0 ==> s[0] != '-' && s[|s| - 1] != '-') ==> r == s)
  {
    var left := TrimLeftHyphens(s);
    TrimLeftProps(s);
    TrimRightProps(left);
    var r := TrimRightHyphens(left);
    var from := |s| - |left|;
    assert r == s[from..from + |r|];
    forall c | c in r ensures c in s {
      var i :| 0 <= i < |r| && r[i] == c;
      assert s[from + i] == c;
    }
    if !HasDoubleHyphen(s) {
      NoDoubleHyphenSlice(r, s, from);
    }
  }

  /** What `sanitizeID` returns. */
  function Sanitize(id: string): string
  {
    TrimHyphens(SqueezeHyphens(Hyphenate(ToLower(id))))
  }

  /** A usable Mermaid node ID: no upper-case letter, none of the replaced
      characters, no pair of hyphens, no hyphen at either end. */
  predicate Clean(id: string)
  {
    (forall c | c in id :: !IsUpperAscii(c) && !Replaced(c))
    && !HasDoubleHyphen(id)
    && (|id| > 0 ==> id[0] != '-' && id[|id| - 1] != '-')
  }

  /**
    `sanitizeID`: lower-cases the text, turns `:`, `.`, `_` and spaces into
    hyphens, replaces pairs of hyphens as long as there are any, and trims
    hyphens at both ends.
   */
  method SanitizeId(id: string) returns (r: string)
    ensures r == Sanitize(id)
  {
    var s := ToLower(id);
    s := ReplaceChar(s, ':');
    s := ReplaceChar(s, '.');
    s := ReplaceChar(s, '_');
    s := ReplaceChar(s, ' ');
    ghost var hyphenated := s;
    while HasDoubleHyphen(s)
      invariant SqueezeHyphens(s) == SqueezeHyphens(hyphenated)
      decreases |s|
    {
      SqueezeReplace(s);
      s := ReplaceDoubleHyphens(s);
    }
    SqueezeFixed(s);
    r := TrimHyphens(s);
  }

  lemma HyphenateClean(s: string)
    ensures forall c | c in Hyphenate(ToLower(s)) :: !IsUpperAscii(c) && !Replaced(c)
  {
    var l := ToLower(s);
    var h1 := ReplaceChar(l, ':');
    var h2 := ReplaceChar(h1, '.');
    var h3 := ReplaceChar(h2, '_');
    var h := ReplaceChar(h3, ' ');
    ReplaceCharAt(l, ':');
    ReplaceCharAt(h1, '.');
    ReplaceCharAt(h2, '_');
    ReplaceCharAt(h3, ' ');
    forall c | c in h ensures !IsUpperAscii(c) && !Replaced(c) {
      var i :| 0 <= i < |h| && h[i] == c;
      assert l[i] == LowerChar(s[i]);
    }
  }

  /** Every ID that comes out of `sanitizeID` is clean. */
  lemma SanitizeClean(id: string)
    ensures Clean(Sanitize(id))
  {
    var h := Hyphenate(ToLower(id));
    HyphenateClean(id);
    SqueezeProps(h);
    var q := SqueezeHyphens(h);
    TrimProps(q);
    var r := TrimHyphens(q);
    assert forall c | c in r :: c in h;
  }

  /** A clean ID is left as it is. */
  lemma CleanFixed(id: string)
    requires Clean(id)
    ensures Sanitize(id) == id
  {
    LowerFixed(id);
    ReplaceFixed(id, ':');
    ReplaceFixed(id, '.');
    ReplaceFixed(id, '_');
    ReplaceFixed(id, ' ');
    SqueezeFixed(id);
    TrimProps(id);
  }

  lemma LowerFixed(s: string)
    requires forall c | c in s :: !IsUpperAscii(c)
    ensures ToLower(s) == s
  {
    assert forall i | 0 <= i < |s| :: ToLower(s)[i] == s[i];
  }

  lemma ReplaceFixed(s: string, c: char)
    requires c !in s
    ensures ReplaceChar(s, c) == s
  {
    ReplaceCharAt(s, c);
    assert forall i | 0 <= i < |s| :: ReplaceChar(s, c)[i] == s[i];
  }

  /** Sanitizing twice is sanitizing once. */
  lemma SanitizeIdempotent(id: string)
    ensures Sanitize(Sanitize(id)) == Sanitize(id)
  {
    SanitizeClean(id);
    CleanFixed(Sanitize(id));
  }

  // ---------------------------------------------------------------------
  // getNodeID and getNodeLabel
  // ---------------------------------------------------------------------

  /** The ID `getNodeID` gives a workload: the `k8s:app` label, else the
      `app` label, else the label under `fallback` (the key that ranging
      over the map met first), prefixed with the namespace and a hyphen;
      the bare namespace when no label applies; sanitized in every case. */
  function NodeIdOf(labels: Labels, namespace: string, fallback: string): string
  {
    if "k8s:app" in labels then Sanitize(namespace + "-" + labels["k8s:app"])
    else if "app" in labels then Sanitize(namespace + "-" + labels["app"])
    else if fallback in labels then Sanitize(namespace + "-" + labels[fallback])
    else Sanitize(namespace)
  }

  /** `getNodeID`. `fallback` is the key the map iteration visited first;
      Go leaves that order unspecified. */
  method GetNodeId(labels: Labels, namespace: string) returns (id: string, ghost fallback: string)
    ensures |labels| > 0 ==> fallback in labels
    ensures id == NodeIdOf(labels, namespace, fallback)
  {
    fallback := "";
    if |labels| > 0 {
      fallback :| fallback in labels;
    }
    if "k8s:app" in labels {
      id := SanitizeId(namespace + "-" + labels["k8s:app"]);
      return;
    }
    if "app" in labels {
      id := SanitizeId(namespace + "-" + labels["app"]);
      return;
    }
    if |labels| > 0 {
      var k :| k in labels;
      fallback := k;
      id := SanitizeId(namespace + "-" + labels[k]);
      return;
    }
    id := SanitizeId(namespace);
  }

  /** Every node ID is clean, whichever label it came from. */
  lemma NodeIdClean(labels: Labels, namespace: string, fallback: string)
    ensures Clean(NodeIdOf(labels, namespace, fallback))
  {
    if "k8s:app" in labels {
      SanitizeClean(namespace + "-" + labels["k8s:app"]);
    } else if "app" in labels {
      SanitizeClean(namespace + "-" + labels["app"]);
    } else if fallback in labels {
      SanitizeClean(namespace + "-" + labels[fallback]);
    } else {
      SanitizeClean(namespace);
    }
  }

  /** The ID does not depend on the iteration order when an app label is
      present or there is at most one label to meet first. */
  lemma NodeIdStable(labels: Labels, namespace: string, a: string, b: string)
    requires |labels| > 0 ==> a in labels && b in labels
    requires "k8s:app" in labels || "app" in labels || |labels| <= 1
    ensures NodeIdOf(labels, namespace, a) == NodeIdOf(labels, namespace, b)
  {
    if "k8s:app" !in labels && "app" !in labels && |labels| == 1 {
      SingletonKey(labels, a, b);
    }
  }

  /** A map with one key has only that key. */
  lemma SingletonKey(labels: Labels, a: string, b: string)
    requires |labels| == 1 && a in labels && b in labels
    ensures a == b
  {
    var rest := labels.Keys - {a};
    assert labels.Keys == rest + {a};
    assert |rest| == 0;
    assert b !in rest;
  }

  const PreferredLabelKeys: seq<string> := ["k8s:app", "app", "name", "component"]

  /** The caption `getNodeLabel` gives a workload: the value of the first
      preferred key present, else the label under `fallback`, else
      `unknown`. */
  function NodeCaptionOf(labels: Labels, fallback: string): string
  {
    match FirstPresent(labels, PreferredLabelKeys)
    case Some(k) => labels[k]
    case None => if fallback in labels then labels[fallback] else "unknown"
  }

  /** `getNodeLabel`. `fallback` is the key the map iteration visited first. */
  method GetNodeLabel(labels: Labels) returns (caption: string, ghost fallback: string)
    ensures |labels| > 0 ==> fallback in labels
    ensures caption == NodeCaptionOf(labels, fallback)
  {
    fallback := "";
    if |labels| > 0 {
      fallback :| fallback in labels;
    }
    var preferred := LookupFirst(labels, PreferredLabelKeys);
    if preferred.Some? {
      return preferred.value, fallback;
    }
    if |labels| > 0 {
      var k :| k in labels;
      return labels[k], k;
    }
    return "unknown", fallback;
  }

  /** A workload with labels is captioned by one of its label values, by
      the value of a preferred key whenever it has one (then whichever key
      the iteration meets first), and `unknown` only without labels. */
  lemma NodeCaptionIsLabel(labels: Labels, fallback: string, other: string)
    requires |labels| > 0 ==> fallback in labels
    ensures |labels| > 0 ==> NodeCaptionOf(labels, fallback) in labels.Values
    ensures |labels| == 0 ==> NodeCaptionOf(labels, fallback) == "unknown"
    ensures (exists k | k in PreferredLabelKeys :: k in labels) ==>
      NodeCaptionOf(labels, fallback) in PreferredValues(labels)
      && NodeCaptionOf(labels, fallback) == NodeCaptionOf(labels, other)
  {
  }

  /** The values of the preferred keys that are present. */
  function PreferredValues(labels: Labels): set<string>
  {
    set k | k in PreferredLabelKeys && k in labels :: labels[k]
  }

  // ---------------------------------------------------------------------
  // GenerateGraph
  // ---------------------------------------------------------------------

  /** Only flows with labels at both ends make it into the graph. */
  predicate Usable(f: ParsedFlow)
  {
    |f.sourceLabels| > 0 && |f.destLabels| > 0
  }

  /** What the lookups of one end of a flow returned: its ID and caption,
      with the keys the two map iterations met first. */
  datatype Lookup = Lookup(id: string, idKey: string, caption: string, captionKey: string)

  /** The lookups of one end: each key met first is a label key, and the
      ID and caption are what those keys give. */
  predicate LookedUp(labels: Labels, namespace: string, l: Lookup)
  {
    l.idKey in labels && l.captionKey in labels
    && l.id == NodeIdOf(labels, namespace, l.idKey) && l.caption == NodeCaptionOf(labels, l.captionKey)
  }

  /** What the lookups of both ends of a flow returned. */
  datatype Choice = Choice(source: Lookup, dest: Lookup)

  const Skipped := Choice(Lookup("", "", "", ""), Lookup("", "", "", ""))

  predicate Chosen(f: ParsedFlow, c: Choice)
  {
    Usable(f) ==> LookedUp(f.sourceLabels, f.sourceNamespace, c.source) && LookedUp(f.destLabels, f.destNamespace, c.dest)
  }

  /** `Protocol:Port`. */
  function EdgeLabel(protocol: string, port: Port): string
  {
    protocol + ":" + NatToString(port)
  }

  /** A node is added under its ID only if no node has that ID yet. */
  function AddNode(nodes: map<string, GraphNode>, id: string, caption: string, namespace: string): map<string, GraphNode>
  {
    if id in nodes then nodes else nodes[id := GraphNode(id, caption, namespace, "pod")]
  }

  /** The nodes of both ends of a usable flow, each added if its ID is new. */
  function NodeStep(m: map<string, GraphNode>, f: ParsedFlow, c: Choice): map<string, GraphNode>
  {
    if !Usable(f) then m
    else AddNode(AddNode(m, c.source.id, c.source.caption, f.sourceNamespace), c.dest.id, c.dest.caption, f.destNamespace)
  }

  /** The node map after the flows, with the given choices. */
  function NodeMapOf(flows: seq<ParsedFlow>, choices: seq<Choice>): (m: map<string, GraphNode>)
    requires |choices| == |flows|
    ensures forall k | k in m :: m[k].id == k
  {
    if |flows| == 0 then map[]
    else
      var n := |flows| - 1;
      NodeStep(NodeMapOf(flows[..n], choices[..n]), flows[n], choices[n])
  }

  /** The usable flows, in order. */
  function UsableFlows(flows: seq<ParsedFlow>): seq<ParsedFlow>
  {
    if |flows| == 0 then []
    else if Usable(flows[|flows| - 1]) then UsableFlows(flows[..|flows| - 1]) + [flows[|flows| - 1]]
    else UsableFlows(flows[..|flows| - 1])
  }

  /** The edge of a usable flow, appended. */
  function EdgeStep(edges: seq<Edge>, f: ParsedFlow, c: Choice): seq<Edge>
  {
    if !Usable(f) then edges
    else edges + [Edge(c.source.id, c.dest.id, f.destPort, f.protocol, EdgeLabel(f.protocol, f.destPort))]
  }

  /** The edges in the order they are appended: the n-th one carries the
      port, the protocol and the `Protocol:Port` label of the n-th usable
      flow. */
  function EdgesOf(flows: seq<ParsedFlow>, choices: seq<Choice>): (r: seq<Edge>)
    requires |choices| == |flows|
    ensures |r| == |UsableFlows(flows)|
    ensures forall i | 0 <= i < |r| ::
      var f := UsableFlows(flows)[i];
      r[i].port == f.destPort && r[i].protocol == f.protocol && r[i].caption == EdgeLabel(f.protocol, f.destPort)
  {
    if |flows| == 0 then []
    else
      var n := |flows| - 1;
      EdgeStep(EdgesOf(flows[..n], choices[..n]), flows[n], choices[n])
  }

  function NodeKey(n: GraphNode): SortKey
  {
    StringKey(n.id)
  }

  function EdgeKey(e: Edge): SortKey
  {
    (e.from, e.to)
  }

  /** The choices of every flow are possible ones. */
  predicate AllChosen(flows: seq<ParsedFlow>, choices: seq<Choice>)
  {
    |choices| == |flows| && forall i | 0 <= i < |flows| :: Chosen(flows[i], choices[i])
  }

  /**
    `GenerateGraph`: for every usable flow, adds the nodes of both ends
    unless their IDs are already taken and appends one edge; then lists
    the nodes in the map's order and sorts nodes by ID and edges by their
    ends. `choices` records what the map iterations met first.
   */
  method GenerateGraph(flows: seq<ParsedFlow>) returns (g: NetworkGraph, ghost choices: seq<Choice>)
    ensures AllChosen(flows, choices)
    ensures forall n :: n in g.nodes <==> n in NodeMapOf(flows, choices).Values
    ensures StrictlySortedBy(g.nodes, NodeKey)
    ensures SortedBy(g.edges, EdgeKey) && multiset(g.edges) == multiset(EdgesOf(flows, choices))
  {
    var nodeMap, edges;
    nodeMap, edges, choices := ProcessFlows(flows);
    var collected, order := CollectValues(nodeMap);
    var nodes := SortBy(collected, NodeKey);
    NodesSorted(nodeMap, collected, order, nodes);
    g := NetworkGraph(nodes, SortBy(edges, EdgeKey));
  }

  /** The loop of `GenerateGraph` over the flows. */
  method ProcessFlows(flows: seq<ParsedFlow>)
    returns (nodeMap: map<string, GraphNode>, edges: seq<Edge>, ghost choices: seq<Choice>)
    ensures AllChosen(flows, choices)
    ensures nodeMap == NodeMapOf(flows, choices) && edges == EdgesOf(flows, choices)
  {
    nodeMap, edges, choices := map[], [], [];
    for i := 0 to |flows|
      invariant AllChosen(flows[..i], choices)
      invariant nodeMap == NodeMapOf(flows[..i], choices)
      invariant edges == EdgesOf(flows[..i], choices)
    {
      ghost var c;
      nodeMap, edges, c := ProcessFlow(nodeMap, edges, flows[i]);
      FoldStep(flows, choices, c, i);
      AllChosenStep(flows, choices, c, i);
      choices := choices + [c];
    }
    assert flows[..|flows|] == flows;
  }

  /** One flow: skipped unless usable, else its nodes and its edge. */
  method ProcessFlow(nodeMap: map<string, GraphNode>, edges: seq<Edge>, flow: ParsedFlow)
    returns (nodeMap': map<string, GraphNode>, edges': seq<Edge>, ghost c: Choice)
    ensures Chosen(flow, c)
    ensures nodeMap' == NodeStep(nodeMap, flow, c) && edges' == EdgeStep(edges, flow, c)
  {
    if |flow.sourceLabels| == 0 || |flow.destLabels| == 0 {
      return nodeMap, edges, Skipped;
    }
    var sourceId, destId;
    nodeMap', sourceId, destId, c := AddEndpoints(nodeMap, flow);
    edges' := edges + [Edge(sourceId, destId, flow.destPort, flow.protocol, EdgeLabel(flow.protocol, flow.destPort))];
  }

  /** The node lookups of one usable flow: each end's ID, and a new node
      for it unless the ID is already taken. */
  method AddEndpoints(nodeMap: map<string, GraphNode>, flow: ParsedFlow)
    returns (nodeMap': map<string, GraphNode>, sourceId: string, destId: string, ghost c: Choice)
    requires Usable(flow)
    ensures Chosen(flow, c) && c.source.id == sourceId && c.dest.id == destId
    ensures nodeMap' == NodeStep(nodeMap, flow, c)
  {
    nodeMap' := nodeMap;
    ghost var source, dest;
    var caption;
    sourceId, caption, source := LookUp(flow.sourceLabels, flow.sourceNamespace, nodeMap');
    if sourceId !in nodeMap' {
      nodeMap' := nodeMap'[sourceId := GraphNode(sourceId, caption, flow.sourceNamespace, "pod")];
    }
    destId, caption, dest := LookUp(flow.destLabels, flow.destNamespace, nodeMap');
    if destId !in nodeMap' {
      nodeMap' := nodeMap'[destId := GraphNode(destId, caption, flow.destNamespace, "pod")];
    }
    c := Choice(source, dest);
  }

  /** The lookups of one end: its ID, and its caption only when the ID
      is new (otherwise `l` holds what that lookup would have given). */
  method LookUp(labels: Labels, namespace: string, nodeMap: map<string, GraphNode>)
    returns (id: string, caption: string, ghost l: Lookup)
    requires |labels| > 0
    ensures LookedUp(labels, namespace, l) && l.id == id
    ensures id !in nodeMap ==> caption == l.caption
  {
    ghost var idKey, captionKey;
    id, idKey := GetNodeId(labels, namespace);
    captionKey :| captionKey in labels;
    caption := "";
    if id !in nodeMap {
      caption, captionKey := GetNodeLabel(labels);
    }
    l := Lookup(id, idKey, NodeCaptionOf(labels, captionKey), captionKey);
  }

  lemma AllChosenStep(flows: seq<ParsedFlow>, choices: seq<Choice>, c: Choice, i: nat)
    requires i < |flows| && AllChosen(flows[..i], choices) && Chosen(flows[i], c)
    ensures AllChosen(flows[..i + 1], choices + [c])
  {
    assert flows[..i + 1] == flows[..i] + [flows[i]];
  }

  /** One more flow, one more step of each fold. */
  lemma FoldStep(flows: seq<ParsedFlow>, choices: seq<Choice>, c: Choice, i: nat)
    requires i < |flows| && |choices| == i
    ensures NodeMapOf(flows[..i + 1], choices + [c]) == NodeStep(NodeMapOf(flows[..i], choices), flows[i], c)
    ensures EdgesOf(flows[..i + 1], choices + [c]) == EdgeStep(EdgesOf(flows[..i], choices), flows[i], c)
  {
    var fs, cs := flows[..i + 1], choices + [c];
    assert fs[..i] == flows[..i] && cs[..i] == choices;
  }


  /** The nodes of the map, sorted by ID, are strictly sorted: IDs are
      the map's keys, so no two nodes share one. */
  lemma NodesSorted(nodeMap: map<string, GraphNode>, collected: seq<GraphNode>, order: seq<string>, nodes: seq<GraphNode>)
    requires forall k | k in nodeMap :: nodeMap[k].id == k
    requires NoDup(order) && forall k :: k in order <==> k in nodeMap
    requires |collected| == |order| && forall i | 0 <= i < |order| :: collected[i] == nodeMap[order[i]]
    requires SortedBy(nodes, NodeKey) && multiset(nodes) == multiset(collected)
    ensures forall n :: n in nodes <==> n in nodeMap.Values
    ensures StrictlySortedBy(nodes, NodeKey)
  {
    assert forall i | 0 <= i < |collected| :: collected[i].id == order[i];
    assert NoDup(collected);
    NoDupPermutation(collected, nodes);
    forall n ensures n in nodes <==> n in nodeMap.Values {
      assert n in nodes <==> n in multiset(collected);
      if n in nodeMap.Values {
        var k :| k in nodeMap && nodeMap[k] == n;
        var i :| 0 <= i < |order| && order[i] == k;
        assert collected[i] == n;
      }
    }
    forall i, j | 0 <= i < j < |nodes| ensures KeyLess(NodeKey(nodes[i]), NodeKey(nodes[j])) {
      assert nodes[i] in nodeMap.Values && nodes[j] in nodeMap.Values;
      assert nodes[i] == nodeMap[nodes[i].id];
      assert nodes[j] == nodeMap[nodes[j].id];
    }
  }

  /** Every edge runs between IDs of nodes in the node map. */
  lemma {:induction false} EdgeEndsAreNodes(flows: seq<ParsedFlow>, choices: seq<Choice>)
    requires |choices| == |flows|
    ensures forall e | e in EdgesOf(flows, choices) :: e.from in NodeMapOf(flows, choices) && e.to in NodeMapOf(flows, choices)
  {
    if |flows| > 0 {
      var n := |flows| - 1;
      EdgeEndsAreNodes(flows[..n], choices[..n]);
      NodeMapGrows(flows, choices);
    }
  }

  /** A later flow never replaces a node: the first flow that produces an
      ID fixes that node's label and namespace. */
  lemma NodeMapGrows(flows: seq<ParsedFlow>, choices: seq<Choice>)
    requires |flows| > 0 && |choices| == |flows|
    ensures var n := |flows| - 1;
      var before := NodeMapOf(flows[..n], choices[..n]);
      forall k | k in before :: k in NodeMapOf(flows, choices) && NodeMapOf(flows, choices)[k] == before[k]
  {
    var n := |flows| - 1;
    NodeMapLast(flows, choices);
    NodeStepKeeps(NodeMapOf(flows[..n], choices[..n]), flows[n], choices[n]);
  }

  lemma NodeMapLast(flows: seq<ParsedFlow>, choices: seq<Choice>)
    requires |flows| > 0 && |choices| == |flows|
    ensures var n := |flows| - 1;
      NodeMapOf(flows, choices) == NodeStep(NodeMapOf(flows[..n], choices[..n]), flows[n], choices[n])
  {
  }

  /** One flow's nodes keep every node already in the map. */
  lemma NodeStepKeeps(m: map<string, GraphNode>, f: ParsedFlow, c: Choice)
    ensures forall k | k in m :: k in NodeStep(m, f, c) && NodeStep(m, f, c)[k] == m[k]
  {
    if Usable(f) {
      var m' := AddNode(m, c.source.id, c.source.caption, f.sourceNamespace);
      AddNodeKeeps(m, c.source.id, c.source.caption, f.sourceNamespace);
      AddNodeKeeps(m', c.dest.id, c.dest.caption, f.destNamespace);
    }
  }

  /** One flow adds at most the IDs of its two ends. */
  lemma NodeStepKeys(m: map<string, GraphNode>, f: ParsedFlow, c: Choice)
    ensures forall k | k in NodeStep(m, f, c) :: k in m || (Usable(f) && (k == c.source.id || k == c.dest.id))
  {
  }

  lemma AddNodeKeeps(m: map<string, GraphNode>, id: string, caption: string, namespace: string)
    ensures id in AddNode(m, id, caption, namespace)
    ensures forall k | k in m :: k in AddNode(m, id, caption, namespace) && AddNode(m, id, caption, namespace)[k] == m[k]
  {
  }

  /** A node, once in the map, stays as it was to the end. */
  lemma {:induction false} FirstFlowFixesNode(flows: seq<ParsedFlow>, choices: seq<Choice>, i: nat, k: string)
    requires |choices| == |flows| && i <= |flows|
    requires k in NodeMapOf(flows[..i], choices[..i])
    ensures k in NodeMapOf(flows, choices) && NodeMapOf(flows, choices)[k] == NodeMapOf(flows[..i], choices[..i])[k]
    decreases |flows| - i
  {
    if i == |flows| {
      assert flows[..i] == flows && choices[..i] == choices;
    } else {
      var fs, cs := flows[..i + 1], choices[..i + 1];
      assert fs[..i] == flows[..i] && cs[..i] == choices[..i];
      NodeMapGrows(fs, cs);
      FirstFlowFixesNode(flows, choices, i + 1, k);
    }
  }

  lemma AllChosenPrefix(flows: seq<ParsedFlow>, choices: seq<Choice>, n: nat)
    requires AllChosen(flows, choices) && n < |flows|
    ensures AllChosen(flows[..n], choices[..n]) && Chosen(flows[n], choices[n])
  {
  }

  /** Every node ID is a clean Mermaid identifier. */
  lemma {:induction false} NodeIdsClean(flows: seq<ParsedFlow>, choices: seq<Choice>)
    requires AllChosen(flows, choices)
    ensures forall k | k in NodeMapOf(flows, choices) :: Clean(k)
  {
    if |flows| > 0 {
      var n := |flows| - 1;
      var f, c := flows[n], choices[n];
      AllChosenPrefix(flows, choices, n);
      NodeIdsClean(flows[..n], choices[..n]);
      NodeMapLast(flows, choices);
      NodeStepKeys(NodeMapOf(flows[..n], choices[..n]), f, c);
      if Usable(f) {
        NodeIdClean(f.sourceLabels, f.sourceNamespace, c.source.idKey);
        NodeIdClean(f.destLabels, f.destNamespace, c.dest.idKey);
      }
    }
  }

  /** Every edge of the graph runs between nodes of the graph. */
  lemma GraphEdgesConnectNodes(flows: seq<ParsedFlow>, choices: seq<Choice>, g: NetworkGraph)
    requires |choices| == |flows|
    requires forall n :: n in g.nodes <==> n in NodeMapOf(flows, choices).Values
    requires multiset(g.edges) == multiset(EdgesOf(flows, choices))
    ensures forall e | e in g.edges ::
      (exists n | n in g.nodes :: n.id == e.from) && (exists n | n in g.nodes :: n.id == e.to)
  {
    var m := NodeMapOf(flows, choices);
    EdgeEndsAreNodes(flows, choices);
    forall e | e in g.edges
      ensures (exists n | n in g.nodes :: n.id == e.from) && (exists n | n in g.nodes :: n.id == e.to)
    {
      assert e in multiset(EdgesOf(flows, choices));
      assert m[e.from] in m.Values && m[e.to] in m.Values;
    }
  }

  // ---------------------------------------------------------------------
  // ToMermaid
  // ---------------------------------------------------------------------

  /** A node as `id[label]`, with `<br/>ns: namespace` before the bracket
      closes when the namespace is not empty; indented by four spaces. */
  function NodeLine(n: GraphNode): string
  {
    "    " + n.id + "[" + n.caption + (if n.namespace != "" then "<br/>ns: " + n.namespace else "") + "]"
  }

  /** An edge as `from -->|label| to`, the label falling back to
      `Protocol:Port` when empty; indented by four spaces. */
  function EdgeLine(e: Edge): string
  {
    var caption := if e.caption == "" then EdgeLabel(e.protocol, e.port) else e.caption;
    "    " + e.from + " -->|" + caption + "| " + e.to
  }

  /** The lines of the diagram: the header, the nodes, the edges. */
  function MermaidLines(g: NetworkGraph): (lines: seq<string>)
    ensures |lines| == 1 + |g.nodes| + |g.edges|
  {
    ["graph TD"] + Map(NodeLine, g.nodes) + Map(EdgeLine, g.edges)
  }

  /** `ToMermaid`: the lines written one by one, each ending in a newline. */
  method ToMermaid(g: NetworkGraph) returns (s: string)
    ensures s == Terminated(MermaidLines(g))
  {
    ghost var nodeLines, edgeLines := Map(NodeLine, g.nodes), Map(EdgeLine, g.edges);
    s := "graph TD\n";
    assert s == Terminated(["graph TD"]);
    assert nodeLines[..0] == [];
    for i := 0 to |g.nodes|
      invariant s == Terminated(["graph TD"] + nodeLines[..i])
    {
      AppendLine(["graph TD"], nodeLines[..i], nodeLines[i]);
      assert nodeLines[..i + 1] == nodeLines[..i] + [nodeLines[i]];
      s := s + NodeLine(g.nodes[i]) + "\n";
    }
    ghost var head := ["graph TD"] + nodeLines;
    assert nodeLines[..|g.nodes|] == nodeLines;
    assert edgeLines[..0] == [] && head + [] == head;
    for i := 0 to |g.edges|
      invariant s == Terminated(head + edgeLines[..i])
    {
      AppendLine(head, edgeLines[..i], edgeLines[i]);
      assert edgeLines[..i + 1] == edgeLines[..i] + [edgeLines[i]];
      s := s + EdgeLine(g.edges[i]) + "\n";
    }
    assert edgeLines[..|g.edges|] == edgeLines;
  }

  lemma AppendLine(head: seq<string>, lines: seq<string>, line: string)
    ensures Terminated(head + (lines + [line])) == Terminated(head + lines) + line + "\n"
  {
    assert head + (lines + [line]) == (head + lines) + [line];
    TerminatedAppend(head + lines, [line]);
    assert [line][1..] == [];
  }

  /** Text without a line break. */
  predicate OneLine(s: string)
  {
    '\n' !in s
  }

  lemma NodeLineOneLine(n: GraphNode)
    requires OneLine(n.id) && OneLine(n.caption) && OneLine(n.namespace)
    ensures OneLine(NodeLine(n))
  {
  }

  lemma LinesOneLine(a: seq<string>, b: seq<string>, c: seq<string>)
    requires forall i | 0 <= i < |a| :: OneLine(a[i])
    requires forall i | 0 <= i < |b| :: OneLine(b[i])
    requires forall i | 0 <= i < |c| :: OneLine(c[i])
    ensures forall l | l in a + b + c :: '\n' !in l
  {
    forall l | l in a + b + c ensures '\n' !in l {
      var i :| 0 <= i < |a + b + c| && (a + b + c)[i] == l;
      if i < |a| {
        assert l == a[i];
      } else if i < |a| + |b| {
        assert l == b[i - |a|];
      } else {
        assert l == c[i - |a| - |b|];
      }
    }
  }

  lemma EdgeLineOneLine(e: Edge)
    requires OneLine(e.from) && OneLine(e.to) && OneLine(e.caption) && OneLine(e.protocol)
    ensures OneLine(EdgeLine(e))
  {
    var digits := NatToString(e.port);
    assert forall i | 0 <= i < |digits| :: digits[i] != '\n';
  }

  /** When no name, label, namespace or protocol holds a line break, the
      diagram splits back into its header, one line per node and one per
      edge, in graph order. */
  lemma MermaidSplitsIntoLines(g: NetworkGraph)
    requires forall n | n in g.nodes :: OneLine(n.id) && OneLine(n.caption) && OneLine(n.namespace)
    requires forall e | e in g.edges :: OneLine(e.from) && OneLine(e.to) && OneLine(e.caption) && OneLine(e.protocol)
    ensures Split(Terminated(MermaidLines(g)), '\n') == MermaidLines(g) + [""]
  {
    var nodeLines, edgeLines := Map(NodeLine, g.nodes), Map(EdgeLine, g.edges);
    forall i | 0 <= i < |nodeLines| ensures OneLine(nodeLines[i]) {
      assert g.nodes[i] in g.nodes;
      NodeLineOneLine(g.nodes[i]);
    }
    forall i | 0 <= i < |edgeLines| ensures OneLine(edgeLines[i]) {
      assert g.edges[i] in g.edges;
      EdgeLineOneLine(g.edges[i]);
    }
    LinesOneLine(["graph TD"], nodeLines, edgeLines);
    SplitTerminated(MermaidLines(g));
  }
}
