/**
  The structural checks of one ingress or egress rule of a policy
  document (`validateIngressRule`, `validateEgressRule` and
  `validatePortRule` in internal/verify/verify.go). They read a decoded
  YAML tree and return at the first problem they meet, with a message
  that names where it is.
 */
module PolicyCheck {
  import opened Wrappers
  import opened Strings

  /** A decoded YAML value: a mapping with string keys, a sequence, a
      string, or anything else (a number, a boolean, null). */
  datatype Node = MapN(entries: map<string, Node>) | SeqN(items: seq<Node>) | StrN(value: string) | OtherN

  /** The value under `k`; a missing key reads as null. */
  function Field(m: map<string, Node>, k: string): Node
  {
    if k in m then m[k] else OtherN
  }

  /** `[i]`, as `%d` prints it. */
  function Index(i: nat): string
  {
    "[" + NatToString(i) + "]"
  }

  const ValidProtocols: set<string> := {"TCP", "UDP", "ICMP", "SCTP"}

  /** The message of the first element, from `from` on, that `check`
      rejects, each element checked with its own index. */
  function FirstError(items: seq<Node>, check: (Node, nat) -> Option<string>, from: nat): (r: Option<string>)
    requires from <= |items|
    ensures r.None? <==> forall j | from <= j < |items| :: check(items[j], j).None?
    ensures r.Some? ==> exists j | from <= j < |items| ::
      r == check(items[j], j) && forall k | from <= k < j :: check(items[k], k).None?
    decreases |items| - from
  {
    if from == |items| then None
    else match check(items[from], from)
      case Some(e) => Some(e)
      case None => FirstError(items, check, from + 1)
  }

  // ---------------------------------------------------------------------
  // Ports
  // ---------------------------------------------------------------------

  /** The check of the `protocol` of port entry `i`. */
  function ProtocolError(m: map<string, Node>, i: nat): Option<string>
  {
    match Field(m, "protocol")
    case StrN(protocol) =>
      if ToUpper(protocol) in ValidProtocols then None
      else Some("ports" + Index(i) + ".protocol invalid: must be TCP, UDP, ICMP, or SCTP")
    case _ => Some("ports" + Index(i) + " missing required field: protocol")
  }

  /** The check of port entry `i`: a map, then its `port`, then its
      `protocol`. */
  function PortError(port: Node, i: nat): Option<string>
  {
    match port
    case MapN(m) =>
      (match Field(m, "port")
       case StrN(v) => if v == "" then Some("ports" + Index(i) + ".port cannot be empty") else ProtocolError(m, i)
       case _ => Some("ports" + Index(i) + " missing required field: port"))
    case _ => Some("ports" + Index(i) + " must be a map")
  }

  /** `validatePortRule`. */
  function ValidatePortRule(portRule: Node): Option<string>
  {
    match portRule
    case MapN(m) =>
      (match Field(m, "ports")
       case SeqN(ports) => if |ports| == 0 then Some("ports array cannot be empty") else FirstError(ports, PortError, 0)
       case _ => Some("missing required field: ports"))
    case _ => Some("port rule must be a map")
  }

  /** A port entry the check accepts: a map with a non-empty string
      `port` and a string `protocol` that is one of the four, in any
      ASCII case. */
  predicate AcceptablePort(port: Node)
  {
    port.MapN?
    && Field(port.entries, "port").StrN? && Field(port.entries, "port").value != ""
    && Field(port.entries, "protocol").StrN? && ToUpper(Field(port.entries, "protocol").value) in ValidProtocols
  }

  /** A port rule the check accepts: a map whose `ports` is a non-empty
      list of acceptable entries. */
  predicate AcceptablePortRule(portRule: Node)
  {
    portRule.MapN? && Field(portRule.entries, "ports").SeqN?
    && |Field(portRule.entries, "ports").items| > 0
    && forall p | p in Field(portRule.entries, "ports").items :: AcceptablePort(p)
  }

  lemma PortErrorNone(port: Node, i: nat)
    ensures PortError(port, i).None? <==> AcceptablePort(port)
  {
  }

  /** The first-problem check accepts exactly the acceptable port rules. */
  lemma PortRuleAccepted(portRule: Node)
    ensures ValidatePortRule(portRule).None? <==> AcceptablePortRule(portRule)
  {
    if portRule.MapN? && Field(portRule.entries, "ports").SeqN? {
      var ports := Field(portRule.entries, "ports").items;
      if |ports| > 0 {
        forall j | 0 <= j < |ports| ensures PortError(ports[j], j).None? <==> AcceptablePort(ports[j]) {
          PortErrorNone(ports[j], j);
        }
        assert (forall j | 0 <= j < |ports| :: AcceptablePort(ports[j])) <==> (forall p | p in ports :: AcceptablePort(p));
      }
    }
  }

  // ---------------------------------------------------------------------
  // Rules
  // ---------------------------------------------------------------------

  /** The check of endpoint selector `i` of the rule's `peers` list. */
  function SelectorError(peers: string, selector: Node, i: nat): Option<string>
  {
    match selector
    case MapN(m) =>
      (match Field(m, "matchLabels")
       case MapN(labels) => if |labels| == 0 then Some(peers + Index(i) + ".matchLabels cannot be empty") else None
       case _ => Some(peers + Index(i) + " missing matchLabels"))
    case _ => Some(peers + Index(i) + " must be a map")
  }

  /** The check of port rule `i` of a rule, its message prefixed with
      where it is. */
  function ToPortsError(portRule: Node, i: nat): Option<string>
  {
    match ValidatePortRule(portRule)
    case Some(e) => Some("toPorts" + Index(i) + ": " + e)
    case None => None
  }

  /** The check of a rule: a map, then every selector of its `peers`
      list, then every port rule of its `toPorts`; a list that is absent
      or not a list is not checked. `direction` names the kind of rule. */
  function ValidateRule(rule: Node, direction: string, peers: string): Option<string>
  {
    match rule
    case MapN(m) =>
      var peerError := match Field(m, peers)
        case SeqN(selectors) => FirstError(selectors, (s: Node, i: nat) => SelectorError(peers, s, i), 0)
        case _ => None;
      if peerError.Some? then peerError
      else
        (match Field(m, "toPorts")
         case SeqN(portRules) => FirstError(portRules, ToPortsError, 0)
         case _ => None)
    case _ => Some(direction + " rule must be a map")
  }

  /** `validateIngressRule`. */
  function ValidateIngressRule(rule: Node): Option<string>
  {
    ValidateRule(rule, "ingress", "fromEndpoints")
  }

  /** `validateEgressRule`. */
  function ValidateEgressRule(rule: Node): Option<string>
  {
    ValidateRule(rule, "egress", "toEndpoints")
  }

  predicate AcceptableSelector(selector: Node)
  {
    selector.MapN? && Field(selector.entries, "matchLabels").MapN?
    && |Field(selector.entries, "matchLabels").entries| > 0
  }

  /** A rule the check accepts: a map in which a `peers` list holds only
      selectors with non-empty `matchLabels`, and a `toPorts` list only
      acceptable port rules. */
  predicate AcceptableRule(rule: Node, peers: string)
  {
    rule.MapN?
    && (Field(rule.entries, peers).SeqN? ==>
          forall s | s in Field(rule.entries, peers).items :: AcceptableSelector(s))
    && (Field(rule.entries, "toPorts").SeqN? ==>
          forall pr | pr in Field(rule.entries, "toPorts").items :: AcceptablePortRule(pr))
  }

  lemma SelectorsAccepted(selectors: seq<Node>, peers: string)
    ensures FirstError(selectors, (s: Node, i: nat) => SelectorError(peers, s, i), 0).None?
      <==> forall s | s in selectors :: AcceptableSelector(s)
  {
    var check := (s: Node, i: nat) => SelectorError(peers, s, i);
    assert forall j | 0 <= j < |selectors| :: check(selectors[j], j).None? <==> AcceptableSelector(selectors[j]);
    assert (forall j | 0 <= j < |selectors| :: AcceptableSelector(selectors[j]))
      <==> (forall s | s in selectors :: AcceptableSelector(s));
  }

  lemma PortRulesAccepted(portRules: seq<Node>)
    ensures FirstError(portRules, ToPortsError, 0).None? <==> forall pr | pr in portRules :: AcceptablePortRule(pr)
  {
    forall j | 0 <= j < |portRules|
      ensures ToPortsError(portRules[j], j).None? <==> AcceptablePortRule(portRules[j])
    {
      PortRuleAccepted(portRules[j]);
    }
    assert (forall j | 0 <= j < |portRules| :: AcceptablePortRule(portRules[j]))
      <==> (forall pr | pr in portRules :: AcceptablePortRule(pr));
  }

  /** The first-problem check accepts exactly the acceptable rules. */
  lemma RuleAccepted(rule: Node, direction: string, peers: string)
    ensures ValidateRule(rule, direction, peers).None? <==> AcceptableRule(rule, peers)
  {
    if rule.MapN? {
      if Field(rule.entries, peers).SeqN? {
        SelectorsAccepted(Field(rule.entries, peers).items, peers);
      }
      if Field(rule.entries, "toPorts").SeqN? {
        PortRulesAccepted(Field(rule.entries, "toPorts").items);
      }
    }
  }

  /** A port problem is reported with the position of its port rule,
      after the selectors have all passed. */
  lemma PortProblemLocated(rule: Node, direction: string, peers: string)
    requires rule.MapN? && Field(rule.entries, "toPorts").SeqN?
    requires ValidateRule(rule, direction, peers).Some?
    requires Field(rule.entries, peers).SeqN? ==>
      forall s | s in Field(rule.entries, peers).items :: AcceptableSelector(s)
    ensures exists j, e | 0 <= j < |Field(rule.entries, "toPorts").items| ::
      ValidateRule(rule, direction, peers) == Some("toPorts" + Index(j) + ": " + e)
  {
    if Field(rule.entries, peers).SeqN? {
      SelectorsAccepted(Field(rule.entries, peers).items, peers);
    }
    var portRules := Field(rule.entries, "toPorts").items;
    var j :| 0 <= j < |portRules| && ValidateRule(rule, direction, peers) == ToPortsError(portRules[j], j);
    var e := ValidatePortRule(portRules[j]).value;
    assert ValidateRule(rule, direction, peers) == Some("toPorts" + Index(j) + ": " + e);
  }
}
