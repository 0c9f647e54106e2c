/**
  Verifying a file of policies (`VerifyPolicies` and
  `verifyPolicyDocument` in internal/verify/verify.go). The file's text is
  cut into documents; each non-blank document is decoded and checked
  field by field, every failed check adding its own message, and the
  file's verdict gathers the documents' verdicts.

  Reading the file and decoding YAML are foreign code: the outcome of the
  read and a `parse` function from text to a tree (or an error) are
  parameters.
 */
module Verify {
  import opened Wrappers
  import opened Strings
  import opened Sorting
  import opened PolicyCheck
  import opened YamlDocuments

  /** A decoded document: the top-level mapping. */
  type Tree = map<string, Node>

  datatype PolicyInfo = PolicyInfo(name: string, namespace: string, kind: string, valid: bool, errors: seq<string>)

  datatype VerificationResult = VerificationResult(
    valid: bool, errors: seq<string>, warnings: seq<string>, policies: seq<PolicyInfo>)

  const ExpectedApiVersion := "cilium.io/v2"
  const ExpectedKind := "CiliumNetworkPolicy"

  // ---------------------------------------------------------------------
  // The checks of one document
  // ---------------------------------------------------------------------

  function ApiVersionErrors(doc: Tree): seq<string>
  {
    match Field(doc, "apiVersion")
    case StrN(v) =>
      if v != ExpectedApiVersion then ["invalid apiVersion: expected 'cilium.io/v2', got '" + v + "'"] else []
    case _ => ["missing required field: apiVersion"]
  }

  function KindErrors(doc: Tree): seq<string>
  {
    match Field(doc, "kind")
    case StrN(k) =>
      if k != ExpectedKind then ["invalid kind: expected 'CiliumNetworkPolicy', got '" + k + "'"] else []
    case _ => ["missing required field: kind"]
  }

  function MetadataErrors(doc: Tree): seq<string>
  {
    match Field(doc, "metadata")
    case MapN(metadata) =>
      (match Field(metadata, "name")
       case StrN(name) => if name == "" then ["metadata.name cannot be empty"] else []
       case _ => ["missing required field: metadata.name"])
    case _ => ["missing required field: metadata"]
  }

  function EndpointSelectorErrors(spec: Tree): seq<string>
  {
    match Field(spec, "endpointSelector")
    case MapN(selector) =>
      (match Field(selector, "matchLabels")
       case MapN(labels) => if |labels| == 0 then ["endpointSelector.matchLabels cannot be empty"] else []
       case _ => ["missing required field: spec.endpointSelector.matchLabels"])
    case _ => ["missing required field: spec.endpointSelector"]
  }

  /** The message for rule `i` of `direction` rejected with `e`. */
  function RuleMessage(direction: string, i: nat, e: string): string
  {
    direction + Index(i) + ": " + e
  }

  /** One message per rule the rule check rejects, prefixed with the
      rule's position. */
  function RuleErrors(rules: seq<Node>, direction: string, peers: string): (r: seq<string>)
    ensures |r| <= |rules|
  {
    if |rules| == 0 then []
    else
      var n := |rules| - 1;
      var init := RuleErrors(rules[..n], direction, peers);
      match ValidateRule(rules[n], direction, peers)
      case Some(e) => init + [RuleMessage(direction, n, e)]
      case None => init
  }

  /** The rules under `key` are checked only if they form a list. */
  function RuleListErrors(spec: Tree, key: string, direction: string, peers: string): seq<string>
  {
    match Field(spec, key)
    case SeqN(rules) => RuleErrors(rules, direction, peers)
    case _ => []
  }

  function SpecErrors(doc: Tree): seq<string>
  {
    match Field(doc, "spec")
    case MapN(spec) =>
      EndpointSelectorErrors(spec)
      + RuleListErrors(spec, "ingress", "ingress", "fromEndpoints")
      + RuleListErrors(spec, "egress", "egress", "toEndpoints")
    case _ => ["missing required field: spec"]
  }

  /** Every message of a document, in the order the checks run. */
  function DocumentErrors(doc: Tree): seq<string>
  {
    ApiVersionErrors(doc) + KindErrors(doc) + MetadataErrors(doc) + SpecErrors(doc)
  }

  /** A string field, or the empty string. */
  function StringField(m: Tree, k: string): string
  {
    match Field(m, k)
    case StrN(s) => s
    case _ => ""
  }

  function MetadataField(doc: Tree, k: string): string
  {
    match Field(doc, "metadata")
    case MapN(metadata) => StringField(metadata, k)
    case _ => ""
  }

  /** What `verifyPolicyDocument` returns for a text. */
  function CheckDocument(text: string, parse: string -> Result<Tree, string>): Result<PolicyInfo, string>
  {
    match parse(text)
    case Failure(e) => Failure("invalid YAML syntax: " + e)
    case Success(doc) =>
      var errors := DocumentErrors(doc);
      Success(PolicyInfo(MetadataField(doc, "name"), MetadataField(doc, "namespace"),
                         StringField(doc, "kind"), |errors| == 0, errors))
  }

  /** The rule loop of `verifyPolicyDocument`. */
  method CheckRules(rules: seq<Node>, direction: string, peers: string) returns (errors: seq<string>)
    ensures errors == RuleErrors(rules, direction, peers)
  {
    errors := [];
    for i := 0 to |rules|
      invariant errors == RuleErrors(rules[..i], direction, peers)
    {
      assert rules[..i + 1][..i] == rules[..i];
      var err := ValidateRule(rules[i], direction, peers);
      if err.Some? {
        errors := errors + [RuleMessage(direction, i, err.value)];
      }
    }
    assert rules[..|rules|] == rules;
  }

  /*
    The steps of `verifyPolicyDocument`, one per top-level field. Each
    takes the flag and messages so far; a failed check clears the flag and
    adds its message.
   */

  method CheckApiVersion(doc: Tree, valid0: bool, errors0: seq<string>) returns (valid: bool, errors: seq<string>)
    ensures errors == errors0 + ApiVersionErrors(doc)
    ensures valid == (valid0 && ApiVersionErrors(doc) == [])
  {
    valid, errors := valid0, errors0;
    match Field(doc, "apiVersion") {
      case StrN(v) =>
        if v != ExpectedApiVersion {
          valid := false;
          errors := errors + ["invalid apiVersion: expected 'cilium.io/v2', got '" + v + "'"];
        }
      case _ =>
        valid := false;
        errors := errors + ["missing required field: apiVersion"];
    }
  }

  method CheckKind(doc: Tree, valid0: bool, errors0: seq<string>) returns (valid: bool, errors: seq<string>, kind: string)
    ensures errors == errors0 + KindErrors(doc)
    ensures valid == (valid0 && KindErrors(doc) == [])
    ensures kind == StringField(doc, "kind")
  {
    valid, errors, kind := valid0, errors0, "";
    match Field(doc, "kind") {
      case StrN(k) =>
        kind := k;
        if k != ExpectedKind {
          valid := false;
          errors := errors + ["invalid kind: expected 'CiliumNetworkPolicy', got '" + k + "'"];
        }
      case _ =>
        valid := false;
        errors := errors + ["missing required field: kind"];
    }
  }

  method CheckMetadata(doc: Tree, valid0: bool, errors0: seq<string>)
    returns (valid: bool, errors: seq<string>, name: string, namespace: string)
    ensures errors == errors0 + MetadataErrors(doc)
    ensures valid == (valid0 && MetadataErrors(doc) == [])
    ensures name == MetadataField(doc, "name") && namespace == MetadataField(doc, "namespace")
  {
    valid, errors, name, namespace := valid0, errors0, "", "";
    match Field(doc, "metadata") {
      case MapN(metadata) =>
        match Field(metadata, "name") {
          case StrN(n) =>
            name := n;
            if n == "" {
              valid := false;
              errors := errors + ["metadata.name cannot be empty"];
            }
          case _ =>
            valid := false;
            errors := errors + ["missing required field: metadata.name"];
        }
        namespace := StringField(metadata, "namespace");
      case _ =>
        valid := false;
        errors := errors + ["missing required field: metadata"];
    }
  }

  method CheckEndpointSelector(spec: Tree, valid0: bool, errors0: seq<string>) returns (valid: bool, errors: seq<string>)
    ensures errors == errors0 + EndpointSelectorErrors(spec)
    ensures valid == (valid0 && EndpointSelectorErrors(spec) == [])
  {
    valid, errors := valid0, errors0;
    match Field(spec, "endpointSelector") {
      case MapN(selector) =>
        match Field(selector, "matchLabels") {
          case MapN(labels) =>
            if |labels| == 0 {
              valid := false;
              errors := errors + ["endpointSelector.matchLabels cannot be empty"];
            }
          case _ =>
            valid := false;
            errors := errors + ["missing required field: spec.endpointSelector.matchLabels"];
        }
      case _ =>
        valid := false;
        errors := errors + ["missing required field: spec.endpointSelector"];
    }
  }

  method CheckRuleList(spec: Tree, key: string, direction: string, peers: string, valid0: bool, errors0: seq<string>)
    returns (valid: bool, errors: seq<string>)
    ensures errors == errors0 + RuleListErrors(spec, key, direction, peers)
    ensures valid == (valid0 && RuleListErrors(spec, key, direction, peers) == [])
  {
    valid, errors := valid0, errors0;
    if Field(spec, key).SeqN? {
      var ruleErrors := CheckRules(Field(spec, key).items, direction, peers);
      if |ruleErrors| > 0 {
        valid := false;
      }
      errors := errors + ruleErrors;
    }
  }

  method CheckSpec(doc: Tree, valid0: bool, errors0: seq<string>) returns (valid: bool, errors: seq<string>)
    ensures errors == errors0 + SpecErrors(doc)
    ensures valid == (valid0 && SpecErrors(doc) == [])
  {
    match Field(doc, "spec") {
      case MapN(spec) =>
        ghost var s := EndpointSelectorErrors(spec);
        ghost var i := RuleListErrors(spec, "ingress", "ingress", "fromEndpoints");
        ghost var e := RuleListErrors(spec, "egress", "egress", "toEndpoints");
        assert SpecErrors(doc) == s + i + e;
        valid, errors := CheckEndpointSelector(spec, valid0, errors0);
        valid, errors := CheckRuleList(spec, "ingress", "ingress", "fromEndpoints", valid, errors);
        assert errors == errors0 + (s + i);
        valid, errors := CheckRuleList(spec, "egress", "egress", "toEndpoints", valid, errors);
        assert errors == errors0 + (s + i + e);
      case _ =>
        valid := false;
        errors := errors0 + ["missing required field: spec"];
    }
  }

  /**
    `verifyPolicyDocument`: a text that does not decode is an error;
    otherwise every check runs and a document is valid exactly when no
    check added a message.
   */
  method VerifyPolicyDocument(text: string, parse: string -> Result<Tree, string>) returns (r: Result<PolicyInfo, string>)
    ensures r == CheckDocument(text, parse)
    ensures r.Failure? <==> parse(text).Failure?
    ensures r.Failure? ==> r.error == "invalid YAML syntax: " + parse(text).error
    ensures r.Success? ==> (r.value.valid <==> |r.value.errors| == 0)
  {
    var parsed := parse(text);
    if parsed.Failure? {
      return Failure("invalid YAML syntax: " + parsed.error);
    }
    var doc := parsed.value;
    var valid, errors := CheckApiVersion(doc, true, []);
    assert errors == ApiVersionErrors(doc);
    var kind, name, namespace;
    valid, errors, kind := CheckKind(doc, valid, errors);
    valid, errors, name, namespace := CheckMetadata(doc, valid, errors);
    ghost var checked := ApiVersionErrors(doc) + KindErrors(doc) + MetadataErrors(doc);
    assert errors == checked && (valid <==> checked == []);
    valid, errors := CheckSpec(doc, valid, errors);
    assert errors == DocumentErrors(doc);
    assert valid <==> DocumentErrors(doc) == [];
    return Success(PolicyInfo(name, namespace, kind, valid, errors));
  }

  // ---------------------------------------------------------------------
  // What the document checks mean
  // ---------------------------------------------------------------------

  /** A document every check accepts. */
  ghost predicate AcceptableDocument(doc: Tree)
  {
    Field(doc, "apiVersion") == StrN(ExpectedApiVersion)
    && Field(doc, "kind") == StrN(ExpectedKind)
    && Field(doc, "metadata").MapN?
    && Field(Field(doc, "metadata").entries, "name").StrN?
    && Field(Field(doc, "metadata").entries, "name").value != ""
    && Field(doc, "spec").MapN?
    && AcceptableSpec(Field(doc, "spec").entries)
  }

  ghost predicate AcceptableSpec(spec: Tree)
  {
    Field(spec, "endpointSelector").MapN?
    && Field(Field(spec, "endpointSelector").entries, "matchLabels").MapN?
    && |Field(Field(spec, "endpointSelector").entries, "matchLabels").entries| > 0
    && (Field(spec, "ingress").SeqN? ==>
          forall rule | rule in Field(spec, "ingress").items :: AcceptableRule(rule, "fromEndpoints"))
    && (Field(spec, "egress").SeqN? ==>
          forall rule | rule in Field(spec, "egress").items :: AcceptableRule(rule, "toEndpoints"))
  }

  /** A list of rules yields no message exactly when every rule is
      acceptable. */
  lemma {:induction false} RuleErrorsNone(rules: seq<Node>, direction: string, peers: string)
    ensures RuleErrors(rules, direction, peers) == [] <==> forall rule | rule in rules :: AcceptableRule(rule, peers)
  {
    if |rules| > 0 {
      var n := |rules| - 1;
      RuleErrorsNone(rules[..n], direction, peers);
      RuleAccepted(rules[n], direction, peers);
      assert rules == rules[..n] + [rules[n]];
    }
  }

  /** Every rule message starts with the rule's direction and position. */
  lemma {:induction false} RuleErrorsPrefixed(rules: seq<Node>, direction: string, peers: string)
    ensures forall e | e in RuleErrors(rules, direction, peers) :: |e| > |direction| && e[..|direction| + 1] == direction + "["
  {
    if |rules| > 0 {
      var n := |rules| - 1;
      RuleErrorsPrefixed(rules[..n], direction, peers);
      var e := ValidateRule(rules[n], direction, peers);
      if e.Some? {
        MessagePrefixed(direction, n, e.value);
      }
    }
  }

  /** The rule messages are exactly `direction[i]: e` (`RuleMessage`) for
      each rule `i` the rule check rejects with `e`. */
  lemma RuleErrorsAt(rules: seq<Node>, direction: string, peers: string, m: string)
    ensures m in RuleErrors(rules, direction, peers) <==>
      exists i | 0 <= i < |rules| :: ValidateRule(rules[i], direction, peers).Some?
        && m == RuleMessage(direction, i, ValidateRule(rules[i], direction, peers).value)
  {
    if m in RuleErrors(rules, direction, peers) {
      RuleErrorFrom(rules, direction, peers, m);
    }
    forall i | 0 <= i < |rules| && ValidateRule(rules[i], direction, peers).Some?
      ensures RuleMessage(direction, i, ValidateRule(rules[i], direction, peers).value) in RuleErrors(rules, direction, peers)
    {
      RuleErrorReported(rules, direction, peers, i, ValidateRule(rules[i], direction, peers).value);
    }
  }

  /** Every rule message names a rejected rule and its message. */
  lemma {:induction false} RuleErrorFrom(rules: seq<Node>, direction: string, peers: string, m: string)
    requires m in RuleErrors(rules, direction, peers)
    ensures exists i | 0 <= i < |rules| ::
      ValidateRule(rules[i], direction, peers).Some? && m == RuleMessage(direction, i, ValidateRule(rules[i], direction, peers).value)
  {
    var n := |rules| - 1;
    var init := rules[..n];
    var last := RuleErrorsSnoc(rules, direction, peers);
    if m in RuleErrors(init, direction, peers) {
      RuleErrorFrom(init, direction, peers, m);
      var i :| 0 <= i < n && ValidateRule(init[i], direction, peers).Some?
        && m == RuleMessage(direction, i, ValidateRule(init[i], direction, peers).value);
      assert rules[i] == init[i];
    } else {
      assert m in last;
    }
  }

  /** Every rejected rule is reported with its position and message. */
  lemma RuleErrorReported(rules: seq<Node>, direction: string, peers: string, i: nat, e: string)
    requires i < |rules| && ValidateRule(rules[i], direction, peers) == Some(e)
    ensures RuleMessage(direction, i, e) in RuleErrors(rules, direction, peers)
  {
    var upTo := rules[..i + 1];
    assert upTo[..i] == rules[..i] && upTo[i] == rules[i];
    var last := RuleErrorsSnoc(upTo, direction, peers);
    var errs := RuleErrors(upTo, direction, peers);
    assert errs[|errs| - 1] == RuleMessage(direction, i, e);
    RuleErrorsPrefix(rules, direction, peers, i + 1);
    assert RuleErrors(rules, direction, peers)[|errs| - 1] == errs[|errs| - 1];
  }

  /** The rule messages of a prefix of the rules begin the rule messages of
      all of them. */
  lemma {:induction false} RuleErrorsPrefix(rules: seq<Node>, direction: string, peers: string, j: nat)
    requires j <= |rules|
    ensures RuleErrors(rules[..j], direction, peers) <= RuleErrors(rules, direction, peers)
    decreases |rules|
  {
    if j < |rules| {
      var n := |rules| - 1;
      var init := rules[..n];
      assert init[..j] == rules[..j];
      RuleErrorsPrefix(init, direction, peers, j);
      var last := RuleErrorsSnoc(rules, direction, peers);
    } else {
      assert rules[..j] == rules;
    }
  }

  /** The rule messages of all rules are those of all but the last, then
      the last rule's message if it is rejected. */
  lemma RuleErrorsSnoc(rules: seq<Node>, direction: string, peers: string) returns (last: seq<string>)
    requires |rules| > 0
    ensures var n := |rules| - 1;
      var e := ValidateRule(rules[n], direction, peers);
      last == (if e.Some? then [RuleMessage(direction, n, e.value)] else [])
      && RuleErrors(rules, direction, peers) == RuleErrors(rules[..n], direction, peers) + last
  {
    var n := |rules| - 1;
    var e := ValidateRule(rules[n], direction, peers);
    last := if e.Some? then [RuleMessage(direction, n, e.value)] else [];
  }

  lemma MessagePrefixed(direction: string, n: nat, e: string)
    ensures var m := direction + Index(n) + ": " + e;
      |m| > |direction| && m[..|direction| + 1] == direction + "["
  {
    var m := direction + Index(n) + ": " + e;
    assert m[|direction|] == '[';
    assert m[..|direction| + 1] == m[..|direction|] + [m[|direction|]];
  }

  lemma SpecErrorsNone(spec: Tree)
    ensures (EndpointSelectorErrors(spec) + RuleListErrors(spec, "ingress", "ingress", "fromEndpoints")
             + RuleListErrors(spec, "egress", "egress", "toEndpoints") == []) <==> AcceptableSpec(spec)
  {
    if Field(spec, "ingress").SeqN? {
      RuleErrorsNone(Field(spec, "ingress").items, "ingress", "fromEndpoints");
    }
    if Field(spec, "egress").SeqN? {
      RuleErrorsNone(Field(spec, "egress").items, "egress", "toEndpoints");
    }
  }

  /** A document has no message exactly when every check accepts it. */
  lemma DocumentAccepted(doc: Tree)
    ensures DocumentErrors(doc) == [] <==> AcceptableDocument(doc)
  {
    if Field(doc, "spec").MapN? {
      SpecErrorsNone(Field(doc, "spec").entries);
    }
  }

  /** The checks are independent: a document that is acceptable but for
      its apiVersion gets exactly the one apiVersion message. */
  lemma WrongApiVersionOnly(doc: Tree, v: string)
    requires AcceptableDocument(doc) && v != ExpectedApiVersion
    ensures DocumentErrors(doc["apiVersion" := StrN(v)])
      == ["invalid apiVersion: expected 'cilium.io/v2', got '" + v + "'"]
  {
    var doc' := doc["apiVersion" := StrN(v)];
    DocumentAccepted(doc);
    assert Field(doc', "kind") == Field(doc, "kind");
    assert Field(doc', "metadata") == Field(doc, "metadata");
    assert Field(doc', "spec") == Field(doc, "spec");
    SpecErrorsNone(Field(doc, "spec").entries);
  }

  /** A missing `metadata` gives the one message that says so, and
      nothing beneath it is checked. */
  lemma MissingMetadataOnly(doc: Tree)
    requires AcceptableDocument(doc)
    ensures DocumentErrors(doc - {"metadata"}) == ["missing required field: metadata"]
  {
    var doc' := doc - {"metadata"};
    assert Field(doc', "apiVersion") == Field(doc, "apiVersion");
    assert Field(doc', "kind") == Field(doc, "kind");
    assert Field(doc', "spec") == Field(doc, "spec");
    SpecErrorsNone(Field(doc, "spec").entries);
  }

  /** A missing `spec` gives the one message that says so, and nothing
      beneath it is checked. */
  lemma MissingSpecOnly(doc: Tree)
    requires AcceptableDocument(doc)
    ensures DocumentErrors(doc - {"spec"}) == ["missing required field: spec"]
  {
    var doc' := doc - {"spec"};
    assert Field(doc', "apiVersion") == Field(doc, "apiVersion");
    assert Field(doc', "kind") == Field(doc, "kind");
    assert Field(doc', "metadata") == Field(doc, "metadata");
  }

  // ---------------------------------------------------------------------
  // A file of documents
  // ---------------------------------------------------------------------

  predicate Blank(text: string)
  {
    TrimSpace(text) == ""
  }

  /** The report of one document: its info, or, if it cannot be decoded,
      an invalid entry holding the decoding error. */
  function Report(text: string, parse: string -> Result<Tree, string>): PolicyInfo
  {
    match CheckDocument(text, parse)
    case Success(info) => info
    case Failure(e) => PolicyInfo("", "", "", false, [e])
  }

  /** The verdict, messages and reports after the first documents; the
      messages name documents by their position among all documents,
      blank ones included. */
  function Tally(docs: seq<string>, parse: string -> Result<Tree, string>): VerificationResult
  {
    if |docs| == 0 then VerificationResult(true, [], [], [])
    else
      var n := |docs| - 1;
      TallyStep(Tally(docs[..n], parse), docs[n], n, parse)
  }

  /** The effect of the document at position `n`: a blank one changes
      nothing; any other adds its report, and its message when it does
      not decode. */
  function TallyStep(t: VerificationResult, doc: string, n: nat, parse: string -> Result<Tree, string>): VerificationResult
  {
    if Blank(doc) then t
    else match CheckDocument(doc, parse)
      case Failure(e) =>
        VerificationResult(false, t.errors + ["Document " + NatToString(n + 1) + ": " + e], t.warnings,
                           t.policies + [Report(doc, parse)])
      case Success(info) =>
        VerificationResult(t.valid && info.valid, t.errors, t.warnings, t.policies + [info])
  }

  lemma TallyPrefixSnoc(docs: seq<string>, i: nat, parse: string -> Result<Tree, string>)
    requires i < |docs|
    ensures Tally(docs[..i + 1], parse) == TallyStep(Tally(docs[..i], parse), docs[i], i, parse)
  {
    assert docs[..i + 1][..i] == docs[..i];
  }

  /** With no report at all, the file is invalid and says so. */
  function Conclude(t: VerificationResult): VerificationResult
  {
    if |t.policies| == 0 then t.(valid := false, errors := t.errors + ["no valid policies found in file"])
    else t
  }

  /** `VerifyPolicies`: a read failure is an error; otherwise every
      non-blank document is checked and reported. */
  method VerifyPolicies(data: Result<string, string>, parse: string -> Result<Tree, string>)
    returns (r: Result<VerificationResult, string>)
    ensures data.Failure? ==> r == Failure("failed to read policy file: " + data.error)
    ensures data.Success? ==> r == Success(Conclude(Tally(Documents(data.value), parse)))
  {
    if data.Failure? {
      return Failure("failed to read policy file: " + data.error);
    }
    var valid := true;
    var errors: seq<string> := [];
    var policies: seq<PolicyInfo> := [];
    var documents := SplitYamlDocuments(data.value);
    for i := 0 to |documents|
      invariant VerificationResult(valid, errors, [], policies) == Tally(documents[..i], parse)
    {
      TallyPrefixSnoc(documents, i, parse);
      var doc := documents[i];
      if TrimSpace(doc) == "" {
        continue;
      }
      var info := VerifyPolicyDocument(doc, parse);
      if info.Failure? {
        valid := false;
        errors := errors + ["Document " + NatToString(i + 1) + ": " + info.error];
        policies := policies + [PolicyInfo("", "", "", false, [info.error])];
        continue;
      }
      if !info.value.valid {
        valid := false;
      }
      policies := policies + [info.value];
    }
    assert documents[..|documents|] == documents;
    if |policies| == 0 {
      valid := false;
      errors := errors + ["no valid policies found in file"];
    }
    return Success(VerificationResult(valid, errors, [], policies));
  }

  // ---------------------------------------------------------------------
  // What the file verdict means
  // ---------------------------------------------------------------------

  /** The non-blank documents, in order. */
  function NonBlank(docs: seq<string>): seq<string>
  {
    if |docs| == 0 then []
    else
      var init := NonBlank(docs[..|docs| - 1]);
      if Blank(docs[|docs| - 1]) then init else init + [docs[|docs| - 1]]
  }

  /** One report per non-blank document, in order, undecodable ones
      included; the verdict is that every report is valid; warnings stay
      empty. */
  lemma {:induction false} TallyReports(docs: seq<string>, parse: string -> Result<Tree, string>)
    ensures Tally(docs, parse).policies == Map((text: string) => Report(text, parse), NonBlank(docs))
    ensures Tally(docs, parse).valid <==> forall p | p in Tally(docs, parse).policies :: p.valid
    ensures Tally(docs, parse).warnings == []
  {
    if |docs| > 0 {
      var n := |docs| - 1;
      TallyReports(docs[..n], parse);
      MapSnoc((text: string) => Report(text, parse), NonBlank(docs[..n]), docs[n]);
    }
  }

  /** The file is valid exactly when there is at least one non-blank
      document and every one of them is valid; "no valid policies found
      in file" is added exactly when there is none. */
  lemma FileVerdict(docs: seq<string>, parse: string -> Result<Tree, string>)
    ensures var r := Conclude(Tally(docs, parse));
      (r.valid <==> |NonBlank(docs)| > 0 && forall p | p in r.policies :: p.valid)
      && |r.policies| == |NonBlank(docs)|
      && (|NonBlank(docs)| == 0 ==> r.errors == Tally(docs, parse).errors + ["no valid policies found in file"])
      && (|NonBlank(docs)| > 0 ==> r.errors == Tally(docs, parse).errors)
  {
    TallyReports(docs, parse);
  }
}
