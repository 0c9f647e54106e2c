# cilium-policypilot, modelled in Dafny

cilium-policypilot reads network flows observed by Hubble. It turns them into
Cilium network policies: `CiliumNetworkPolicy` documents of API version
`cilium.io/v2`, one per destination endpoint. It can also check a file of
such policies for the right structure, draw the flows as a graph, and report
statistics about them.

This project models the in-memory core of that program and proves what each
step promises. Each Dafny module follows one Go source file or one part of
it:

- **Flow normalisation**: `Hubble.dfy` (internal/hubble/types.go, internal/hubble/parser.go). Label strings are split at their first `=`. A raw flow record becomes the flat `ParsedFlow`: a missing protocol means TCP, and TCP wins over UDP.
- **Policy synthesis**: `Grouping.dfy`, `Ingress.dfy` and `Synth.dfy` (internal/synth/policy.go).
  - Flows are grouped by destination endpoint.
  - Each group gives a policy. Its ingress rules hold one rule per source label set, with ports de-duplicated and bucketed by protocol.
  - Groups, rules and ports are sorted.
- **Policy file writing**: `PolicyYaml.dfy` (internal/synth/yaml.go). The encoded policies are joined with `---\n`.
- **Policy verification**: `YamlDocuments.dfy`, `PolicyCheck.dfy` and `Verify.dfy` (internal/verify/verify.go).
  - The line-based document splitter.
  - The first-problem checks of ingress, egress and port rules.
  - The field-by-field checks of a document, which add up their messages.
  - The verdict over a whole file.
- **Graph**: `Graph.dfy` (internal/graph/graph.go). Node IDs and captions, `sanitizeID`, graph construction, and the Mermaid text.
- **Name and extension checks**: `Validate.dfy` (internal/validate/validate.go).
- **Report statistics**: `Explain.dfy` (internal/explain/report.go). Namespaces, protocol counts, label text, and the report record.

Shared vocabulary:

- `Wrappers.dfy`: `Option`, `Result`.
- `Strings.dfy`: Go's byte-wise string order, `strings.Join`, `strings.Split`, `strings.TrimSpace`, ASCII case mapping, and `%d` formatting.
- `Sorting.dfy`: a sort by key with its sortedness and permutation proofs, and the sorted elements of a set.
- `Labels.dfy`: label maps, their sorted `k=v` pairs, and the `%v` rendering of a map.
- `GoMaps.dfy`: ranging over a Go map.
- `PolicyTypes.dfy`: the policy records.

How Go constructs are modelled:

- **Map iteration order.** Go leaves it unspecified. A loop over a map is a method that picks the next key with `:|` and reports the visiting order as a ghost value. Where the source sorts afterwards, lemmas prove the result does not depend on that order. Where it does not sort (the fallback label of `generatePolicyName`, `getNodeID` and `getNodeLabel`), the contract says only "the value of some label". The key that was used is returned as ghost data.
- **Sorting.** `sort.Slice` and `sort.Strings` become the pure `Sorting.SortBy`, a sorted permutation of its input. Where the keys are distinct the sorted output is unique (`Sorting.SortedUnique`), so it matches whatever order Go's sort produces.
- **Foreign code.** YAML decoding and encoding, file reading and writing, and the clock are parameters.

## Model

| member | source | states |
|---|---|---|
| Hubble.ParseLabels | internal/hubble/types.go:148-169 | the map the loop builds is `LabelsOf(entries)`: each non-empty entry, in order, sets the key before its first `=` to the text after it, or to `""` when it has no `=` |
| Hubble.EntrySplitsAtFirstEquals | internal/hubble/types.go:154-166 | the key holds no `=`; with an `=` the entry is key, `=`, value, so the value may itself contain `=`; without one the whole entry is the key and the value is empty |
| Hubble.EntryStepSets | internal/hubble/types.go:150-167 | an empty entry leaves the map unchanged; any other entry sets its key to its value, overwriting an earlier value |
| Hubble.LabelsOfKeys | internal/hubble/types.go:150-167 | a key is in the result iff some non-empty entry has that key |
| Hubble.LabelsOfLastWins | internal/hubble/types.go:154-166 | each key's value comes from the last entry with that key |
| Hubble.LabelsOfSize | internal/hubble/types.go:148-169 | the result has at most as many labels as there are entries |
| Hubble.ParseFlow | internal/hubble/parser.go:110-157 | error "flow is nil" iff there is no flow. Otherwise: direction `ingress`, verdict copied, protocol TCP or UDP. No L4 record, or one with neither TCP nor UDP (an ICMP flow), gives TCP and port 0; TCP wins over UDP, each with its own destination port. Labels are parsed, and namespace and pod copied, per endpoint; an absent endpoint gives empty labels, namespace and pod |
| Hubble.Present | internal/hubble/parser.go:166-173 | keeps exactly the present flow records, never more than the input |
| Hubble.ParseFlows | internal/hubble/parser.go:160-176 | error "flow collection is nil" iff there is no collection; otherwise the present flows, parsed, in input order |
| Labels.PairsAnyOrder | internal/synth/policy.go:147-156 | the sorted `k=v` pairs of a label map do not depend on the order the map was ranged over |
| Labels.LabelPairs | internal/synth/policy.go:149-154 | one `k=v` pair per label, exactly the label map's pairs, sorted |
| Labels.FormatMap | internal/synth/policy.go:140 | the `%v` rendering has the shape `map[...]` and is `map[]` exactly for the empty map |
| Labels.LookupFirst | internal/synth/policy.go:198-202 | finds a value iff one of the keys is present, and returns the value of the first present key |
| Labels.AnyValue | internal/synth/policy.go:205-207 | finds a value iff the map is non-empty, and it is one of the map's values |
| Grouping.GroupMapMembers | internal/synth/policy.go:100-126 | a key has a group iff some flow with a destination has that key; the group's flows are exactly those flows in input order, and its key is the first one's destination |
| Grouping.GroupsPartition | internal/synth/policy.go:100-126 | every flow with a destination is in the group of its own key, and every group is non-empty and holds only flows with a destination and the group's key, so flows share a group iff their keys are equal |
| Grouping.NoDestinationNoGroups | internal/synth/policy.go:102-104 | flows without destination namespace or labels form no group |
| Grouping.GroupFlowsByEndpoint | internal/synth/policy.go:97-144 | returns each group of the grouping exactly once, sorted by namespace, then by the `%v` rendering of the labels |
| Ingress.FindProtocol | internal/synth/policy.go:265-271 | the index of the first port rule whose first entry has the protocol, or -1 when none has |
| Ingress.PortExists | internal/synth/policy.go:250-261 | the nested search finds the (port, protocol) pair iff some port rule holds it |
| Ingress.FindPortRule | internal/synth/policy.go:265-271 | the search loop returns `FindProtocol` |
| Ingress.AddPortKeepsShape | internal/synth/policy.go:250-290 | adding a pair keeps port rules non-empty, one protocol per rule, distinct protocols across rules and no repeated pair, and the pairs held become the old ones plus the new one |
| Ingress.AppendToRule | internal/synth/policy.go:273-278 | appending to the rule of the pair's protocol keeps that shape and adds exactly the pair |
| Ingress.AppendRule | internal/synth/policy.go:279-289 | a new port rule for a protocol not yet present keeps that shape and adds exactly the pair |
| Ingress.RuleStepSpec | internal/synth/policy.go:217-290 | one flow adds a rule only for its own usable source, and the ports of a rule become the old ones plus the flow's pair |
| Ingress.RuleMapSpec | internal/synth/policy.go:217-291 | after the loop, a source key has a rule iff a usable flow has that source; its one selector holds the source labels of the first usable flow with that key; it holds a pair iff some usable flow from that source asked for it, with an empty protocol read as TCP |
| Ingress.BuildRuleMap | internal/synth/policy.go:215-291 | the loop's map is the fold `RuleMapBy` of the flows |
| Ingress.SortPortRuleKeeps | internal/synth/policy.go:297-301 | sorting a port rule keeps its length, its pairs and their uniqueness, and orders them by port string |
| Ingress.FinalizeKeepsShape | internal/synth/policy.go:296-302 | sorting every port rule keeps the well-formed shape and the pairs held, and leaves every rule sorted |
| Ingress.SortRulePorts | internal/synth/policy.go:297-301 | the in-loop sort yields the finalized rule |
| Ingress.RulesAnyOrder | internal/synth/policy.go:293-309 | collecting the rules in any map order and sorting them by the `%v` rendering of the source labels gives the same list |
| Ingress.CollectedRules | internal/synth/policy.go:293-311 | the collected and sorted rules are `IngressRulesBy` of the flows |
| Ingress.SortedRules | internal/synth/policy.go:293-311 | the collect-and-sort loop returns `IngressRulesBy` of the flows |
| Ingress.GenerateIngressRules | internal/synth/policy.go:213-312 | returns `IngressRules(flows)` |
| Ingress.RuleAt | internal/synth/policy.go:293-311 | rule `i` is the finalized rule of the `i`-th smallest source key; its selector holds the source labels of the first usable flow with that key, and it holds exactly the pairs requested from that source |
| Ingress.IngressRulesShape | internal/synth/policy.go:230-309 | the rules are strictly sorted by source rendering; each has one selector with non-empty labels and a non-empty list of port rules; within a rule, port rules have one protocol each and distinct protocols, no pair repeats, and ports are sorted by string |
| Ingress.IngressRulesPorts | internal/synth/policy.go:217-291 | every rule's selector holds the source labels of the first usable flow with its key, and the rule holds exactly the pairs requested from that source |
| Ingress.IngressRulesCover | internal/synth/policy.go:217-291 | every usable flow's pair appears in the rule of its source |
| Ingress.AddFirstPort | internal/synth/policy.go:279-289 | the first pair opens a new port rule |
| Ingress.AddSecondPort | internal/synth/policy.go:273-278 | a second port of the same protocol joins the existing port rule |
| Ingress.SingleRule | internal/synth/policy.go:293-311 | a map with one source gives exactly that source's finalized rule |
| Ingress.FinalizeOne | internal/synth/policy.go:297-301 | finalizing a one-port-rule rule sorts its ports |
| Ingress.PortStringsDiffer | internal/synth/policy.go:244 | distinct ports print as distinct strings |
| Ingress.TwoFlowMap | internal/synth/policy.go:217-291 | two flows from one source with different ports of one protocol give one rule with both pairs, in flow order |
| Ingress.TwoPortsOneRule | internal/synth/policy.go:213-312 | two such flows, in either order, give one rule with the two pairs in port-string order |
| Ingress.AggregatesPorts | internal/synth/policy_test.go:49-79 | ports 8080 and 8081/TCP from one source aggregate into one rule with both ports |
| Ingress.PortsSortAsStrings | internal/synth/policy.go:297-301 | ports compare as strings, so `"10000"` comes before `"8080"` |
| Ingress.OneFlowOneRule | internal/synth/policy.go:213-312 | one usable flow gives exactly one rule |
| Synth.GeneratePolicyName | internal/synth/policy.go:194-210 | the name is the value of the first present key among `app`, `k8s:app`, `name`, `component`, plus `-policy`; otherwise some label's value plus `-policy`; `default-policy` for no labels |
| Synth.PolicyNameDeterministic | internal/synth/policy.go:194-210 | the name is fixed whenever a preferred key is present or there is at most one label |
| Synth.AppPreferred | internal/synth/policy_test.go:118-154 | with an `app` label the name is its value plus `-policy` |
| Synth.K8sAppName | internal/synth/policy_test.go:118-154 | `k8s:app=catalog` gives `catalog-policy` |
| Synth.NameLabelName | internal/synth/policy_test.go:118-154 | `name=myapp` gives `myapp-policy` |
| Synth.FallbackName | internal/synth/policy_test.go:118-154 | a lone non-preferred label `version=v1` gives exactly `v1-policy` |
| Synth.NoRulesWithoutUsableFlows | internal/synth/policy.go:219-228 | there are no ingress rules iff no flow has both source labels and a port |
| Synth.GeneratePolicyForEndpoint | internal/synth/policy.go:159-191 | no policy iff the group's flows give no ingress rules. Otherwise: apiVersion `cilium.io/v2`, kind `CiliumNetworkPolicy`, the group's namespace, its labels as endpoint selector, a name by the rule above, the group's ingress rules and no egress |
| Synth.KeptFrom | internal/synth/policy.go:79-91 | every group that gives a policy is one of the groups and has ingress rules |
| Synth.PoliciesFor | internal/synth/policy.go:79-91 | the loop gives, in group order, one policy per group that has ingress rules |
| Synth.SynthesizePolicies | internal/synth/policy.go:73-94 | fails with "no flows provided" iff there are no flows; otherwise it always succeeds, with the policies of the sorted grouping |
| Synth.NoDestinationNoPolicies | internal/synth/policy_test.go:81-98 | flows that all lack a destination give no policy and no error |
| Synth.PolicyPerDestination | internal/synth/policy.go:73-94 | every policy belongs to one group: its selector and namespace are those of the group's flows, and all those flows share one destination key |
| Synth.PolicyOfGroup | internal/synth/policy.go:79-91 | the same for any key and rule functions |
| Synth.OneGroupOnePolicy | internal/synth/policy.go:79-91 | flows forming one group with ingress rules give exactly that group's policy |
| Synth.SingleFlowGroup | internal/synth/policy.go:100-126 | one flow with a destination forms one group of itself |
| Synth.TwoFlowGroup | internal/synth/policy.go:100-126 | two flows to one destination form one group, in order |
| Synth.SingleFlowOnePolicy | internal/synth/policy_test.go:17-19 | one usable flow with a destination gives one policy with one ingress rule |
| Synth.TwoPortsOnePolicy | internal/synth/policy_test.go:49-79 | two flows from one source to ports 8080 and 8081 give one policy whose single rule lists both ports |
| PolicyYaml.MarshalAll | internal/synth/yaml.go:27-38 | succeeds iff every policy encodes, with the texts in input order; otherwise fails with the first policy's error |
| PolicyYaml.WritePoliciesToFile | internal/synth/yaml.go:13-46 | an empty list fails with "no policies to write" before the directory is touched. A directory error is reported. An encoding failure aborts with nothing written. Otherwise the texts joined by `---\n` are written, and a write error is reported |
| PolicyYaml.MarshalFailsFrom | internal/synth/yaml.go:32-35 | once a prefix fails to encode, the whole list fails with the same error |
| PolicyYaml.PolicyToYaml | internal/synth/yaml.go:49-55 | exactly the encoded text, or the encoding error behind "failed to marshal policy to YAML: " |
| PolicyYaml.SingleFileIsPolicyText | internal/synth/yaml.go:13-55 | the file of one policy is that policy's text |
| PolicyYaml.JoinLength | internal/synth/yaml.go:27-38 | n documents are joined with exactly n-1 separators, none before the first or after the last |
| PolicyYaml.WrittenFileSplitsBack | internal/synth/yaml.go:27-38 | splitting a written file gives back its documents, the last one with one extra newline |
| PolicyYaml.SplitBackRuns | internal/verify/verify.go:304-326 | the splitter returns the line runs the join put together |
| PolicyYaml.RunsInterleave | internal/verify/verify.go:308-323 | runs of marker-free lines, joined by marker lines, split back into the same runs |
| YamlDocuments.SplitYamlDocuments | internal/verify/verify.go:304-326 | the line loop with its buffer returns `Documents(content)` |
| YamlDocuments.DocumentsAreRuns | internal/verify/verify.go:304-326 | the documents are the non-empty runs of lines between marker lines, each line followed by a newline |
| YamlDocuments.DocumentsClean | internal/verify/verify.go:304-326 | no document is empty, each ends in a newline, and none holds a line that trims to `---` |
| YamlDocuments.DocumentsKeepLines | internal/verify/verify.go:308-323 | the documents concatenated are exactly the input's non-marker lines, in order, each followed by a newline |
| YamlDocuments.RunsExtend | internal/verify/verify.go:309-319 | lines without a marker extend the current document |
| YamlDocuments.SplitLinesRuns | internal/verify/verify.go:309-323 | the loop's state after any lines is the finished runs plus the current buffer |
| PolicyCheck.FirstError | internal/verify/verify.go:254-301 | no message iff every element passes; otherwise the message of the first failing element |
| PolicyCheck.PortErrorNone | internal/verify/verify.go:269-298 | a port entry passes iff it is a map with a non-empty string `port` and a string `protocol` that upper-cases to TCP, UDP, ICMP or SCTP |
| PolicyCheck.PortRuleAccepted | internal/verify/verify.go:254-301 | `validatePortRule` accepts iff `ports` is a non-empty list of acceptable entries |
| PolicyCheck.SelectorsAccepted | internal/verify/verify.go:188-203 | the selector checks pass iff every selector is a map with non-empty `matchLabels` |
| PolicyCheck.PortRulesAccepted | internal/verify/verify.go:205-212 | the `toPorts` checks pass iff every port rule is acceptable |
| PolicyCheck.RuleAccepted | internal/verify/verify.go:182-251 | `validateIngressRule` and `validateEgressRule` accept iff the rule is a map whose peer list, when present, holds only acceptable selectors and whose `toPorts`, when present, holds only acceptable port rules |
| PolicyCheck.PortProblemLocated | internal/verify/verify.go:205-212 | once the selectors pass, the rule's message names the failing port rule as `toPorts[j]: ` |
| Verify.RuleErrors | internal/verify/verify.go:155-172 | each rule contributes at most one message |
| Verify.CheckRules | internal/verify/verify.go:155-172 | the rule loop appends `RuleErrors` |
| Verify.CheckApiVersion | internal/verify/verify.go:94-102 | appends the apiVersion messages, and the flag drops exactly when a message is added |
| Verify.CheckKind | internal/verify/verify.go:104-113 | appends the kind messages, the flag drops exactly when one is added, and the string kind is recorded |
| Verify.CheckMetadata | internal/verify/verify.go:116-134 | appends the metadata messages, the flag drops exactly when one is added, and name and namespace are recorded |
| Verify.CheckEndpointSelector | internal/verify/verify.go:139-152 | appends the endpoint selector messages, and the flag drops exactly when one is added |
| Verify.CheckRuleList | internal/verify/verify.go:155-172 | appends the messages of the ingress or egress list, and the flag drops exactly when one is added |
| Verify.CheckSpec | internal/verify/verify.go:137-176 | appends the spec messages, and the flag drops exactly when one is added |
| Verify.VerifyPolicyDocument | internal/verify/verify.go:81-179 | a decoding error comes back prefixed with "invalid YAML syntax: "; otherwise the document is valid iff it has no message |
| Verify.RuleErrorsNone | internal/verify/verify.go:155-172 | a rule list gives no message iff every rule is acceptable |
| Verify.RuleErrorsPrefixed | internal/verify/verify.go:159 | every rule message begins with `ingress[` or `egress[` |
| Verify.RuleErrorsAt | internal/verify/verify.go:155-172 | the rule messages are exactly `direction[i]: e` for each rule `i` that the rule check rejects with `e` |
| Verify.SpecErrorsNone | internal/verify/verify.go:137-176 | a spec gives no message iff its selector has non-empty `matchLabels` and its rule lists are acceptable |
| Verify.DocumentAccepted | internal/verify/verify.go:81-179 | a document gives no message iff apiVersion is `cilium.io/v2`, kind is `CiliumNetworkPolicy`, `metadata.name` is a non-empty string and the spec is acceptable |
| Verify.WrongApiVersionOnly | internal/verify/verify.go:94-102 | a document correct but for its apiVersion gets exactly the one apiVersion message |
| Verify.MissingMetadataOnly | internal/verify/verify.go:131-134 | a document without `metadata`, otherwise correct, gets exactly "missing required field: metadata" |
| Verify.MissingSpecOnly | internal/verify/verify.go:173-176 | a document without `spec`, otherwise correct, gets exactly "missing required field: spec" |
| Verify.VerifyPolicies | internal/verify/verify.go:31-78 | a read failure is an error; otherwise the loop's result is the concluded tally of the split documents |
| Verify.TallyReports | internal/verify/verify.go:49-70 | there is one report per non-blank document, in order, undecodable ones included; the file is valid iff every report is; no warnings |
| Verify.FileVerdict | internal/verify/verify.go:49-77 | the file is valid iff it has a non-blank document and every report is valid, and "no valid policies found in file" is appended exactly when there is none; otherwise the errors are the documents' own |
| Graph.SanitizeId | internal/graph/graph.go:170-187 | the replacement loop returns `Sanitize(id)` |
| Graph.SanitizeClean | internal/graph/graph.go:170-187 | the result has no ASCII upper case, no `:`, `.`, `_`, space or `--`, and no `-` at either end |
| Graph.CleanFixed | internal/graph/graph.go:170-187 | a clean ID is left as it is |
| Graph.SanitizeIdempotent | internal/graph/graph.go:170-187 | sanitizing twice equals sanitizing once |
| Graph.SqueezeReplace | internal/graph/graph.go:179-181 | one pass of replacing `--` by `-` does not change the loop's final result |
| Graph.SqueezeProps | internal/graph/graph.go:179-181 | the loop's result has no `--`, keeps the first character and adds no character |
| Graph.TrimProps | internal/graph/graph.go:184 | trimming hyphens leaves none at either end and adds no `--` |
| Graph.GetNodeId | internal/graph/graph.go:134-149 | the ID is `k8s:app`, else `app`, else some label's value, each sanitized after `namespace-`; the bare namespace, sanitized, for no labels |
| Graph.NodeIdClean | internal/graph/graph.go:134-149 | every node ID is clean |
| Graph.NodeIdStable | internal/graph/graph.go:134-149 | the ID is fixed when `k8s:app` or `app` is present or there is at most one label |
| Graph.GetNodeLabel | internal/graph/graph.go:152-167 | the caption is the value of `k8s:app`, `app`, `name` or `component`, in that order, else some label's value, else `unknown` |
| Graph.NodeCaptionIsLabel | internal/graph/graph.go:152-167 | the caption is a label value or `unknown` for no labels, and it is fixed when a preferred key is present |
| Graph.EdgesOf | internal/graph/graph.go:75-84 | one edge per usable flow, in order, with its port, protocol and `Protocol:Port` caption |
| Graph.NodeMapOf | internal/graph/graph.go:52-73 | each node is stored under its own ID, so IDs are unique |
| Graph.ProcessFlows | internal/graph/graph.go:45-85 | the flow loop builds `NodeMapOf` and `EdgesOf`, with every ID and caption looked up as above |
| Graph.ProcessFlow | internal/graph/graph.go:46-84 | a flow without source or destination labels changes nothing; any other adds its endpoints and one edge |
| Graph.AddEndpoints | internal/graph/graph.go:51-73 | the source and destination nodes are added when their IDs are new |
| Graph.LookUp | internal/graph/graph.go:52-61 | the caption is looked up only for a node not yet present |
| Graph.GenerateGraph | internal/graph/graph.go:35-104 | the nodes are exactly the node map's values, strictly sorted by ID; the edges are the flows' edges, each as often as it occurs, sorted by (from, to); edges that tie on (from, to) may come in any order |
| Graph.NodesSorted | internal/graph/graph.go:87-95 | collecting and sorting the node map lists each node once, in strictly increasing ID order |
| Graph.EdgeEndsAreNodes | internal/graph/graph.go:52-84 | both ends of every edge are node IDs |
| Graph.GraphEdgesConnectNodes | internal/graph/graph.go:35-104 | every edge of the graph starts and ends at one of its nodes |
| Graph.NodeMapGrows | internal/graph/graph.go:53-73 | a later flow never changes an existing node |
| Graph.FirstFlowFixesNode | internal/graph/graph.go:53-73 | the first flow that produces an ID fixes that node's caption and namespace |
| Graph.NodeIdsClean | internal/graph/graph.go:52-73 | every node ID in the graph is clean |
| Graph.MermaidLines | internal/graph/graph.go:107-131 | one header line, one line per node and one per edge |
| Graph.ToMermaid | internal/graph/graph.go:107-131 | the builder's text is `graph TD`, the node lines, then the edge lines, each ending in a newline |
| Graph.MermaidSplitsIntoLines | internal/graph/graph.go:107-131 | when no field holds a newline, the text splits back into exactly those lines |
| Validate.ByteLengthBounds | internal/validate/validate.go:53 | a string has at least one byte per character, and exactly one per character when it is ASCII |
| Validate.ValidK8sName | internal/validate/validate.go:66-88 | a name is valid iff it has 1 to 253 characters over `[a-z0-9-]` and begins and ends with `[a-z0-9]` |
| Validate.NamespaceAccepted | internal/validate/validate.go:48-63 | a namespace is accepted iff it is empty or a DNS label of 1 to 63 characters of that form |
| Validate.NamespaceTooLong | internal/validate/validate.go:53-55 | over 63 bytes gives the too-long message |
| Validate.NamespaceInvalid | internal/validate/validate.go:58-60 | a bad character, or a hyphen at either end, gives the invalid-name message |
| Validate.ExtSuffix | internal/validate/validate.go:92 | the extension is a suffix of the path that starts at its last dot and holds no `/`; it is empty only when every dot is followed by a `/` |
| Validate.ExtOfName | internal/validate/validate.go:92 | `stem.ext` has extension `.ext` |
| Validate.FileExtensionNormalized | internal/validate/validate.go:91-104 | the check ignores ASCII case on both sides and whether the expected extension has its dot |
| Validate.UpperKeepsExt | internal/validate/validate.go:92 | upper-casing the path does not change its lower-cased extension |
| Validate.FileWithExtensionAccepted | internal/validate/validate_test.go:155-178 | a file named with the expected extension passes, with or without the dot |
| Explain.NamespaceSetMembers | internal/explain/report.go:270-279 | a namespace is collected iff it is non-empty and some flow has it as source or destination namespace |
| Explain.CollectNamespaces | internal/explain/report.go:270-287 | the result is the collected namespaces, strictly sorted, each once |
| Explain.CollectProtocols | internal/explain/report.go:290-298 | the counting loop returns `ProtocolCounts(flows)` |
| Explain.ProtocolCountIsMultiplicity | internal/explain/report.go:290-298 | a protocol is counted iff it is non-empty and used, and its count is the number of flows using it |
| Explain.ProtocolCountsSum | internal/explain/report.go:290-298 | the counts add up to the number of flows with a non-empty protocol |
| Explain.FormatLabels | internal/explain/report.go:301-312 | the text is `LabelsText`: `none`, or the sorted `k=v` pairs joined by `, ` |
| Explain.LabelsTextNone | internal/explain/report.go:302-304 | the text is `none` iff there are no labels |
| Explain.GenerateReport | internal/explain/report.go:29-49 | never fails. The flow counts are the number of flows, and the policy count and list are those given. The graph, namespaces and protocols are as stated above |

## Left out

- File and process I/O is not modelled. This covers `os.ReadFile`, `os.WriteFile` and `os.MkdirAll`, `FilePath` and `OutputPath`, `ReadFlowsFromFile`, `WriteFlowsToFile`, `WriteHTMLReport`, and the `hubble` command run by internal/hubble/reader.go. `VerifyPolicies` and `WritePoliciesToFile` take the outcomes of their file operations as parameters.
- YAML decoding and `yaml.Marshal` are foreign code. They are parameters: `parse` from text to a tree or an error, and `marshal` from a policy to a text or an error.
- The JSON reading of flow files, and its format fallbacks, is not modelled. It depends on `json.Unmarshal`.
- cmd/cpp/main.go is not part of this model. It only wires commands to the functions above.
- `generateHTML` is not part of this model. It is presentation markup.
- `time.Now` in `GenerateReport` is the parameter `now`.
- Explain.GenerateReport: the `error` result is always `nil` in the source, so the model returns `Success` and its contract says so.
- Synth.GeneratePolicyForEndpoint: the source's `error` result is always `nil`, so the model has no error path. `SynthesizePolicies` therefore has no "failed to generate policy" branch.
- Sorting (`sort.Slice`, `sort.Strings`) is a pure sorted permutation.
  - In-place sorting is not modelled.
  - The order of ties is not modelled. Groups may tie: they are keyed by their label string but sorted by namespace and the `%v` rendering of their labels, and two label maps can render alike (`{a: "b c:d"}` and `{a: "b", c: "d"}` both give `map[a:b c:d]`). Edges with equal (from, to) may tie too, and `sort.Slice` is not stable. For these the model's sort fixes one order, and the contracts promise only that the result is sorted and holds the same elements.
  - Nodes, rules and namespaces have distinct keys, and the ports of one port rule share a protocol and never repeat, so their port strings differ. Their order is therefore unique.
- Go map iteration order is not modelled. A map walk picks the next key nondeterministically.
  - Synth.GeneratePolicyName: when no preferred key is present and there are two or more labels, the name is some label's value plus `-policy`, not one particular value.
  - Graph.GetNodeId and Graph.GetNodeLabel: the same for their fallback label. Each call picks on its own, as each Go map walk does, so two flows with the same labels and no `k8s:app`/`app` label may give two different node IDs.
- `strings.ToLower` and `strings.ToUpper` map only ASCII letters. Other Unicode case mappings are not modelled.
- Lengths in `Namespace` and `isValidK8sName` are counted in UTF-8 bytes from the characters. Invalid UTF-8 in a Go string is not modelled.
- `filepath.Ext` is modelled with `/` as the only path separator.
- The `%v` rendering of a label map (`Labels.FormatMap`) is modelled as written. Distinct label maps can render alike when keys or values contain `:` or spaces. The same holds for `endpointKeyToString` when they contain `:`, `=` or `,`. The model groups by the rendered string, as the source does, and claims no injectivity.
- The split of a written policy file gives back each document, except that the last one gains one newline (`PolicyYaml.WrittenFileSplitsBack`). This is the joined text's behaviour, not a property of a round trip.
- The `VerificationResult` and `PolicyInfo` records are values. The loops that update them are methods returning the new values, not objects updated in place.
- The egress list of a synthesised policy is always empty, as in the source.
