/**
  The CiliumNetworkPolicy shape the synthesiser produces
  (internal/synth/policy.go): a policy, its metadata and spec, endpoint
  selectors, ingress and egress rules and their port rules.
 */
module PolicyTypes {
  import opened Labels

  const ApiVersion: string := "cilium.io/v2"
  const Kind: string := "CiliumNetworkPolicy"

  datatype PortProtocol = PortProtocol(port: string, protocol: string)

  /** One `toPorts` entry: a list of ports. */
  datatype PortRule = PortRule(ports: seq<PortProtocol>)

  datatype EndpointSelector = EndpointSelector(matchLabels: Labels)

  datatype IngressRule = IngressRule(fromEndpoints: seq<EndpointSelector>, toPorts: seq<PortRule>)

  datatype EgressRule = EgressRule(toEndpoints: seq<EndpointSelector>, toPorts: seq<PortRule>)

  /** An empty namespace is left out when the policy is marshalled. */
  datatype PolicyMetadata = PolicyMetadata(name: string, namespace: string)

  datatype PolicySpec = PolicySpec(
    endpointSelector: EndpointSelector,
    ingress: seq<IngressRule>,
    egress: seq<EgressRule>)

  datatype Policy = Policy(
    apiVersion: string,
    kind: string,
    metadata: PolicyMetadata,
    spec: PolicySpec)
}
