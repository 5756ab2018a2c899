# Admin Network Policy match and identity helpers

A Dafny model of the helpers that the OVN-Kubernetes Admin Network Policy
(ANP) controller uses to turn ANP and Baseline ANP (BANP) rules into OVN
ACL pieces. All of them are in
`go-controller/pkg/ovn/controller/admin_network_policy/utils.go`:

- `getPortProtocol` maps a Kubernetes protocol to OVN's lowercase token.
  Module `Protocols`.
- `getAdminNetworkPolicyPGName`, `getANPRuleACLDbIDs` and
  `GetANPPeerAddrSetDbIDs` build port-group names and the structured
  database identities of rule ACLs and peer address sets. Module `Identity`.
- `GetACLActionForANPRule` and `GetACLActionForBANPRule` map rule actions to
  OVN ACL actions. Module `Actions`.
- `constructMatchFromAddressSet` renders the L3 match: membership of the
  peer address set, per enabled address family. Module `AddressSetMatch`.
- `getProtocolPortsMap` groups a rule's (protocol, port, end port) tuples
  per protocol into discrete ports and range clauses. Module `PortGrouping`.
  It is a method with a loop that updates a map of buckets, proved against
  per-protocol reference functions.
- `constructMatchFromProtocolPorts` renders the L4 match of one protocol
  bucket. Module `PortMatch`. It is a method that appends disjuncts to a
  local list, proved against the function `L4Match`.

Supporting modules:

- `Strings` holds Go's `strings.Join`, plus a separator search and split.
  The split is the reference reading that recovers what was joined.
- `Decimal` holds `fmt.Sprintf("%d", …)` and its inverse parser.
- `Nesting` counts parentheses. It defines when a clause is one
  parenthesised group, which is what makes the clause safe to AND with others.

The main properties proved are these:

- Each protocol bucket holds exactly its protocol's discrete ports and range
  clauses, in input order.
- A protocol seen only in tuples with port 0 and end port 0 still gets a
  key, with both lists empty. A tuple with port 0 and a nonzero end port is
  a range.
- The `{…}` port set splits back into the port list.
- A multi-disjunct L4 match is one parenthesised group, and its inside splits
  back into the disjuncts.
- The L3 match is wrapped in an extra pair of parentheses. Its inside splits
  into exactly the enabled families' clauses, with `src` for ingress and
  `dst` otherwise.
- Readable port-group names parse back to the policy name and flavour.
- ACL and address-set identities are injective in every field they are
  built from.
- The action mappings are one-to-one, and a baseline policy never yields
  `pass`.

Behaviour of the code worth knowing, which the model keeps:

- With an empty port list, `getProtocolPortsMap` returns an empty map. The
  "no ports" sentinel protocol is handled by callers that are not part of
  this model.
- A tuple with port 0 and end port 0 does not bypass grouping: its protocol
  still becomes a key, and the tuple adds nothing to either list.
- Protocol buckets live in a Go map, so no order across protocols is
  promised. The model returns a `map`.
- With both address families disabled, the L3 match is the literal `"()"`.

## Model

| member | source | states |
|---|---|---|
| Protocols.GetPortProtocol | go-controller/pkg/ovn/controller/admin_network_policy/utils.go:21-33 | TCP, SCTP and UDP map to "tcp", "sctp" and "udp", each token from that protocol only; every other value maps to "" |
| Protocols.GetPortProtocolLowers | go-controller/pkg/ovn/controller/admin_network_policy/utils.go:24-31 | for the three known protocols the token is the ASCII lower-casing of the protocol name |
| Protocols.GetPortProtocolInjective | go-controller/pkg/ovn/controller/admin_network_policy/utils.go:24-31 | distinct known protocols get distinct tokens |
| Identity.GetAdminNetworkPolicyPGName | go-controller/pkg/ovn/controller/admin_network_policy/utils.go:35-42 | the readable name parses back to exactly the policy name and the ANP/BANP flavour; the hashed name is the hash of the readable name |
| Identity.PGNameInjective | go-controller/pkg/ovn/controller/admin_network_policy/utils.go:36-41 | two policies get the same readable port-group name only if both name and flavour agree |
| Identity.GetANPRuleACLDbIDs | go-controller/pkg/ovn/controller/admin_network_policy/utils.go:44-58 | an ACL identity whose type is the baseline one exactly when isBanp, owned by the controller, with exactly the name, direction, index and protocol keys holding the given values |
| Identity.ACLDbIDsInjective | go-controller/pkg/ovn/controller/admin_network_policy/utils.go:45-58 | equal rule ACL identities come only from equal name, direction, index, protocol, controller and flavour |
| Identity.GetANPPeerAddrSetDbIDs | go-controller/pkg/ovn/controller/admin_network_policy/utils.go:90-102 | an address-set (never ACL) identity of the given flavour, with exactly the name, direction and index keys and no protocol |
| Identity.AddrSetDbIDsInjective | go-controller/pkg/ovn/controller/admin_network_policy/utils.go:91-102 | equal peer address-set identities come only from equal name, direction, index, controller and flavour |
| Identity.AddrSetIDsAreACLIDsWithoutProtocol | go-controller/pkg/ovn/controller/admin_network_policy/utils.go:96-101 | a rule's address-set keys are its ACL keys with the protocol key removed |
| Actions.GetACLActionForANPRule | go-controller/pkg/ovn/controller/admin_network_policy/utils.go:60-74 | on Allow, Deny and Pass (the only inputs that do not panic), allow-related, drop and pass are produced from exactly those actions respectively |
| Actions.GetACLActionForBANPRule | go-controller/pkg/ovn/controller/admin_network_policy/utils.go:76-88 | on Allow and Deny (the only inputs that do not panic), allow-related and drop are produced from exactly those actions, and pass never is |
| Actions.BANPAgreesWithANP | go-controller/pkg/ovn/controller/admin_network_policy/utils.go:61-88 | every baseline action is a standard action and maps to the same ACL action |
| AddressSetMatch.ConstructMatchFromAddressSet | go-controller/pkg/ovn/controller/admin_network_policy/utils.go:104-124 | the match is the enabled families' membership clauses (IPv4 first, `src` for ingress and `dst` otherwise), OR-joined inside two pairs of parentheses, or "()" with no family enabled |
| AddressSetMatch.L3MatchEnclosed | go-controller/pkg/ovn/controller/admin_network_policy/utils.go:114-123 | with parenthesis-free address-set names, the match is one parenthesised group, and with a family enabled so is the text inside its outer pair |
| AddressSetMatch.L3MatchClauses | go-controller/pkg/ovn/controller/admin_network_policy/utils.go:105-121 | the text inside the parentheses splits on " \|\| " into both clauses for dual-stack and only its own for a single family; the head names the first family and the direction |
| PortGrouping.GetProtocolPortsMap | go-controller/pkg/ovn/controller/admin_network_policy/utils.go:142-158 | the keys are exactly the input's protocols, and each bucket holds that protocol's discrete ports and range clauses in input order |
| PortGrouping.ProtocolsMembership | go-controller/pkg/ovn/controller/admin_network_policy/utils.go:144-150 | a protocol is a key exactly when some input tuple names it |
| PortGrouping.BucketsAppend | go-controller/pkg/ovn/controller/admin_network_policy/utils.go:144-156 | grouping a concatenation appends the second part's ports and ranges after the first's: buckets only grow at the end |
| PortGrouping.SinglePortBucket | go-controller/pkg/ovn/controller/admin_network_policy/utils.go:151-155 | a tuple adds its range clause when its end port is nonzero and differs from its port; otherwise it adds its port when the port is nonzero; otherwise it adds nothing; its protocol always becomes a key |
| PortGrouping.AnyPortOnlyProtocol | go-controller/pkg/ovn/controller/admin_network_policy/utils.go:146-155 | a protocol seen only in tuples with port 0 and end port 0 is a key whose two lists are empty |
| PortGrouping.PortListMembership | go-controller/pkg/ovn/controller/admin_network_policy/utils.go:153-154 | a port's text is in a protocol's list exactly when some tuple of that protocol names it as a discrete port |
| PortGrouping.RangeClauseRoundTrip | go-controller/pkg/ovn/controller/admin_network_policy/utils.go:151-152 | a range clause splits on "<=" back into its port, "<protocol>.dst" and its end port |
| PortMatch.ConstructMatchFromProtocolPorts | go-controller/pkg/ovn/controller/admin_network_policy/utils.go:160-180 | the rendered match equals `L4Match`: the bare protocol with no disjuncts, "<proto> && X" with one, "<proto> && (X \|\| Y …)" with more; the disjuncts are the port-list clause, if any, then the ranges |
| PortMatch.L4MatchBareProtocol | go-controller/pkg/ovn/controller/admin_network_policy/utils.go:171-179 | the match is the bare protocol exactly when the bucket has no discrete ports and no ranges |
| PortMatch.PortListClauseReadsBack | go-controller/pkg/ovn/controller/admin_network_policy/utils.go:162-169 | one port renders as "<proto>.dst==<p>"; two or more render as "<proto>.dst=={…}" whose inside splits on "," back into the port list, in order |
| PortMatch.L4MatchDisjuncts | go-controller/pkg/ovn/controller/admin_network_policy/utils.go:170-179 | after "<proto> && " comes the single disjunct as is, or one parenthesised group whose inside splits back into the disjuncts, in order |
| PortMatch.GroupedL4MatchDisjuncts | go-controller/pkg/ovn/controller/admin_network_policy/utils.go:142-179 | for a bucket built by the grouper, a multi-disjunct match is one parenthesised group listing the port-list clause and then the range clauses |
| PortMatch.ScenarioSinglePort | go-controller/pkg/ovn/controller/admin_network_policy/utils.go:162-179 | ports [tcp 80] render "tcp && tcp.dst==80" |
| PortMatch.ScenarioTwoPorts | go-controller/pkg/ovn/controller/admin_network_policy/utils.go:162-179 | ports [tcp 80, tcp 443] render "tcp && tcp.dst=={80,443}" |
| PortMatch.ScenarioRange | go-controller/pkg/ovn/controller/admin_network_policy/utils.go:151-179 | ports [udp 1000-2000] render "udp && 1000<=udp.dst<=2000" |
| PortMatch.ScenarioMixed | go-controller/pkg/ovn/controller/admin_network_policy/utils.go:151-179 | ports [tcp 80, tcp 1000-2000] render "tcp && (tcp.dst==80 \|\| 1000<=tcp.dst<=2000)" |
| PortMatch.ScenarioAnyPort | go-controller/pkg/ovn/controller/admin_network_policy/utils.go:151-179 | ports [sctp 0] render the bare "sctp" |

## Left out

- `util.HashForOVN` and `addressset.GetHashNamesForAS` are foreign hash functions. They are parameters of function type, so only their determinism is used.
- `libovsdbops.NewDbObjectIDs` is not part of this model. An identity is a record of its type, owning controller and key map, as passed at lines 50-57 and 96-101.
- The global `config.IPv4Mode` and `config.IPv6Mode` are boolean parameters.
- Constants defined outside this file are taken with their upstream values: `libovsdbutil.ACLIngress` is "Ingress"; the `nbdb` ACL actions are "allow-related", "drop" and "pass"; the rule actions are "Allow", "Deny" and "Pass"; the Kubernetes protocols are "TCP", "UDP" and "SCTP". The files defining them are not part of this model.
- The `panic` on an unknown action is not modelled as behaviour. It is the precondition of the two action mappers.
- The `adminNetworkPolicyPort` type is not part of this model. Ports are unbounded integers rendered by `%d`, so the width of the Go fields is not modelled.
- Go map iteration order is not modelled. The grouper returns a `map`, and nothing is said about order across protocols.
- The buckets are `*gressPolicyPorts` pointers, appended to in place. Here they are values written back into the map. Each bucket is allocated fresh and reachable from its own key only, so no aliasing is lost.
- Priority validation is not modelled. Only its error values are in this file (lines 18-19), and the logic that uses them is elsewhere.
- The "None" empty-protocol sentinel (line 132) is not modelled for the same reason.
- AddressSetMatch.L3MatchEnclosed and AddressSetMatch.L3MatchClauses assume that the hashed address-set names hold no parentheses and no '|'. The hash is not modelled, so the lemmas state this as a precondition.
- PortMatch.L4MatchDisjuncts and PortMatch.GroupedL4MatchDisjuncts assume the same of protocol names, which the code receives from `getPortProtocol` in its callers.
