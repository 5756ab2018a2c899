/** Mapping of a Kubernetes port protocol to the token OVN match syntax uses. */
module Protocols {

  /** Values of the Kubernetes `v1.Protocol` string type. */
  const ProtocolTCP: string := "TCP"
  const ProtocolUDP: string := "UDP"
  const ProtocolSCTP: string := "SCTP"

  predicate IsKnownProtocol(proto: string)
  {
    proto == ProtocolTCP || proto == ProtocolUDP || proto == ProtocolSCTP
  }

  /** ASCII lower-casing, the reference the mapping agrees with on known protocols. */
  function Lower(s: string): (r: string)
    ensures |r| == |s|
  {
    if |s| == 0 then ""
    else [if 'A' <= s[0] <= 'Z' then (s[0] as int + 32) as char else s[0]] + Lower(s[1..])
  }

  /** `getPortProtocol`: TCP, SCTP and UDP map to their OVN tokens; every
      other value maps to the empty string. */
  function GetPortProtocol(proto: string): (protocol: string)
    ensures proto == ProtocolTCP <==> protocol == "tcp"
    ensures proto == ProtocolSCTP <==> protocol == "sctp"
    ensures proto == ProtocolUDP <==> protocol == "udp"
    ensures !IsKnownProtocol(proto) <==> protocol == ""
  {
    if proto == ProtocolTCP then "tcp"
    else if proto == ProtocolSCTP then "sctp"
    else if proto == ProtocolUDP then "udp"
    else ""
  }

  /** For the protocols it knows, the token is the lower-cased protocol name. */
  lemma GetPortProtocolLowers(proto: string)
    requires IsKnownProtocol(proto)
    ensures GetPortProtocol(proto) == Lower(proto)
  {
  }

  /** Distinct known protocols get distinct tokens. */
  lemma GetPortProtocolInjective(a: string, b: string)
    requires IsKnownProtocol(a) && IsKnownProtocol(b)
    ensures GetPortProtocol(a) == GetPortProtocol(b) ==> a == b
  {
  }
}
