/** Port-group names and the structured database identities of the ACLs and
    peer address sets generated for a policy rule. The hash used for bounded
    physical names is a parameter: only its determinism is relied on. */
module Identity {
  import opened Strings

  /** The object-ID types the identities below use. */
  datatype ObjectIDsType =
    | ACLAdminNetworkPolicy
    | ACLBaselineAdminNetworkPolicy
    | AddressSetAdminNetworkPolicy
    | AddressSetBaselineAdminNetworkPolicy
  {
    predicate IsACL()
    {
      ACLAdminNetworkPolicy? || ACLBaselineAdminNetworkPolicy?
    }

    predicate IsBaseline()
    {
      ACLBaselineAdminNetworkPolicy? || AddressSetBaselineAdminNetworkPolicy?
    }
  }

  /** Keys of the external-ID map an identity carries. */
  datatype ExternalIDKey = ObjectNameKey | PolicyDirectionKey | GressIdxKey | PortPolicyProtocolKey

  /** `libovsdbops.DbObjectIDs`: type, owning controller and external IDs. */
  datatype DbObjectIDs = DbObjectIDs(
    idType: ObjectIDsType,
    ownerControllerName: string,
    objectIDs: map<ExternalIDKey, string>)

  const ANPPrefix: string := "ANP:"
  const BANPPrefix: string := "BANP:"

  /** Reads a readable port-group name back into the policy name and flavour. */
  function ParseReadablePGName(s: string): Option<(string, bool)>
  {
    if |s| >= |ANPPrefix| && s[..|ANPPrefix|] == ANPPrefix then Some((s[|ANPPrefix|..], false))
    else if |s| >= |BANPPrefix| && s[..|BANPPrefix|] == BANPPrefix then Some((s[|BANPPrefix|..], true))
    else None
  }

  /** `getAdminNetworkPolicyPGName`: the readable name carries the flavour
      prefix and the policy name, and reads back to both; the hashed name is
      the hash of the readable one. */
  function GetAdminNetworkPolicyPGName(name: string, isBanp: bool, hashForOVN: string -> string)
    : (names: (string, string))
    ensures ParseReadablePGName(names.1) == Some((name, isBanp))
    ensures names.0 == hashForOVN(names.1)
  {
    var readablePortGroupName := if isBanp then BANPPrefix + name else ANPPrefix + name;
    assert isBanp ==> readablePortGroupName[..|ANPPrefix|] != ANPPrefix by {
      if isBanp { assert readablePortGroupName[0] == 'B'; }
    }
    assert readablePortGroupName[..|ANPPrefix|] == ANPPrefix || isBanp;
    (hashForOVN(readablePortGroupName), readablePortGroupName)
  }

  /** Two policies share a readable port-group name only if they share name and flavour. */
  lemma PGNameInjective(n1: string, b1: bool, n2: string, b2: bool, hashForOVN: string -> string)
    ensures GetAdminNetworkPolicyPGName(n1, b1, hashForOVN).1 == GetAdminNetworkPolicyPGName(n2, b2, hashForOVN).1
            ==> n1 == n2 && b1 == b2
  {
  }

  /** `getANPRuleACLDbIDs`: an ACL identity of the policy's flavour carrying
      exactly the name, direction, rule index and protocol. */
  function GetANPRuleACLDbIDs(name: string, gressPrefix: string, gressIndex: string, protocol: string,
                              controller: string, isBanp: bool): (ids: DbObjectIDs)
    ensures ids.idType.IsACL() && (ids.idType.IsBaseline() <==> isBanp)
    ensures ids.ownerControllerName == controller
    ensures ids.objectIDs.Keys == {ObjectNameKey, PolicyDirectionKey, GressIdxKey, PortPolicyProtocolKey}
    ensures ids.objectIDs[ObjectNameKey] == name && ids.objectIDs[PolicyDirectionKey] == gressPrefix
    ensures ids.objectIDs[GressIdxKey] == gressIndex && ids.objectIDs[PortPolicyProtocolKey] == protocol
  {
    var idType := if isBanp then ACLBaselineAdminNetworkPolicy else ACLAdminNetworkPolicy;
    DbObjectIDs(idType, controller, map[
      ObjectNameKey := name,
      PolicyDirectionKey := gressPrefix,
      GressIdxKey := gressIndex,
      PortPolicyProtocolKey := protocol])
  }

  /** `GetANPPeerAddrSetDbIDs`: an address-set identity of the policy's
      flavour carrying the name, direction and rule index, and no protocol. */
  function GetANPPeerAddrSetDbIDs(name: string, gressPrefix: string, gressIndex: string,
                                  controller: string, isBanp: bool): (ids: DbObjectIDs)
    ensures !ids.idType.IsACL() && (ids.idType.IsBaseline() <==> isBanp)
    ensures ids.ownerControllerName == controller
    ensures ids.objectIDs.Keys == {ObjectNameKey, PolicyDirectionKey, GressIdxKey}
    ensures ids.objectIDs[ObjectNameKey] == name && ids.objectIDs[PolicyDirectionKey] == gressPrefix
    ensures ids.objectIDs[GressIdxKey] == gressIndex
  {
    var idType := if isBanp then AddressSetBaselineAdminNetworkPolicy else AddressSetAdminNetworkPolicy;
    DbObjectIDs(idType, controller, map[
      ObjectNameKey := name,
      PolicyDirectionKey := gressPrefix,
      GressIdxKey := gressIndex])
  }

  /** Two rule ACLs share an identity only if every field they were built from agrees. */
  lemma ACLDbIDsInjective(n1: string, g1: string, i1: string, p1: string, c1: string, b1: bool,
                          n2: string, g2: string, i2: string, p2: string, c2: string, b2: bool)
    requires GetANPRuleACLDbIDs(n1, g1, i1, p1, c1, b1) == GetANPRuleACLDbIDs(n2, g2, i2, p2, c2, b2)
    ensures n1 == n2 && g1 == g2 && i1 == i2 && p1 == p2 && c1 == c2 && b1 == b2
  {
  }

  /** Two peer address sets share an identity only if every field they were built from agrees. */
  lemma AddrSetDbIDsInjective(n1: string, g1: string, i1: string, c1: string, b1: bool,
                              n2: string, g2: string, i2: string, c2: string, b2: bool)
    requires GetANPPeerAddrSetDbIDs(n1, g1, i1, c1, b1) == GetANPPeerAddrSetDbIDs(n2, g2, i2, c2, b2)
    ensures n1 == n2 && g1 == g2 && i1 == i2 && c1 == c2 && b1 == b2
  {
  }

  /** A rule's peer address set is keyed like its ACLs, less the protocol. */
  lemma AddrSetIDsAreACLIDsWithoutProtocol(name: string, gressPrefix: string, gressIndex: string,
                                           protocol: string, controller: string, isBanp: bool)
    ensures GetANPPeerAddrSetDbIDs(name, gressPrefix, gressIndex, controller, isBanp).objectIDs
         == GetANPRuleACLDbIDs(name, gressPrefix, gressIndex, protocol, controller, isBanp).objectIDs
            - {PortPolicyProtocolKey}
  {
  }
}
