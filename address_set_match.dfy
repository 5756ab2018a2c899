/** L3 part of a rule's ACL match: membership of the peer's address set.
    The address-family switches are parameters, and so is the function that
    derives the hashed IPv4 and IPv6 address-set names from an identity. */
module AddressSetMatch {
  import opened Strings
  import opened Nesting
  import opened Identity

  /** `libovsdbutil.ACLIngress`, the direction prefix of ingress rules. */
  const ACLIngress: string := "Ingress"

  /** Ingress rules match the peer as source, every other direction as destination. */
  function MatchDirection(gressPrefix: string): string
  {
    if gressPrefix == ACLIngress then "src" else "dst"
  }

  /** `ip<family>.<direction> == $<address set>` */
  function MembershipClause(family: string, direction: string, addressSet: string): string
  {
    "ip" + family + "." + direction + " == $" + addressSet
  }

  /** One membership clause per enabled address family, IPv4 first. */
  function EnabledFamilyClauses(direction: string, v4AddressSet: string, v6AddressSet: string,
                                ipv4Mode: bool, ipv6Mode: bool): seq<string>
  {
    (if ipv4Mode then [MembershipClause("4", direction, v4AddressSet)] else [])
    + (if ipv6Mode then [MembershipClause("6", direction, v6AddressSet)] else [])
  }

  /** `constructMatchFromAddressSet`: the clauses of the enabled families,
      OR-ed inside one pair of parentheses, inside one more pair; with no
      family enabled the source renders "()". */
  function ConstructMatchFromAddressSet(gressPrefix: string, addrSetIndex: DbObjectIDs,
                                        getHashNamesForAS: DbObjectIDs -> (string, string),
                                        ipv4Mode: bool, ipv6Mode: bool): (l3Match: string)
    ensures var clauses := EnabledFamilyClauses(MatchDirection(gressPrefix),
                             getHashNamesForAS(addrSetIndex).0, getHashNamesForAS(addrSetIndex).1,
                             ipv4Mode, ipv6Mode);
            l3Match == if |clauses| == 0 then "()" else "((" + Join(clauses, " || ") + "))"
  {
    var (v4Name, v6Name) := getHashNamesForAS(addrSetIndex);
    var direction := MatchDirection(gressPrefix);
    var v4Clause := MembershipClause("4", direction, v4Name);
    var v6Clause := MembershipClause("6", direction, v6Name);
    var disjunction :=
      if ipv4Mode && ipv6Mode then v4Clause + " || " + v6Clause
      else if ipv4Mode then v4Clause
      else v6Clause;
    var m := if ipv4Mode || ipv6Mode then "(" + disjunction + ")" else "";
    assert ipv4Mode || ipv6Mode ==>
      disjunction == Join(EnabledFamilyClauses(direction, v4Name, v6Name, ipv4Mode, ipv6Mode), " || ");
    assert "(" + m + ")" == if ipv4Mode || ipv6Mode then "((" + disjunction + "))" else "()";
    "(" + m + ")"
  }

  lemma ClausesAvoid(direction: string, v4: string, v6: string, ipv4Mode: bool, ipv6Mode: bool, c: char)
    requires c !in direction && c !in v4 && c !in v6 && c !in "ip46. == $"
    ensures NoneContains(EnabledFamilyClauses(direction, v4, v6, ipv4Mode, ipv6Mode), c)
  {
  }

  /** With address-set names free of parentheses, the match is one
      parenthesised group, and (with a family enabled) so is the text inside
      its outer pair: it can be AND-ed with other clauses as it stands. */
  lemma L3MatchEnclosed(gressPrefix: string, addrSetIndex: DbObjectIDs,
                        getHashNamesForAS: DbObjectIDs -> (string, string), ipv4Mode: bool, ipv6Mode: bool)
    requires ParenFree(getHashNamesForAS(addrSetIndex).0) && ParenFree(getHashNamesForAS(addrSetIndex).1)
    ensures var l3Match := ConstructMatchFromAddressSet(gressPrefix, addrSetIndex, getHashNamesForAS, ipv4Mode, ipv6Mode);
            Enclosed(l3Match) && ((ipv4Mode || ipv6Mode) ==> Enclosed(l3Match[1..|l3Match| - 1]))
  {
    var (v4, v6) := getHashNamesForAS(addrSetIndex);
    var d := MatchDirection(gressPrefix);
    var clauses := EnabledFamilyClauses(d, v4, v6, ipv4Mode, ipv6Mode);
    var l3Match := ConstructMatchFromAddressSet(gressPrefix, addrSetIndex, getHashNamesForAS, ipv4Mode, ipv6Mode);
    if |clauses| == 0 {
      ParenFreeBalanced("");
      WrapEnclosed("");
      assert l3Match == "(" + "" + ")";
    } else {
      var body := Join(clauses, " || ");
      ClausesAvoid(d, v4, v6, ipv4Mode, ipv6Mode, '(');
      ClausesAvoid(d, v4, v6, ipv4Mode, ipv6Mode, ')');
      JoinAvoids(clauses, " || ", '(');
      JoinAvoids(clauses, " || ", ')');
      ParenFreeBalanced(body);
      WrapEnclosed(body);
      var inner := "(" + body + ")";
      EnclosedBalanced(inner);
      WrapEnclosed(inner);
      assert l3Match == "(" + inner + ")";
      assert l3Match[1..|l3Match| - 1] == inner;
    }
  }

  /** With address-set names free of '|', the text inside the two pairs of
      parentheses splits back into exactly the enabled families' clauses:
      both for dual-stack, only its own for a single family. Its head names
      the first family and the direction: `src` for ingress, `dst` otherwise. */
  lemma L3MatchClauses(gressPrefix: string, addrSetIndex: DbObjectIDs,
                       getHashNamesForAS: DbObjectIDs -> (string, string), ipv4Mode: bool, ipv6Mode: bool)
    requires ipv4Mode || ipv6Mode
    requires '|' !in getHashNamesForAS(addrSetIndex).0 && '|' !in getHashNamesForAS(addrSetIndex).1
    ensures var l3Match := ConstructMatchFromAddressSet(gressPrefix, addrSetIndex, getHashNamesForAS, ipv4Mode, ipv6Mode);
            && |l3Match| >= 9
            && Split(l3Match[2..|l3Match| - 2], " || ")
               == EnabledFamilyClauses(MatchDirection(gressPrefix), getHashNamesForAS(addrSetIndex).0,
                                       getHashNamesForAS(addrSetIndex).1, ipv4Mode, ipv6Mode)
            && l3Match[2..9] == "ip" + (if ipv4Mode then "4" else "6") + "." + MatchDirection(gressPrefix)
  {
    var (v4, v6) := getHashNamesForAS(addrSetIndex);
    var d := MatchDirection(gressPrefix);
    var clauses := EnabledFamilyClauses(d, v4, v6, ipv4Mode, ipv6Mode);
    var l3Match := ConstructMatchFromAddressSet(gressPrefix, addrSetIndex, getHashNamesForAS, ipv4Mode, ipv6Mode);
    var body := Join(clauses, " || ");
    assert l3Match == "((" + body + "))";
    assert l3Match[2..|l3Match| - 2] == body;
    ClausesAvoid(d, v4, v6, ipv4Mode, ipv6Mode, '|');
    assert Marker(" || ", 1, '|') by { assert " || "[..1] == " "; }
    SplitJoin(clauses, " || ", 1, '|');
    assert body[..7] == clauses[0][..7];
  }
}
