/** L4 part of a rule's ACL match for one protocol bucket: the protocol,
    AND-ed with the disjunction of its port-list clause and range clauses. */
module PortMatch {
  import opened Strings
  import opened Nesting
  import opened Decimal
  import opened PortGrouping

  /** `<protocol>.dst==<p>` for one port, `<protocol>.dst=={<p1>,<p2>,...}` for more. */
  function PortListClause(protocol: string, portList: seq<string>): string
    requires |portList| > 0
  {
    if |portList| > 1 then protocol + ".dst=={" + Join(portList, ",") + "}"
    else protocol + ".dst==" + portList[0]
  }

  /** The port-list clause, if any, followed by the range clauses in order. */
  function L4Disjuncts(protocol: string, ports: GressPolicyPorts): seq<string>
  {
    (if |ports.portList| > 0 then [PortListClause(protocol, ports.portList)] else [])
    + ports.portRange
  }

  /** The bare protocol when there are no disjuncts; otherwise the protocol
      AND-ed with the one disjunct, or with all of them OR-ed in parentheses. */
  function L4Match(protocol: string, ports: GressPolicyPorts): string
  {
    var disjuncts := L4Disjuncts(protocol, ports);
    if |disjuncts| == 0 then protocol
    else if |disjuncts| == 1 then protocol + " && " + disjuncts[0]
    else protocol + " && (" + Join(disjuncts, " || ") + ")"
  }

  /** `constructMatchFromProtocolPorts`: collects the disjuncts in a local
      list, then chooses the template by how many there are. */
  method ConstructMatchFromProtocolPorts(protocol: string, ports: GressPolicyPorts) returns (l4Match: string)
    ensures l4Match == L4Match(protocol, ports)
  {
    var allL4Matches: seq<string> := [];
    if |ports.portList| > 0 {
      var portListMatch := PortListClause(protocol, ports.portList);
      allL4Matches := allL4Matches + [portListMatch];
    }
    allL4Matches := allL4Matches + ports.portRange;
    l4Match := protocol;
    if |allL4Matches| > 0 {
      if |allL4Matches| > 1 {
        l4Match := protocol + " && (" + Join(allL4Matches, " || ") + ")";
      } else {
        l4Match := protocol + " && " + Join(allL4Matches, " || ");
      }
    }
  }

  /** The match is the bare protocol exactly when the bucket has neither
      discrete ports nor ranges. */
  lemma L4MatchBareProtocol(protocol: string, ports: GressPolicyPorts)
    ensures L4Match(protocol, ports) == protocol <==> |ports.portList| == 0 && |ports.portRange| == 0
  {
    var disjuncts := L4Disjuncts(protocol, ports);
    if |disjuncts| > 0 {
      assert |L4Match(protocol, ports)| > |protocol|;
    }
  }

  /** With two or more discrete ports the set between the braces splits back
      into the port list, in order; a single port is written bare. */
  lemma PortListClauseReadsBack(protocol: string, portList: seq<string>)
    requires |portList| > 0 && NoneContains(portList, ',')
    ensures var clause := PortListClause(protocol, portList);
            var head := |protocol| + 6;
            && |clause| >= head
            && clause[..head] == protocol + ".dst=="
            && (|portList| == 1 ==> clause[head..] == portList[0])
            && (|portList| > 1 ==> |clause| >= head + 2 && clause[head] == '{' && clause[|clause| - 1] == '}'
                                   && Split(clause[head + 1..|clause| - 1], ",") == portList)
  {
    var clause := PortListClause(protocol, portList);
    var head := |protocol| + 6;
    if |portList| > 1 {
      var body := Join(portList, ",");
      assert clause == protocol + ".dst==" + "{" + body + "}";
      assert clause[head + 1..|clause| - 1] == body;
      assert Marker(",", 0, ',');
      SplitJoin(portList, ",", 0, ',');
    }
  }

  lemma DisjunctsAvoid(protocol: string, ports: GressPolicyPorts, c: char)
    requires c !in protocol && c !in ".dst=={,}"
    requires NoneContains(ports.portList, c) && NoneContains(ports.portRange, c)
    ensures NoneContains(L4Disjuncts(protocol, ports), c)
  {
    if |ports.portList| > 1 {
      JoinAvoids(ports.portList, ",", c);
    }
  }

  /** With no parentheses or '|' in the protocol and the bucket, a match
      with disjuncts is the protocol, " && ", then either the single
      disjunct as is, or one parenthesised group whose inside splits back
      into exactly the disjuncts, in order. */
  lemma L4MatchDisjuncts(protocol: string, ports: GressPolicyPorts)
    requires |L4Disjuncts(protocol, ports)| > 0
    requires ParenFree(protocol) && '|' !in protocol
    requires NoneContains(ports.portList, '(') && NoneContains(ports.portList, ')') && NoneContains(ports.portList, '|')
    requires NoneContains(ports.portRange, '(') && NoneContains(ports.portRange, ')') && NoneContains(ports.portRange, '|')
    ensures var l4Match := L4Match(protocol, ports);
            var disjuncts := L4Disjuncts(protocol, ports);
            var head := |protocol| + 4;
            && |l4Match| >= head
            && l4Match[..head] == protocol + " && "
            && (|disjuncts| == 1 ==> l4Match[head..] == disjuncts[0])
            && (|disjuncts| > 1 ==> Enclosed(l4Match[head..])
                                    && Split(l4Match[head + 1..|l4Match| - 1], " || ") == disjuncts)
  {
    var l4Match := L4Match(protocol, ports);
    var disjuncts := L4Disjuncts(protocol, ports);
    var head := |protocol| + 4;
    if |disjuncts| > 1 {
      var body := Join(disjuncts, " || ");
      assert l4Match == protocol + " && " + ("(" + body + ")");
      assert l4Match[head..] == "(" + body + ")";
      assert l4Match[head + 1..|l4Match| - 1] == body;
      DisjunctsAvoid(protocol, ports, '(');
      DisjunctsAvoid(protocol, ports, ')');
      DisjunctsAvoid(protocol, ports, '|');
      JoinAvoids(disjuncts, " || ", '(');
      JoinAvoids(disjuncts, " || ", ')');
      ParenFreeBalanced(body);
      WrapEnclosed(body);
      assert Marker(" || ", 1, '|') by { assert " || "[..1] == " "; }
      SplitJoin(disjuncts, " || ", 1, '|');
    }
  }

  lemma {:induction false} PortListAvoids(ports: seq<AdminNetworkPolicyPort>, protocol: string, c: char)
    requires !IsDigit(c) && c != '-'
    ensures NoneContains(PortListFor(ports, protocol), c)
  {
    if |ports| > 0 {
      PortListAvoids(ports[..|ports| - 1], protocol, c);
      IntToStringAvoids(ports[|ports| - 1].port, c);
    }
  }

  lemma {:induction false} PortRangeAvoids(ports: seq<AdminNetworkPolicyPort>, protocol: string, c: char)
    requires !IsDigit(c) && c != '-' && c !in "<=.dst"
    requires forall i :: 0 <= i < |ports| ==> c !in ports[i].protocol
    ensures NoneContains(PortRangeFor(ports, protocol), c)
  {
    if |ports| > 0 {
      var pp := ports[|ports| - 1];
      PortRangeAvoids(ports[..|ports| - 1], protocol, c);
      IntToStringAvoids(pp.port, c);
      IntToStringAvoids(pp.endPort, c);
    }
  }

  /** For a bucket the grouper built, with protocols free of parentheses and
      '|': the L4 match lists the protocol's port-list clause, if it has
      discrete ports, and then its range clauses, one disjunct each. */
  lemma GroupedL4MatchDisjuncts(ports: seq<AdminNetworkPolicyPort>, protocol: string)
    requires forall i :: 0 <= i < |ports| ==> ParenFree(ports[i].protocol) && '|' !in ports[i].protocol
    requires ParenFree(protocol) && '|' !in protocol
    requires |L4Disjuncts(protocol, BucketFor(ports, protocol))| > 1
    ensures var l4Match := L4Match(protocol, BucketFor(ports, protocol));
            var head := |protocol| + 4;
            && |l4Match| >= head
            && Enclosed(l4Match[head..])
            && Split(l4Match[head + 1..|l4Match| - 1], " || ") == L4Disjuncts(protocol, BucketFor(ports, protocol))
  {
    PortListAvoids(ports, protocol, '(');
    PortListAvoids(ports, protocol, ')');
    PortListAvoids(ports, protocol, '|');
    PortRangeAvoids(ports, protocol, '(');
    PortRangeAvoids(ports, protocol, ')');
    PortRangeAvoids(ports, protocol, '|');
    L4MatchDisjuncts(protocol, BucketFor(ports, protocol));
  }

  /** A single discrete port renders without braces. */
  lemma ScenarioSinglePort(ports: seq<AdminNetworkPolicyPort>)
    requires ports == [AdminNetworkPolicyPort("tcp", 80, 0)]
    ensures L4Match("tcp", BucketFor(ports, "tcp")) == "tcp && tcp.dst==80"
  {
    SinglePortBucket([], ports[0]);
    assert [] + [ports[0]] == ports;
    Render80();
    var bucket := BucketFor(ports, "tcp");
    assert bucket == GressPolicyPorts(["80"], []);
    assert PortListClause("tcp", ["80"]) == "tcp.dst==80";
    assert L4Disjuncts("tcp", bucket) == ["tcp.dst==80"];
    UnfoldOneDisjunct("tcp", bucket);
  }

  /** Two discrete ports render as a brace set in input order. */
  lemma ScenarioTwoPorts(ports: seq<AdminNetworkPolicyPort>)
    requires ports == [AdminNetworkPolicyPort("tcp", 80, 0), AdminNetworkPolicyPort("tcp", 443, 0)]
    ensures L4Match("tcp", BucketFor(ports, "tcp")) == "tcp && tcp.dst=={80,443}"
  {
    TwoPortsBucket(ports);
    var bucket := BucketFor(ports, "tcp");
    var portList := bucket.portList;
    assert portList[1..] == ["443"];
    assert Join(portList[1..], ",") == "443";
    assert Join(portList, ",") == "80,443";
    assert PortListClause("tcp", portList) == "tcp.dst=={80,443}";
    assert L4Disjuncts("tcp", bucket) == ["tcp.dst=={80,443}"];
    UnfoldOneDisjunct("tcp", bucket);
  }

  /** A range renders as one bare range clause. */
  lemma ScenarioRange(ports: seq<AdminNetworkPolicyPort>)
    requires ports == [AdminNetworkPolicyPort("udp", 1000, 2000)]
    ensures L4Match("udp", BucketFor(ports, "udp")) == "udp && 1000<=udp.dst<=2000"
  {
    RangeBucket(ports);
    RangeMatch(BucketFor(ports, "udp"));
  }

  /** A discrete port and a range of one protocol are OR-ed in parentheses. */
  lemma ScenarioMixed(ports: seq<AdminNetworkPolicyPort>)
    requires ports == [AdminNetworkPolicyPort("tcp", 80, 0), AdminNetworkPolicyPort("tcp", 1000, 2000)]
    ensures L4Match("tcp", BucketFor(ports, "tcp")) == "tcp && (tcp.dst==80 || 1000<=tcp.dst<=2000)"
  {
    MixedBucket(ports);
    MixedMatch(BucketFor(ports, "tcp"));
  }

  /** Port 0 with no end port puts no port restriction on the protocol. */
  lemma ScenarioAnyPort(ports: seq<AdminNetworkPolicyPort>)
    requires ports == [AdminNetworkPolicyPort("sctp", 0, 0)]
    ensures L4Match("sctp", BucketFor(ports, "sctp")) == "sctp"
  {
    SinglePortBucket([], ports[0]);
    assert [] + [ports[0]] == ports;
    assert BucketFor(ports, "sctp") == GressPolicyPorts([], []);
  }

  // ---------------------------------------------------------------------
  // Steps of the scenarios above. Each fixes one literal fact (a rendered
  // number, a bucket, a template choice) in a lemma of its own, so that the
  // solver unfolds the definitions on literals one small piece at a time.
  // They state nothing about the code beyond what the scenarios state.
  // ---------------------------------------------------------------------

  lemma Render80()
    ensures IntToString(80) == "80"
  {
  }

  lemma Render443()
    ensures IntToString(443) == "443"
  {
  }

  lemma Render1000And2000()
    ensures IntToString(1000) == "1000" && IntToString(2000) == "2000"
  {
  }

  lemma UnfoldOneDisjunct(protocol: string, ports: GressPolicyPorts)
    requires |L4Disjuncts(protocol, ports)| == 1
    ensures L4Match(protocol, ports) == protocol + " && " + L4Disjuncts(protocol, ports)[0]
  {
  }

  lemma UnfoldSeveralDisjuncts(protocol: string, ports: GressPolicyPorts)
    requires |L4Disjuncts(protocol, ports)| > 1
    ensures L4Match(protocol, ports) == protocol + " && (" + Join(L4Disjuncts(protocol, ports), " || ") + ")"
  {
  }

  lemma TwoPortsBucket(ports: seq<AdminNetworkPolicyPort>)
    requires ports == [AdminNetworkPolicyPort("tcp", 80, 0), AdminNetworkPolicyPort("tcp", 443, 0)]
    ensures BucketFor(ports, "tcp") == GressPolicyPorts(["80", "443"], [])
  {
    SinglePortBucket([], ports[0]);
    assert [] + [ports[0]] == [ports[0]];
    SinglePortBucket([ports[0]], ports[1]);
    assert [ports[0]] + [ports[1]] == ports;
    Render80();
    Render443();
  }

  lemma RangeBucket(ports: seq<AdminNetworkPolicyPort>)
    requires ports == [AdminNetworkPolicyPort("udp", 1000, 2000)]
    ensures BucketFor(ports, "udp") == GressPolicyPorts([], ["1000<=udp.dst<=2000"])
  {
    SinglePortBucket([], ports[0]);
    assert [] + [ports[0]] == ports;
    Render1000And2000();
    assert RangeClause(ports[0]) == "1000<=udp.dst<=2000";
  }

  lemma RangeMatch(bucket: GressPolicyPorts)
    requires bucket == GressPolicyPorts([], ["1000<=udp.dst<=2000"])
    ensures L4Match("udp", bucket) == "udp && 1000<=udp.dst<=2000"
  {
  }

  lemma MixedBucket(ports: seq<AdminNetworkPolicyPort>)
    requires ports == [AdminNetworkPolicyPort("tcp", 80, 0), AdminNetworkPolicyPort("tcp", 1000, 2000)]
    ensures BucketFor(ports, "tcp") == GressPolicyPorts(["80"], ["1000<=tcp.dst<=2000"])
  {
    SinglePortBucket([], ports[0]);
    assert [] + [ports[0]] == [ports[0]];
    SinglePortBucket([ports[0]], ports[1]);
    assert [ports[0]] + [ports[1]] == ports;
    Render80();
    Render1000And2000();
    assert RangeClause(ports[1]) == "1000<=tcp.dst<=2000";
  }

  lemma MixedDisjuncts(bucket: GressPolicyPorts)
    requires bucket == GressPolicyPorts(["80"], ["1000<=tcp.dst<=2000"])
    ensures L4Disjuncts("tcp", bucket) == ["tcp.dst==80", "1000<=tcp.dst<=2000"]
  {
    assert PortListClause("tcp", bucket.portList) == "tcp.dst==80";
  }

  lemma MixedJoin(disjuncts: seq<string>)
    requires disjuncts == ["tcp.dst==80", "1000<=tcp.dst<=2000"]
    ensures Join(disjuncts, " || ") == "tcp.dst==80 || 1000<=tcp.dst<=2000"
  {
  }

  lemma MixedMatch(bucket: GressPolicyPorts)
    requires bucket == GressPolicyPorts(["80"], ["1000<=tcp.dst<=2000"])
    ensures L4Match("tcp", bucket) == "tcp && (tcp.dst==80 || 1000<=tcp.dst<=2000)"
  {
    MixedDisjuncts(bucket);
    MixedJoin(L4Disjuncts("tcp", bucket));
    UnfoldSeveralDisjuncts("tcp", bucket);
  }
}
