/** Grouping of a rule's (protocol, port, end port) tuples per protocol into
    discrete ports and rendered range clauses. */
module PortGrouping {
  import opened Decimal
  import opened Strings

  /** One port entry of a rule; a zero port means any port of the protocol. */
  datatype AdminNetworkPolicyPort = AdminNetworkPolicyPort(protocol: string, port: int, endPort: int)

  /** `gressPolicyPorts`: discrete ports as decimal text, ranges as OVN clauses. */
  datatype GressPolicyPorts = GressPolicyPorts(portList: seq<string>, portRange: seq<string>)

  /** A tuple whose end port is set and differs from its port is a range. */
  predicate IsRange(pp: AdminNetworkPolicyPort)
  {
    pp.endPort != 0 && pp.endPort != pp.port
  }

  /** Otherwise a nonzero port is a discrete port; port 0 adds nothing. */
  predicate IsDiscrete(pp: AdminNetworkPolicyPort)
  {
    !IsRange(pp) && pp.port != 0
  }

  /** `<port><=<protocol>.dst<=<endPort>` */
  function RangeClause(pp: AdminNetworkPolicyPort): string
  {
    IntToString(pp.port) + "<=" + pp.protocol + ".dst<=" + IntToString(pp.endPort)
  }

  /** Every protocol named by some tuple: the keys the grouper creates. */
  function ProtocolsOf(ports: seq<AdminNetworkPolicyPort>): set<string>
  {
    if |ports| == 0 then {} else ProtocolsOf(ports[..|ports| - 1]) + {ports[|ports| - 1].protocol}
  }

  /** The discrete ports of `protocol`, rendered, in input order. */
  function PortListFor(ports: seq<AdminNetworkPolicyPort>, protocol: string): seq<string>
  {
    if |ports| == 0 then []
    else
      var pp := ports[|ports| - 1];
      PortListFor(ports[..|ports| - 1], protocol)
      + (if pp.protocol == protocol && IsDiscrete(pp) then [IntToString(pp.port)] else [])
  }

  /** The range clauses of `protocol`, in input order. */
  function PortRangeFor(ports: seq<AdminNetworkPolicyPort>, protocol: string): seq<string>
  {
    if |ports| == 0 then []
    else
      var pp := ports[|ports| - 1];
      PortRangeFor(ports[..|ports| - 1], protocol)
      + (if pp.protocol == protocol && IsRange(pp) then [RangeClause(pp)] else [])
  }

  function BucketFor(ports: seq<AdminNetworkPolicyPort>, protocol: string): GressPolicyPorts
  {
    GressPolicyPorts(PortListFor(ports, protocol), PortRangeFor(ports, protocol))
  }

  /** `getProtocolPortsMap`: one bucket per protocol named in the input, even
      when its only tuples had port 0 and end port 0, holding that protocol's discrete ports
      and range clauses in input order. The Go code keeps a pointer per bucket
      and appends through it; each bucket here is a value written back. */
  method GetProtocolPortsMap(anpRulePorts: seq<AdminNetworkPolicyPort>)
    returns (gressProtoPortsMap: map<string, GressPolicyPorts>)
    ensures gressProtoPortsMap.Keys == ProtocolsOf(anpRulePorts)
    ensures forall protocol :: protocol in gressProtoPortsMap ==>
              gressProtoPortsMap[protocol] == BucketFor(anpRulePorts, protocol)
  {
    gressProtoPortsMap := map[];
    var i := 0;
    while i < |anpRulePorts|
      invariant 0 <= i <= |anpRulePorts|
      invariant gressProtoPortsMap.Keys == ProtocolsOf(anpRulePorts[..i])
      invariant forall protocol :: protocol in gressProtoPortsMap ==>
                  gressProtoPortsMap[protocol] == BucketFor(anpRulePorts[..i], protocol)
    {
      var pp := anpRulePorts[i];
      var protocol := pp.protocol;
      var gpp := if protocol in gressProtoPortsMap then gressProtoPortsMap[protocol]
                 else GressPolicyPorts([], []);
      if pp.endPort != 0 && pp.endPort != pp.port {
        gpp := gpp.(portRange := gpp.portRange + [RangeClause(pp)]);
      } else if pp.port != 0 {
        gpp := gpp.(portList := gpp.portList + [IntToString(pp.port)]);
      }
      gressProtoPortsMap := gressProtoPortsMap[protocol := gpp];
      assert anpRulePorts[..i + 1][..i] == anpRulePorts[..i];
      assert protocol !in ProtocolsOf(anpRulePorts[..i]) ==> BucketFor(anpRulePorts[..i], protocol) == GressPolicyPorts([], []) by {
        if protocol !in ProtocolsOf(anpRulePorts[..i]) { AbsentProtocolEmpty(anpRulePorts[..i], protocol); }
      }
      i := i + 1;
    }
    assert anpRulePorts[..i] == anpRulePorts;
  }

  lemma {:induction false} AbsentProtocolEmpty(ports: seq<AdminNetworkPolicyPort>, protocol: string)
    requires protocol !in ProtocolsOf(ports)
    ensures BucketFor(ports, protocol) == GressPolicyPorts([], [])
  {
    if |ports| > 0 {
      AbsentProtocolEmpty(ports[..|ports| - 1], protocol);
    }
  }

  /** A protocol is a key exactly when some tuple names it. */
  lemma {:induction false} ProtocolsMembership(ports: seq<AdminNetworkPolicyPort>, protocol: string)
    ensures protocol in ProtocolsOf(ports) <==> exists i :: 0 <= i < |ports| && ports[i].protocol == protocol
  {
    if |ports| > 0 {
      var init := ports[..|ports| - 1];
      ProtocolsMembership(init, protocol);
      if exists i :: 0 <= i < |ports| && ports[i].protocol == protocol {
        var i :| 0 <= i < |ports| && ports[i].protocol == protocol;
        if i < |init| { assert init[i] == ports[i]; }
      }
      if exists i :: 0 <= i < |init| && init[i].protocol == protocol {
        var i :| 0 <= i < |init| && init[i].protocol == protocol;
        assert ports[i] == init[i];
      }
    }
  }

  /** Buckets only ever grow at the end: grouping a concatenation appends the
      second part's ports and ranges after the first's. */
  lemma {:induction false} BucketsAppend(a: seq<AdminNetworkPolicyPort>, b: seq<AdminNetworkPolicyPort>, protocol: string)
    ensures PortListFor(a + b, protocol) == PortListFor(a, protocol) + PortListFor(b, protocol)
    ensures PortRangeFor(a + b, protocol) == PortRangeFor(a, protocol) + PortRangeFor(b, protocol)
    ensures ProtocolsOf(a + b) == ProtocolsOf(a) + ProtocolsOf(b)
    decreases |b|
  {
    if |b| == 0 {
      assert a + b == a;
    } else {
      var b' := b[..|b| - 1];
      assert (a + b)[..|a + b| - 1] == a + b';
      BucketsAppend(a, b', protocol);
    }
  }

  /** How one tuple contributes: a range adds its clause, a discrete port its
      decimal text, a tuple with port 0 and end port 0 nothing, and in every case its protocol
      becomes a key. */
  lemma SinglePortBucket(ports: seq<AdminNetworkPolicyPort>, pp: AdminNetworkPolicyPort)
    ensures pp.protocol in ProtocolsOf(ports + [pp])
    ensures BucketFor(ports + [pp], pp.protocol) ==
            if IsRange(pp) then
              BucketFor(ports, pp.protocol).(portRange := PortRangeFor(ports, pp.protocol) + [RangeClause(pp)])
            else if pp.port != 0 then
              BucketFor(ports, pp.protocol).(portList := PortListFor(ports, pp.protocol) + [IntToString(pp.port)])
            else BucketFor(ports, pp.protocol)
  {
    assert (ports + [pp])[..|ports|] == ports;
  }

  /** A protocol seen only in tuples with port 0 and end port 0 is a key with
      both lists empty. A tuple with port 0 and a nonzero end port is a range. */
  lemma AnyPortOnlyProtocol(ports: seq<AdminNetworkPolicyPort>, protocol: string)
    requires exists i :: 0 <= i < |ports| && ports[i].protocol == protocol
    requires forall i :: 0 <= i < |ports| && ports[i].protocol == protocol ==> ports[i].port == 0 && !IsRange(ports[i])
    ensures protocol in ProtocolsOf(ports)
    ensures BucketFor(ports, protocol) == GressPolicyPorts([], [])
  {
    ProtocolsMembership(ports, protocol);
    NoPortsNoBucket(ports, protocol);
  }

  lemma {:induction false} NoPortsNoBucket(ports: seq<AdminNetworkPolicyPort>, protocol: string)
    requires forall i :: 0 <= i < |ports| && ports[i].protocol == protocol ==> ports[i].port == 0 && !IsRange(ports[i])
    ensures BucketFor(ports, protocol) == GressPolicyPorts([], [])
  {
    if |ports| > 0 {
      var init := ports[..|ports| - 1];
      forall i | 0 <= i < |init| && init[i].protocol == protocol
        ensures init[i].port == 0 && !IsRange(init[i])
      {
        assert init[i] == ports[i];
      }
      NoPortsNoBucket(init, protocol);
    }
  }

  /** The port list of a protocol holds a port's text exactly when some tuple
      of that protocol names the port as a discrete port. */
  lemma {:induction false} PortListMembership(ports: seq<AdminNetworkPolicyPort>, protocol: string, port: int)
    ensures IntToString(port) in PortListFor(ports, protocol) <==>
            exists i :: 0 <= i < |ports| && ports[i].protocol == protocol && IsDiscrete(ports[i]) && ports[i].port == port
  {
    if |ports| > 0 {
      var init := ports[..|ports| - 1];
      var pp := ports[|ports| - 1];
      PortListMembership(init, protocol, port);
      IntToStringInjective(pp.port, port);
      if exists i :: 0 <= i < |init| && init[i].protocol == protocol && IsDiscrete(init[i]) && init[i].port == port {
        var i :| 0 <= i < |init| && init[i].protocol == protocol && IsDiscrete(init[i]) && init[i].port == port;
        assert ports[i] == init[i];
      }
      if exists i :: 0 <= i < |ports| && ports[i].protocol == protocol && IsDiscrete(ports[i]) && ports[i].port == port {
        var i :| 0 <= i < |ports| && ports[i].protocol == protocol && IsDiscrete(ports[i]) && ports[i].port == port;
        if i < |init| { assert init[i] == ports[i]; }
      }
    }
  }

  /** A range clause reads back into its port, the protocol's field and its
      end port when the protocol holds no '<'. */
  lemma RangeClauseRoundTrip(pp: AdminNetworkPolicyPort)
    requires '<' !in pp.protocol
    ensures var parts := Split(RangeClause(pp), "<=");
            |parts| == 3 && ParseInt(parts[0]) == pp.port
            && parts[1] == pp.protocol + ".dst" && ParseInt(parts[2]) == pp.endPort
  {
    var parts := [IntToString(pp.port), pp.protocol + ".dst", IntToString(pp.endPort)];
    assert Join(parts[1..][1..], "<=") == parts[2];
    assert Join(parts[1..], "<=") == parts[1] + "<=" + parts[2];
    assert Join(parts, "<=") == RangeClause(pp);
    IntToStringAvoids(pp.port, '<');
    IntToStringAvoids(pp.endPort, '<');
    assert Marker("<=", 0, '<');
    SplitJoin(parts, "<=", 0, '<');
    ParseIntToString(pp.port);
    ParseIntToString(pp.endPort);
  }
}
