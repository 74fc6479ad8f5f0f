/** What a flow reports of its packets, and what its id and its filter look like, spelled out. */
module FlowReports {
  import opened Text
  import opened Decimal
  import opened FlowIds
  import opened FlowAggregate

  // ---------------------------------------------------------------- whose packets, whose endpoints

  lemma {:induction false} FirstOfFlow(pkts: seq<Packet>, i: nat, id: string)
    requires i < |pkts| && FlowId(pkts[i]) == id && forall p <- pkts[..i] :: FlowId(p) != id
    ensures OfFlow(pkts, id) != [] && OfFlow(pkts, id)[0] == pkts[i]
    decreases |pkts|
  {
    var front := pkts[..|pkts| - 1];
    if i < |front| {
      assert front[..i] == pkts[..i];
      FirstOfFlow(front, i, id);
    } else {
      NoneYet(front, id);
    }
  }

  lemma {:induction false} NoneYet(pkts: seq<Packet>, id: string)
    requires forall p <- pkts :: FlowId(p) != id
    ensures OfFlow(pkts, id) == []
  {
    if pkts != [] { NoneYet(pkts[..|pkts| - 1], id); }
  }

  /** A flow goes from where its first packet came from to where that packet went, and starts when it was captured. */
  lemma EndpointsOfFirst(pkts: seq<Packet>, i: nat)
    requires i < |pkts| && forall p <- pkts[..i] :: FlowId(p) != FlowId(pkts[i])
    ensures OfFlow(pkts, FlowId(pkts[i])) != []
    ensures var f, p := FlowOf(pkts, FlowId(pkts[i])), pkts[i];
            && f.id == FlowId(p) && f.transport == p.transport && f.stream == p.stream && f.first == p.t
            && f.srcIP == p.srcIP && f.dstIP == p.dstIP && f.srcPort == p.srcPort && f.dstPort == p.dstPort
            && (f.hasPayload <==> p.transport in {"tcp", "udp"})
  {
    FirstOfFlow(pkts, i, FlowId(pkts[i]));
  }

  /** A packet is counted to its own flow and to no other. */
  lemma {:induction false} OfFlowExactly(pkts: seq<Packet>, id: string, p: Packet)
    ensures p in OfFlow(pkts, id) <==> p in pkts && FlowId(p) == id
  {
    if pkts != [] {
      var front, last := pkts[..|pkts| - 1], pkts[|pkts| - 1];
      OfFlowExactly(front, id, p);
      InEither(p, front, [last]);
      InEither(p, OfFlow(front, id), if FlowId(last) == id then [last] else []);
      assert pkts == front + [last];
    }
  }

  lemma InEither(p: Packet, front: seq<Packet>, back: seq<Packet>)
    ensures p in front + back <==> p in front || p in back
  {
  }

  /** A flow without any info text shows its names instead. */
  lemma NamesStandIn(id: string, p: Packet, a: Tally)
    ensures a.info != "" || a.names == [] ==> Report(id, p, a).info == a.info
    ensures a.info == "" && |a.names| == 1 ==> Report(id, p, a).info == a.names[0]
    ensures a.info == "" && |a.names| == 2 ==> Report(id, p, a).info == a.names[0] + ", " + a.names[1]
  {
    if |a.names| == 2 {
      NamesJoin([a.names[0]], [a.names[1]]);
      assert a.names == [a.names[0]] + [a.names[1]];
    }
  }

  /** Names are joined with a comma and a blank between any two neighbours. */
  lemma {:induction false} NamesJoin(a: seq<string>, b: seq<string>)
    requires a != [] && b != []
    ensures JoinNames(a + b) == JoinNames(a) + ", " + JoinNames(b)
  {
    var all := a + b;
    assert all[0] == a[0] && all[1..] == a[1..] + b;
    if |a| == 1 {
      assert all[1..] == b;
    } else {
      NamesJoin(a[1..], b);
      assert a[0] + ", " + (JoinNames(a[1..]) + ", " + JoinNames(b))
          == a[0] + ", " + JoinNames(a[1..]) + ", " + JoinNames(b);
    }
  }

  // ---------------------------------------------------------------- protocols

  /** A specific protocol is the label, without the blanks around it. */
  lemma SpecificStays(p: Packet)
    requires ToUpper(TrimSpace(p.protocol)) !in {"", "TCP", "UDP", "IP", "ETH", "ETHERNET", "DATA"}
    ensures ClassifyProtocol(p) == TrimSpace(p.protocol)
  {
    GenericExactly(TrimSpace(p.protocol));
  }

  /** For a generic one the service of the destination port decides, then that of the source port; without either the
      generic name stays, and without a name the transport stands in. */
  lemma GenericGivesWay(p: Packet)
    requires ToUpper(TrimSpace(p.protocol)) in {"", "TCP", "UDP", "IP", "ETH", "ETHERNET", "DATA"}
    ensures PortProtocol(p.dstPort) != "" ==> ClassifyProtocol(p) == PortProtocol(p.dstPort)
    ensures PortProtocol(p.dstPort) == "" && PortProtocol(p.srcPort) != ""
        ==> ClassifyProtocol(p) == PortProtocol(p.srcPort)
    ensures PortProtocol(p.dstPort) == PortProtocol(p.srcPort) == "" && TrimSpace(p.protocol) != ""
        ==> ClassifyProtocol(p) == TrimSpace(p.protocol)
    ensures PortProtocol(p.dstPort) == PortProtocol(p.srcPort) == "" && TrimSpace(p.protocol) == ""
        ==> ClassifyProtocol(p) == ToUpper(p.transport)
  {
    GenericExactly(TrimSpace(p.protocol));
  }

  // ---------------------------------------------------------------- ids and filters

  lemma ShowIntInjective(a: int, b: int)
    ensures ShowInt(a) == ShowInt(b) <==> a == b
  {
    if ShowInt(a) == ShowInt(b) {
      ValueOfShow(if a < 0 then -a else a);
      ValueOfShow(if b < 0 then -b else b);
      DigitsFirst(if a < 0 then -a else a);
      DigitsFirst(if b < 0 then -b else b);
      if a < 0 { assert ShowInt(a)[0] == '-' && ShowInt(a)[1..] == Show(-a); }
      if b < 0 { assert ShowInt(b)[0] == '-' && ShowInt(b)[1..] == Show(-b); }
    }
  }

  lemma DigitsFirst(n: nat)
    ensures Show(n)[0] != '-'
  {
    assert IsDigit(Show(n)[0]);
  }

  /** Packets of a stream share a flow exactly when transport and stream are the same. */
  lemma SameStreamExactly(p: Packet, q: Packet)
    requires p.transport in {"tcp", "udp"}
    ensures FlowId(p) == FlowId(q) <==> q.transport == p.transport && q.stream == p.stream
  {
    ShowIntInjective(p.stream, q.stream);
    KindFirst(p);
    KindFirst(q);
    if q.transport == p.transport {
      assert FlowId(p)[4..] == ShowInt(p.stream) && FlowId(q)[4..] == ShowInt(q.stream);
    }
  }

  /** The first letters of an id tell its kind. */
  lemma KindFirst(p: Packet)
    ensures 4 <= |FlowId(p)|
    ensures FlowId(p)[..4] == "tcp:" <==> p.transport == "tcp"
    ensures FlowId(p)[..4] == "udp:" <==> p.transport == "udp"
  {
    var kind := if p.transport in {"tcp", "udp", "icmp", "arp", "igmp"} then p.transport else "other";
    assert kind + [':'] <= FlowId(p);
    assert FlowId(p)[0] == kind[0] && FlowId(p)[1] == kind[1] && FlowId(p)[2] == kind[2];
  }

  /** The texts themselves. */
  lemma IdTexts(p: Packet)
    ensures p.transport == "tcp" && 0 <= p.stream ==> FlowId(p) == "tcp:" + Show(p.stream)
    ensures p.transport == "udp" && 0 <= p.stream ==> FlowId(p) == "udp:" + Show(p.stream)
    ensures p.transport == "icmp" ==> FlowId(p) == "icmp:" + p.srcIP + ">" + p.dstIP
    ensures p.transport == "igmp" ==> FlowId(p) == "igmp:" + p.srcIP + ">" + p.dstIP
    ensures p.transport == "arp" && TrimSpace(p.srcIP) == "" && TrimSpace(p.dstIP) != ""
        ==> FlowId(p) == "arp:unknown>" + p.dstIP
  {
  }

  /** The filters the packet tool is given: by stream number, or by both addresses in their own family. */
  lemma FilterTexts(p: Packet, validIP: string -> bool)
    ensures p.transport == "tcp" && 0 <= p.stream < INT_LIMIT
        ==> DisplayFilterForId(FlowId(p), validIP) == Filter("tcp", p.stream, "tcp.stream eq " + Show(p.stream))
    ensures p.transport == "udp" && 0 <= p.stream < INT_LIMIT
        ==> DisplayFilterForId(FlowId(p), validIP) == Filter("udp", p.stream, "udp.stream eq " + Show(p.stream))
  {
    if IsStreamKind(p.transport) && 0 <= p.stream < INT_LIMIT {
      MintedStreamReadsBack(p, validIP);
      StreamTexts(Show(p.stream));
    }
  }

  lemma StreamTexts(number: string)
    ensures StreamText("tcp", number) == "tcp.stream eq " + number
    ensures StreamText("udp", number) == "udp.stream eq " + number
  {
    assert "tcp" + ".stream eq " == "tcp.stream eq " && "udp" + ".stream eq " == "udp.stream eq ";
  }

  lemma IcmpFilterTexts(p: Packet, validIP: string -> bool)
    requires p.transport == "icmp" && '>' !in p.srcIP && p.dstIP != "" && !IsBlank(p.dstIP[|p.dstIP| - 1])
    requires validIP(p.srcIP) && validIP(p.dstIP)
    ensures DisplayFilterForId(FlowId(p), validIP)
         == Filter("icmp", -1, if ':' in p.srcIP
                               then "(icmp or icmpv6) and ipv6.src==" + p.srcIP + " and ipv6.dst==" + p.dstIP
                               else "(icmp or icmpv6) and ip.src==" + p.srcIP + " and ip.dst==" + p.dstIP)
  {
    MintedIcmpReadsBack(p, validIP);
    IcmpFamily(p.srcIP, p.dstIP);
  }

  lemma IcmpFamily(src: string, dst: string)
    ensures ':' !in src ==> IcmpText(src, dst) == "(icmp or icmpv6) and ip.src==" + src + " and ip.dst==" + dst
    ensures ':' in src ==> IcmpText(src, dst) == "(icmp or icmpv6) and ipv6.src==" + src + " and ipv6.dst==" + dst
  {
    var fam := if ':' in src then "ipv6" else "ip";
    assert "(icmp or icmpv6) and " + fam + ".src=="
        == if ':' in src then "(icmp or icmpv6) and ipv6.src==" else "(icmp or icmpv6) and ip.src==";
    Spread("(icmp or icmpv6) and " + fam + ".src==" + src, " and ", fam, ".dst==", dst);
    assert " and " + fam + ".dst==" == if ':' in src then " and ipv6.dst==" else " and ip.dst==";
  }

  lemma Spread(a: string, b: string, c: string, d: string, e: string)
    ensures a + b + c + d + e == a + (b + c + d) + e
  {
    assert a + b + c + d == a + (b + c + d);
  }
}
