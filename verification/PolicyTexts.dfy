/** The forward rules as they stand in the file, line by line, and what a policy allows, case by case. */
module PolicyTexts {
  import opened Basics
  import opened Decimal
  import opened NftRules

  // ---------------------------------------------------------------- lines

  /** Where every rule applies: from the lab to the internet. */
  const FROM_LAB := "    iifname \"__LAN__\" oifname \"__WAN__\" "

  /** The lines for ping. */
  lemma PingRules()
    ensures Line(IcmpAccept) == FROM_LAB + "ip protocol icmp accept\n"
    ensures Line(Icmp6Accept) == FROM_LAB + "ip6 nexthdr icmpv6 accept\n"
  {
    LineBehind(FROM_LAB, "ip protocol icmp accept");
    LineBehind(FROM_LAB, "ip6 nexthdr icmpv6 accept");
    assert "ip protocol icmp accept" + "\n" == "ip protocol icmp accept\n";
    assert "ip6 nexthdr icmpv6 accept" + "\n" == "ip6 nexthdr icmpv6 accept\n";
  }

  /** The lines that keep DNS from leaving. */
  lemma DnsDrops()
    ensures Line(Ports(UdpProto, [53, 853], Drop)) == FROM_LAB + "udp dport { 53, 853 } drop\n"
    ensures Line(Ports(TcpProto, [53, 853], Drop)) == FROM_LAB + "tcp dport { 53, 853 } drop\n"
  {
    DnsPorts();
    DropWords();
    LineBehind(FROM_LAB, "udp dport " + "{ 53, 853 }" + " drop");
    LineBehind(FROM_LAB, "tcp dport " + "{ 53, 853 }" + " drop");
  }

  lemma DropWords()
    ensures "udp dport " + "{ 53, 853 }" + " drop" + "\n" == "udp dport { 53, 853 } drop\n"
    ensures "tcp dport " + "{ 53, 853 }" + " drop" + "\n" == "tcp dport { 53, 853 } drop\n"
  {
  }

  lemma LineBehind(where: string, body: string)
    ensures where + body + "\n" == where + (body + "\n")
  {
  }

  lemma DnsPorts()
    ensures PortText([53, 853]) == "{ 53, 853 }"
  {
    assert Show(5) == "5" && Show(53) == "53" && Show(8) == "8" && Show(85) == "85" && Show(853) == "853";
    PortTexts(53, 853);
  }

  /** A set of one port is its number; one of more is a list in braces. */
  lemma PortTexts(a: nat, b: nat)
    ensures PortText([a]) == Show(a)
    ensures PortText([a, b]) == "{ " + Show(a) + ", " + Show(b) + " }"
  {
    JoinTwo(Show(a), Show(b));
    assert ShowEach([a, b]) == [Show(a), Show(b)];
    Bracketed(Show(a), Show(b));
  }

  lemma JoinTwo(a: string, b: string)
    ensures JoinComma([a, b]) == a + ", " + b
  {
    assert [a, b][1..] == [b];
  }

  lemma Bracketed(a: string, b: string)
    ensures "{ " + (a + ", " + b) + " }" == "{ " + a + ", " + b + " }"
  {
  }

  /** The line that lets ports through. */
  lemma AcceptLine(ports: seq<nat>)
    ensures Line(Ports(TcpProto, ports, Accept)) == FROM_LAB + ("tcp dport " + PortText(ports) + " accept\n")
    ensures Line(Ports(UdpProto, ports, Accept)) == FROM_LAB + ("udp dport " + PortText(ports) + " accept\n")
  {
    AcceptEnd("tcp dport " + PortText(ports));
    AcceptEnd("udp dport " + PortText(ports));
    LineBehind(FROM_LAB, "tcp dport " + PortText(ports) + " accept");
    LineBehind(FROM_LAB, "udp dport " + PortText(ports) + " accept");
  }

  lemma AcceptEnd(s: string)
    ensures s + " accept" + "\n" == s + " accept\n"
  {
    assert " accept" + "\n" == " accept\n";
    assert s + " accept" + "\n" == s + (" accept" + "\n");
  }

  // ---------------------------------------------------------------- the whole text

  /** The text of a whole policy: its fixed lines, then at most one line for each protocol, in this order. */
  ghost predicate Spelled(text: string, p: Policy, tcp: seq<nat>, udp: seq<nat>) {
    text == PingLines(p) + DnsLines(p) + AcceptLines("tcp dport ", tcp) + AcceptLines("udp dport ", udp)
            + NoteLine(LAST_NOTE)
  }

  function PingLines(p: Policy): string {
    if p.allowIcmp == Some(false) then ""
    else FROM_LAB + "ip protocol icmp accept\n" + (FROM_LAB + "ip6 nexthdr icmpv6 accept\n")
  }

  function DnsLines(p: Policy): string {
    if p.forceDns == Some(false) then ""
    else NoteLine(DNS_NOTE) + (FROM_LAB + "udp dport { 53, 853 } drop\n") + (FROM_LAB + "tcp dport { 53, 853 } drop\n")
  }

  function AcceptLines(proto: string, ports: seq<nat>): string {
    if ports == [] then "" else FROM_LAB + (proto + PortText(ports) + " accept\n")
  }

  function NoteLine(note: string): string {
    "    # " + note + "\n"
  }

  /** A text that grows line by line. */
  ghost predicate Grows(text: seq<Rule> -> string, line: Rule -> string) {
    text([]) == "" && forall rules: seq<Rule>, r: Rule :: text(rules + [r]) == text(rules) + line(r)
  }

  lemma {:induction false} GrowsJoin(text: seq<Rule> -> string, line: Rule -> string, a: seq<Rule>, b: seq<Rule>)
    requires Grows(text, line)
    ensures text(a + b) == text(a) + text(b)
  {
    if b == [] {
      assert a + b == a;
    } else {
      var front, last := b[..|b| - 1], b[|b| - 1];
      GrowsJoin(text, line, a, front);
      assert b == front + [last] && a + b == a + front + [last];
      Associative(text(a), text(front), line(last));
    }
  }

  lemma RulesTextConcat(a: seq<Rule>, b: seq<Rule>)
    ensures RulesText(a + b) == RulesText(a) + RulesText(b)
  {
    forall rules: seq<Rule>, r: Rule ensures RulesText(rules + [r]) == RulesText(rules) + Line(r) {
      RulesTextPush(rules, r);
    }
    assert Lines([]) == [];
    GrowsJoin(rules => RulesText(rules), r => Line(r), a, b);
  }

  lemma RulesTextOne(r: Rule)
    ensures RulesText([r]) == Line(r)
  {
    RulesTextPush([], r);
    assert [] + [r] == [r] && RulesText([]) == "";
  }

  lemma PingText(p: Policy)
    ensures RulesText(IcmpRules(p)) == PingLines(p)
  {
    if p.Icmp() {
      PingRules();
      RulesTextOne(IcmpAccept);
      RulesTextOne(Icmp6Accept);
      RulesTextConcat([IcmpAccept], [Icmp6Accept]);
    }
  }

  lemma DnsText(p: Policy)
    ensures RulesText(DnsRules(p)) == DnsLines(p)
  {
    if p.ForceDns() {
      DnsDrops();
      var note, udp, tcp := Comment(DNS_NOTE), Ports(UdpProto, [53, 853], Drop), Ports(TcpProto, [53, 853], Drop);
      RulesTextOne(note);
      RulesTextOne(udp);
      RulesTextOne(tcp);
      RulesTextConcat([note] + [udp], [tcp]);
      RulesTextConcat([note], [udp]);
    }
  }

  lemma AcceptText(proto: Proto, ports: seq<nat>)
    ensures RulesText(AcceptRules(proto, ports))
         == AcceptLines(if proto.TcpProto? then "tcp dport " else "udp dport ", ports)
  {
    if ports != [] {
      AcceptLine(ports);
      RulesTextOne(Ports(proto, ports, Accept));
    }
  }

  /** What the compiler writes, spelled out. */
  lemma CompiledText(p: Policy, tcp: seq<nat>, udp: seq<nat>)
    ensures Spelled(RulesText(Compiled(p, tcp, udp)), p, tcp, udp)
  {
    var tcpRules, udpRules := AcceptRules(TcpProto, tcp), AcceptRules(UdpProto, udp);
    RulesTextConcat(IcmpRules(p) + DnsRules(p) + tcpRules + udpRules, [Comment(LAST_NOTE)]);
    RulesTextConcat(IcmpRules(p) + DnsRules(p) + tcpRules, udpRules);
    RulesTextConcat(IcmpRules(p) + DnsRules(p), tcpRules);
    RulesTextConcat(IcmpRules(p), DnsRules(p));
    RulesTextOne(Comment(LAST_NOTE));
    PingText(p);
    DnsText(p);
    AcceptText(TcpProto, tcp);
    AcceptText(UdpProto, udp);
  }

  /** Ascending, and exactly the listed ports that are no web ports, nor DNS ports where those are left out. */
  ghost predicate Forwarded(out: seq<nat>, ports: seq<int>, dns: bool) {
    && (forall i, j :: 0 <= i < j < |out| ==> out[i] < out[j])
    && forall port: nat :: port in out <==>
         && port in ports && 0 < port < 65536 && port != 80 && port != 443
         && (dns || (port != 53 && port != 853))
  }

  lemma ForwardMeans(out: seq<nat>, ports: seq<int>, dns: bool)
    requires Ascending(out) && IsForward(out, ports, dns)
    ensures Forwarded(out, ports, !dns)
  {
  }

  /** The text for a policy, for some port lists that hold exactly what may be forwarded. */
  lemma WrittenText(text: string, p: Policy)
    requires IsWrittenFor(text, p)
    ensures exists tcp: seq<nat>, udp: seq<nat> ::
              Spelled(text, p, tcp, udp) && Forwarded(tcp, p.Tcp(), true)
              && Forwarded(udp, p.Udp(), p.forceDns == Some(false))
  {
    var tcp: seq<nat>, udp: seq<nat> :|
      && text == RulesText(Compiled(p, tcp, udp)) && Ascending(tcp) && Ascending(udp)
      && IsForward(tcp, p.Tcp(), false) && IsForward(udp, p.Udp(), p.ForceDns());
    CompiledText(p, tcp, udp);
    ForwardMeans(tcp, p.Tcp(), false);
    ForwardMeans(udp, p.Udp(), p.ForceDns());
  }

  // ---------------------------------------------------------------- what a policy allows

  /** A policy that says nothing allows ping and nothing else: the default ports belong to the interceptor. */
  lemma NothingSaid(pkt: Packet)
    ensures Allowed(Policy(None, None, None, None), pkt) <==> pkt in {Icmp4, Icmp6}
  {
  }

  /** Ping passes unless the policy says no. */
  lemma PingExactly(p: Policy)
    ensures Allowed(p, Icmp4) <==> p.allowIcmp != Some(false)
    ensures Allowed(p, Icmp6) <==> p.allowIcmp != Some(false)
  {
  }

  /** A port passes when it is listed for its protocol, is a port, is no web port, and is no DNS port unless the
      policy gives up on forcing DNS. */
  lemma PortExactly(p: Policy, port: int)
    ensures Allowed(p, Tcp(port)) <==>
              && p.tcpPorts.Some? && port in p.tcpPorts.value
              && 0 < port < 65536 && port != 80 && port != 443
              && (p.forceDns == Some(false) || (port != 53 && port != 853))
    ensures Allowed(p, Udp(port)) <==>
              && p.udpPorts.Some? && port in p.udpPorts.value
              && 0 < port < 65536 && port != 80 && port != 443
              && (p.forceDns == Some(false) || (port != 53 && port != 853))
  {
  }
}
