/** The auditor of captured flows: it decides, from a flow record alone, whether the compiled forward
    rules would have dropped the traffic. */
module PolicyAudit {
  import opened Basics
  import opened Text
  import opened Decimal
  import opened NftRules

  /** What the address library says of an address. */
  datatype IpKind = Loopback | LinkLocalUnicast | Multicast | Unspecified | Private | Public
  datatype Ip = Ip(address: string, kind: IpKind)

  datatype Flow = Flow(transport: string, protocol: string, srcIp: string, dstIp: string,
                       src: Option<Ip>, dst: Option<Ip>, dstPort: int,
                       breach: bool, reason: string)

  datatype Lab = Lab(gateway: Option<Ip>, guest: Option<Ip>)

  /** Lab, private and otherwise non-routed addresses are never internet destinations. */
  predicate IsLabIp(ip: Option<Ip>, lab: Lab) {
    ip.Some? && (ip.value.kind != Public || ip == lab.gateway || ip == lab.guest)
  }

  function FirstNonEmpty(a: string, b: string, c: string): string {
    if TrimSpace(a) != "" then a else if TrimSpace(b) != "" then b else c
  }

  function TransportOf(f: Flow): string { ToLower(TrimSpace(f.transport)) }
  function LabelOf(f: Flow): string { ToUpper(TrimSpace(f.protocol)) }

  function BreachReason(f: Flow, p: Policy, lab: Lab, tcpOk: set<int>, udpOk: set<int>): string {
    var tr, proto := TransportOf(f), LabelOf(f);
    var port := f.dstPort;
    if f.dst.None? then ""
    else if proto == "ARP" || proto == "IGMP" || proto == "DHCP" || tr == "arp" then ""
    else if IsLabIp(f.dst, lab) then ""
    else if lab.guest.Some? && f.dst == lab.guest then ""
    else if f.src.Some? && !IsLabIp(f.src, lab) && f.src.value.kind != Private
            && lab.guest.Some? && f.dst == lab.guest then ""
    else if tr == "icmp" || proto == "ICMP" || proto == "ICMPV6" then
      if p.Icmp() then "" else "ICMP to WAN not allowed by permissive policy"
    else if p.ForceDns() && (port == 53 || port == 853) && (tr == "udp" || tr == "tcp" || proto == "DNS") then
      if lab.gateway.Some? && f.dst == lab.gateway then ""
      else "DNS/DoT to " + f.dstIp + ":" + ShowInt(port) + " bypassed gateway"
    else if tr == "tcp" then
      if port in tcpOk then "" else "TCP/" + ShowInt(port) + " to WAN not in permissive allowlist"
    else if tr == "udp" then
      if port in udpOk then "" else "UDP/" + ShowInt(port) + " to WAN not in permissive allowlist"
    else FirstNonEmpty(proto, tr, "traffic") + " to WAN not in permissive allowlist"
  }

  function PortSet(ports: seq<int>): set<int> {
    set p | p in ports
  }

  /** The reason the auditor gives a flow under a policy as configured. */
  function Reason(f: Flow, given: Policy, lab: Lab): string {
    var p := given.WithDefaults();
    BreachReason(f, p, lab, PortSet(p.tcpPorts.value) + {80, 443}, PortSet(p.udpPorts.value))
  }

  method BuildPortSet(ports: seq<int>) returns (m: set<int>)
    ensures m == PortSet(ports)
  {
    m := {};
    for i := 0 to |ports|
      invariant m == PortSet(ports[..i])
    {
      assert ports[..i + 1] == ports[..i] + [ports[i]];
      m := m + {ports[i]};
    }
    assert ports[..|ports|] == ports;
  }

  function Annotated(f: Flow, reason: string): Flow {
    if reason == "" then f else f.(breach := true, reason := reason)
  }

  /** The annotating loop, for any way of giving reasons. */
  method FlagAll(flows: array<Flow>, reasonOf: Flow -> string)
    modifies flows
    ensures forall i :: 0 <= i < flows.Length ==>
              flows[i] == Annotated(old(flows[i]), reasonOf(old(flows[i])))
  {
    for i := 0 to flows.Length
      invariant forall k :: i <= k < flows.Length ==> flows[k] == old(flows[k])
      invariant forall k :: 0 <= k < i ==> flows[k] == Annotated(old(flows[k]), reasonOf(old(flows[k])))
    {
      var reason := reasonOf(flows[i]);
      if reason == "" { continue; }
      flows[i] := flows[i].(breach := true, reason := reason);
    }
  }

  /** Flags exactly the flows with a reason, writes nothing but their two breach fields, and leaves every
      other flow as it was. */
  method AnnotatePolicyBreaches(flows: array<Flow>, given: Policy, lab: Lab)
    modifies flows
    ensures forall i :: 0 <= i < flows.Length ==>
              flows[i] == Annotated(old(flows[i]), Reason(old(flows[i]), given, lab))
  {
    var p := given.WithDefaults();
    var tcpOk := BuildPortSet(p.tcpPorts.value);
    var udpOk := BuildPortSet(p.udpPorts.value);
    tcpOk := tcpOk + {80};
    tcpOk := tcpOk + {443};
    assert tcpOk == PortSet(p.tcpPorts.value) + {80, 443};
    FlagAll(flows, f => BreachReason(f, p, lab, tcpOk, udpOk));
  }

  // ---------------------------------------------------------------- agreement with the rules

  /** The packet a flow record stands for. */
  function PacketOf(f: Flow): Packet {
    var tr, shown := TransportOf(f), LabelOf(f);
    if shown == "ICMPV6" then Icmp6
    else if tr == "icmp" || shown == "ICMP" then Icmp4
    else if tr == "tcp" then Tcp(f.dstPort)
    else if tr == "udp" then Udp(f.dstPort)
    else Other
  }

  /** Traffic the auditor never looks at. */
  predicate Exempt(f: Flow) {
    LabelOf(f) in {"ARP", "IGMP", "DHCP"} || TransportOf(f) == "arp"
  }

  predicate ToInternet(f: Flow, lab: Lab) {
    f.dst.Some? && !IsLabIp(f.dst, lab)
  }

  /** The internet is every public address but the lab's own two. */
  lemma PublicIsInternet(f: Flow, lab: Lab)
    ensures ToInternet(f, lab) <==>
              f.dst.Some? && f.dst.value.kind.Public? && f.dst != lab.gateway && f.dst != lab.guest
  {
  }

  predicate RealPort(port: int) {
    1 <= port <= 65535
  }

  /** Where auditor and rules part: exempt traffic the policy does not allow, intercepted web traffic over
      TCP, web ports over UDP that someone listed, and listed numbers that are no ports. */
  predicate Carved(f: Flow, given: Policy) {
    if Exempt(f) then !Allowed(given, PacketOf(f))
    else match PacketOf(f)
      case Tcp(port) => port in {80, 443} || (port in given.Tcp() && !RealPort(port))
      case Udp(port) => port in given.Udp() && (port in {80, 443} || !RealPort(port))
      case _ => false
  }

  /** The auditor against any verdict that follows the policy. */
  lemma AuditorAgrees(f: Flow, given: Policy, lab: Lab, accepted: bool)
    requires ToInternet(f, lab) && (accepted <==> Allowed(given, PacketOf(f)))
    ensures (Reason(f, given, lab) != "" <==> !accepted) <==> !Carved(f, given)
  {
    ReasonMeaning(f, given, lab);
  }

  /** For every flow to the internet the auditor flags exactly what the compiled rules drop, if and only if
      the flow is outside the carve-outs. */
  lemma AuditorAgreesWithRules(f: Flow, given: Policy, lab: Lab, tcp: seq<nat>, udp: seq<nat>)
    requires ToInternet(f, lab)
    requires IsForward(tcp, given.Tcp(), false) && IsForward(udp, given.Udp(), given.ForceDns())
    ensures (Reason(f, given, lab) != "" <==> Decide(Compiled(given, tcp, udp), PacketOf(f)) == Drop)
       <==> !Carved(f, given)
  {
    CompiledDecides(given, tcp, udp, PacketOf(f));
    AuditorAgrees(f, given, lab, Decide(Compiled(given, tcp, udp), PacketOf(f)) == Accept);
  }

  /** The same for the written text, whoever wrote it, as long as it implements the policy. */
  lemma AuditorAgreesWithText(f: Flow, given: Policy, lab: Lab, text: string)
    requires ToInternet(f, lab) && Implements(text, given)
    ensures (Reason(f, given, lab) != "" <==> Decide(ReadRules(text).value, PacketOf(f)) == Drop)
       <==> !Carved(f, given)
  {
    AuditorAgrees(f, given, lab, Decide(ReadRules(text).value, PacketOf(f)) == Accept);
  }

  /** The auditor's decision in the policy's terms, for every flow. */
  lemma ReasonMeaning(f: Flow, given: Policy, lab: Lab)
    ensures Reason(f, given, lab) != "" <==>
              f.dst.Some? && !IsLabIp(f.dst, lab) && !Exempt(f) &&
              match PacketOf(f)
              case Icmp4 => !given.Icmp()
              case Icmp6 => !given.Icmp()
              case Tcp(port) => (given.ForceDns() && port in {53, 853}) || (port !in given.Tcp() && port !in {80, 443})
              case Udp(port) => (given.ForceDns() && port in {53, 853}) || port !in given.Udp()
              case Other => true
  {
  }

  /** The same in plain words, down to the fields of the flow and of the policy. */
  lemma ReasonInWords(f: Flow, given: Policy, lab: Lab)
    ensures var shown, tr := ToUpper(TrimSpace(f.protocol)), ToLower(TrimSpace(f.transport));
            Reason(f, given, lab) != "" <==>
              && f.dst.Some? && f.dst.value.kind.Public? && f.dst != lab.gateway && f.dst != lab.guest
              && shown !in {"ARP", "IGMP", "DHCP"} && tr != "arp"
              && if tr == "icmp" || shown in {"ICMP", "ICMPV6"} then given.allowIcmp == Some(false)
                 else if tr in {"tcp", "udp"} && f.dstPort in {53, 853} && given.forceDns != Some(false) then true
                 else if tr == "tcp" then
                   f.dstPort !in {80, 443} && (given.tcpPorts.Some? ==> f.dstPort !in given.tcpPorts.value)
                 else if tr == "udp" then given.udpPorts.Some? ==> f.dstPort !in given.udpPorts.value
                 else true
  {
    ReasonMeaning(f, given, lab);
    PublicIsInternet(f, lab);
  }
}
