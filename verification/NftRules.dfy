/** The compiler from an allowlist policy to ordered firewall rules, the text it writes, and a reader of
    that text with first-match semantics. */
module NftRules {
  import opened Basics
  import opened Decimal

  datatype Policy = Policy(tcpPorts: Option<seq<int>>, udpPorts: Option<seq<int>>,
                           forceDns: Option<bool>, allowIcmp: Option<bool>)
  {
    predicate ForceDns() { forceDns.Some? ==> forceDns.value }
    predicate Icmp() { allowIcmp.Some? ==> allowIcmp.value }

    function WithDefaults(): (p: Policy)
      ensures p.tcpPorts.Some? && p.udpPorts.Some?
      ensures p.ForceDns() == ForceDns() && p.Icmp() == Icmp()
    {
      Policy(if tcpPorts.None? then Some([80, 443]) else tcpPorts,
             if udpPorts.None? then Some([]) else udpPorts,
             if forceDns.None? then Some(true) else forceDns,
             if allowIcmp.None? then Some(true) else allowIcmp)
    }

    function Tcp(): seq<int> { if tcpPorts.None? then [80, 443] else tcpPorts.value }
    function Udp(): seq<int> { if udpPorts.None? then [] else udpPorts.value }
  }

  datatype Packet = Icmp4 | Icmp6 | Tcp(port: int) | Udp(port: int) | Other

  /** What the allowlist is meant to let from the lab to the internet. */
  predicate Allowed(p: Policy, pkt: Packet) {
    match pkt
    case Icmp4 => p.Icmp()
    case Icmp6 => p.Icmp()
    case Tcp(port) => port in p.Tcp() && Forwardable(p, port)
    case Udp(port) => port in p.Udp() && Forwardable(p, port)
    case Other => false
  }

  /** Web ports go through the interceptor, and DNS ports to the gateway while DNS is forced. */
  predicate Forwardable(p: Policy, port: int) {
    1 <= port <= 65535 && port !in {80, 443} && (p.ForceDns() ==> port !in {53, 853})
  }

  // ---------------------------------------------------------------- rules and first match

  datatype Proto = TcpProto | UdpProto
  datatype Verdict = Accept | Drop
  datatype Rule = Comment(text: string)
                | IcmpAccept
                | Icmp6Accept
                | Ports(proto: Proto, ports: seq<nat>, verdict: Verdict)

  predicate Matches(r: Rule, pkt: Packet) {
    match r
    case Comment(_) => false
    case IcmpAccept => pkt.Icmp4?
    case Icmp6Accept => pkt.Icmp6?
    case Ports(TcpProto, ports, _) => pkt.Tcp? && pkt.port in ports
    case Ports(UdpProto, ports, _) => pkt.Udp? && pkt.port in ports
  }

  function VerdictOf(r: Rule): Verdict {
    if r.Ports? then r.verdict else Accept
  }

  /** The first rule that matches, if any. */
  function FirstMatch(rules: seq<Rule>, pkt: Packet): Option<Verdict> {
    if rules == [] then None
    else if Matches(rules[0], pkt) then Some(VerdictOf(rules[0]))
    else FirstMatch(rules[1..], pkt)
  }

  /** The chain's policy is drop; the first rule that matches decides. */
  function Decide(rules: seq<Rule>, pkt: Packet): Verdict {
    match FirstMatch(rules, pkt)
    case Some(v) => v
    case None => Drop
  }

  // ---------------------------------------------------------------- port sets

  ghost predicate Ascending(s: seq<nat>) {
    forall i, j :: 0 <= i < j < |s| ==> s[i] < s[j]
  }

  ghost predicate IsPortSet(out: seq<nat>, ports: seq<int>) {
    Ascending(out) && forall x :: x in out <==> x in ports && 1 <= x <= 65535
  }

  /** An ascending list is determined by its elements. */
  lemma {:induction false} AscendingUnique(a: seq<nat>, b: seq<nat>)
    requires Ascending(a) && Ascending(b) && forall x :: x in a <==> x in b
    ensures a == b
  {
    assert b != [] ==> b[0] in a;
    if a != [] {
      assert a[0] in b;
      assert a[0] == b[0];
      forall x ensures x in a[1..] <==> x in b[1..] {
        assert x in a[1..] <==> x in a && x != a[0];
        assert x in b[1..] <==> x in b && x != b[0];
      }
      AscendingUnique(a[1..], b[1..]);
      assert a == [a[0]] + a[1..] && b == [b[0]] + b[1..];
    }
  }

  function InsertInt(x: nat, s: seq<nat>): (r: seq<nat>)
    ensures multiset(r) == multiset(s) + multiset{x}
  {
    if s == [] || x <= s[0] then [x] + s
    else
      assert s == [s[0]] + s[1..];
      [s[0]] + InsertInt(x, s[1..])
  }

  /** sort.Ints. */
  function SortInts(s: seq<nat>): (r: seq<nat>)
    ensures multiset(r) == multiset(s)
  {
    if s == [] then []
    else
      assert s == [s[0]] + s[1..];
      InsertInt(s[0], SortInts(s[1..]))
  }

  lemma AscendingCons(x: nat, tail: seq<nat>)
    requires Ascending(tail) && forall t <- tail :: x < t
    ensures Ascending([x] + tail)
  {
    var all := [x] + tail;
    forall i, j | 0 <= i < j < |all| ensures all[i] < all[j] {
      assert all[j] == tail[j - 1] && tail[j - 1] in tail;
      if 0 < i { assert all[i] == tail[i - 1]; }
    }
  }

  lemma InsertedElements(x: nat, s: seq<nat>)
    ensures forall t <- InsertInt(x, s) :: t == x || t in s
  {
    forall t <- InsertInt(x, s) ensures t == x || t in s {
      assert t in multiset(InsertInt(x, s));
    }
  }

  lemma {:induction false} InsertAscending(x: nat, s: seq<nat>)
    requires Ascending(s) && x !in s
    ensures Ascending(InsertInt(x, s))
  {
    if s == [] || x <= s[0] {
      AscendingCons(x, s);
    } else {
      InsertAscending(x, s[1..]);
      InsertedElements(x, s[1..]);
      AscendingCons(s[0], InsertInt(x, s[1..]));
    }
  }

  lemma SameElements(a: seq<nat>, b: seq<nat>)
    requires multiset(a) == multiset(b)
    ensures forall x :: x in a <==> x in b
  {
    forall x ensures x in a <==> x in b {
      assert x in a <==> x in multiset(a);
      assert x in b <==> x in multiset(b);
    }
  }

  lemma {:induction false} SortAscending(s: seq<nat>)
    requires forall i, j :: 0 <= i < j < |s| ==> s[i] != s[j]
    ensures Ascending(SortInts(s))
  {
    if s != [] {
      SortAscending(s[1..]);
      SameElements(SortInts(s[1..]), s[1..]);
      InsertAscending(s[0], SortInts(s[1..]));
    }
  }

  method UniqueSortedPorts(ports: seq<int>) returns (out: seq<nat>)
    ensures IsPortSet(out, ports)
  {
    var seen: set<int> := {};
    var kept: seq<nat> := [];
    for i := 0 to |ports|
      invariant forall x :: x in seen <==> x in kept
      invariant forall x :: x in kept <==> x in ports[..i] && 1 <= x <= 65535
      invariant forall j, k :: 0 <= j < k < |kept| ==> kept[j] != kept[k]
    {
      var p := ports[i];
      if p < 1 || 65535 < p || p in seen { continue; }
      seen := seen + {p};
      kept := kept + [p];
    }
    SortAscending(kept);
    SameElements(SortInts(kept), kept);
    out := SortInts(kept);
  }

  // ---------------------------------------------------------------- port sets as text

  function ShowEach(ports: seq<nat>): (parts: seq<string>)
    ensures |parts| == |ports|
  {
    seq(|ports|, i requires 0 <= i < |ports| => Show(ports[i]))
  }

  /** strings.Join with ", ". */
  function JoinComma(parts: seq<string>): string {
    if parts == [] then ""
    else if |parts| == 1 then parts[0]
    else parts[0] + ", " + JoinComma(parts[1..])
  }

  /** The text of a port set: a lone numeral, or a braced list. */
  function PortText(ports: seq<nat>): string
  {
    if |ports| == 1 then Show(ports[0]) else "{ " + JoinComma(ShowEach(ports)) + " }"
  }

  /** Reads a numeral. */
  function ReadPort(s: string): Option<nat> {
    if Canonical(s) then Some(Value(s)) else None
  }

  function CommaAt(s: string): (i: nat)
    ensures i <= |s| && (i < |s| ==> s[i] == ',') && ',' !in s[..i]
  {
    if s == "" || s[0] == ',' then 0 else 1 + CommaAt(s[1..])
  }

  function ReadList(s: string): Option<seq<nat>> {
    var i := CommaAt(s);
    var head := ReadPort(s[..i]);
    if head.None? then None
    else if i == |s| then Some([head.value])
    else if i + 1 < |s| && s[i + 1] == ' ' then
      var tail := ReadList(s[i + 2..]);
      if tail.None? then None else Some([head.value] + tail.value)
    else None
  }

  predicate EndsWith(s: string, suffix: string) {
    |suffix| <= |s| && s[|s| - |suffix|..] == suffix
  }

  /** Reads the text of a port set. */
  function ReadPorts(s: string): Option<seq<nat>> {
    if "{ " <= s && 4 <= |s| && EndsWith(s, " }") then ReadList(s[2..|s| - 2])
    else
      var p := ReadPort(s);
      if p.None? then None else Some([p.value])
  }

  lemma CommaFree(n: nat)
    ensures ',' !in Show(n)
  {
    assert forall c <- Show(n) :: IsDigit(c);
  }

  lemma {:induction false} CommaAtOf(head: string, rest: string)
    requires ',' !in head && (rest == "" || rest[0] == ',')
    ensures CommaAt(head + rest) == |head|
  {
    if head == "" {
      assert head + rest == rest;
    } else {
      assert (head + rest)[1..] == head[1..] + rest;
      CommaAtOf(head[1..], rest);
    }
  }

  lemma ReadHead(n: nat, rest: string)
    requires rest == "" || rest[0] == ','
    ensures var s := Show(n) + rest;
            CommaAt(s) == |Show(n)| && ReadPort(s[..CommaAt(s)]) == Some(n)
  {
    ValueOfShow(n);
    ShowCanonical(n);
    CommaFree(n);
    CommaAtOf(Show(n), rest);
    assert (Show(n) + rest)[..|Show(n)|] == Show(n);
  }

  lemma ReadListCons(n: nat, text: string, tail: seq<nat>)
    requires ReadList(text) == Some(tail)
    ensures ReadList(Show(n) + (", " + text)) == Some([n] + tail)
  {
    ReadHead(n, ", " + text);
    var s := Show(n) + (", " + text);
    assert s[|Show(n)| + 2..] == text && s[|Show(n)| + 1] == ' ';
  }

  lemma JoinCons(ports: seq<nat>)
    requires 1 < |ports|
    ensures JoinComma(ShowEach(ports)) == Show(ports[0]) + (", " + JoinComma(ShowEach(ports[1..])))
  {
    assert ShowEach(ports)[1..] == ShowEach(ports[1..]);
  }

  lemma ReadSingle(n: nat)
    ensures ReadList(Show(n)) == Some([n])
  {
    ReadHead(n, "");
    assert Show(n) + "" == Show(n);
  }

  lemma {:induction false} ReadListOfShowAll(ports: seq<nat>)
    requires ports != []
    ensures ReadList(JoinComma(ShowEach(ports))) == Some(ports)
  {
    var first, rest := ports[0], ports[1..];
    assert ports == [first] + rest;
    if |ports| == 1 {
      ReadSingle(first);
      assert ports == [first];
    } else {
      ReadListOfShowAll(rest);
      JoinCons(ports);
      ReadListCons(first, JoinComma(ShowEach(rest)), rest);
    }
  }

  /** The text of a port set reads back to that set. */
  lemma PortTextReadsBack(ports: seq<nat>)
    requires ports != []
    ensures ReadPorts(PortText(ports)) == Some(ports)
  {
    var s := PortText(ports);
    if |ports| == 1 {
      ValueOfShow(ports[0]);
      ShowCanonical(ports[0]);
      assert IsDigit(s[0]) && ports == [ports[0]];
    } else {
      ReadListOfShowAll(ports);
      assert s[2..|s| - 2] == JoinComma(ShowEach(ports));
      assert s[|s| - 2..] == " }";
    }
  }

  method ShowPorts(ports: seq<nat>) returns (parts: seq<string>)
    ensures parts == ShowEach(ports)
  {
    parts := [];
    for i := 0 to |ports|
      invariant parts == ShowEach(ports)[..i]
    {
      parts := parts + [Show(ports[i])];
    }
  }

  lemma NoneInRange(ports: seq<nat>, given: seq<int>)
    requires IsPortSet(ports, given)
    ensures ports == [] <==> forall x <- given :: x < 1 || 65535 < x
  {
    if ports == [] {
      forall x <- given ensures x < 1 || 65535 < x { assert 1 <= x <= 65535 ==> x in ports; }
    } else {
      assert ports[0] in ports;
    }
  }

  lemma PortTextNotEmpty(ports: seq<nat>)
    ensures PortText(ports) != ""
  {
  }

  /** Writes the listed ports that are in range; no text when there are none. */
  method NftPortSet(given: seq<int>) returns (text: string)
    ensures text == "" <==> forall x <- given :: x < 1 || 65535 < x
    ensures text != "" ==> ReadPorts(text).Some? && IsPortSet(ReadPorts(text).value, given)
    ensures text != "" ==> text == PortText(ReadPorts(text).value)
  {
    var ports := UniqueSortedPorts(given);
    NoneInRange(ports, given);
    if |ports| == 0 { return ""; }
    PortTextReadsBack(ports);
    PortTextNotEmpty(ports);
    if |ports| == 1 { return Show(ports[0]); }
    var parts := ShowPorts(ports);
    text := "{ " + JoinComma(parts) + " }";
  }

  // ---------------------------------------------------------------- rules as text

  const LAN_TO_WAN := "    iifname \"__LAN__\" oifname \"__WAN__\" "

  function ProtoText(p: Proto): string {
    if p.TcpProto? then "tcp dport " else "udp dport "
  }

  function VerdictText(v: Verdict): string {
    if v.Accept? then " accept" else " drop"
  }

  /** One line, without its line end. */
  function RuleText(r: Rule): string {
    match r
    case Comment(text) => "    # " + text
    case IcmpAccept => LAN_TO_WAN + "ip protocol icmp accept"
    case Icmp6Accept => LAN_TO_WAN + "ip6 nexthdr icmpv6 accept"
    case Ports(proto, ports, v) => LAN_TO_WAN + (ProtoText(proto) + PortText(ports) + VerdictText(v))
  }

  function Line(r: Rule): string {
    RuleText(r) + "\n"
  }

  function Lines(rules: seq<Rule>): (lines: seq<string>)
    ensures |lines| == |rules|
  {
    seq(|rules|, i requires 0 <= i < |rules| => Line(rules[i]))
  }

  function Concat(parts: seq<string>): string {
    if parts == [] then "" else parts[0] + Concat(parts[1..])
  }

  function RulesText(rules: seq<Rule>): string {
    Concat(Lines(rules))
  }

  function ReadPortRule(body: string, proto: Proto, v: Verdict): Option<Rule> {
    var p, e := ProtoText(proto), VerdictText(v);
    if p <= body && EndsWith(body, e) && |p| + |e| <= |body| then
      var ports := ReadPorts(body[|p|..|body| - |e|]);
      if ports.None? then None else Some(Ports(proto, ports.value, v))
    else None
  }

  function ReadBody(body: string): Option<Rule> {
    if body == "ip protocol icmp accept" then Some(IcmpAccept)
    else if body == "ip6 nexthdr icmpv6 accept" then Some(Icmp6Accept)
    else
      var proto := if "tcp" <= body then TcpProto else UdpProto;
      var v := if EndsWith(body, " drop") then Drop else Accept;
      ReadPortRule(body, proto, v)
  }

  function ReadLine(line: string): Option<Rule> {
    if "    # " <= line then Some(Comment(line[6..]))
    else if LAN_TO_WAN <= line then ReadBody(line[|LAN_TO_WAN|..])
    else None
  }

  function LineEnd(s: string): (i: nat)
    ensures i <= |s| && (i < |s| ==> s[i] == '\n') && '\n' !in s[..i]
  {
    if s == "" || s[0] == '\n' then 0 else 1 + LineEnd(s[1..])
  }

  /** Reads a rule file line by line. */
  function ReadRules(s: string): Option<seq<Rule>> {
    if s == "" then Some([])
    else
      var i := LineEnd(s);
      if i == |s| then None
      else
        var r := ReadLine(s[..i]);
        var rest := ReadRules(s[i + 1..]);
        if r.None? || rest.None? then None else Some([r.value] + rest.value)
  }

  ghost predicate Writable(r: Rule) {
    match r
    case Comment(text) => '\n' !in text
    case Ports(_, ports, _) => ports != []
    case _ => true
  }

  lemma PortRuleReadsBack(proto: Proto, ports: seq<nat>, v: Verdict)
    requires ports != []
    ensures ReadPortRule(ProtoText(proto) + PortText(ports) + VerdictText(v), proto, v) == Some(Ports(proto, ports, v))
  {
    var p, e, t := ProtoText(proto), VerdictText(v), PortText(ports);
    var body := p + t + e;
    PortTextReadsBack(ports);
    assert body[|p|..|body| - |e|] == t;
    assert body[|body| - |e|..] == e;
  }

  lemma BodyShape(proto: Proto, t: string, v: Verdict)
    ensures var body := ProtoText(proto) + t + VerdictText(v);
            && body != "" && body[0] != 'i'
            && ("tcp" <= body <==> proto.TcpProto?)
            && (EndsWith(body, " drop") <==> v.Drop?)
  {
    var body := ProtoText(proto) + t + VerdictText(v);
    assert body[0] == ProtoText(proto)[0];
    var n, e := |body|, VerdictText(v);
    assert body[n - 1] == e[|e| - 1];
    if v.Drop? { assert body[n - 5..] == e; }
    if EndsWith(body, " drop") { assert body[n - 5..][4] == body[n - 1]; }
  }

  lemma BodyReadsBack(proto: Proto, ports: seq<nat>, v: Verdict)
    requires ports != []
    ensures ReadBody(ProtoText(proto) + PortText(ports) + VerdictText(v)) == Some(Ports(proto, ports, v))
  {
    PortRuleReadsBack(proto, ports, v);
    BodyShape(proto, PortText(ports), v);
  }

  lemma RuleReadsBack(r: Rule)
    requires Writable(r)
    ensures ReadLine(RuleText(r)) == Some(r)
  {
    var line := RuleText(r);
    assert LAN_TO_WAN[4] == 'i';
    match r {
      case Comment(text) =>
        assert line[6..] == text;
      case IcmpAccept =>
        assert line[|LAN_TO_WAN|..] == "ip protocol icmp accept" && line[4] == 'i';
      case Icmp6Accept =>
        assert line[|LAN_TO_WAN|..] == "ip6 nexthdr icmpv6 accept" && line[4] == 'i';
      case Ports(proto, ports, v) =>
        BodyReadsBack(proto, ports, v);
        assert line[|LAN_TO_WAN|..] == ProtoText(proto) + PortText(ports) + VerdictText(v) && line[4] == 'i';
    }
  }

  lemma {:induction false} JoinedHasNoNewline(ports: seq<nat>)
    ensures '\n' !in JoinComma(ShowEach(ports))
  {
    if ports != [] {
      assert forall c <- Show(ports[0]) :: IsDigit(c);
      if 1 < |ports| {
        assert ShowEach(ports)[1..] == ShowEach(ports[1..]);
        JoinedHasNoNewline(ports[1..]);
      }
    }
  }

  lemma PortTextHasNoNewline(ports: seq<nat>)
    ensures '\n' !in PortText(ports)
  {
    if |ports| == 1 {
      assert forall c <- Show(ports[0]) :: IsDigit(c);
    } else {
      JoinedHasNoNewline(ports);
    }
  }

  lemma RuleHasNoNewline(r: Rule)
    requires Writable(r)
    ensures '\n' !in RuleText(r)
  {
    assert '\n' !in LAN_TO_WAN;
    if r.Ports? {
      PortTextHasNoNewline(r.ports);
      var body := ProtoText(r.proto) + PortText(r.ports) + VerdictText(r.verdict);
      assert '\n' !in ProtoText(r.proto) && '\n' !in VerdictText(r.verdict);
      assert '\n' !in body;
    }
  }

  lemma {:induction false} LineEndOf(line: string, rest: string)
    requires '\n' !in line
    ensures LineEnd(line + "\n" + rest) == |line|
  {
    if line != "" {
      LineEndOf(line[1..], rest);
      assert (line + "\n" + rest)[1..] == line[1..] + "\n" + rest;
    }
  }

  lemma ReadRulesCons(line: string, rest: string, r: Rule, rs: seq<Rule>)
    requires '\n' !in line && ReadLine(line) == Some(r) && ReadRules(rest) == Some(rs)
    ensures ReadRules(line + "\n" + rest) == Some([r] + rs)
  {
    LineEndOf(line, rest);
    var s := line + "\n" + rest;
    assert s[..|line|] == line && s[|line| + 1..] == rest;
  }

  /** A written rule file reads back to its rules. */
  lemma {:induction false} RulesReadBack(rules: seq<Rule>)
    requires forall r <- rules :: Writable(r)
    ensures ReadRules(RulesText(rules)) == Some(rules)
  {
    if rules != [] {
      RuleReadsBack(rules[0]);
      RuleHasNoNewline(rules[0]);
      RulesReadBack(rules[1..]);
      ReadRulesCons(RuleText(rules[0]), RulesText(rules[1..]), rules[0], rules[1..]);
      assert Lines(rules)[1..] == Lines(rules[1..]);
      assert rules == [rules[0]] + rules[1..];
    }
  }

  lemma {:induction false} ConcatPush(parts: seq<string>, part: string)
    ensures Concat(parts + [part]) == Concat(parts) + part
  {
    if parts == [] {
      assert [part][1..] == [] && part + "" == part;
    } else {
      ConcatPush(parts[1..], part);
      assert (parts + [part])[1..] == parts[1..] + [part];
    }
  }

  lemma RulesTextPush(rules: seq<Rule>, r: Rule)
    ensures RulesText(rules + [r]) == RulesText(rules) + Line(r)
  {
    assert Lines(rules + [r]) == Lines(rules) + [Line(r)];
    ConcatPush(Lines(rules), Line(r));
  }

  // ---------------------------------------------------------------- the compiler

  // in two halves each, so that NotesWritable looks for a line break in short literals only
  const DNS_NOTE := "DNS / DoT to WAN blocked — " + "redirected to gateway in prerouting"
  const LAST_NOTE := "No blanket LAN→WAN accept — " + "remaining traffic is dropped (policy drop)."

  lemma NotesWritable()
    ensures Writable(Comment(DNS_NOTE)) && Writable(Comment(LAST_NOTE))
  {
    assert '\n' !in "DNS / DoT to WAN blocked — " && '\n' !in "redirected to gateway in prerouting";
    assert '\n' !in "No blanket LAN→WAN accept — " && '\n' !in "remaining traffic is dropped (policy drop).";
  }

  function IcmpRules(p: Policy): seq<Rule> {
    if p.Icmp() then [IcmpAccept] + [Icmp6Accept] else []
  }

  function DnsRules(p: Policy): seq<Rule> {
    if p.ForceDns() then
      [Comment(DNS_NOTE)] + [Ports(UdpProto, [53, 853], Drop)] + [Ports(TcpProto, [53, 853], Drop)]
    else []
  }

  function AcceptRules(proto: Proto, ports: seq<nat>): seq<Rule> {
    if ports == [] then [] else [Ports(proto, ports, Accept)]
  }

  /** The rules for a policy whose forwardable ports are `tcp` and `udp`. */
  function Compiled(p: Policy, tcp: seq<nat>, udp: seq<nat>): seq<Rule> {
    IcmpRules(p) + DnsRules(p) + AcceptRules(TcpProto, tcp) + AcceptRules(UdpProto, udp) + [Comment(LAST_NOTE)]
  }

  /** The listed ports a rule may forward; `dns` says whether DNS ports are left out too. */
  ghost predicate IsForward(out: seq<nat>, ports: seq<int>, dns: bool) {
    forall x: int :: x in out <==> x in ports && 1 <= x <= 65535 && x !in {80, 443} && (dns ==> x !in {53, 853})
  }

  method ForwardPorts(ports: seq<int>, dns: bool) returns (out: seq<nat>)
    ensures IsForward(out, ports, dns)
  {
    var unique := UniqueSortedPorts(ports);
    out := [];
    for i := 0 to |unique|
      invariant forall x: int :: x in out <==> x in unique[..i] && x !in {80, 443} && (dns ==> x !in {53, 853})
    {
      var port := unique[i];
      if dns && (port == 53 || port == 853) { continue; }
      if port == 80 || port == 443 { continue; }
      out := out + [port];
    }
    assert unique[..|unique|] == unique;
  }

  /** Rules already written, as text. */
  ghost predicate Written(b: string, rules: seq<Rule>) {
    b == RulesText(rules) && forall r <- rules :: Writable(r)
  }

  method Write(b: string, ghost rules: seq<Rule>, r: Rule) returns (next: string, ghost all: seq<Rule>)
    requires Written(b, rules) && Writable(r)
    ensures Written(next, all) && all == rules + [r]
  {
    next := b + Line(r);
    all := rules + [r];
    RulesTextPush(rules, r);
  }

  /** An accept rule for a set of ports, unless the set is empty. */
  method WriteAccept(b: string, ghost rules: seq<Rule>, proto: Proto, ports: seq<nat>)
    returns (next: string, ghost all: seq<Rule>, ghost chosen: seq<nat>)
    requires Written(b, rules)
    ensures Written(next, all) && IsPortSet(chosen, ports)
    ensures all == rules + AcceptRules(proto, chosen)
  {
    var text := NftPortSet(ports);
    next, all, chosen := b, rules, [];
    if text != "" {
      chosen := ReadPorts(text).value;
      var line := LAN_TO_WAN + (ProtoText(proto) + text + " accept");
      next := b + (line + "\n");
      all := rules + [Ports(proto, chosen, Accept)];
      RulesTextPush(rules, Ports(proto, chosen, Accept));
    }
  }

  /** First match over the compiled rules, rule by rule. */
  lemma CompiledDecides(p: Policy, tcp: seq<nat>, udp: seq<nat>, pkt: Packet)
    requires IsForward(tcp, p.Tcp(), false) && IsForward(udp, p.Udp(), p.ForceDns())
    ensures Decide(Compiled(p, tcp, udp), pkt) == Accept <==> Allowed(p, pkt)
  {
    var tcpRules, udpRules := AcceptRules(TcpProto, tcp), AcceptRules(UdpProto, udp);
    FirstMatchConcat(IcmpRules(p) + DnsRules(p) + tcpRules + udpRules, [Comment(LAST_NOTE)], pkt);
    FirstMatchConcat(IcmpRules(p) + DnsRules(p) + tcpRules, udpRules, pkt);
    FirstMatchConcat(IcmpRules(p) + DnsRules(p), tcpRules, pkt);
    FirstMatchConcat(IcmpRules(p), DnsRules(p), pkt);
    FixedRules(p, pkt);
    assert tcpRules == [] || tcpRules[1..] == [];
    assert udpRules == [] || udpRules[1..] == [];
  }

  /** What the rules that do not depend on the port lists decide. */
  lemma FixedRules(p: Policy, pkt: Packet)
    ensures FirstMatch(IcmpRules(p), pkt)
         == if p.Icmp() && (pkt.Icmp4? || pkt.Icmp6?) then Some(Accept) else None
    ensures FirstMatch(DnsRules(p), pkt)
         == if p.ForceDns() && (pkt.Tcp? || pkt.Udp?) && pkt.port in {53, 853} then Some(Drop) else None
    ensures FirstMatch([Comment(LAST_NOTE)], pkt) == None
  {
    var note, udp, tcp := Comment(DNS_NOTE), Ports(UdpProto, [53, 853], Drop), Ports(TcpProto, [53, 853], Drop);
    FirstMatchOne(IcmpAccept, pkt);
    FirstMatchOne(Icmp6Accept, pkt);
    FirstMatchConcat([IcmpAccept], [Icmp6Accept], pkt);
    FirstMatchOne(note, pkt);
    FirstMatchOne(udp, pkt);
    FirstMatchOne(tcp, pkt);
    FirstMatchConcat([note], [udp], pkt);
    FirstMatchConcat([note] + [udp], [tcp], pkt);
    FirstMatchOne(Comment(LAST_NOTE), pkt);
  }

  lemma FirstMatchOne(r: Rule, pkt: Packet)
    ensures FirstMatch([r], pkt) == if Matches(r, pkt) then Some(VerdictOf(r)) else None
  {
    assert [r][1..] == [];
  }

  lemma {:induction false} FirstMatchConcat(a: seq<Rule>, b: seq<Rule>, pkt: Packet)
    ensures FirstMatch(a + b, pkt) == if FirstMatch(a, pkt).Some? then FirstMatch(a, pkt) else FirstMatch(b, pkt)
  {
    if a == [] {
      assert a + b == b;
    } else {
      FirstMatchConcat(a[1..], b, pkt);
      assert (a + b)[1..] == a[1..] + b;
    }
  }

  lemma DefaultsKeep(given: Policy, pkt: Packet)
    ensures Allowed(given.WithDefaults(), pkt) == Allowed(given, pkt)
  {
  }

  method WriteFixed(p: Policy) returns (b: string, ghost rules: seq<Rule>)
    ensures Written(b, rules) && rules == IcmpRules(p) + DnsRules(p)
  {
    b, rules := "", [];
    if p.Icmp() {
      b, rules := Write(b, rules, IcmpAccept);
      b, rules := Write(b, rules, Icmp6Accept);
    }
    assert rules == IcmpRules(p);
    if p.ForceDns() {
      NotesWritable();
      b, rules := Write(b, rules, Comment(DNS_NOTE));
      b, rules := Write(b, rules, Ports(UdpProto, [53, 853], Drop));
      b, rules := Write(b, rules, Ports(TcpProto, [53, 853], Drop));
    }
  }

  /** The rules in order, and that they are what the policy's ports compile to. */
  method WriteRules(p: Policy) returns (text: string, ghost rules: seq<Rule>, ghost tcp: seq<nat>, ghost udp: seq<nat>)
    requires p.tcpPorts.Some? && p.udpPorts.Some?
    ensures Written(text, rules) && rules == Compiled(p, tcp, udp) && Ascending(tcp) && Ascending(udp)
    ensures IsForward(tcp, p.Tcp(), false) && IsForward(udp, p.Udp(), p.ForceDns())
  {
    text, rules := WriteFixed(p);
    var tcpWan := ForwardPorts(p.tcpPorts.value, false);
    var udpWan := ForwardPorts(p.udpPorts.value, p.ForceDns());
    text, rules, tcp := WriteAccept(text, rules, TcpProto, tcpWan);
    text, rules, udp := WriteAccept(text, rules, UdpProto, udpWan);
    NotesWritable();
    text, rules := Write(text, rules, Comment(LAST_NOTE));
  }

  /** The text's own rules, interpreted first match first, let through exactly what the policy allows. */
  ghost predicate Implements(text: string, given: Policy) {
    ReadRules(text).Some? && forall pkt :: Decide(ReadRules(text).value, pkt) == Accept <==> Allowed(given, pkt)
  }

  /** The text is that of the compiled rules for the forwardable ports in ascending order. */
  ghost predicate IsWrittenFor(text: string, given: Policy) {
    exists tcp: seq<nat>, udp: seq<nat> ::
      && text == RulesText(Compiled(given, tcp, udp)) && Ascending(tcp) && Ascending(udp)
      && IsForward(tcp, given.Tcp(), false) && IsForward(udp, given.Udp(), given.ForceDns())
  }

  lemma DefaultsCompile(given: Policy, tcp: seq<nat>, udp: seq<nat>)
    ensures Compiled(given.WithDefaults(), tcp, udp) == Compiled(given, tcp, udp)
  {
  }

  method PermissiveForwardRules(given: Policy) returns (text: string)
    ensures Implements(text, given)
    ensures IsWrittenFor(text, given)
  {
    var p := given.WithDefaults();
    ghost var rules, tcp, udp;
    text, rules, tcp, udp := WriteRules(p);
    RulesReadBack(rules);
    forall pkt ensures Decide(rules, pkt) == Accept <==> Allowed(given, pkt) {
      CompiledDecides(p, tcp, udp, pkt);
      DefaultsKeep(given, pkt);
    }
    DefaultsCompile(given, tcp, udp);
  }
}
