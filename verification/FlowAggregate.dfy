/** Grouping packets into flows in one pass, and what each flow then says about its packets. */
module FlowAggregate {
  import opened Basics
  import opened Text
  import opened FlowIds

  const MAX_FLOWS: nat := 5000

  /** What a flow reports. */
  datatype Flow = Flow(id: string, transport: string, protocol: string, srcIP: string, dstIP: string,
                       srcPort: int, dstPort: int, stream: int, packets: nat, bytes: int,
                       first: Option<int>, last: Option<int>, info: string, names: seq<string>, hasPayload: bool)

  // ---------------------------------------------------------------- protocols

  /** The service a port stands for; empty when there is none. */
  function PortProtocol(port: int): string {
    LookUp(port, [
      (22, "SSH"), (23, "Telnet"), (25, "SMTP"), (53, "DNS"), (67, "DHCP"), (68, "DHCP"), (69, "TFTP"),
      (110, "POP3"), (123, "NTP"), (137, "NBNS"), (138, "NBDS"), (139, "SMB"), (143, "IMAP"),
      (161, "SNMP"), (162, "SNMP"), (179, "BGP"), (389, "LDAP"), (445, "SMB"), (465, "SMTPS"), (514, "Syslog"),
      (587, "SMTP"), (636, "LDAPS"), (993, "IMAPS"), (995, "POP3S"), (1433, "MSSQL"), (3306, "MySQL"),
      (3389, "RDP"), (5432, "PostgreSQL"), (5900, "VNC"), (9443, "Agent")])
  }

  function LookUp(port: int, table: seq<(int, string)>): string {
    if table == [] then "" else if table[0].0 == port then table[0].1 else LookUp(port, table[1..])
  }

  predicate InGenericTable(s: string) {
    s in {"", "TCP", "UDP", "IP", "IPv4", "IPv6", "ETH", "ETHERNET", "DATA"}
  }

  /** The table is searched with the upper-case name, so its mixed-case entries never match. */
  predicate Generic(proto: string) {
    InGenericTable(ToUpper(proto))
  }

  /** An upper-case text is none of the mixed-case entries. */
  lemma UpperIsNotMixed(s: string, mixed: string, i: nat)
    requires i < |mixed| && 'a' <= mixed[i] <= 'z'
    ensures ToUpper(s) != mixed
  {
    if i < |s| { assert ToUpper(s)[i] == UpperChar(s[i]); }
  }

  lemma GenericExactly(s: string)
    ensures Generic(s) <==> ToUpper(s) in {"", "TCP", "UDP", "IP", "ETH", "ETHERNET", "DATA"}
    ensures !Generic("IPv4") && !Generic("IPv6")
  {
    UpperIsNotMixed(s, "IPv4", 2);
    UpperIsNotMixed(s, "IPv6", 2);
    assert ToUpper("IPv4") == "IPV4" && ToUpper("IPv6") == "IPV6";
    assert "IPV4"[3] == '4' && "IPV6"[3] == '6';
  }

  function ClassifyProtocol(p: Packet): string {
    var proto := TrimSpace(p.protocol);
    if !Generic(proto) then proto
    else if PortProtocol(p.dstPort) != "" then PortProtocol(p.dstPort)
    else if PortProtocol(p.srcPort) != "" then PortProtocol(p.srcPort)
    else if proto != "" then proto
    else ToUpper(p.transport)
  }

  predicate BetterProtocol(candidate: string, current: string) {
    candidate != "" && (current == "" || Generic(current)) && (!Generic(candidate) || current == "")
  }

  // ---------------------------------------------------------------- one flow, packet by packet

  /** What is accumulated for a flow; `seen` holds the texts and the names already taken. */
  datatype Tally = Tally(packets: nat, bytes: int, last: Option<int>, protocol: string, info: string,
                         seen: set<string>, names: seq<string>)

  const SEPARATOR := " \U{C2}\U{B7} "

  function Start(p: Packet): Tally {
    Tally(0, 0, p.t, ClassifyProtocol(p), "", {}, [])
  }

  function Later(last: Option<int>, t: Option<int>): Option<int> {
    if t.Some? && (last.None? || t.value > last.value) then t else last
  }

  /** How a name is marked among the texts already taken. */
  function Tag(name: string): string {
    "n:" + name
  }

  function TakeNames(seen: set<string>, taken: seq<string>, names: seq<string>): (r: (set<string>, seq<string>))
    decreases |names|
  {
    if names == [] then (seen, taken)
    else
      var n := names[0];
      if n == "" || Tag(n) in seen then TakeNames(seen, taken, names[1..])
      else TakeNames(seen + {Tag(n)}, taken + [n], names[1..])
  }

  predicate TakesInfo(seen: set<string>, info: string, text: string) {
    text != "" && text !in seen && |info| < 400
  }

  function Joined(info: string, text: string): string {
    if info != "" then info + SEPARATOR + text else text
  }

  function Step(a: Tally, p: Packet): Tally {
    var proto := ClassifyProtocol(p);
    var takes := TakesInfo(a.seen, a.info, p.info);
    var taken := TakeNames(if takes then a.seen + {p.info} else a.seen, a.names, p.names);
    Tally(a.packets + 1, a.bytes + p.length, Later(a.last, p.t),
          if BetterProtocol(proto, a.protocol) then proto else a.protocol,
          if takes then Joined(a.info, p.info) else a.info, taken.0, taken.1)
  }

  /** The tally of a flow's packets, in order. */
  function Total(ps: seq<Packet>): Tally {
    if ps == [] then Tally(0, 0, None, "", "", {}, [])
    else Step(if |ps| == 1 then Start(ps[0]) else Total(ps[..|ps| - 1]), ps[|ps| - 1])
  }

  /** The accumulator: created by the first packet, updated in place by every packet of its flow. */
  class Accumulator {
    const id: string
    const first: Packet
    var packets: nat
    var bytes: int
    var last: Option<int>
    var protocol: string
    var info: string
    var seen: set<string>
    var names: seq<string>

    constructor (p: Packet)
      ensures id == FlowId(p) && first == p && Value() == Start(p)
    {
      id, first := FlowId(p), p;
      packets, bytes, last, protocol := 0, 0, p.t, ClassifyProtocol(p);
      info, seen, names := "", {}, [];
    }

    function Value(): Tally
      reads this
    {
      Tally(packets, bytes, last, protocol, info, seen, names)
    }

    method Add(p: Packet)
      modifies this
      ensures Value() == Step(old(Value()), p)
    {
      AddCounts(p);
      AddInfo(p.info);
      AddNames(p.names);
    }

    method AddCounts(p: Packet)
      modifies `packets, `bytes, `last, `protocol
      ensures packets == old(packets) + 1 && bytes == old(bytes) + p.length && last == Later(old(last), p.t)
      ensures var proto := ClassifyProtocol(p);
              protocol == if BetterProtocol(proto, old(protocol)) then proto else old(protocol)
    {
      packets := packets + 1;
      bytes := bytes + p.length;
      if p.t.Some? && (last.None? || p.t.value > last.value) { last := p.t; }
      var proto := ClassifyProtocol(p);
      if BetterProtocol(proto, protocol) { protocol := proto; }
    }

    method AddInfo(text: string)
      modifies `info, `seen
      ensures var takes := TakesInfo(old(seen), old(info), text);
              info == (if takes then Joined(old(info), text) else old(info))
              && seen == if takes then old(seen) + {text} else old(seen)
    {
      if text != "" && text !in seen && |info| < 400 {
        if info != "" { info := info + SEPARATOR; }
        info := info + text;
        seen := seen + {text};
      }
    }

    method AddNames(ns: seq<string>)
      modifies `seen, `names
      ensures (seen, names) == TakeNames(old(seen), old(names), ns)
    {
      for i := 0 to |ns|
        invariant TakeNames(seen, names, ns[i..]) == TakeNames(old(seen), old(names), ns)
      {
        var n := ns[i];
        assert ns[i..][0] == n && ns[i..][1..] == ns[i + 1..];
        if n != "" && Tag(n) !in seen {
          seen := seen + {Tag(n)};
          names := names + [n];
        }
      }
    }
  }

  // ---------------------------------------------------------------- the flows of a capture

  /** The packets of one flow, in order. */
  function OfFlow(pkts: seq<Packet>, id: string): seq<Packet> {
    if pkts == [] then []
    else
      var p := pkts[|pkts| - 1];
      OfFlow(pkts[..|pkts| - 1], id) + (if FlowId(p) == id then [p] else [])
  }

  /** The flow ids in the order they first appear. */
  function FirstIds(pkts: seq<Packet>): seq<string> {
    if pkts == [] then []
    else
      var before := FirstIds(pkts[..|pkts| - 1]);
      var id := FlowId(pkts[|pkts| - 1]);
      if id in before then before else before + [id]
  }

  function JoinNames(names: seq<string>): string {
    if names == [] then "" else if |names| == 1 then names[0] else names[0] + ", " + JoinNames(names[1..])
  }

  function Report(id: string, p: Packet, a: Tally): Flow {
    Flow(id, p.transport, a.protocol, p.srcIP, p.dstIP, p.srcPort, p.dstPort, p.stream, a.packets, a.bytes,
         p.t, a.last, if a.info == "" && |a.names| > 0 then JoinNames(a.names) else a.info, a.names,
         p.transport == "tcp" || p.transport == "udp")
  }

  /** The flow of one id, from its packets alone. */
  function FlowOf(pkts: seq<Packet>, id: string): Flow
    requires OfFlow(pkts, id) != []
  {
    Report(id, OfFlow(pkts, id)[0], Total(OfFlow(pkts, id)))
  }

  lemma {:induction false} FirstIdsExact(pkts: seq<Packet>)
    ensures forall id :: id in FirstIds(pkts) <==> OfFlow(pkts, id) != []
    ensures forall i, j :: 0 <= i < j < |FirstIds(pkts)| ==> FirstIds(pkts)[i] != FirstIds(pkts)[j]
  {
    if pkts != [] {
      var front := pkts[..|pkts| - 1];
      FirstIdsExact(front);
      forall id ensures id in FirstIds(pkts) <==> OfFlow(pkts, id) != [] {
        assert id in FirstIds(front) <==> OfFlow(front, id) != [];
      }
    }
  }

  /** What the loop needs to know of `Total`, and all it knows. */
  ghost predicate Tallies(total: seq<Packet> -> Tally) {
    forall ps: seq<Packet>, p: Packet :: total(ps + [p]) == Step(if ps == [] then Start(p) else total(ps), p)
  }

  lemma TotalTallies()
    ensures Tallies(Total)
  {
    forall ps: seq<Packet>, p: Packet
      ensures Total(ps + [p]) == Step(if ps == [] then Start(p) else Total(ps), p)
    {
      assert (ps + [p])[..|ps|] == ps;
    }
  }

  ghost predicate Holding(a: Accumulator, ps: seq<Packet>, total: seq<Packet> -> Tally)
    reads a
  {
    ps != [] && a.first == ps[0] && a.Value() == total(ps)
  }

  /** The packets read so far by flow, and the flows in the order they appeared. */
  datatype Groups = Groups(order: seq<string>, of: map<string, seq<Packet>>)

  ghost function Put(g: Groups, p: Packet): Groups {
    var id := FlowId(p);
    if id in g.of then Groups(g.order, g.of[id := g.of[id] + [p]])
    else Groups(g.order + [id], g.of[id := [p]])
  }

  ghost function GroupAll(pkts: seq<Packet>): Groups {
    if pkts == [] then Groups([], map[]) else Put(GroupAll(pkts[..|pkts| - 1]), pkts[|pkts| - 1])
  }

  lemma {:induction false} GroupAllExact(pkts: seq<Packet>)
    ensures var g := GroupAll(pkts);
            && g.order == FirstIds(pkts)
            && (forall id :: id in g.order <==> id in g.of)
            && (forall id :: id in g.of <==> OfFlow(pkts, id) != [])
            && (forall id <- g.of :: g.of[id] == OfFlow(pkts, id))
  {
    if pkts != [] {
      var front := pkts[..|pkts| - 1];
      GroupAllExact(front);
    }
  }

  /** The accumulators hold the tallies of the groups, one object per flow. */
  ghost predicate Holds(flows: map<string, Accumulator>, g: Groups, total: seq<Packet> -> Tally)
    reads flows.Values
  {
    && flows.Keys == g.of.Keys
    && (forall id <- flows :: flows[id].id == id && Holding(flows[id], g.of[id], total))
  }

  /** One packet more for the flow this accumulator holds. */
  method AddTo(a: Accumulator, p: Packet, ghost ps: seq<Packet>, ghost total: seq<Packet> -> Tally)
    requires Holding(a, ps, total) && Tallies(total)
    modifies a
    ensures Holding(a, ps + [p], total)
  {
    a.Add(p);
  }

  method NewFlow(p: Packet, ghost total: seq<Packet> -> Tally) returns (a: Accumulator)
    requires Tallies(total)
    ensures fresh(a) && a.id == FlowId(p) && Holding(a, [p], total)
  {
    a := new Accumulator(p);
    a.Add(p);
    assert [] + [p] == [p];
  }

  method Route(flows: map<string, Accumulator>, p: Packet, ghost g: Groups, ghost total: seq<Packet> -> Tally)
    returns (flows': map<string, Accumulator>)
    requires Holds(flows, g, total) && Tallies(total)
    modifies flows.Values
    ensures Holds(flows', Put(g, p), total)
    ensures forall id <- flows' :: (id in flows && flows'[id] == flows[id]) || fresh(flows'[id])
  {
    var id := FlowId(p);
    flows' := flows;
    if id in flows {
      AddTo(flows[id], p, g.of[id], total);
    } else {
      var a := NewFlow(p, total);
      flows' := flows[id := a];
    }
  }

  lemma GroupNext(pkts: seq<Packet>, i: nat)
    requires i < |pkts|
    ensures GroupAll(pkts[..i + 1]) == Put(GroupAll(pkts[..i]), pkts[i])
  {
    assert pkts[..i + 1][..i] == pkts[..i];
  }

  /** One packet more, and its id if it is the first of its flow. */
  method CollectOne(flows: map<string, Accumulator>, order: seq<string>, p: Packet, ghost g: Groups,
                    ghost total: seq<Packet> -> Tally)
    returns (flows': map<string, Accumulator>, order': seq<string>)
    requires Holds(flows, g, total) && Tallies(total) && order == g.order
    modifies flows.Values
    ensures Holds(flows', Put(g, p), total) && order' == Put(g, p).order
    ensures forall id <- flows' :: (id in flows && flows'[id] == flows[id]) || fresh(flows'[id])
  {
    order' := if FlowId(p) in flows then order else order + [FlowId(p)];
    flows' := Route(flows, p, g, total);
  }

  method Collect(pkts: seq<Packet>, ghost total: seq<Packet> -> Tally)
    returns (flows: map<string, Accumulator>, order: seq<string>)
    requires Tallies(total)
    ensures Holds(flows, GroupAll(pkts), total) && order == GroupAll(pkts).order
    ensures forall id <- flows :: fresh(flows[id])
  {
    flows, order := map[], [];
    ghost var g := Groups([], map[]);
    for i := 0 to |pkts|
      invariant g == GroupAll(pkts[..i]) && order == g.order && Holds(flows, g, total)
      invariant forall id <- flows :: fresh(flows[id])
    {
      GroupNext(pkts, i);
      flows, order := CollectOne(flows, order, pkts[i], g, total);
      g := Put(g, pkts[i]);
    }
    assert pkts[..|pkts|] == pkts;
  }

  ghost predicate IsFlow(pkts: seq<Packet>, id: string, flow: Flow) {
    OfFlow(pkts, id) != [] && flow == FlowOf(pkts, id)
  }

  function Reported(a: Accumulator): Flow
    reads a
  {
    Report(a.id, a.first, a.Value())
  }

  lemma ReportedIsFlow(a: Accumulator, pkts: seq<Packet>, id: string)
    requires a.id == id && Holding(a, OfFlow(pkts, id), Total)
    ensures IsFlow(pkts, id, Reported(a))
  {
  }

  method ReportFirst(flows: map<string, Accumulator>, order: seq<string>) returns (out: seq<Flow>)
    requires forall id <- order :: id in flows
    ensures |out| == if |order| <= MAX_FLOWS then |order| else MAX_FLOWS
    ensures forall k :: 0 <= k < |out| ==> out[k] == Reported(flows[order[k]])
  {
    out := [];
    for i := 0 to |order|
      invariant |out| == i <= MAX_FLOWS
      invariant forall k :: 0 <= k < i ==> out[k] == Reported(flows[order[k]])
    {
      if i >= MAX_FLOWS { break; }
      out := out + [Reported(flows[order[i]])];
    }
  }

  /** One flow per id, in order of first appearance, each from its own packets alone; the first 5000 of them. */
  method AggregateFlows(pkts: seq<Packet>) returns (out: seq<Flow>)
    ensures |out| == if |FirstIds(pkts)| <= 5000 then |FirstIds(pkts)| else 5000
    ensures forall i :: 0 <= i < |out| ==> IsFlow(pkts, FirstIds(pkts)[i], out[i])
  {
    TotalTallies();
    var flows, order := Collect(pkts, Total);
    GroupAllExact(pkts);
    out := ReportFirst(flows, order);
    forall i | 0 <= i < |out| ensures IsFlow(pkts, FirstIds(pkts)[i], out[i]) {
      ReportedIsFlow(flows[order[i]], pkts, order[i]);
    }
  }

  // ---------------------------------------------------------------- order of appearance

  /** Reading on never reorders the flows: each prefix of the capture gives a prefix of the ids. */
  lemma {:induction false} FirstIdsInOrder(pkts: seq<Packet>, k: nat)
    requires k <= |pkts|
    ensures FirstIds(pkts[..k]) <= FirstIds(pkts)
  {
    if k < |pkts| {
      var front := pkts[..|pkts| - 1];
      assert front[..k] == pkts[..k];
      FirstIdsInOrder(front, k);
    } else {
      assert pkts[..k] == pkts;
    }
  }

  // ---------------------------------------------------------------- counts

  function One(p: Packet): int { 1 }

  function Length(p: Packet): int { p.length }

  function Weigh(ps: seq<Packet>, weight: Packet -> int): int {
    if ps == [] then 0 else Weigh(ps[..|ps| - 1], weight) + weight(ps[|ps| - 1])
  }

  lemma {:induction false} WeighOnes(ps: seq<Packet>)
    ensures Weigh(ps, One) == |ps|
  {
    if ps != [] { WeighOnes(ps[..|ps| - 1]); }
  }

  /** A flow counts its packets and adds up their lengths. */
  lemma {:induction false} CountsExact(ps: seq<Packet>)
    ensures Total(ps).packets == Weigh(ps, One) && Total(ps).bytes == Weigh(ps, Length)
  {
    if ps != [] { CountsExact(ps[..|ps| - 1]); }
  }

  function WeighFlows(pkts: seq<Packet>, ids: seq<string>, weight: Packet -> int): int {
    if ids == [] then 0 else WeighFlows(pkts, ids[..|ids| - 1], weight) + Weigh(OfFlow(pkts, ids[|ids| - 1]), weight)
  }

  lemma WeighOneMore(ps: seq<Packet>, p: Packet, weight: Packet -> int)
    ensures Weigh(ps + [p], weight) == Weigh(ps, weight) + weight(p)
  {
    assert (ps + [p])[..|ps|] == ps;
  }

  lemma GroupOneMore(pkts: seq<Packet>, id: string, weight: Packet -> int)
    requires pkts != []
    ensures var p := pkts[|pkts| - 1];
            Weigh(OfFlow(pkts, id), weight)
            == Weigh(OfFlow(pkts[..|pkts| - 1], id), weight) + if FlowId(p) == id then weight(p) else 0
  {
    var p := pkts[|pkts| - 1];
    var group := OfFlow(pkts[..|pkts| - 1], id);
    if FlowId(p) == id { WeighOneMore(group, p, weight); }
    assert OfFlow(pkts, id) == if FlowId(p) == id then group + [p] else group;
  }

  /** A packet more weighs on exactly its own flow. */
  lemma {:induction false} WeighFlowsOneMore(pkts: seq<Packet>, ids: seq<string>, weight: Packet -> int)
    requires pkts != [] && Distinct(ids)
    ensures var p := pkts[|pkts| - 1];
            WeighFlows(pkts, ids, weight)
            == WeighFlows(pkts[..|pkts| - 1], ids, weight) + if FlowId(p) in ids then weight(p) else 0
  {
    if ids != [] {
      var front, id := ids[..|ids| - 1], ids[|ids| - 1];
      assert ids == front + [id] && id !in front;
      WeighFlowsOneMore(pkts, front, weight);
      GroupOneMore(pkts, id, weight);
    }
  }

  lemma {:induction false} NoPacketsNoWeight(ids: seq<string>, weight: Packet -> int)
    ensures WeighFlows([], ids, weight) == 0
  {
    if ids != [] { NoPacketsNoWeight(ids[..|ids| - 1], weight); }
  }

  /** Over any list of distinct ids that covers the capture, nothing is lost and nothing counted twice. */
  lemma {:induction false} WeightConserved(pkts: seq<Packet>, ids: seq<string>, weight: Packet -> int)
    requires Distinct(ids) && forall p <- pkts :: FlowId(p) in ids
    ensures WeighFlows(pkts, ids, weight) == Weigh(pkts, weight)
  {
    if pkts == [] {
      NoPacketsNoWeight(ids, weight);
    } else {
      WeighFlowsOneMore(pkts, ids, weight);
      assert forall p <- pkts[..|pkts| - 1] :: p in pkts;
      WeightConserved(pkts[..|pkts| - 1], ids, weight);
    }
  }

  function SumPackets(flows: seq<Flow>): int {
    if flows == [] then 0 else SumPackets(flows[..|flows| - 1]) + flows[|flows| - 1].packets
  }

  function SumBytes(flows: seq<Flow>): int {
    if flows == [] then 0 else SumBytes(flows[..|flows| - 1]) + flows[|flows| - 1].bytes
  }

  lemma {:induction false} SumsAreWeights(pkts: seq<Packet>, ids: seq<string>, flows: seq<Flow>)
    requires |flows| == |ids| && forall i :: 0 <= i < |ids| ==> IsFlow(pkts, ids[i], flows[i])
    ensures SumPackets(flows) == WeighFlows(pkts, ids, One)
    ensures SumBytes(flows) == WeighFlows(pkts, ids, Length)
  {
    if ids != [] {
      var last := |ids| - 1;
      SumsAreWeights(pkts, ids[..last], flows[..last]);
      CountsExact(OfFlow(pkts, ids[last]));
      assert IsFlow(pkts, ids[last], flows[last]);
    }
  }

  lemma {:induction false} EveryPacketHasItsId(pkts: seq<Packet>)
    ensures forall p <- pkts :: FlowId(p) in FirstIds(pkts)
  {
    if pkts != [] {
      EveryPacketHasItsId(pkts[..|pkts| - 1]);
      assert pkts == pkts[..|pkts| - 1] + [pkts[|pkts| - 1]];
    }
  }

  /** With at most 5000 ids, the flows together hold every packet and every byte exactly once. */
  lemma TotalsConserved(pkts: seq<Packet>, flows: seq<Flow>)
    requires |FirstIds(pkts)| <= 5000 && |flows| == |FirstIds(pkts)|
    requires forall i :: 0 <= i < |flows| ==> IsFlow(pkts, FirstIds(pkts)[i], flows[i])
    ensures SumPackets(flows) == |pkts| && SumBytes(flows) == Weigh(pkts, Length)
  {
    FirstIdsExact(pkts);
    EveryPacketHasItsId(pkts);
    SumsAreWeights(pkts, FirstIds(pkts), flows);
    WeightConserved(pkts, FirstIds(pkts), One);
    WeightConserved(pkts, FirstIds(pkts), Length);
    WeighOnes(pkts);
  }

  // ---------------------------------------------------------------- times

  /** The last time is the latest there is, and is missing only when every packet's is. */
  lemma {:induction false} LastIsLatest(ps: seq<Packet>)
    ensures forall p <- ps :: p.t.Some? ==> Total(ps).last.Some? && p.t.value <= Total(ps).last.value
    ensures Total(ps).last.Some? ==> exists p <- ps :: p.t == Total(ps).last
  {
    if ps != [] {
      var front, p := ps[..|ps| - 1], ps[|ps| - 1];
      assert ps == front + [p];
      LastIsLatest(front);
    }
  }

  // ---------------------------------------------------------------- protocols

  /** The label comes from packet `k`: a specific one is the first specific one, a generic one the first at all. */
  ghost predicate Labels(proto: string, ps: seq<Packet>, k: nat) {
    && k < |ps| && proto == ClassifyProtocol(ps[k])
    && forall j :: 0 <= j < k ==>
         if Generic(proto) then ClassifyProtocol(ps[j]) == "" else Generic(ClassifyProtocol(ps[j]))
  }

  /** A flow is labelled by its first packet with a specific protocol; only when there is none is the label
      generic, and then it is the first one given, if any. */
  lemma {:induction false} ProtocolIsFirstSpecific(ps: seq<Packet>) returns (k: nat)
    requires ps != []
    ensures Labels(Total(ps).protocol, ps, k)
    ensures Generic(Total(ps).protocol) ==> forall p <- ps :: Generic(ClassifyProtocol(p))
    ensures Total(ps).protocol == "" ==> forall p <- ps :: ClassifyProtocol(p) == ""
  {
    var last := |ps| - 1;
    var front, p := ps[..last], ps[last];
    assert ps == front + [p];
    if last == 0 {
      k := 0;
    } else {
      k := ProtocolIsFirstSpecific(front);
      if BetterProtocol(ClassifyProtocol(p), Total(front).protocol) {
        forall j | 0 <= j < last ensures ps[j] in front { assert ps[j] == front[j]; }
        k := last;
      }
    }
  }
}
