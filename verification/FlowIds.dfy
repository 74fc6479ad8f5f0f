/** Flow identifiers: minted from packets, and turned back into a display filter. */
module FlowIds {
  import opened Basics
  import opened Text
  import opened Decimal

  const INT_LIMIT: int := 0x8000_0000_0000_0000

  /** One captured packet; a packet without a timestamp has no `t`. */
  datatype Packet = Packet(t: Option<int>, protocol: string, srcIP: string, dstIP: string, srcPort: int, dstPort: int,
                           transport: string, stream: int, length: int, info: string, names: seq<string>)

  // ---------------------------------------------------------------- minting

  function OrUnknown(ip: string): string {
    if TrimSpace(ip) != "" then ip else "unknown"
  }

  function Tagged(kind: string, rest: string): string {
    kind + [':'] + rest
  }

  function Between(src: string, dst: string): string {
    src + ['>'] + dst
  }

  function FlowId(p: Packet): string {
    if p.transport == "tcp" then Tagged("tcp", ShowInt(p.stream))
    else if p.transport == "udp" then Tagged("udp", ShowInt(p.stream))
    else if p.transport == "icmp" then Tagged("icmp", Between(p.srcIP, p.dstIP))
    else if p.transport == "arp" then Tagged("arp", Between(OrUnknown(p.srcIP), OrUnknown(p.dstIP)))
    else if p.transport == "igmp" then Tagged("igmp", Between(p.srcIP, p.dstIP))
    else Tagged("other", Tagged(ToLower(p.protocol), Between(p.srcIP, p.dstIP)))
  }

  // ---------------------------------------------------------------- reading back

  /** The text before and after the first `c`, and whether there was one. */
  function Cut(s: string, c: char): (r: (string, string, bool))
    ensures s == if r.2 then r.0 + [c] + r.1 else r.0
    ensures c !in r.0 && (!r.2 ==> r.1 == "")
  {
    if s == "" then ("", "", false)
    else if s[0] == c then ("", s[1..], true)
    else
      var r := Cut(s[1..], c);
      ([s[0]] + r.0, r.1, r.2)
  }

  lemma {:induction false} CutAt(before: string, c: char, after: string)
    requires c !in before
    ensures Cut(before + [c] + after, c) == (before, after, true)
  {
    var s := before + [c] + after;
    if before == "" {
      assert s[0] == c && s[1..] == after;
    } else {
      assert s[0] == before[0] && s[1..] == before[1..] + [c] + after;
      assert before == [before[0]] + before[1..];
      CutAt(before[1..], c, after);
    }
  }

  /** Go's signed conversion: 0 for what is not a number, and the nearest bound for one out of range. */
  function Atoi(text: string): int {
    var s := TrimSpace(text);
    var minus := s != "" && s[0] == '-';
    var digits := if s != "" && (s[0] == '-' || s[0] == '+') then s[1..] else s;
    if digits == "" || !AllDigits(digits) then 0
    else if minus then (if Value(digits) <= INT_LIMIT then 0 - Value(digits) else 0 - INT_LIMIT)
    else if Value(digits) < INT_LIMIT then Value(digits)
    else INT_LIMIT - 1
  }

  datatype Answer =
    | Filter(kind: string, stream: int, filter: string)
    | InvalidStream
    | InvalidIcmp
    | InvalidIgmp
    | CannotFollow
    | UnknownId

  predicate IsStreamKind(kind: string) {
    kind == "tcp" || kind == "udp"
  }

  function StreamFilter(kind: string, rest: string): Answer {
    var stream := Atoi(rest);
    if rest == "" || stream < 0 || ShowInt(stream) != rest then InvalidStream
    else Filter(kind, stream, StreamText(kind, ShowInt(stream)))
  }

  function StreamText(kind: string, number: string): string {
    kind + ".stream eq " + number
  }

  function IcmpText(src: string, dst: string): string {
    var fam := if ':' in src then "ipv6" else "ip";
    "(icmp or icmpv6) and " + fam + ".src==" + src + " and " + fam + ".dst==" + dst
  }

  function IcmpFilter(rest: string, validIP: string -> bool): Answer {
    var ends := Cut(rest, '>');
    if !ends.2 || !validIP(ends.0) || !validIP(ends.1) then InvalidIcmp
    else Filter("icmp", -1, IcmpText(ends.0, ends.1))
  }

  function IgmpFilter(rest: string, validIP: string -> bool): Answer {
    var ends := Cut(rest, '>');
    if !ends.2 || !validIP(ends.0) then InvalidIgmp
    else
      var dstClause := if validIP(ends.1) then " and ip.dst==" + ends.1 else "";
      Filter("igmp", -1, "igmp and ip.src==" + ends.0 + dstClause)
  }

  function FilterFor(kind: string, rest: string, validIP: string -> bool): Answer {
    if IsStreamKind(kind) then StreamFilter(kind, rest)
    else if kind == "icmp" then IcmpFilter(rest, validIP)
    else if kind == "arp" then Filter(kind, -1, "arp")
    else if kind == "igmp" then IgmpFilter(rest, validIP)
    else if kind == "other" then CannotFollow
    else UnknownId
  }

  /** `validIP` is the address parser. */
  function DisplayFilterForId(text: string, validIP: string -> bool): Answer {
    var parts := Cut(TrimSpace(text), ':');
    FilterFor(ToLower(parts.0), parts.1, validIP)
  }

  // ---------------------------------------------------------------- streams: there and back

  lemma DigitsAreNotBlank(s: string)
    requires s != "" && AllDigits(s)
    ensures TrimSpace(s) == s && s[0] != '-' && s[0] != '+'
  {
    assert IsDigit(s[0]) && IsDigit(s[|s| - 1]);
  }

  /** A number in range survives printing and converting. */
  lemma AtoiOfShow(n: nat)
    requires n < INT_LIMIT
    ensures Atoi(Show(n)) == n
  {
    DigitsAreNotBlank(Show(n));
    ValueOfShow(n);
  }

  lemma AtoiInRange(text: string)
    ensures -INT_LIMIT <= Atoi(text) < INT_LIMIT
  {
  }

  /** A stream text is accepted exactly when it is the canonical numeral of a stream that fits. */
  lemma StreamFilterExactly(kind: string, rest: string, stream: int)
    ensures (StreamFilter(kind, rest).Filter? && StreamFilter(kind, rest).stream == stream)
       <==> 0 <= stream < INT_LIMIT && rest == Show(stream)
    ensures StreamFilter(kind, rest) == InvalidStream
            || StreamFilter(kind, rest) == Filter(kind, Atoi(rest), StreamText(kind, rest))
  {
    AtoiInRange(rest);
    if 0 <= stream < INT_LIMIT && rest == Show(stream) { AtoiOfShow(stream); }
  }

  lemma StreamWord(word: string)
    requires IsStreamKind(ToLower(word))
    ensures ':' !in word
  {
    var kind := ToLower(word);
    assert |word| == 3;
    assert LowerChar(word[0]) == kind[0] && LowerChar(word[1]) == kind[1] && LowerChar(word[2]) == kind[2];
  }

  /** The text is, up to outer blanks and the case of the kind, a kind, a colon and the numeral of the stream. */
  ghost predicate Names(text: string, kind: string, stream: int) {
    0 <= stream < INT_LIMIT
    && exists word: string :: ToLower(word) == kind && TrimSpace(text) == Tagged(word, Show(stream))
  }

  ghost predicate Accepts(text: string, validIP: string -> bool, kind: string, stream: int) {
    var answer := DisplayFilterForId(text, validIP);
    answer.Filter? && answer.kind == kind && answer.stream == stream
  }

  lemma OnlyStreamsAnswerStreams(kind: string, rest: string, validIP: string -> bool)
    ensures var answer := FilterFor(kind, rest, validIP);
            answer.Filter? ==> answer.kind == kind
  {
  }

  /** A stream id is accepted exactly when it names that stream, and names at most one. */
  lemma StreamIdsExactly(text: string, validIP: string -> bool, kind: string, stream: int)
    requires IsStreamKind(kind)
    ensures Accepts(text, validIP, kind, stream) <==> Names(text, kind, stream)
  {
    var parts := Cut(TrimSpace(text), ':');
    OnlyStreamsAnswerStreams(ToLower(parts.0), parts.1, validIP);
    StreamFilterExactly(kind, parts.1, stream);
    if Accepts(text, validIP, kind, stream) {
      assert parts.2;
      assert TrimSpace(text) == Tagged(parts.0, Show(stream));
    }
    if Names(text, kind, stream) {
      var word: string :| ToLower(word) == kind && TrimSpace(text) == Tagged(word, Show(stream));
      StreamWord(word);
      CutAt(word, ':', Show(stream));
    }
  }

  lemma EndsStayPut(first: string, last: string)
    requires first != "" && last != "" && !IsBlank(first[0]) && !IsBlank(last[|last| - 1])
    ensures TrimSpace(first + last) == first + last
  {
    assert (first + last)[0] == first[0] && (first + last)[|first + last| - 1] == last[|last| - 1];
  }

  lemma ShowIntEnds(n: int)
    ensures ShowInt(n) != "" && !IsBlank(ShowInt(n)[|ShowInt(n)| - 1])
    ensures n < 0 ==> ShowInt(n)[0] == '-'
  {
    var digits := Show(if n < 0 then -n else n);
    assert IsDigit(digits[|digits| - 1]);
  }

  /** Every minted stream id comes back as the same kind and stream; one with a negative stream is refused. */
  lemma MintedStreamReadsBack(p: Packet, validIP: string -> bool)
    requires IsStreamKind(p.transport) && p.stream < INT_LIMIT
    ensures DisplayFilterForId(FlowId(p), validIP)
         == if p.stream < 0 then InvalidStream
            else Filter(p.transport, p.stream, StreamText(p.transport, Show(p.stream)))
  {
    var kind, rest := p.transport, ShowInt(p.stream);
    ReadsKindAndRest(kind, rest, validIP);
    ShowIntEnds(p.stream);
    StreamFilterExactly(kind, rest, p.stream);
    if p.stream < 0 { MinusIsRefused(kind, p.stream); }
  }

  lemma ReadsKindAndRest(kind: string, rest: string, validIP: string -> bool)
    requires kind in {"tcp", "udp", "icmp", "igmp"} && (rest == "" || !IsBlank(rest[|rest| - 1]))
    ensures DisplayFilterForId(Tagged(kind, rest), validIP) == FilterFor(kind, rest, validIP)
  {
    assert ':' !in kind && ToLower(kind) == kind;
    if rest == "" {
      EndsStayPut(kind, [':']);
      assert kind + [':'] + rest == kind + [':'];
    } else {
      EndsStayPut(kind + [':'], rest);
    }
    CutAt(kind, ':', rest);
  }

  lemma MinusIsRefused(kind: string, n: int)
    requires n < 0
    ensures StreamFilter(kind, ShowInt(n)) == InvalidStream
  {
    ShowIntEnds(n);
  }

  /** A text names at most one stream. */
  lemma NamesOneStream(text: string, kind: string, stream: int, otherKind: string, otherStream: int)
    requires IsStreamKind(kind) && Names(text, kind, stream)
    requires IsStreamKind(otherKind) && Names(text, otherKind, otherStream)
    ensures kind == otherKind && stream == otherStream
  {
    StreamIdsExactly(text, _ => true, kind, stream);
    StreamIdsExactly(text, _ => true, otherKind, otherStream);
  }

  /** A minted ICMP id is followed exactly when both its addresses parse. */
  lemma MintedIcmpReadsBack(p: Packet, validIP: string -> bool)
    requires p.transport == "icmp" && '>' !in p.srcIP && (p.dstIP == "" || !IsBlank(p.dstIP[|p.dstIP| - 1]))
    ensures DisplayFilterForId(FlowId(p), validIP)
         == if !validIP(p.srcIP) || !validIP(p.dstIP) then InvalidIcmp
            else Filter("icmp", -1, IcmpText(p.srcIP, p.dstIP))
  {
    var rest := Between(p.srcIP, p.dstIP);
    ReadsKindAndRest("icmp", rest, validIP);
    CutAt(p.srcIP, '>', p.dstIP);
  }
}
