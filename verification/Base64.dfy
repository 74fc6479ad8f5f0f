/** The padded base64 encoding of section 4 of RFC 4648, as the standard decoder reads it: line breaks are
    skipped and the unused low bits of the last symbol are not checked. */
module Base64 {
  import opened Basics

  const PAD: byte := 61

  function Symbol(v: nat): (b: byte)
    requires v < 64
    ensures b != PAD && b != 10 && b != 13 && SymbolValue(b) == Some(v)
  {
    if v < 26 then 65 + v
    else if v < 52 then 97 + (v - 26)
    else if v < 62 then 48 + (v - 52)
    else if v == 62 then 43
    else 47
  }

  function SymbolValue(b: byte): (v: Option<nat>)
    ensures v.Some? ==> v.value < 64
  {
    if 65 <= b <= 90 then Some(b - 65)
    else if 97 <= b <= 122 then Some(b - 97 + 26)
    else if 48 <= b <= 57 then Some(b - 48 + 52)
    else if b == 43 then Some(62)
    else if b == 47 then Some(63)
    else None
  }

  lemma SymbolOfValue(b: byte)
    requires SymbolValue(b).Some?
    ensures Symbol(SymbolValue(b).value) == b
  {
  }

  // ---------------------------------------------------------------- groups of three bytes and four symbols

  function Encode3(a: byte, b: byte, c: byte): seq<byte> {
    [Symbol(a / 4), Symbol(a % 4 * 16 + b / 16), Symbol(b % 16 * 4 + c / 64), Symbol(c % 64)]
  }

  function Encode2(a: byte, b: byte): seq<byte> {
    [Symbol(a / 4), Symbol(a % 4 * 16 + b / 16), Symbol(b % 16 * 4), PAD]
  }

  function Encode1(a: byte): seq<byte> {
    [Symbol(a / 4), Symbol(a % 4 * 16), PAD, PAD]
  }

  function Encode(data: seq<byte>): seq<byte> {
    if data == [] then []
    else if |data| == 1 then Encode1(data[0])
    else if |data| == 2 then Encode2(data[0], data[1])
    else Encode3(data[0], data[1], data[2]) + Encode(data[3..])
  }

  function Byte0(v0: nat, v1: nat): byte
    requires v0 < 64 && v1 < 64
  {
    v0 * 4 + v1 / 16
  }

  function Byte1(v1: nat, v2: nat): byte
    requires v1 < 64 && v2 < 64
  {
    v1 % 16 * 16 + v2 / 4
  }

  function Byte2(v2: nat, v3: nat): byte
    requires v2 < 64 && v3 < 64
  {
    v2 % 4 * 64 + v3
  }

  /** The four symbols in front: how many bytes they carry and whether they must be the last ones. */
  datatype Quantum = Bad | Full(bytes: seq<byte>) | Last(bytes: seq<byte>)

  function ReadQuantum(s: seq<byte>): (q: Quantum)
    ensures q.Full? ==> |s| >= 4
  {
    if |s| < 4 || SymbolValue(s[0]).None? || SymbolValue(s[1]).None? then Bad
    else
      var v0, v1 := SymbolValue(s[0]).value, SymbolValue(s[1]).value;
      if s[2] == PAD then (if s[3] == PAD && |s| == 4 then Last([Byte0(v0, v1)]) else Bad)
      else if SymbolValue(s[2]).None? then Bad
      else
        var v2 := SymbolValue(s[2]).value;
        if s[3] == PAD then (if |s| == 4 then Last([Byte0(v0, v1), Byte1(v1, v2)]) else Bad)
        else if SymbolValue(s[3]).None? then Bad
        else Full([Byte0(v0, v1), Byte1(v1, v2), Byte2(v2, SymbolValue(s[3]).value)])
  }

  function Quanta(s: seq<byte>): Option<seq<byte>> {
    if s == [] then Some([])
    else
      match ReadQuantum(s)
      case Bad => None
      case Last(bytes) => Some(bytes)
      case Full(bytes) =>
        var rest := Quanta(s[4..]);
        if rest.None? then None else Some(bytes + rest.value)
  }

  function WithoutBreaks(s: seq<byte>): seq<byte> {
    if s == [] then []
    else if s[0] == 10 || s[0] == 13 then WithoutBreaks(s[1..])
    else [s[0]] + WithoutBreaks(s[1..])
  }

  function Decode(s: seq<byte>): Option<seq<byte>> {
    Quanta(WithoutBreaks(s))
  }

  // ---------------------------------------------------------------- decoding undoes encoding

  /** Cut into six-bit pieces and put back together. */
  lemma Pieces0(a: byte, b: byte)
    ensures a % 4 * 16 + b / 16 < 64 && Byte0(a / 4, a % 4 * 16 + b / 16) == a
  {
  }

  lemma Pieces1(a: byte, b: byte, c: byte)
    ensures a % 4 * 16 + b / 16 < 64 && b % 16 * 4 + c / 64 < 64
    ensures Byte1(a % 4 * 16 + b / 16, b % 16 * 4 + c / 64) == b
  {
  }

  lemma Pieces2(b: byte, c: byte)
    ensures b % 16 * 4 + c / 64 < 64 && Byte2(b % 16 * 4 + c / 64, c % 64) == c
  {
  }

  lemma ReadFour(v0: nat, v1: nat, v2: nat, v3: nat, tail: seq<byte>)
    requires v0 < 64 && v1 < 64 && v2 < 64 && v3 < 64
    ensures ReadQuantum([Symbol(v0), Symbol(v1), Symbol(v2), Symbol(v3)] + tail)
         == Full([Byte0(v0, v1), Byte1(v1, v2), Byte2(v2, v3)])
    ensures ([Symbol(v0), Symbol(v1), Symbol(v2), Symbol(v3)] + tail)[4..] == tail
  {
    var s := [Symbol(v0), Symbol(v1), Symbol(v2), Symbol(v3)] + tail;
    assert s[0] == Symbol(v0) && s[1] == Symbol(v1) && s[2] == Symbol(v2) && s[3] == Symbol(v3);
  }

  lemma Group3(a: byte, b: byte, c: byte, tail: seq<byte>)
    ensures ReadQuantum(Encode3(a, b, c) + tail) == Full([a, b, c])
    ensures (Encode3(a, b, c) + tail)[4..] == tail
  {
    Pieces0(a, b);
    Pieces1(a, b, c);
    Pieces2(b, c);
    ReadFour(a / 4, a % 4 * 16 + b / 16, b % 16 * 4 + c / 64, c % 64, tail);
  }

  lemma ReadLast(v0: nat, v1: nat, v2: nat)
    requires v0 < 64 && v1 < 64 && v2 < 64
    ensures ReadQuantum([Symbol(v0), Symbol(v1), PAD, PAD]) == Last([Byte0(v0, v1)])
    ensures ReadQuantum([Symbol(v0), Symbol(v1), Symbol(v2), PAD]) == Last([Byte0(v0, v1), Byte1(v1, v2)])
  {
  }

  lemma Group1(a: byte)
    ensures ReadQuantum(Encode1(a)) == Last([a])
  {
    Pieces0(a, 0);
    ReadLast(a / 4, a % 4 * 16, 0);
  }

  lemma Group2(a: byte, b: byte)
    ensures ReadQuantum(Encode2(a, b)) == Last([a, b])
  {
    Pieces0(a, b);
    Pieces1(a, b, 0);
    ReadLast(a / 4, a % 4 * 16 + b / 16, b % 16 * 4);
  }

  lemma QuantaStep(s: seq<byte>, bytes: seq<byte>, rest: seq<byte>)
    requires ReadQuantum(s) == Full(bytes) && Quanta(s[4..]) == Some(rest)
    ensures Quanta(s) == Some(bytes + rest)
  {
  }

  lemma QuantaLast(s: seq<byte>, bytes: seq<byte>)
    requires s != [] && ReadQuantum(s) == Last(bytes)
    ensures Quanta(s) == Some(bytes)
  {
  }

  lemma ReadsOne(a: byte)
    ensures Quanta(Encode([a])) == Some([a])
  {
    Group1(a);
    QuantaLast(Encode1(a), [a]);
  }

  lemma ReadsTwo(a: byte, b: byte)
    ensures Quanta(Encode([a, b])) == Some([a, b])
  {
    Group2(a, b);
    QuantaLast(Encode2(a, b), [a, b]);
  }

  lemma {:induction false} QuantaOfEncode(data: seq<byte>)
    ensures Quanta(Encode(data)) == Some(data)
  {
    if |data| == 1 {
      ReadsOne(data[0]);
      assert data == [data[0]];
    } else if |data| == 2 {
      ReadsTwo(data[0], data[1]);
      assert data == [data[0], data[1]];
    } else if |data| > 2 {
      var head, tail := Encode3(data[0], data[1], data[2]), Encode(data[3..]);
      Group3(data[0], data[1], data[2], tail);
      QuantaOfEncode(data[3..]);
      QuantaStep(head + tail, [data[0], data[1], data[2]], data[3..]);
      assert data == [data[0], data[1], data[2]] + data[3..];
    }
  }

  lemma {:induction false} NoBreaks(s: seq<byte>)
    requires forall b <- s :: b != 10 && b != 13
    ensures WithoutBreaks(s) == s
  {
    if s != [] {
      assert s[0] in s;
      forall b | b in s[1..] ensures b in s {
        var i :| 0 <= i < |s| - 1 && s[1..][i] == b;
        assert s[i + 1] == b;
      }
      NoBreaks(s[1..]);
    }
  }

  lemma {:induction false} EncodeHasNoBreaks(data: seq<byte>)
    ensures forall b <- Encode(data) :: b != 10 && b != 13
  {
    if |data| > 2 { EncodeHasNoBreaks(data[3..]); }
  }

  /** Every byte string reads back from its encoding. */
  lemma DecodeEncode(data: seq<byte>)
    ensures Decode(Encode(data)) == Some(data)
  {
    EncodeHasNoBreaks(data);
    NoBreaks(Encode(data));
    QuantaOfEncode(data);
  }

  // ---------------------------------------------------------------- what the symbols spell

  /** The alphabet of table 1 of RFC 4648. */
  const UPPER := "ABCDEFGHIJKLMNOPQRSTUVWXYZ"
  const LOWER := "abcdefghijklmnopqrstuvwxyz"
  const DIGITS := "0123456789"

  lemma SymbolIsLetter(v: nat)
    requires v < 64
    ensures v < 26 ==> Symbol(v) == UPPER[v] as int
    ensures 26 <= v < 52 ==> Symbol(v) == LOWER[v - 26] as int
    ensures 52 <= v < 62 ==> Symbol(v) == DIGITS[v - 52] as int
    ensures Symbol(62) == '+' as int && Symbol(63) == '/' as int && PAD == '=' as int
  {
  }

  /** The number four symbols spell, six bits each; a missing one counts nothing. */
  function Spelled(s: seq<byte>): nat
    requires |s| == 4
  {
    Bits(s[0]) * 262144 + Bits(s[1]) * 4096 + Bits(s[2]) * 64 + Bits(s[3])
  }

  function Bits(b: byte): nat {
    if SymbolValue(b).Some? then SymbolValue(b).value else 0
  }

  /** Four symbols spell the same number as the three bytes they stand for, the first one highest; missing bytes
      count nothing and are padded. */
  lemma GroupSpells(a: byte, b: byte, c: byte)
    ensures Spelled(Encode3(a, b, c)) == a * 65536 + b * 256 + c && PAD !in Encode3(a, b, c)
    ensures Spelled(Encode2(a, b)) == a * 65536 + b * 256 && Encode2(a, b)[3] == PAD && PAD !in Encode2(a, b)[..3]
    ensures Spelled(Encode1(a)) == a * 65536 && Encode1(a)[2..] == [PAD, PAD] && PAD !in Encode1(a)[..2]
  {
    assert SymbolValue(PAD).None?;
  }

  /** The group that stands for the bytes at an offset. */
  function GroupOf(data: seq<byte>, at: nat): (group: seq<byte>)
    requires at < |data|
    ensures |group| == 4
  {
    if at + 2 < |data| then Encode3(data[at], data[at + 1], data[at + 2])
    else if at + 1 < |data| then Encode2(data[at], data[at + 1])
    else Encode1(data[at])
  }

  lemma EncodeByGroup(data: seq<byte>)
    requires data != []
    ensures Encode(data) == GroupOf(data, 0) + if 3 < |data| then Encode(data[3..]) else []
  {
  }

  lemma {:induction false} EncodeLength(data: seq<byte>)
    ensures |Encode(data)| == (|data| + 2) / 3 * 4
  {
    if data != [] { EncodeByGroup(data); }
    if 3 < |data| {
      EncodeLength(data[3..]);
      var more := |data| - 3;
      assert (more + 3 + 2) / 3 == (more + 2) / 3 + 1;
    }
  }

  lemma NextGroup(data: seq<byte>, i: nat)
    requires 0 < i && 3 * i < |data|
    ensures GroupOf(data[3..], 3 * (i - 1)) == GroupOf(data, 3 * i)
  {
  }

  lemma FourBack(group: seq<byte>, rest: seq<byte>, i: nat)
    requires |group| == 4 && 0 < i && 4 * i <= |rest|
    ensures (group + rest)[4 * i..4 * i + 4] == rest[4 * (i - 1)..4 * (i - 1) + 4]
  {
  }

  /** The i-th three bytes become the i-th four symbols; what is left over makes one padded group. */
  lemma {:induction false} GroupAt(data: seq<byte>, i: nat)
    requires 3 * i < |data|
    ensures 4 * i + 4 <= |Encode(data)| && Encode(data)[4 * i..4 * i + 4] == GroupOf(data, 3 * i)
  {
    EncodeLength(data);
    EncodeByGroup(data);
    if 0 < i {
      EncodeLength(data[3..]);
      GroupAt(data[3..], i - 1);
      NextGroup(data, i);
      FourBack(GroupOf(data, 0), Encode(data[3..]), i);
    }
  }

  // ---------------------------------------------------------------- encoding undoes decoding

  /** The bits of the last symbol that carry no data are zero. */
  ghost predicate Tidy(s: seq<byte>) {
    match ReadQuantum(s)
    case Bad => true
    case Full(_) => Tidy(s[4..])
    case Last(_) =>
      if s[2] == PAD then SymbolValue(s[1]).value % 16 == 0 else SymbolValue(s[2]).value % 4 == 0
  }

  lemma Bits0(v0: nat, v1: nat)
    requires v0 < 64 && v1 < 64
    ensures Byte0(v0, v1) / 4 == v0 && Byte0(v0, v1) % 4 == v1 / 16
  {
  }

  lemma Bits1(v1: nat, v2: nat)
    requires v1 < 64 && v2 < 64
    ensures Byte1(v1, v2) / 16 == v1 % 16 && Byte1(v1, v2) % 16 == v2 / 4
  {
  }

  lemma Bits2(v2: nat, v3: nat)
    requires v2 < 64 && v3 < 64
    ensures Byte2(v2, v3) / 64 == v2 % 4 && Byte2(v2, v3) % 64 == v3
  {
  }

  lemma Join(v: nat)
    ensures v / 16 * 16 + v % 16 == v && v / 4 * 4 + v % 4 == v
  {
  }

  lemma SameSymbols(a: byte, b: byte, c: byte, v0: nat, v1: nat, v2: nat, v3: nat)
    requires v0 < 64 && v1 < 64 && v2 < 64 && v3 < 64
    requires a / 4 == v0 && a % 4 == v1 / 16 && b / 16 == v1 % 16
    requires b % 16 == v2 / 4 && c / 64 == v2 % 4 && c % 64 == v3
    ensures Encode3(a, b, c) == [Symbol(v0), Symbol(v1), Symbol(v2), Symbol(v3)]
  {
    Join(v1);
    Join(v2);
    assert a % 4 * 16 + b / 16 == v1 && b % 16 * 4 + c / 64 == v2;
  }

  lemma PiecesAgain(v0: nat, v1: nat, v2: nat, v3: nat)
    requires v0 < 64 && v1 < 64 && v2 < 64 && v3 < 64
    ensures Encode3(Byte0(v0, v1), Byte1(v1, v2), Byte2(v2, v3))
         == [Symbol(v0), Symbol(v1), Symbol(v2), Symbol(v3)]
  {
    Bits0(v0, v1);
    Bits1(v1, v2);
    Bits2(v2, v3);
    SameSymbols(Byte0(v0, v1), Byte1(v1, v2), Byte2(v2, v3), v0, v1, v2, v3);
  }

  lemma FullAgain(s: seq<byte>)
    requires ReadQuantum(s).Full?
    ensures var d := ReadQuantum(s).bytes; |d| == 3 && Encode3(d[0], d[1], d[2]) == s[..4]
  {
    SymbolsOf(s);
    PiecesAgain(SymbolValue(s[0]).value, SymbolValue(s[1]).value, SymbolValue(s[2]).value, SymbolValue(s[3]).value);
  }

  lemma SymbolsOf(s: seq<byte>)
    requires |s| >= 4 && forall i :: 0 <= i < 4 ==> SymbolValue(s[i]).Some?
    ensures s[..4] == [Symbol(SymbolValue(s[0]).value), Symbol(SymbolValue(s[1]).value),
                       Symbol(SymbolValue(s[2]).value), Symbol(SymbolValue(s[3]).value)]
  {
    SymbolOfValue(s[0]);
    SymbolOfValue(s[1]);
    SymbolOfValue(s[2]);
    SymbolOfValue(s[3]);
  }

  /** The last group comes back exactly when its unused bits are zero. */
  lemma OneAgain(s: seq<byte>)
    requires |s| == 4 && s[2] == PAD && s[3] == PAD && SymbolValue(s[0]).Some? && SymbolValue(s[1]).Some?
    ensures var v0, v1 := SymbolValue(s[0]).value, SymbolValue(s[1]).value;
            Encode1(Byte0(v0, v1)) == s <==> v1 % 16 == 0
  {
    var v0, v1 := SymbolValue(s[0]).value, SymbolValue(s[1]).value;
    Bits0(v0, v1);
    Join(v1);
    SymbolOfValue(s[0]);
    SymbolOfValue(s[1]);
    assert Encode1(Byte0(v0, v1)) == [Symbol(v0), Symbol(v1 / 16 * 16), PAD, PAD];
    assert s == [s[0], s[1], PAD, PAD];
    assert SymbolValue(Symbol(v1 / 16 * 16)) == Some(v1 / 16 * 16);
    assert Encode1(Byte0(v0, v1))[1] == Symbol(v1 / 16 * 16);
  }

  lemma TwoSymbols(a: byte, b: byte, v0: nat, v1: nat, v2: nat)
    requires v0 < 64 && v1 < 64 && v2 < 64
    requires a / 4 == v0 && a % 4 == v1 / 16 && b / 16 == v1 % 16 && b % 16 == v2 / 4
    ensures Encode2(a, b) == [Symbol(v0), Symbol(v1), Symbol(v2 / 4 * 4), PAD]
  {
    Join(v1);
    assert a % 4 * 16 + b / 16 == v1;
  }

  lemma SymbolsDiffer(v: nat, w: nat)
    requires v < 64 && w < 64
    ensures Symbol(v) == Symbol(w) <==> v == w
  {
    assert SymbolValue(Symbol(v)) == Some(v);
  }

  lemma TwoAgain(s: seq<byte>)
    requires |s| == 4 && s[3] == PAD && forall i :: 0 <= i < 3 ==> SymbolValue(s[i]).Some?
    ensures var v0, v1, v2 := SymbolValue(s[0]).value, SymbolValue(s[1]).value, SymbolValue(s[2]).value;
            Encode2(Byte0(v0, v1), Byte1(v1, v2)) == s <==> v2 % 4 == 0
  {
    var v0, v1, v2 := SymbolValue(s[0]).value, SymbolValue(s[1]).value, SymbolValue(s[2]).value;
    Bits0(v0, v1);
    Bits1(v1, v2);
    TwoSymbols(Byte0(v0, v1), Byte1(v1, v2), v0, v1, v2);
    SymbolOfValue(s[0]);
    SymbolOfValue(s[1]);
    SymbolOfValue(s[2]);
    SymbolsDiffer(v2 / 4 * 4, v2);
    Join(v2);
    assert s == [Symbol(v0), Symbol(v1), Symbol(v2), PAD];
    assert [Symbol(v0), Symbol(v1), Symbol(v2 / 4 * 4), PAD][2] == Symbol(v2 / 4 * 4);
  }

  /** A decodable text is the encoding of what it decodes to exactly when its unused bits are zero. */
  lemma {:induction false} EncodeQuanta(s: seq<byte>)
    requires Quanta(s).Some?
    ensures Encode(Quanta(s).value) == s <==> Tidy(s)
  {
    if s != [] {
      var q := ReadQuantum(s);
      if q.Full? {
        FullAgain(s);
        EncodeQuanta(s[4..]);
        var rest := Quanta(s[4..]).value;
        assert (q.bytes + rest)[3..] == rest;
        assert Encode(q.bytes + rest) == s[..4] + Encode(rest);
        assert s == s[..4] + s[4..];
        if Encode(q.bytes + rest) == s { assert Encode(rest) == (s[..4] + Encode(rest))[4..] == s[4..]; }
      } else if s[2] == PAD {
        OneAgain(s);
      } else {
        TwoAgain(s);
      }
    }
  }
}
