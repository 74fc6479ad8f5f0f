/** UTF-8 as RFC 3629 defines it: the byte patterns of its section 4, and the numbers of its section 3. */
module Utf8 {
  import opened Basics

  predicate Scalar(r: int) {
    0 <= r < 0x110000 && !(0xD800 <= r < 0xE000)
  }

  predicate Tail(s: seq<byte>, i: nat) {
    i < |s| && 0x80 <= s[i] < 0xC0
  }

  predicate Within(s: seq<byte>, i: nat, lo: int, hi: int) {
    i < |s| && lo <= s[i] <= hi
  }

  /** The length of the well-formed character in front, or 0 when there is none. */
  function Width(s: seq<byte>): (n: nat)
    ensures n <= 4 && n <= |s|
  {
    if s == [] then 0
    else if s[0] < 0x80 then 1
    else if 0xC2 <= s[0] <= 0xDF then (if Tail(s, 1) then 2 else 0)
    else if s[0] == 0xE0 then (if Within(s, 1, 0xA0, 0xBF) && Tail(s, 2) then 3 else 0)
    else if s[0] == 0xED then (if Within(s, 1, 0x80, 0x9F) && Tail(s, 2) then 3 else 0)
    else if 0xE1 <= s[0] <= 0xEF then (if Tail(s, 1) && Tail(s, 2) then 3 else 0)
    else if s[0] == 0xF0 then (if Within(s, 1, 0x90, 0xBF) && Tail(s, 2) && Tail(s, 3) then 4 else 0)
    else if s[0] == 0xF4 then (if Within(s, 1, 0x80, 0x8F) && Tail(s, 2) && Tail(s, 3) then 4 else 0)
    else if 0xF1 <= s[0] <= 0xF3 then (if Tail(s, 1) && Tail(s, 2) && Tail(s, 3) then 4 else 0)
    else 0
  }

  predicate Valid(s: seq<byte>) {
    s == [] || (0 < Width(s) && Valid(s[Width(s)..]))
  }

  /** The number the character in front stands for. */
  function DecodeRune(s: seq<byte>): int
    requires 0 < Width(s)
  {
    match Width(s)
    case 1 => s[0]
    case 2 => Put(s[0] as int - 0xC0, s[1])
    case 3 => Put(Put(s[0] as int - 0xE0, s[1]), s[2])
    case _ => Put(Put(Put(s[0] as int - 0xF0, s[1]), s[2]), s[3])
  }

  /** Six more bits from a continuation byte. */
  function Put(high: int, b: byte): int {
    high * 0x40 + (b as int - 0x80)
  }

  function Low(r: int): byte {
    0x80 + r % 0x40
  }

  function High(r: int): int {
    r / 0x40
  }

  function EncodeRune(r: int): seq<byte>
    requires Scalar(r)
  {
    if r < 0x80 then [r]
    else if r < 0x800 then [0xC0 + High(r), Low(r)]
    else if r < 0x10000 then [0xE0 + High(High(r)), Low(High(r)), Low(r)]
    else [0xF0 + High(High(High(r))), Low(High(High(r))), Low(High(r)), Low(r)]
  }

  function Runes(s: seq<byte>): seq<int>
    requires Valid(s)
  {
    if s == [] then [] else [DecodeRune(s)] + Runes(s[Width(s)..])
  }

  ghost predicate Scalars(rs: seq<int>) {
    forall r <- rs :: Scalar(r)
  }

  function Spell(rs: seq<int>): seq<byte>
    requires Scalars(rs)
  {
    if rs == [] then [] else EncodeRune(rs[0]) + Spell(rs[1..])
  }

  // ---------------------------------------------------------------- one character

  lemma TakeBack(high: int, b: byte)
    requires 0x80 <= b < 0xC0
    ensures High(Put(high, b)) == high && Low(Put(high, b)) == b
  {
  }

  lemma PutBack(r: int)
    ensures 0x80 <= Low(r) < 0xC0 && Put(High(r), Low(r)) == r
  {
  }

  /** A well-formed character is the encoding of its number. */
  lemma RuneSpells(s: seq<byte>)
    requires 0 < Width(s)
    ensures Scalar(DecodeRune(s)) && EncodeRune(DecodeRune(s)) == s[..Width(s)]
  {
    match Width(s) {
      case 1 =>
      case 2 =>
        TakeBack(s[0] as int - 0xC0, s[1]);
      case 3 =>
        var h := Put(s[0] as int - 0xE0, s[1]);
        TakeBack(s[0] as int - 0xE0, s[1]);
        TakeBack(h, s[2]);
      case _ =>
        var h := Put(s[0] as int - 0xF0, s[1]);
        TakeBack(s[0] as int - 0xF0, s[1]);
        TakeBack(h, s[2]);
        TakeBack(Put(h, s[2]), s[3]);
    }
  }

  lemma Reads2(h: int, l: byte, rest: seq<byte>)
    requires 0x80 <= l < 0xC0 && 0x80 <= Put(h, l) < 0x800
    ensures 0 < h < 0x20 && Width([0xC0 + h, l] + rest) == 2 && DecodeRune([0xC0 + h, l] + rest) == Put(h, l)
  {
    var s := [0xC0 + h, l] + rest;
    assert s[0] == 0xC0 + h && s[1] == l;
  }

  lemma Reads3(h: int, m: byte, l: byte, rest: seq<byte>)
    requires 0x80 <= m < 0xC0 && 0x80 <= l < 0xC0
    requires Scalar(Put(Put(h, m), l)) && 0x800 <= Put(Put(h, m), l) < 0x10000
    ensures 0 <= h < 0x10 && Width([0xE0 + h, m, l] + rest) == 3
    ensures DecodeRune([0xE0 + h, m, l] + rest) == Put(Put(h, m), l)
  {
    var s := [0xE0 + h, m, l] + rest;
    assert s[0] == 0xE0 + h && s[1] == m && s[2] == l;
  }

  lemma Reads4(h: int, m: byte, n: byte, l: byte, rest: seq<byte>)
    requires 0x80 <= m < 0xC0 && 0x80 <= n < 0xC0 && 0x80 <= l < 0xC0
    requires 0x10000 <= Put(Put(Put(h, m), n), l) < 0x110000
    ensures 0 <= h < 5 && Width([0xF0 + h, m, n, l] + rest) == 4
    ensures DecodeRune([0xF0 + h, m, n, l] + rest) == Put(Put(Put(h, m), n), l)
  {
    var s := [0xF0 + h, m, n, l] + rest;
    assert s[0] == 0xF0 + h && s[1] == m && s[2] == n && s[3] == l;
  }

  /** The encoding of a number is one well-formed character, whatever follows. */
  lemma EncodedReads(r: int, rest: seq<byte>)
    requires Scalar(r)
    ensures Width(EncodeRune(r) + rest) == |EncodeRune(r)| && DecodeRune(EncodeRune(r) + rest) == r
  {
    var h := High(r);
    PutBack(r);
    PutBack(h);
    PutBack(High(h));
    if 0x10000 <= r {
      Reads4(High(High(h)), Low(High(h)), Low(h), Low(r), rest);
    } else if 0x800 <= r {
      Reads3(High(h), Low(h), Low(r), rest);
    } else if 0x80 <= r {
      Reads2(h, Low(r), rest);
    } else {
      assert ([r] + rest)[0] == r;
    }
  }

  // ---------------------------------------------------------------- whole texts

  lemma SpellFirst(s: seq<byte>, r: int, n: nat, rs: seq<int>)
    requires n <= |s| && Scalar(r) && EncodeRune(r) == s[..n]
    requires Scalars(rs) && Spell(rs) == s[n..]
    ensures Scalars([r] + rs) && Spell([r] + rs) == s
  {
    assert ([r] + rs)[1..] == rs;
    assert s == s[..n] + s[n..];
  }

  lemma RunesStep(s: seq<byte>)
    requires s != [] && Valid(s)
    ensures Runes(s) == [DecodeRune(s)] + Runes(s[Width(s)..])
  {
  }

  /** Valid text is exactly the encoding of its numbers. */
  lemma {:induction false} ValidSpells(s: seq<byte>)
    requires Valid(s)
    ensures Scalars(Runes(s)) && Spell(Runes(s)) == s
  {
    if s != [] {
      ValidSpells(s[Width(s)..]);
      RunesStep(s);
      RuneSpells(s);
      SpellFirst(s, DecodeRune(s), Width(s), Runes(s[Width(s)..]));
    }
  }

  /** Every spelling of numbers is valid and reads back. */
  lemma {:induction false} SpelledIsValid(rs: seq<int>)
    requires Scalars(rs)
    ensures Valid(Spell(rs)) && Runes(Spell(rs)) == rs
  {
    if rs != [] {
      var first, rest := EncodeRune(rs[0]), Spell(rs[1..]);
      EncodedReads(rs[0], rest);
      SpelledIsValid(rs[1..]);
      assert (first + rest)[|first|..] == rest;
      assert rs == [rs[0]] + rs[1..];
    }
  }
}
