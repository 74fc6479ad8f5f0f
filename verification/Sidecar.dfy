/** The content a changed-files row carries: bytes stored as text or base64, and read back. A Go string is a
    sequence of bytes, so string values are byte sequences here. */
module Sidecar {
  import opened Basics
  import Base64
  import Utf8

  /** A decoded JSON value: a string, or anything else. */
  datatype Value = Str(bytes: seq<byte>) | Other

  type Fields = map<string, Value>

  function Ascii(word: string): (b: seq<byte>)
    requires forall i :: 0 <= i < |word| ==> word[i] as int < 0x80
    ensures |b| == |word|
  {
    seq(|word|, i requires 0 <= i < |word| => word[i] as int)
  }

  function Lower(s: seq<byte>): (r: seq<byte>)
    ensures |r| == |s|
  {
    seq(|s|, i requires 0 <= i < |s| => if 65 <= s[i] <= 90 then s[i] + 32 else s[i])
  }

  function StringField(fields: Fields, key: string): seq<byte> {
    if key in fields && fields[key].Str? then fields[key].bytes else []
  }

  /** The bytes a row holds under a pair of keys, if it holds any. */
  function FileSidecarPayload(entry: Option<Fields>, codingKey: string, dataKey: string): Option<seq<byte>> {
    if entry.None? then None
    else
      var d := StringField(entry.value, dataKey);
      var coding := Lower(StringField(entry.value, codingKey));
      if coding == Ascii("base64") then (if d == [] then None else Base64.Decode(d))
      else if coding == Ascii("text") then Some(d)
      else if coding == Ascii("too_large") || coding == Ascii("access_denied") || coding == Ascii("missing") then None
      else if d != [] then Some(d)
      else None
  }

  // ---------------------------------------------------------------- storing

  /** Control characters other than tab, the line breaks and the feeds between them. */
  predicate IsControl(r: int) {
    r < 9 || 13 < r < 32
  }

  function Controls(rs: seq<int>): nat {
    if rs == [] then 0 else (if IsControl(rs[0]) then 1 else 0) + Controls(rs[1..])
  }

  /** Text worth keeping as text: no NUL, valid, and under one control character in twenty bytes. */
  predicate Textual(data: seq<byte>) {
    && 0 !in data
    && Utf8.Valid(data)
    && (data == [] || Controls(Utf8.Runes(data)) * 20 < |data|)
  }

  lemma {:induction false} ControlsConcat(a: seq<int>, b: seq<int>)
    ensures Controls(a + b) == Controls(a) + Controls(b)
  {
    if a == [] {
      assert a + b == b;
    } else {
      ControlsConcat(a[1..], b);
      assert (a + b)[1..] == a[1..] + b;
    }
  }

  /** The places of control characters. */
  function ControlPlaces(rs: seq<int>): set<int> {
    set i | 0 <= i < |rs| && (rs[i] <= 8 || 14 <= rs[i] <= 31)
  }

  lemma {:induction false} ControlsCounted(rs: seq<int>)
    ensures Controls(rs) == |ControlPlaces(rs)|
  {
    if rs != [] {
      var front, last := rs[..|rs| - 1], rs[|rs| - 1];
      ControlsCounted(front);
      ControlsConcat(front, [last]);
      assert rs == front + [last];
      assert ControlPlaces(rs)
          == ControlPlaces(front) + if last <= 8 || 14 <= last <= 31 then {|front|} else {};
    }
  }

  function Coding(data: seq<byte>): seq<byte> {
    if Textual(data) then Ascii("text") else Ascii("base64")
  }

  function Stored(data: seq<byte>): seq<byte> {
    if Textual(data) then data else Base64.Encode(data)
  }

  method HasNul(data: seq<byte>) returns (found: bool)
    ensures found <==> 0 in data
  {
    for i := 0 to |data|
      invariant 0 !in data[..i]
    {
      if data[i] == 0 { return true; }
    }
    assert data[..|data|] == data;
    found := false;
  }

  lemma ControlsStep(rest: seq<byte>)
    requires rest != [] && Utf8.Valid(rest)
    ensures var n := Utf8.Width(rest);
            && 0 < n && Utf8.Valid(rest[n..])
            && Controls(Utf8.Runes(rest))
               == (if IsControl(Utf8.DecodeRune(rest)) then 1 else 0) + Controls(Utf8.Runes(rest[n..]))
  {
    Utf8.RunesStep(rest);
  }

  method CountControls(text: seq<byte>) returns (bad: nat)
    requires Utf8.Valid(text)
    ensures bad == Controls(Utf8.Runes(text))
  {
    var rest := text;
    bad := 0;
    while rest != []
      invariant Utf8.Valid(rest)
      invariant bad + Controls(Utf8.Runes(rest)) == Controls(Utf8.Runes(text))
      decreases |rest|
    {
      ControlsStep(rest);
      if IsControl(Utf8.DecodeRune(rest)) { bad := bad + 1; }
      rest := rest[Utf8.Width(rest)..];
    }
  }

  method EncodeSidecarPayload(data: seq<byte>) returns (payload: map<string, seq<byte>>)
    ensures payload == map["c" := Coding(data), "d" := Stored(data)]
  {
    var nul := HasNul(data);
    if nul { return map["c" := Ascii("base64"), "d" := Base64.Encode(data)]; }
    if Utf8.Valid(data) {
      var bad := CountControls(data);
      if |data| == 0 || bad * 20 < |data| {
        return map["c" := Ascii("text"), "d" := data];
      }
    }
    payload := map["c" := Ascii("base64"), "d" := Base64.Encode(data)];
  }

  // ---------------------------------------------------------------- what was stored reads back

  lemma Words()
    ensures Lower(Ascii("text")) == Ascii("text") && Lower(Ascii("base64")) == Ascii("base64")
    ensures Ascii("text") != Ascii("base64")
  {
    assert |Ascii("text")| != |Ascii("base64")|;
  }

  /** Bytes are kept as they are exactly when they are valid text without a zero byte, and empty or with fewer
      control characters than one in twenty bytes; all others are encoded. */
  lemma KeptAsTextExactly(data: seq<byte>)
    ensures (Coding(data) == Ascii("text") && Stored(data) == data) <==>
              && Utf8.Valid(data) && (forall i :: 0 <= i < |data| ==> data[i] != 0)
              && (data == [] || 20 * |ControlPlaces(Utf8.Runes(data))| < |data|)
    ensures Coding(data) != Ascii("text") ==> Coding(data) == Ascii("base64") && Stored(data) == Base64.Encode(data)
  {
    Words();
    if Utf8.Valid(data) { ControlsCounted(Utf8.Runes(data)); }
  }

  lemma NotTextIsNotEmpty(data: seq<byte>)
    requires !Textual(data)
    ensures data != []
  {
    assert Utf8.Valid([]);
  }

  /** Under whichever two keys it is stored, every byte string comes back, the empty one included. */
  lemma StoredReadsBack(fields: Fields, codingKey: string, dataKey: string, data: seq<byte>)
    requires codingKey in fields && fields[codingKey] == Str(Coding(data))
    requires dataKey in fields && fields[dataKey] == Str(Stored(data))
    ensures FileSidecarPayload(Some(fields), codingKey, dataKey) == Some(data)
  {
    Words();
    if !Textual(data) {
      NotTextIsNotEmpty(data);
      Base64.DecodeEncode(data);
      assert Base64.Encode(data) != [];
    }
  }

  /** Content marked as left out reads as none, whatever stands beside the mark and whatever the mark's case; without
      a mark the content reads as it stands, and an empty one as none. */
  lemma UnstoredReads(fields: Fields, codingKey: string, dataKey: string)
    requires dataKey in fields && fields[dataKey].Str?
    ensures codingKey in fields && fields[codingKey].Str?
            && Lower(fields[codingKey].bytes) in [Ascii("too_large"), Ascii("access_denied"), Ascii("missing")]
        ==> FileSidecarPayload(Some(fields), codingKey, dataKey) == None
    ensures codingKey !in fields
        ==> FileSidecarPayload(Some(fields), codingKey, dataKey)
            == if fields[dataKey].bytes == [] then None else Some(fields[dataKey].bytes)
  {
    Words();
    MarksDiffer();
  }

  lemma MarksDiffer()
    ensures Lower([]) == []
    ensures forall mark <- [Ascii("too_large"), Ascii("access_denied"), Ascii("missing")] ::
              mark != Ascii("text") && mark != Ascii("base64")
  {
    assert |Ascii("text")| == 4 && |Ascii("base64")| == 6;
  }

  /** Reading a pair of keys depends on nothing else in the row. */
  lemma OtherKeysDoNotMatter(a: Fields, b: Fields, codingKey: string, dataKey: string)
    requires StringField(a, codingKey) == StringField(b, codingKey)
    requires StringField(a, dataKey) == StringField(b, dataKey)
    ensures FileSidecarPayload(Some(a), codingKey, dataKey) == FileSidecarPayload(Some(b), codingKey, dataKey)
  {
  }

  /** The row after the two halves written so far. */
  ghost function Written(fields: Fields, coding: bool, bytes: bool, data: seq<byte>): Fields {
    var f := if coding then fields["bc" := Str(Coding(data))] else fields;
    if bytes then f["bd" := Str(Stored(data))] else f
  }

  /** The order of the two writes does not matter. */
  lemma WrittenStep(fields: Fields, k: string, coding: bool, bytes: bool, data: seq<byte>)
    ensures k == "c" ==> Written(fields, coding, bytes, data)["bc" := Str(Coding(data))]
                         == Written(fields, true, bytes, data)
    ensures k == "d" ==> Written(fields, coding, bytes, data)["bd" := Str(Stored(data))]
                         == Written(fields, coding, true, data)
  {
    assert fields["bd" := Str(Stored(data))]["bc" := Str(Coding(data))]
        == fields["bc" := Str(Coding(data))]["bd" := Str(Stored(data))];
  }

  class Row {
    var fields: Fields

    constructor (fields: Fields)
      ensures this.fields == fields
    {
      this.fields := fields;
    }

    function Content(): Option<seq<byte>>
      reads this
    {
      FileSidecarPayload(Some(fields), "c", "d")
    }

    function BeforeContent(): Option<seq<byte>>
      reads this
    {
      FileSidecarPayload(Some(fields), "bc", "bd")
    }

    method AttachBefore(data: seq<byte>)
      modifies this
      ensures BeforeContent() == Some(data) && Content() == old(Content())
      ensures fields == old(fields)["bc" := Str(Coding(data))]["bd" := Str(Stored(data))]
    {
      var payload := EncodeSidecarPayload(data);
      var keys := payload.Keys;
      ghost var before := fields;
      while keys != {}
        invariant keys <= {"c", "d"}
        invariant fields == Written(before, "c" !in keys, "d" !in keys, data)
        decreases |keys|
      {
        var k :| k in keys;
        WrittenStep(before, k, "c" !in keys, "d" !in keys, data);
        if k == "c" { fields := fields["bc" := Str(payload[k])]; }
        if k == "d" { fields := fields["bd" := Str(payload[k])]; }
        keys := keys - {k};
      }
      StoredReadsBack(fields, "bc", "bd", data);
      OtherKeysDoNotMatter(fields, old(fields), "c", "d");
    }
  }

  /** A missing row is left alone. */
  method AttachSidecarBeforeContent(entry: Row?, data: seq<byte>)
    modifies entry
    ensures entry != null ==> entry.BeforeContent() == Some(data) && entry.Content() == old(entry.Content())
    ensures entry != null
        ==> entry.fields == old(entry.fields)["bc" := Str(Coding(data))]["bd" := Str(Stored(data))]
  {
    if entry != null { entry.AttachBefore(data); }
  }
}
