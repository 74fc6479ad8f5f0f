/** Clipping captured HTTP rows to the interval between two snapshots. Instants are nanoseconds from the zero
    time, which the code uses as "no time yet"; durations are signed 64-bit, so differences saturate and sums
    and negations wrap. */
module HttpWindow {
  import opened Basics

  const SECOND: int := 1_000_000_000
  const MINUTE: int := 60 * SECOND
  const SKEW: int := 30 * MINUTE
  const MAX_DURATION: int := 0x7fff_ffff_ffff_ffff
  const MIN_DURATION: int := -0x8000_0000_0000_0000

  /** A row with the instant its time text stands for, if it stands for one. */
  datatype Row = Row(t: Option<int>, fields: string)

  // ---------------------------------------------------------------- durations

  function Sub(a: int, b: int): (d: int)
    ensures MIN_DURATION <= d <= MAX_DURATION
  {
    if a - b > MAX_DURATION then MAX_DURATION else if a - b < MIN_DURATION then MIN_DURATION else a - b
  }

  /** One sum, difference or negation of two durations. */
  function Wrap(d: int): (r: int)
    requires 2 * MIN_DURATION <= d <= -2 * MIN_DURATION
    ensures MIN_DURATION <= r <= MAX_DURATION
  {
    if d > MAX_DURATION then d + 2 * MIN_DURATION else if d < MIN_DURATION then d - 2 * MIN_DURATION else d
  }

  /** The gap between the snapshots, at least two minutes. */
  function Session(from: int, to: int): (d: int)
    ensures 2 * MINUTE <= d <= MAX_DURATION
  {
    var gap := if to < from then Sub(from, to) else Sub(to, from);
    if gap < 2 * MINUTE then 2 * MINUTE else gap
  }

  function Pad(session: int): (d: int)
    ensures session <= MAX_DURATION ==> d <= MAX_DURATION
  {
    if session / 4 > 2 * MINUTE then session / 4 else 2 * MINUTE
  }

  function Cut(latest: int, session: int): int
    requires 2 * MINUTE <= session <= MAX_DURATION
  {
    latest + Wrap(-Wrap(session + Pad(session)))
  }

  // ---------------------------------------------------------------- what is kept

  /** The timed rows whose instant qualifies, in order. */
  function Keep(rows: seq<Row>, qualifies: int -> bool): seq<Row> {
    if rows == [] then []
    else
      var r := rows[|rows| - 1];
      Keep(rows[..|rows| - 1], qualifies) + (if r.t.Some? && qualifies(r.t.value) then [r] else [])
  }

  function InWindow(lo: int, hi: int): int -> bool {
    t => lo <= t <= hi
  }

  function NotBefore(lo: int): int -> bool {
    t => lo <= t
  }

  predicate Timed(rows: seq<Row>) {
    exists r <- rows :: r.t.Some?
  }

  /** The running maximum and minimum, where zero means none yet. */
  function Latest(rows: seq<Row>): int {
    if rows == [] then 0
    else
      var m, r := Latest(rows[..|rows| - 1]), rows[|rows| - 1];
      if r.t.Some? && (m == 0 || r.t.value > m) then r.t.value else m
  }

  function Earliest(rows: seq<Row>): int {
    if rows == [] then 0
    else
      var m, r := Earliest(rows[..|rows| - 1]), rows[|rows| - 1];
      if r.t.Some? && (m == 0 || r.t.value < m) then r.t.value else m
  }

  function TimeSpan(rows: seq<Row>): int {
    if Earliest(rows) == 0 || Latest(rows) == 0 then 0 else Sub(Latest(rows), Earliest(rows))
  }

  predicate Fits(rows: seq<Row>, session: int)
    requires 2 * MINUTE <= session <= MAX_DURATION
  {
    rows != [] && TimeSpan(rows) <= Wrap(session + 2 * SKEW) && TimeSpan(rows) <= Wrap(session + 10 * MINUTE)
  }

  function KeptIn(rows: seq<Row>, lo: int, hi: int, session: int): seq<Row>
    requires 2 * MINUTE <= session <= MAX_DURATION
  {
    var window := Keep(rows, InWindow(lo - SKEW, hi + SKEW));
    if Fits(window, session) then window
    else
      var tail := Keep(rows, NotBefore(Cut(Latest(rows), session)));
      if tail == [] then rows else tail
  }

  function Lower(a: int, b: int): int { if b < a then b else a }

  function Upper(a: int, b: int): int { if b < a then a else b }

  function Kept(rows: seq<Row>, from: Option<int>, to: Option<int>): seq<Row> {
    if rows == [] || from.None? || to.None? || !Timed(rows) then rows
    else
      KeptIn(rows, Lower(from.value, to.value), Upper(from.value, to.value), Session(from.value, to.value))
  }

  method HttpTimeSpan(rows: seq<Row>) returns (span: int)
    ensures span == TimeSpan(rows)
  {
    var minT, maxT := 0, 0;
    for i := 0 to |rows|
      invariant minT == Earliest(rows[..i]) && maxT == Latest(rows[..i])
    {
      assert rows[..i + 1][..i] == rows[..i];
      var t := rows[i].t;
      if t.None? { continue; }
      if minT == 0 || t.value < minT { minT := t.value; }
      if maxT == 0 || t.value > maxT { maxT := t.value; }
    }
    assert rows[..|rows|] == rows;
    if minT == 0 || maxT == 0 { return 0; }
    span := Sub(maxT, minT);
  }

  method Scan(rows: seq<Row>, lo: int, hi: int) returns (window: seq<Row>, parsed: seq<(Row, int)>, maxT: int)
    ensures window == Keep(rows, InWindow(lo, hi)) && maxT == Latest(rows)
    ensures parsed == Parsed(rows)
  {
    window, parsed, maxT := [], [], 0;
    for i := 0 to |rows|
      invariant window == Keep(rows[..i], InWindow(lo, hi)) && maxT == Latest(rows[..i]) && parsed == Parsed(rows[..i])
    {
      assert rows[..i + 1][..i] == rows[..i];
      var r := rows[i];
      if r.t.None? { continue; }
      var t := r.t.value;
      parsed := parsed + [(r, t)];
      if maxT == 0 || t > maxT { maxT := t; }
      if lo <= t <= hi { window := window + [r]; }
    }
    assert rows[..|rows|] == rows;
  }

  function Parsed(rows: seq<Row>): seq<(Row, int)> {
    if rows == [] then []
    else
      var r := rows[|rows| - 1];
      Parsed(rows[..|rows| - 1]) + if r.t.Some? then [(r, r.t.value)] else []
  }

  lemma {:induction false} ParsedIsTimed(rows: seq<Row>)
    ensures Parsed(rows) != [] <==> Timed(rows)
  {
    if rows != [] {
      ParsedIsTimed(rows[..|rows| - 1]);
      assert rows == rows[..|rows| - 1] + [rows[|rows| - 1]];
    }
  }

  method Tail(parsed: seq<(Row, int)>, ghost rows: seq<Row>, lo: int) returns (tail: seq<Row>)
    requires parsed == Parsed(rows)
    ensures tail == Keep(rows, NotBefore(lo))
  {
    tail := [];
    for i := 0 to |parsed|
      invariant tail == Late(parsed[..i], lo)
    {
      assert parsed[..i + 1][..i] == parsed[..i];
      if lo <= parsed[i].1 { tail := tail + [parsed[i].0]; }
    }
    assert parsed[..|parsed|] == parsed;
    LateIsKeep(rows, lo);
  }

  function Late(parsed: seq<(Row, int)>, lo: int): seq<Row> {
    if parsed == [] then []
    else
      var p := parsed[|parsed| - 1];
      Late(parsed[..|parsed| - 1], lo) + if lo <= p.1 then [p.0] else []
  }

  lemma {:induction false} LateIsKeep(rows: seq<Row>, lo: int)
    ensures Late(Parsed(rows), lo) == Keep(rows, NotBefore(lo))
  {
    if rows != [] {
      var front, r := rows[..|rows| - 1], rows[|rows| - 1];
      LateIsKeep(front, lo);
      if r.t.Some? {
        assert Parsed(rows)[..|Parsed(rows)| - 1] == Parsed(front);
      } else {
        assert Parsed(rows) == Parsed(front) && Keep(rows, NotBefore(lo)) == Keep(front, NotBefore(lo));
      }
    }
  }

  method SessionTail(parsed: seq<(Row, int)>, rows: seq<Row>, maxT: int, session: int) returns (out: seq<Row>)
    requires parsed == Parsed(rows) && maxT == Latest(rows) && 2 * MINUTE <= session <= MAX_DURATION
    ensures var tail := Keep(rows, NotBefore(Cut(Latest(rows), session)));
            out == if tail == [] then rows else tail
  {
    var pad := 2 * MINUTE;
    if session / 4 > pad { pad := session / 4; }
    var cut := maxT + Wrap(-Wrap(session + pad));
    out := Tail(parsed, rows, cut);
    if |out| == 0 { return rows; }
  }

  method AcceptWindow(window: seq<Row>, session: int) returns (fits: bool)
    requires 2 * MINUTE <= session <= MAX_DURATION
    ensures fits == Fits(window, session)
  {
    if |window| == 0 { return false; }
    var span := HttpTimeSpan(window);
    fits := span <= Wrap(session + 2 * SKEW) && span <= Wrap(session + 10 * MINUTE);
  }

  method WindowOrTail(rows: seq<Row>, fromT: int, toT: int, session: int) returns (out: seq<Row>)
    requires 2 * MINUTE <= session <= MAX_DURATION
    ensures out == if !Timed(rows) then rows else KeptIn(rows, fromT, toT, session)
  {
    var window, parsed, maxT := Scan(rows, fromT - SKEW, toT + SKEW);
    ParsedIsTimed(rows);
    if |parsed| == 0 { return rows; }
    var fits := AcceptWindow(window, session);
    if fits { return window; }
    out := SessionTail(parsed, rows, maxT, session);
  }

  method FilterHttpBySnapshotWindow(rows: seq<Row>, from: Option<int>, to: Option<int>) returns (out: seq<Row>)
    ensures out == Kept(rows, from, to)
  {
    if |rows| == 0 || from.None? || to.None? { return rows; }
    var fromT, toT := from.value, to.value;
    if toT < fromT { fromT, toT := toT, fromT; }
    var session := Sub(toT, fromT);
    if session < 2 * MINUTE { session := 2 * MINUTE; }
    out := WindowOrTail(rows, fromT, toT, session);
  }

  // ---------------------------------------------------------------- what is kept is part of what there was

  /** The places in `rows` the kept ones come from: in order, and just those asked for. */
  ghost predicate Picks(kept: seq<Row>, rows: seq<Row>, at: seq<nat>) {
    && |at| == |kept|
    && (forall i :: 0 <= i < |at| ==> at[i] < |rows| && kept[i] == rows[at[i]])
    && (forall i, j :: 0 <= i < j < |at| ==> at[i] < at[j])
  }

  /** The rows at these places are all that qualify. */
  ghost predicate Qualifying(rows: seq<Row>, qualifies: int -> bool, at: seq<nat>) {
    forall k :: 0 <= k < |rows| ==> (k in at <==> rows[k].t.Some? && qualifies(rows[k].t.value))
  }

  lemma PickOne(kept: seq<Row>, rows: seq<Row>, at: seq<nat>, r: Row)
    requires Picks(kept, rows, at)
    ensures Picks(kept, rows + [r], at) && Picks(kept + [r], rows + [r], at + [|rows|])
  {
  }

  lemma QualifyOne(rows: seq<Row>, qualifies: int -> bool, at: seq<nat>, r: Row)
    requires Qualifying(rows, qualifies, at) && forall k <- at :: k < |rows|
    ensures var takes := r.t.Some? && qualifies(r.t.value);
            Qualifying(rows + [r], qualifies, if takes then at + [|rows|] else at)
  {
    var takes := r.t.Some? && qualifies(r.t.value);
    var after := if takes then at + [|rows|] else at;
    forall k | 0 <= k < |rows| ensures k in after <==> k in at {
    }
  }

  lemma {:induction false} KeepPicks(rows: seq<Row>, qualifies: int -> bool) returns (at: seq<nat>)
    ensures Picks(Keep(rows, qualifies), rows, at) && Qualifying(rows, qualifies, at)
  {
    at := [];
    if rows != [] {
      var last := |rows| - 1;
      var front, r := rows[..last], rows[last];
      at := KeepPicks(front, qualifies);
      assert rows == front + [r];
      PickOne(Keep(front, qualifies), front, at, r);
      assert forall k <- at :: k < last;
      QualifyOne(front, qualifies, at, r);
      if r.t.Some? && qualifies(r.t.value) { at := at + [last]; }
    }
  }

  lemma KeptInPicks(rows: seq<Row>, lo: int, hi: int, session: int) returns (at: seq<nat>)
    requires 2 * MINUTE <= session <= MAX_DURATION
    ensures Picks(KeptIn(rows, lo, hi, session), rows, at)
    ensures rows != [] ==> KeptIn(rows, lo, hi, session) != []
  {
    if Fits(Keep(rows, InWindow(lo - SKEW, hi + SKEW)), session) {
      at := KeepPicks(rows, InWindow(lo - SKEW, hi + SKEW));
    } else if Keep(rows, NotBefore(Cut(Latest(rows), session))) == [] {
      at := seq(|rows|, i => i);
    } else {
      at := KeepPicks(rows, NotBefore(Cut(Latest(rows), session)));
    }
  }

  /** Never empty for a non-empty input, and always an order-preserving part of it. */
  lemma KeptIsPart(rows: seq<Row>, from: Option<int>, to: Option<int>) returns (at: seq<nat>)
    ensures Picks(Kept(rows, from, to), rows, at)
    ensures rows != [] ==> Kept(rows, from, to) != []
  {
    if rows == [] || from.None? || to.None? || !Timed(rows) {
      at := seq(|rows|, i => i);
    } else {
      at := KeptInPicks(rows, Lower(from.value, to.value), Upper(from.value, to.value), Session(from.value, to.value));
    }
  }
}
