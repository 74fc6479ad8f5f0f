/** How far apart the rows of a snapshot interval can be: the bound, and for which intervals it holds. */
module HttpWindowBound {
  import opened Basics
  import opened HttpWindow

  /** No row's instant is the zero time. */
  ghost predicate NoZeroTimes(rows: seq<Row>) {
    forall r <- rows :: r.t != Some(0)
  }

  /** No row's instant is before the zero time. */
  ghost predicate NoNegativeTimes(rows: seq<Row>) {
    forall r <- rows :: r.t.Some? ==> 0 <= r.t.value
  }

  ghost predicate Spread(rows: seq<Row>, limit: int) {
    forall a <- rows, b <- rows :: a.t.Some? && b.t.Some? ==> b.t.value - a.t.value <= limit
  }

  /** The running maximum is the maximum unless zero and negative instants meet. */
  lemma {:induction false} LatestIsMaximum(rows: seq<Row>)
    requires NoZeroTimes(rows) || NoNegativeTimes(rows)
    ensures NoZeroTimes(rows) ==> (Latest(rows) == 0 <==> !Timed(rows))
    ensures NoNegativeTimes(rows) ==> 0 <= Latest(rows)
    ensures forall r <- rows :: r.t.Some? ==> r.t.value <= Latest(rows)
    ensures Timed(rows) ==> exists r <- rows :: r.t == Some(Latest(rows))
  {
    if rows != [] {
      var front, r := rows[..|rows| - 1], rows[|rows| - 1];
      assert rows == front + [r];
      LatestIsMaximum(front);
      assert r in rows;
    }
  }

  lemma {:induction false} EarliestIsMinimum(rows: seq<Row>)
    requires NoZeroTimes(rows)
    ensures Earliest(rows) == 0 <==> !Timed(rows)
    ensures forall r <- rows :: r.t.Some? ==> Earliest(rows) <= r.t.value
    ensures Timed(rows) ==> exists r <- rows :: r.t == Some(Earliest(rows))
  {
    if rows != [] {
      var front, r := rows[..|rows| - 1], rows[|rows| - 1];
      assert rows == front + [r];
      EarliestIsMinimum(front);
      assert r in rows;
    }
  }

  lemma {:induction false} KeepMembers(rows: seq<Row>, qualifies: int -> bool)
    ensures forall r :: r in Keep(rows, qualifies) <==> r in rows && r.t.Some? && qualifies(r.t.value)
  {
    if rows != [] {
      var front, r := rows[..|rows| - 1], rows[|rows| - 1];
      assert rows == front + [r];
      KeepMembers(front, qualifies);
    }
  }

  /** What a session allows: itself and a margin. */
  function Allowance(session: int): int {
    session + if session / 4 > 10 * MINUTE then session / 4 else 10 * MINUTE
  }

  /** The one overflow that matters: the session and its pad still have an exact negation. */
  predicate Negatable(session: int) {
    session + Pad(session) <= -MIN_DURATION
  }

  /** The window with its skew begins after the zero time, or is so early that it ends within the allowance. */
  predicate ClearOfZero(from: int, to: int) {
    SKEW < Lower(from, to) || Upper(from, to) + SKEW <= Allowance(Session(from, to))
  }

  lemma HeadIsIn(rows: seq<Row>)
    ensures rows != [] ==> rows[0] in rows
  {
  }

  lemma TailIsNarrow(rows: seq<Row>, session: int)
    requires (NoZeroTimes(rows) || NoNegativeTimes(rows)) && Timed(rows) && 2 * MINUTE <= session <= MAX_DURATION
    ensures var tail := Keep(rows, NotBefore(Cut(Latest(rows), session)));
            && (tail != [] <==> Negatable(session))
            && (Negatable(session) ==> Spread(tail, session + Pad(session)))
  {
    var cut := Cut(Latest(rows), session);
    LatestIsMaximum(rows);
    KeepMembers(rows, NotBefore(cut));
    var tail := Keep(rows, NotBefore(cut));
    if Negatable(session) {
      assert cut == Latest(rows) - (session + Pad(session));
      var r :| r in rows && r.t == Some(Latest(rows));
      assert r in tail;
    } else {
      assert cut > Latest(rows);
      HeadIsIn(tail);
    }
  }

  lemma SpreadWider(rows: seq<Row>, limit: int, wider: int)
    requires Spread(rows, limit) && limit <= wider
    ensures Spread(rows, wider)
  {
  }

  lemma FittingWindowIsNarrow(window: seq<Row>, session: int)
    requires NoZeroTimes(window) && 2 * MINUTE <= session <= MAX_DURATION && Negatable(session)
    requires Fits(window, session)
    ensures Spread(window, session + 10 * MINUTE)
  {
    LatestIsMaximum(window);
    EarliestIsMinimum(window);
  }

  /** A window that fits is narrow if it holds no zero time, or if it ends within the allowance anyway. */
  lemma KeptWindowIsNarrow(rows: seq<Row>, lo: int, hi: int, session: int)
    requires 2 * MINUTE <= session <= MAX_DURATION && Negatable(session)
    requires NoZeroTimes(rows) || (NoNegativeTimes(rows) && (SKEW < lo || hi + SKEW <= Allowance(session)))
    requires Fits(Keep(rows, InWindow(lo - SKEW, hi + SKEW)), session)
    ensures Spread(Keep(rows, InWindow(lo - SKEW, hi + SKEW)), Allowance(session))
  {
    var window := Keep(rows, InWindow(lo - SKEW, hi + SKEW));
    KeepMembers(rows, InWindow(lo - SKEW, hi + SKEW));
    if NoZeroTimes(rows) || SKEW < lo {
      FittingWindowIsNarrow(window, session);
      SpreadWider(window, session + 10 * MINUTE, Allowance(session));
    }
  }

  lemma KeptInNarrow(rows: seq<Row>, lo: int, hi: int, session: int)
    requires Timed(rows) && 2 * MINUTE <= session <= MAX_DURATION && Negatable(session)
    requires NoZeroTimes(rows) || (NoNegativeTimes(rows) && (SKEW < lo || hi + SKEW <= Allowance(session)))
    ensures Spread(KeptIn(rows, lo, hi, session), Allowance(session))
  {
    TailIsNarrow(rows, session);
    if Fits(Keep(rows, InWindow(lo - SKEW, hi + SKEW)), session) {
      KeptWindowIsNarrow(rows, lo, hi, session);
    } else {
      SpreadWider(Keep(rows, NotBefore(Cut(Latest(rows), session))), session + Pad(session), Allowance(session));
    }
  }

  /** With both ends known and some row timed: unless zero and negative instants meet, the tail is never empty, so
      the fallback to all rows is unreachable; and the kept rows lie within the session and its margin if no row is
      at the zero time, or none is before it and the window is clear of it. */
  lemma KeptIsNarrow(rows: seq<Row>, from: int, to: int)
    requires Timed(rows) && Negatable(Session(from, to)) && (NoZeroTimes(rows) || NoNegativeTimes(rows))
    ensures Keep(rows, NotBefore(Cut(Latest(rows), Session(from, to)))) != []
    ensures NoZeroTimes(rows) || ClearOfZero(from, to)
        ==> Spread(Kept(rows, Some(from), Some(to)), Allowance(Session(from, to)))
  {
    TailIsNarrow(rows, Session(from, to));
    if NoZeroTimes(rows) || ClearOfZero(from, to) {
      KeptInNarrow(rows, Lower(from, to), Upper(from, to), Session(from, to));
    }
  }

  // ---------------------------------------------------------------- where the bound fails

  function One(r: Row, qualifies: int -> bool): seq<Row> {
    if r.t.Some? && qualifies(r.t.value) then [r] else []
  }

  lemma KeepOne(a: Row, q: int -> bool)
    ensures Keep([a], q) == One(a, q)
  {
    assert [a][..0] == [];
  }

  lemma KeepTwo(a: Row, b: Row, q: int -> bool)
    ensures Keep([a, b], q) == One(a, q) + One(b, q)
  {
    assert [a, b][..1] == [a];
    KeepOne(a, q);
  }

  lemma KeepThree(a: Row, b: Row, c: Row, q: int -> bool)
    ensures Keep([a, b, c], q) == One(a, q) + One(b, q) + One(c, q)
  {
    assert [a, b, c][..2] == [a, b];
    KeepTwo(a, b, q);
  }

  lemma TimesOfOne(a: Row)
    requires a.t.Some?
    ensures Latest([a]) == Earliest([a]) == a.t.value
  {
    assert [a][..0] == [];
  }

  lemma TimesAfterZero(a: Row, b: Row)
    requires a.t == Some(0) && b.t.Some?
    ensures Latest([a, b]) == Earliest([a, b]) == b.t.value
  {
    assert [a, b][..1] == [a];
    TimesOfOne(a);
  }

  lemma FarApart(a: Row, b: Row, limit: int)
    requires a.t.Some? && b.t.Some? && b.t.value - a.t.value > limit
    ensures !Spread([a, b], limit) && !Spread([b, a], limit) && Timed([a, b]) && Timed([b, a])
  {
    var rows, back := [a, b], [b, a];
    assert a in rows && b in rows && a in back && b in back;
  }

  /** A session too long to negate, with rows past the window: everything is kept, however far apart. */
  lemma HugeSessionKeepsAll(from: int, to: int) returns (rows: seq<Row>)
    requires !Negatable(Session(from, to))
    ensures NoZeroTimes(rows) && NoNegativeTimes(rows) && Timed(rows)
    ensures !Spread(Kept(rows, Some(from), Some(to)), Allowance(Session(from, to)))
  {
    var session, hi := Session(from, to), Upper(from, to);
    var start := (if hi < 0 then 0 else hi) + SKEW + 1;
    var end := start + Allowance(session) + 1;
    rows := [Row(Some(start), ""), Row(Some(end), "")];
    PastTheWindow(Lower(from, to), hi, session, start, end);
    FarApart(Row(Some(start), ""), Row(Some(end), ""), Allowance(session));
  }

  lemma PastTheWindow(lo: int, hi: int, session: int, start: int, end: int)
    requires 2 * MINUTE <= session <= MAX_DURATION && !Negatable(session) && 0 < start && hi + SKEW < start <= end
    ensures var rows := [Row(Some(start), ""), Row(Some(end), "")];
            KeptIn(rows, lo, hi, session) == rows
  {
    var a, b := Row(Some(start), ""), Row(Some(end), "");
    KeepTwo(a, b, InWindow(lo - SKEW, hi + SKEW));
    assert a in [a, b];
    TailIsNarrow([a, b], session);
  }

  /** A row at the zero time and one at the end of a window around it: the span is measured without the first, so
      both are kept. */
  lemma ZeroTimeEscapes(from: int, to: int) returns (rows: seq<Row>)
    requires Negatable(Session(from, to)) && !ClearOfZero(from, to)
    ensures NoNegativeTimes(rows) && Timed(rows)
    ensures !Spread(Kept(rows, Some(from), Some(to)), Allowance(Session(from, to)))
  {
    var lo, hi, session := Lower(from, to), Upper(from, to), Session(from, to);
    var a, b := Row(Some(0), ""), Row(Some(hi + SKEW), "");
    rows := [a, b];
    ZeroWindowFits(a, b, lo, hi, session);
    FarApart(a, b, Allowance(session));
  }

  lemma ZeroWindowFits(a: Row, b: Row, lo: int, hi: int, session: int)
    requires 2 * MINUTE <= session <= MAX_DURATION && Negatable(session)
    requires a.t == Some(0) && b.t.Some? && lo - SKEW <= 0 <= hi + SKEW && lo - SKEW <= b.t.value <= hi + SKEW
    ensures KeptIn([a, b], lo, hi, session) == [a, b]
  {
    KeepTwo(a, b, InWindow(lo - SKEW, hi + SKEW));
    assert Keep([a, b], InWindow(lo - SKEW, hi + SKEW)) == [a, b];
    TimesAfterZero(a, b);
    NoSpanFits([a, b], session);
  }

  lemma NoSpanFits(rows: seq<Row>, session: int)
    requires 2 * MINUTE <= session <= MAX_DURATION && Negatable(session)
    requires rows != [] && Earliest(rows) == Latest(rows)
    ensures Fits(rows, session)
  {
    assert TimeSpan(rows) == 0;
  }

  /** The bound, for every timed capture with no row at the zero time. */
  ghost predicate AlwaysNarrow(from: int, to: int) {
    forall rows: seq<Row> :: NoZeroTimes(rows) && Timed(rows)
      ==> Spread(Kept(rows, Some(from), Some(to)), Allowance(Session(from, to)))
  }

  /** That holds exactly when the session and its pad can be negated: up to some 233 years. */
  lemma AlwaysNarrowExactly(from: int, to: int)
    ensures AlwaysNarrow(from, to) <==> Negatable(Session(from, to))
  {
    if Negatable(Session(from, to)) {
      forall rows: seq<Row> | NoZeroTimes(rows) && Timed(rows)
        ensures Spread(Kept(rows, Some(from), Some(to)), Allowance(Session(from, to)))
      {
        KeptIsNarrow(rows, from, to);
      }
    } else {
      var rows := HugeSessionKeepsAll(from, to);
    }
  }

  /** The bound, for every timed capture that starts at the zero time or later. */
  ghost predicate NarrowFromZero(from: int, to: int) {
    forall rows: seq<Row> :: NoNegativeTimes(rows) && Timed(rows)
      ==> Spread(Kept(rows, Some(from), Some(to)), Allowance(Session(from, to)))
  }

  /** That holds exactly when, besides, the window is clear of the zero time. */
  lemma NarrowFromZeroExactly(from: int, to: int)
    ensures NarrowFromZero(from, to) <==> Negatable(Session(from, to)) && ClearOfZero(from, to)
  {
    if !Negatable(Session(from, to)) {
      var rows := HugeSessionKeepsAll(from, to);
    } else if !ClearOfZero(from, to) {
      var rows := ZeroTimeEscapes(from, to);
    } else {
      forall rows: seq<Row> | NoNegativeTimes(rows) && Timed(rows)
        ensures Spread(Kept(rows, Some(from), Some(to)), Allowance(Session(from, to)))
      {
        KeptIsNarrow(rows, from, to);
      }
    }
  }
}
