/** The bound for all captures, rows at and before the zero time together: it needs a window close around it. */
module HttpWindowZero {
  import opened Basics
  import opened HttpWindow
  import opened HttpWindowBound

  /** The running maximum is at or above every row, unless it is negative; then all rows are at or before zero. */
  lemma {:induction false} LatestNearly(rows: seq<Row>)
    ensures forall r <- rows :: r.t.Some? ==> r.t.value <= Latest(rows) || (r.t.value <= 0 && Latest(rows) < 0)
    ensures Timed(rows) ==> exists r <- rows :: r.t == Some(Latest(rows))
    ensures !Timed(rows) ==> Latest(rows) == 0
  {
    if rows != [] {
      var front, r := rows[..|rows| - 1], rows[|rows| - 1];
      assert rows == front + [r];
      LatestNearly(front);
      assert r in rows;
    }
  }

  lemma {:induction false} EarliestNearly(rows: seq<Row>)
    ensures forall r <- rows :: r.t.Some? ==> Earliest(rows) <= r.t.value || (0 <= r.t.value && 0 < Earliest(rows))
    ensures Timed(rows) ==> exists r <- rows :: r.t == Some(Earliest(rows))
    ensures !Timed(rows) ==> Earliest(rows) == 0
  {
    if rows != [] {
      var front, r := rows[..|rows| - 1], rows[|rows| - 1];
      assert rows == front + [r];
      EarliestNearly(front);
      assert r in rows;
    }
  }

  /** The window with its skew holds the zero time and reaches no further from it than the allowance; and rows
      before the zero time alone never span too much to be accepted. */
  predicate AroundZero(lo: int, hi: int, session: int) {
    && lo - SKEW <= 0 <= hi + SKEW <= Allowance(session)
    && SKEW - lo <= Allowance(session) && SKEW - lo - 1 <= session + 10 * MINUTE
  }

  /** Rows within a window that fits: on one side of zero they are near it, on both sides the span is measured. */
  lemma FittingWindowAroundZero(window: seq<Row>, lo: int, hi: int, session: int)
    requires 2 * MINUTE <= session <= MAX_DURATION && Negatable(session) && AroundZero(lo, hi, session)
    requires forall r <- window :: r.t.Some? ==> lo - SKEW <= r.t.value <= hi + SKEW
    requires Fits(window, session)
    ensures Spread(window, Allowance(session))
  {
    LatestNearly(window);
    EarliestNearly(window);
    forall a <- window, b <- window | a.t.Some? && b.t.Some?
      ensures b.t.value - a.t.value <= Allowance(session)
    {
      if a.t.value < 0 < b.t.value {
        assert Earliest(window) <= a.t.value && b.t.value <= Latest(window);
      }
    }
  }

  /** Rows that are all at or before zero fit. */
  lemma NothingAfterZeroFits(window: seq<Row>, lo: int, hi: int, session: int)
    requires 2 * MINUTE <= session <= MAX_DURATION && Negatable(session) && AroundZero(lo, hi, session)
    requires Timed(window) && forall r <- window :: r.t.Some? ==> lo - SKEW <= r.t.value <= 0
    ensures Fits(window, session)
  {
    LatestNearly(window);
    EarliestNearly(window);
  }

  /** A window that does not fit leaves the running maximum right. */
  lemma MisfitMeansMaximum(rows: seq<Row>, lo: int, hi: int, session: int)
    requires 2 * MINUTE <= session <= MAX_DURATION && Negatable(session) && AroundZero(lo, hi, session)
    requires !Fits(Keep(rows, InWindow(lo - SKEW, hi + SKEW)), session)
    ensures forall r <- rows :: r.t.Some? ==> r.t.value <= Latest(rows)
  {
    var window := Keep(rows, InWindow(lo - SKEW, hi + SKEW));
    KeepMembers(rows, InWindow(lo - SKEW, hi + SKEW));
    LatestNearly(rows);
    if NoZeroTimes(rows) {
      LatestIsMaximum(rows);
    } else if Latest(rows) < 0 {
      var z :| z in rows && z.t == Some(0);
      assert z in window;
      NothingAfterZeroFits(window, lo, hi, session);
    }
  }

  lemma KeptAroundZero(rows: seq<Row>, lo: int, hi: int, session: int)
    requires 2 * MINUTE <= session <= MAX_DURATION && Negatable(session) && AroundZero(lo, hi, session)
    requires Timed(rows)
    ensures Spread(KeptIn(rows, lo, hi, session), Allowance(session))
  {
    var window := Keep(rows, InWindow(lo - SKEW, hi + SKEW));
    if Fits(window, session) {
      KeepMembers(rows, InWindow(lo - SKEW, hi + SKEW));
      FittingWindowAroundZero(window, lo, hi, session);
    } else {
      MisfitMeansMaximum(rows, lo, hi, session);
      LatestNearly(rows);
      KeepMembers(rows, NotBefore(Cut(Latest(rows), session)));
      var r :| r in rows && r.t == Some(Latest(rows));
      assert r in Keep(rows, NotBefore(Cut(Latest(rows), session)));
    }
  }

  // ---------------------------------------------------------------- where it fails

  /** Where zero and negative instants meet, the running maximum can fall back, and with it the cut: for every
      window that does not hold the zero time some such capture escapes the bound. */
  lemma ZeroThenNegativeEscapes(from: int, to: int) returns (rows: seq<Row>)
    requires Negatable(Session(from, to)) && (SKEW < Lower(from, to) || Upper(from, to) + SKEW < 0)
    ensures Timed(rows) && !Spread(Kept(rows, Some(from), Some(to)), Allowance(Session(from, to)))
  {
    var lo, hi, session := Lower(from, to), Upper(from, to), Session(from, to);
    var a, b := Row(Some(0), ""), Row(Some((if lo < 0 then lo else 0) - SKEW - Allowance(session)), "");
    rows := [a, b];
    FallsOutside(a, b, lo, hi, session);
    FarApart(b, a, Allowance(session));
  }

  lemma FallsOutside(a: Row, b: Row, lo: int, hi: int, session: int)
    requires 2 * MINUTE <= session <= MAX_DURATION && Negatable(session)
    requires a.t == Some(0) && b.t.Some? && b.t.value < 0 && b.t.value < lo - SKEW
    requires 0 < lo - SKEW || hi + SKEW < 0
    ensures KeptIn([a, b], lo, hi, session) == [a, b]
  {
    KeepTwo(a, b, InWindow(lo - SKEW, hi + SKEW));
    TimesAfterZero(a, b);
    KeepTwo(a, b, NotBefore(Cut(b.t.value, session)));
  }

  /** Rows only before the zero time, but far before it. */
  lemma FarBeforeZeroEscapes(from: int, to: int) returns (rows: seq<Row>)
    requires Negatable(Session(from, to)) && Lower(from, to) - SKEW <= 0 <= Upper(from, to) + SKEW
    requires SKEW - Lower(from, to) > Allowance(Session(from, to))
    ensures Timed(rows) && !Spread(Kept(rows, Some(from), Some(to)), Allowance(Session(from, to)))
  {
    var a, b := Row(Some(0), ""), Row(Some(Lower(from, to) - SKEW), "");
    rows := [a, b];
    ZeroWindowFits(a, b, Lower(from, to), Upper(from, to), Session(from, to));
    FarApart(b, a, Allowance(Session(from, to)));
  }

  lemma TimesOfThree(a: Row, b: Row, c: Row)
    requires a.t == Some(0) && b.t.Some? && c.t.Some? && c.t.value <= b.t.value < 0
    ensures Latest([a, b, c]) == b.t.value && Earliest([a, b, c]) == c.t.value
  {
    assert [a, b, c][..2] == [a, b];
    TimesAfterZero(a, b);
  }

  /** A forgotten zero, two rows that do not fit, and one as far back as the cut then allows: all are kept. */
  lemma KeepsAllFour(a: Row, b: Row, c: Row, d: Row, lo: int, hi: int, session: int)
    requires 2 * MINUTE <= session <= MAX_DURATION && Negatable(session) && lo - SKEW <= 0 <= hi + SKEW
    requires session + 10 * MINUTE < SKEW - lo - 1 < session + Pad(session)
    requires a.t == Some(0) && b.t == Some(-1) && c.t == Some(lo - SKEW) && d.t == Some(-1 - session - Pad(session))
    ensures KeptIn([a, b, c, d], lo, hi, session) == [a, b, c, d]
  {
    var rows := [a, b, c, d];
    assert rows[..3] == [a, b, c];
    TimesOfThree(a, b, c);
    KeepThree(a, b, c, InWindow(lo - SKEW, hi + SKEW));
    assert Keep(rows, InWindow(lo - SKEW, hi + SKEW)) == [a, b, c];
    assert !Fits([a, b, c], session);
    KeepThree(a, b, c, NotBefore(Cut(-1, session)));
    assert Cut(-1, session) == -1 - session - Pad(session);
    assert Keep(rows, NotBefore(Cut(-1, session))) == rows;
  }

  lemma MisfitEscapes(from: int, to: int) returns (rows: seq<Row>)
    requires Negatable(Session(from, to)) && Lower(from, to) - SKEW <= 0 <= Upper(from, to) + SKEW
    requires Session(from, to) + 10 * MINUTE < SKEW - Lower(from, to) - 1 < Allowance(Session(from, to))
    ensures Timed(rows) && !Spread(Kept(rows, Some(from), Some(to)), Allowance(Session(from, to)))
  {
    var lo, session := Lower(from, to), Session(from, to);
    var a, b, c := Row(Some(0), ""), Row(Some(-1), ""), Row(Some(lo - SKEW), "");
    var d := Row(Some(-1 - session - Pad(session)), "");
    rows := [a, b, c, d];
    KeepsAllFour(a, b, c, d, lo, Upper(from, to), session);
    assert a in rows && d in rows;
  }

  /** The bound, for every timed capture whatever. */
  ghost predicate NarrowForAll(from: int, to: int) {
    forall rows: seq<Row> :: Timed(rows) ==> Spread(Kept(rows, Some(from), Some(to)), Allowance(Session(from, to)))
  }

  lemma SomeEscape(from: int, to: int) returns (rows: seq<Row>)
    requires !Negatable(Session(from, to)) || !AroundZero(Lower(from, to), Upper(from, to), Session(from, to))
    ensures Timed(rows) && !Spread(Kept(rows, Some(from), Some(to)), Allowance(Session(from, to)))
  {
    var lo, hi, session := Lower(from, to), Upper(from, to), Session(from, to);
    if !Negatable(session) {
      rows := HugeSessionKeepsAll(from, to);
    } else if SKEW < lo || hi + SKEW < 0 {
      rows := ZeroThenNegativeEscapes(from, to);
    } else if hi + SKEW > Allowance(session) {
      rows := ZeroTimeEscapes(from, to);
    } else if SKEW - lo > Allowance(session) {
      rows := FarBeforeZeroEscapes(from, to);
    } else {
      rows := MisfitEscapes(from, to);
    }
  }

  /** That holds exactly when the session can be negated and its window lies close around the zero time. */
  lemma NarrowForAllExactly(from: int, to: int)
    ensures NarrowForAll(from, to)
       <==> Negatable(Session(from, to)) && AroundZero(Lower(from, to), Upper(from, to), Session(from, to))
  {
    if Negatable(Session(from, to)) && AroundZero(Lower(from, to), Upper(from, to), Session(from, to)) {
      forall rows: seq<Row> | Timed(rows)
        ensures Spread(Kept(rows, Some(from), Some(to)), Allowance(Session(from, to)))
      {
        KeptAroundZero(rows, Lower(from, to), Upper(from, to), Session(from, to));
      }
    } else {
      var rows := SomeEscape(from, to);
    }
  }
}
