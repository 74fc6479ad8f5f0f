/** The window rule in plain numbers, for captures and sessions where no arithmetic overflows. */
module HttpWindowNumbers {
  import opened Basics
  import opened HttpWindow
  import opened HttpWindowBound

  /** The distance of two snapshots, at least two minutes. */
  function Gap(from: int, to: int): int {
    if to - from >= 120_000_000_000 then to - from
    else if from - to >= 120_000_000_000 then from - to
    else 120_000_000_000
  }

  /** Within half an hour of the interval. */
  predicate Near(t: int, from: int, to: int) {
    && (from - 1800_000_000_000 <= t || to - 1800_000_000_000 <= t)
    && (t <= from + 1800_000_000_000 || t <= to + 1800_000_000_000)
  }

  /** Some row is near, and no two near rows are further apart than an hour, or ten minutes, more than the gap. */
  ghost predicate NearFits(rows: seq<Row>, from: int, to: int) {
    && (exists r <- rows :: r.t.Some? && Near(r.t.value, from, to))
    && forall a <- rows, b <- rows :: NearPair(a, b, from, to) ==>
         && b.t.value - a.t.value <= Gap(from, to) + 3600_000_000_000
         && b.t.value - a.t.value <= Gap(from, to) + 600_000_000_000
  }

  predicate NearPair(a: Row, b: Row, from: int, to: int) {
    a.t.Some? && b.t.Some? && Near(a.t.value, from, to) && Near(b.t.value, from, to)
  }

  /** No row is older than this one allows: by the gap and its quarter, at least two minutes. */
  ghost predicate Recent(rows: seq<Row>, t: int, from: int, to: int) {
    forall b <- rows :: b.t.Some? ==>
      || b.t.value - t <= Gap(from, to) + 120_000_000_000
      || b.t.value - t <= Gap(from, to) + Gap(from, to) / 4
  }

  /** Times after the zero time, and a gap whose margins stay below 2^63 nanoseconds. */
  ghost predicate Ordinary(rows: seq<Row>, from: int, to: int) {
    && (forall r <- rows :: r.t.Some? ==> 0 < r.t.value)
    && Gap(from, to) + Gap(from, to) / 4 < 0x8000_0000_0000_0000
    && Gap(from, to) + 3600_000_000_000 < 0x8000_0000_0000_0000
  }

  lemma GapIsSession(from: int, to: int)
    requires Gap(from, to) < 0x8000_0000_0000_0000
    ensures Session(from, to) == Gap(from, to)
  {
  }

  lemma NearIsWindow(t: int, from: int, to: int)
    ensures Near(t, from, to) <==> InWindow(Lower(from, to) - SKEW, Upper(from, to) + SKEW)(t)
  {
  }

  /** Rows fit exactly when there are some and they spread no further than the margin. */
  lemma FitsMeansSpread(window: seq<Row>, session: int)
    requires forall r <- window :: r.t.Some? && 0 < r.t.value
    requires 2 * MINUTE <= session && session + 2 * SKEW <= MAX_DURATION
    ensures Fits(window, session) <==> window != [] && Spread(window, session + 10 * MINUTE)
  {
    LatestIsMaximum(window);
    EarliestIsMinimum(window);
    HeadIsIn(window);
    if window != [] {
      var a :| a in window && a.t == Some(Earliest(window));
      var b :| b in window && b.t == Some(Latest(window));
    }
  }

  lemma NearMeansSpread(rows: seq<Row>, window: seq<Row>, from: int, to: int)
    requires forall r :: r in window <==> r in rows && r.t.Some? && Near(r.t.value, from, to)
    ensures NearFits(rows, from, to) <==> window != [] && Spread(window, Gap(from, to) + 600_000_000_000)
  {
    HeadIsIn(window);
    if Spread(window, Gap(from, to) + 600_000_000_000) {
      forall a <- rows, b <- rows | NearPair(a, b, from, to)
        ensures b.t.value - a.t.value <= Gap(from, to) + 600_000_000_000
      {
        assert a in window && b in window;
      }
    }
    if NearFits(rows, from, to) {
      forall a <- window, b <- window ensures b.t.value - a.t.value <= Gap(from, to) + 600_000_000_000 {
        assert NearPair(a, b, from, to);
      }
    }
  }

  /** The rows near the interval fit in the code's arithmetic exactly when they fit in plain numbers. */
  lemma FitsInNumbers(rows: seq<Row>, from: int, to: int)
    requires Ordinary(rows, from, to)
    ensures Fits(Keep(rows, InWindow(Lower(from, to) - SKEW, Upper(from, to) + SKEW)), Session(from, to))
       <==> NearFits(rows, from, to)
  {
    var q := InWindow(Lower(from, to) - SKEW, Upper(from, to) + SKEW);
    GapIsSession(from, to);
    forall t ensures Near(t, from, to) <==> q(t) { NearIsWindow(t, from, to); }
    KeepMembers(rows, q);
    FitsMeansSpread(Keep(rows, q), Session(from, to));
    NearMeansSpread(rows, Keep(rows, q), from, to);
  }

  lemma RecentIsTail(rows: seq<Row>, t: int, from: int, to: int)
    requires Ordinary(rows, from, to) && Timed(rows)
    ensures Recent(rows, t, from, to) <==> NotBefore(Cut(Latest(rows), Session(from, to)))(t)
  {
    GapIsSession(from, to);
    LatestIsMaximum(rows);
    var b :| b in rows && b.t == Some(Latest(rows));
  }

  lemma KeptIsKeptIn(rows: seq<Row>, from: int, to: int)
    requires Timed(rows)
    ensures Kept(rows, Some(from), Some(to)) == KeptIn(rows, Lower(from, to), Upper(from, to), Session(from, to))
  {
  }

  lemma KeptIsWindow(rows: seq<Row>, from: int, to: int)
    requires Timed(rows)
    ensures var q, cut := InWindow(Lower(from, to) - SKEW, Upper(from, to) + SKEW),
                          NotBefore(Cut(Latest(rows), Session(from, to)));
            Kept(rows, Some(from), Some(to))
            == if Fits(Keep(rows, q), Session(from, to)) then Keep(rows, q)
               else if Keep(rows, cut) == [] then rows else Keep(rows, cut)
  {
    KeptIsKeptIn(rows, from, to);
  }

  lemma KeptNear(rows: seq<Row>, from: int, to: int) returns (at: seq<nat>)
    requires Ordinary(rows, from, to) && Timed(rows) && NearFits(rows, from, to)
    ensures Picks(Kept(rows, Some(from), Some(to)), rows, at)
    ensures forall k :: 0 <= k < |rows| ==> (k in at <==> rows[k].t.Some? && Near(rows[k].t.value, from, to))
  {
    var q := InWindow(Lower(from, to) - SKEW, Upper(from, to) + SKEW);
    FitsInNumbers(rows, from, to);
    KeptIsWindow(rows, from, to);
    at := KeepPicks(rows, q);
    forall k | 0 <= k < |rows| ensures k in at <==> rows[k].t.Some? && Near(rows[k].t.value, from, to) {
      if rows[k].t.Some? { NearIsWindow(rows[k].t.value, from, to); }
    }
  }

  lemma TailKept(rows: seq<Row>, from: int, to: int)
    requires Ordinary(rows, from, to) && Timed(rows) && !NearFits(rows, from, to)
    ensures Kept(rows, Some(from), Some(to)) == Keep(rows, NotBefore(Cut(Latest(rows), Session(from, to))))
  {
    FitsInNumbers(rows, from, to);
    GapIsSession(from, to);
    TailIsNarrow(rows, Session(from, to));
    KeptIsWindow(rows, from, to);
  }

  lemma KeptRecent(rows: seq<Row>, from: int, to: int) returns (at: seq<nat>)
    requires Ordinary(rows, from, to) && Timed(rows) && !NearFits(rows, from, to)
    ensures Picks(Kept(rows, Some(from), Some(to)), rows, at)
    ensures forall k :: 0 <= k < |rows| ==> (k in at <==> rows[k].t.Some? && Recent(rows, rows[k].t.value, from, to))
  {
    TailKept(rows, from, to);
    at := KeepPicks(rows, NotBefore(Cut(Latest(rows), Session(from, to))));
    forall k | 0 <= k < |rows| ensures k in at <==> rows[k].t.Some? && Recent(rows, rows[k].t.value, from, to) {
      if rows[k].t.Some? { RecentIsTail(rows, rows[k].t.value, from, to); }
    }
  }

  /** What is kept: exactly the near rows, in order, when they fit; else exactly the recent ones, in order. */
  lemma KeptInNumbers(rows: seq<Row>, from: int, to: int) returns (at: seq<nat>)
    requires Ordinary(rows, from, to) && Timed(rows)
    ensures Picks(Kept(rows, Some(from), Some(to)), rows, at)
    ensures forall k :: 0 <= k < |rows| ==>
              (k in at <==> rows[k].t.Some? && if NearFits(rows, from, to) then Near(rows[k].t.value, from, to)
                                               else Recent(rows, rows[k].t.value, from, to))
  {
    if NearFits(rows, from, to) { at := KeptNear(rows, from, to); } else { at := KeptRecent(rows, from, to); }
  }

  /** Without both ends of the interval, or without any timed row, nothing is dropped. */
  lemma KeptWithoutTimes(rows: seq<Row>, from: Option<int>, to: Option<int>)
    requires from.None? || to.None? || forall r <- rows :: r.t.None?
    ensures Kept(rows, from, to) == rows
  {
  }
}
