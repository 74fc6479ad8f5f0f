/** Filtering a second time: exactly when it drops more. */
module HttpWindowTwice {
  import opened Basics
  import opened HttpWindow
  import opened HttpWindowBound

  function WindowOf(rows: seq<Row>, lo: int, hi: int): seq<Row> {
    Keep(rows, InWindow(lo - SKEW, hi + SKEW))
  }

  function TailOf(rows: seq<Row>, session: int): seq<Row>
    requires 2 * MINUTE <= session <= MAX_DURATION
  {
    Keep(rows, NotBefore(Cut(Latest(rows), session)))
  }

  ghost predicate AllIn(rows: seq<Row>, qualifies: int -> bool) {
    forall r <- rows :: r.t.Some? && qualifies(r.t.value)
  }

  /** Keeping is the identity exactly on rows that all qualify. */
  lemma {:induction false} KeepAll(rows: seq<Row>, qualifies: int -> bool)
    ensures Keep(rows, qualifies) == rows <==> AllIn(rows, qualifies)
  {
    if rows != [] {
      var front, r := rows[..|rows| - 1], rows[|rows| - 1];
      assert rows == front + [r];
      KeepAll(front, qualifies);
      KeepMembers(rows, qualifies);
    }
  }

  lemma KeepTwice(rows: seq<Row>, qualifies: int -> bool)
    ensures AllIn(Keep(rows, qualifies), qualifies)
    ensures Keep(Keep(rows, qualifies), qualifies) == Keep(rows, qualifies)
  {
    KeepMembers(rows, qualifies);
    KeepAll(Keep(rows, qualifies), qualifies);
  }

  lemma LatestOneMore(rows: seq<Row>, r: Row)
    ensures Latest(rows + [r]) == if r.t.Some? && (Latest(rows) == 0 || r.t.value > Latest(rows)) then r.t.value
                                  else Latest(rows)
  {
    assert (rows + [r])[..|rows|] == rows;
  }

  /** Dropping the rows before a cut leaves the running maximum alone, unless it was before the cut itself. */
  lemma {:induction false} LatestAfterCut(rows: seq<Row>, cut: int)
    ensures var m, k := Latest(rows), Latest(Keep(rows, NotBefore(cut)));
            (m == k || (k == 0 && m < cut)) && (k == 0 || cut <= k)
  {
    if rows != [] {
      var front, r := rows[..|rows| - 1], rows[|rows| - 1];
      LatestAfterCut(front, cut);
      LatestOneMore(Keep(front, NotBefore(cut)), r);
      assert Keep(front, NotBefore(cut)) + [] == Keep(front, NotBefore(cut));
    }
  }

  /** What the first pass kept loses rows in the second: the first kept a tail, and the tail either has a fitting
      window that does not hold all of it, or has a tail of its own that does not. */
  ghost predicate DropsIn(rows: seq<Row>, lo: int, hi: int, session: int)
    requires 2 * MINUTE <= session <= MAX_DURATION
  {
    var tail := TailOf(rows, session);
    && !Fits(WindowOf(rows, lo, hi), session) && tail != []
    && if Fits(WindowOf(tail, lo, hi), session) then !AllIn(tail, InWindow(lo - SKEW, hi + SKEW))
       else TailOf(tail, session) != [] && !AllIn(tail, NotBefore(Cut(Latest(tail), session)))
  }

  lemma TwiceIn(rows: seq<Row>, lo: int, hi: int, session: int)
    requires 2 * MINUTE <= session <= MAX_DURATION
    ensures var once := KeptIn(rows, lo, hi, session);
            KeptIn(once, lo, hi, session) == once <==> !DropsIn(rows, lo, hi, session)
  {
    var window, tail := WindowOf(rows, lo, hi), TailOf(rows, session);
    if Fits(window, session) {
      KeepTwice(rows, InWindow(lo - SKEW, hi + SKEW));
    } else if tail != [] {
      KeepAll(tail, InWindow(lo - SKEW, hi + SKEW));
      KeepAll(tail, NotBefore(Cut(Latest(tail), session)));
    }
  }

  lemma KeptStaysTimed(rows: seq<Row>, lo: int, hi: int, session: int)
    requires 2 * MINUTE <= session <= MAX_DURATION && Timed(rows)
    ensures KeptIn(rows, lo, hi, session) != [] && Timed(KeptIn(rows, lo, hi, session))
  {
    var once := KeptIn(rows, lo, hi, session);
    KeepMembers(rows, InWindow(lo - SKEW, hi + SKEW));
    KeepMembers(rows, NotBefore(Cut(Latest(rows), session)));
    HeadIsIn(once);
  }

  ghost predicate SecondPassDrops(rows: seq<Row>, from: Option<int>, to: Option<int>) {
    && from.Some? && to.Some? && Timed(rows)
    && DropsIn(rows, Lower(from.value, to.value), Upper(from.value, to.value), Session(from.value, to.value))
  }

  /** For every capture and every interval: filtering again changes nothing, except exactly then. */
  lemma IdempotentExactly(rows: seq<Row>, from: Option<int>, to: Option<int>)
    ensures var once := Kept(rows, from, to);
            Kept(once, from, to) == once <==> !SecondPassDrops(rows, from, to)
  {
    if from.Some? && to.Some? && Timed(rows) {
      var lo, hi := Lower(from.value, to.value), Upper(from.value, to.value);
      var session := Session(from.value, to.value);
      TwiceIn(rows, lo, hi, session);
      KeptStaysTimed(rows, lo, hi, session);
    }
  }

  /** A second tail never drops anything unless the session is too long to negate and zero and negative instants
      meet: then the second pass drops rows exactly when the window does not fit, the window of the tail does, and
      the tail reaches outside it. */
  lemma OnlyTheWindowDrops(rows: seq<Row>, from: int, to: int)
    requires Timed(rows)
    requires Negatable(Session(from, to)) || NoZeroTimes(rows) || NoNegativeTimes(rows)
    ensures var lo, hi, session := Lower(from, to), Upper(from, to), Session(from, to);
            var tail := TailOf(rows, session);
            SecondPassDrops(rows, Some(from), Some(to))
            <==> !Fits(WindowOf(rows, lo, hi), session) && Fits(WindowOf(tail, lo, hi), session)
                 && exists r <- tail :: r.t.Some? && !(lo - SKEW <= r.t.value <= hi + SKEW)
  {
    var lo, hi, session := Lower(from, to), Upper(from, to), Session(from, to);
    var cut := Cut(Latest(rows), session);
    var tail := TailOf(rows, session);
    KeepTwice(rows, NotBefore(cut));
    if Negatable(session) {
      LatestAfterCut(rows, cut);
      assert AllIn(tail, NotBefore(Cut(Latest(tail), session)));
    } else {
      TailIsNarrow(rows, session);
      assert WindowOf(tail, lo, hi) == [];
    }
  }

  // ---------------------------------------------------------------- a capture for which it happens

  lemma TimesOfTwo(a: Row, b: Row)
    requires a.t.Some? && b.t.Some? && 0 < a.t.value < b.t.value
    ensures Latest([a, b]) == b.t.value && Earliest([a, b]) == a.t.value
  {
    assert [a, b][..1] == [a];
    TimesOfOne(a);
  }

  lemma LatestOfThree(a: Row, b: Row, c: Row)
    requires a.t.Some? && b.t.Some? && c.t.Some? && 0 < a.t.value < b.t.value < c.t.value
    ensures Latest([a, b, c]) == c.t.value
  {
    assert [a, b, c][..2] == [a, b];
    TimesOfTwo(a, b);
  }

  /** Two rows in the window but too far apart, and one past it: the last two are kept. */
  lemma TwoOfThree(a: Row, b: Row, c: Row, at: int)
    requires a.t == Some(at - 20 * MINUTE) && b.t == Some(at + 29 * MINUTE) && c.t == Some(at + 31 * MINUTE)
    requires at == 1000 * MINUTE
    ensures KeptIn([a, b, c], at, at, 2 * MINUTE) == [b, c]
  {
    var q := InWindow(at - SKEW, at + SKEW);
    KeepThree(a, b, c, q);
    assert Keep([a, b, c], q) == [a, b];
    TimesOfTwo(a, b);
    assert !Fits([a, b], 2 * MINUTE);
    LatestOfThree(a, b, c);
    KeepThree(a, b, c, NotBefore(Cut(at + 31 * MINUTE, 2 * MINUTE)));
  }

  /** Of those two only the one in the window. */
  lemma OneOfTwo(b: Row, c: Row, at: int)
    requires b.t == Some(at + 29 * MINUTE) && c.t == Some(at + 31 * MINUTE) && at == 1000 * MINUTE
    ensures KeptIn([b, c], at, at, 2 * MINUTE) == [b]
  {
    var q := InWindow(at - SKEW, at + SKEW);
    KeepTwo(b, c, q);
    assert Keep([b, c], q) == [b];
    TimesOfOne(b);
  }

  /** Filtering again can drop more: the first pass keeps a tail that reaches past the window, the second accepts
      what of it lies inside. */
  lemma NotIdempotent() returns (rows: seq<Row>, at: int)
    ensures var once := Kept(rows, Some(at), Some(at));
            Kept(once, Some(at), Some(at)) != once
  {
    at := 1000 * MINUTE;
    var early := Row(Some(at - 20 * MINUTE), "");
    var inside := Row(Some(at + 29 * MINUTE), "");
    var outside := Row(Some(at + 31 * MINUTE), "");
    rows := [early, inside, outside];
    assert early in rows && inside in [inside, outside];
    TwoOfThree(early, inside, outside, at);
    OneOfTwo(inside, outside, at);
    assert Session(at, at) == 2 * MINUTE;
  }
}
