/** What no interleaving of callers of the clone cache can break, and what its early answer is worth. */
module FlattenSafety {
  import opened Basics
  import opened FlattenProtocol

  /** In every reachable state, at most one caller is between registration and close for a snapshot. */
  lemma SingleFlight(s: State, c: nat, d: nat, f: nat, g: nat)
    requires Reachable(s) && c < |s.stages| && d < |s.stages| && |s.stages| == |s.wants|
    requires s.wants[c] == s.wants[d] && Leads(s.stages[c], f) && Leads(s.stages[d], g)
    ensures c == d && f == g
  {
    ReachableInv(s);
    assert CallerOk(s, c) && CallerOk(s, d);
    assert FlightOk(s, f) && FlightOk(s, g);
  }

  /** A snapshot is registered exactly while a caller leads a flight for it. */
  lemma InflightExactlyWhileLed(s: State, u: Uuid)
    requires Reachable(s)
    ensures |s.stages| == |s.wants|
    ensures u in s.inflight <==>
              exists c, f: nat :: 0 <= c < |s.stages| && s.wants[c] == u && Leads(s.stages[c], f)
  {
    ReachableInv(s);
    if u in s.inflight {
      var f := s.inflight[u];
      assert FlightOk(s, f);
      assert Leads(s.stages[s.flights[f].leader], f);
    }
    if c, f: nat :| 0 <= c < |s.stages| && s.wants[c] == u && Leads(s.stages[c], f) {
      assert CallerOk(s, c) && FlightOk(s, f);
    }
  }

  /** No waiter is left on a flight that is neither closed nor led. */
  lemma NoOrphanWaiter(s: State, c: nat)
    requires Reachable(s) && c < |s.stages| && s.stages[c].Waiting?
    ensures var f := s.stages[c].flight;
            f < |s.flights|
            && (s.flights[f].closed
                || (s.flights[f].leader < |s.stages| && Leads(s.stages[s.flights[f].leader], f)))
  {
    ReachableInv(s);
    assert CallerOk(s, c) && FlightOk(s, s.stages[c].flight);
  }

  /** A caller that waited has its own leader's error, and that leader led a flight for the same snapshot. */
  lemma WaiterGetsLeadersError(s: State, c: nat)
    requires Reachable(s) && c < |s.stages| && s.stages[c].Finished? && s.stages[c].via.Waited?
    ensures |s.stages| == |s.wants|
    ensures exists l: nat :: l < |s.stages| && s.wants[l] == s.wants[c]
              && s.stages[l].Finished? && s.stages[l].via == Led(s.stages[c].via.flight)
              && s.stages[l].answer.err == s.stages[c].answer.err
  {
    ReachableInv(s);
    var f := s.stages[c].via.flight;
    assert CallerOk(s, c) && FlightOk(s, f);
    var l := s.flights[f].leader;
    assert s.stages[l].via == Led(f);
  }

  // ---------------------------------------------------------------- what the early answer is worth

  /** A caller can be given the output path while that very output is still being written. */
  lemma AnswerDuringClone() returns (s: State)
    ensures Reachable(s) && |s.stages| == |s.wants| == 2 && s.wants[0] == s.wants[1]
    ensures s.stages[0] == Cloning(0, true)
    ensures s.stages[1] == Finished(Answer(OutPath(s.wants[1]), None), FromCache)
  {
    var s0 := State(["u", "u"], [Idle, Idle], map[], map[], [], {});
    var es := [Enter(0, false, false, true), StartClone(0, true), Write(0)];
    LeaderWrites(s0, es);
    var last := Enter(1, false, true, true);
    s := Step(Run(s0, es), last);
    RunOneMore(s0, es, last);
    assert CanRun(s0, es + [last]) && Run(s0, es + [last]) == s;
  }

  /** The first of two callers of a snapshot leads, clones, and has written. */
  lemma LeaderWrites(s0: State, es: seq<Event>)
    requires s0 == State(["u", "u"], [Idle, Idle], map[], map[], [], {})
    requires es == [Enter(0, false, false, true), StartClone(0, true), Write(0)]
    ensures Initial(s0) && CanRun(s0, es)
    ensures Run(s0, es) == State(["u", "u"], [Cloning(0, true), Idle], map[], map["u" := 0],
                                 [Flight("u", 0, false, "", None)], {OutPath("u")})
  {
    RunOneMore(s0, [], es[0]);
    assert [] + [es[0]] == es[..1];
    RunOneMore(s0, es[..1], es[1]);
    assert es[..1] + [es[1]] == es[..2];
    RunOneMore(s0, es[..2], es[2]);
    assert es[..2] + [es[2]] == es;
  }

  /** Step i is caller c entering. */
  predicate Enters(es: seq<Event>, i: nat, c: nat) {
    i < |es| && es[i].Enter? && es[i].c == c
  }

  /** Caller c enters and finds a usable file, in the cache or where the output belongs. */
  predicate Finds(s: State, e: Event, c: nat) {
    e.Enter? && e.c == c && c < |s.wants| && (e.outUsable || (e.cachedUsable && s.wants[c] in s.cache))
  }

  /** In a step of its own, flight or no flight: a caller is answered at once exactly when it finds a usable file. */
  lemma AnswersAtOnceExactly(s: State, e: Event)
    requires Enabled(s, e) && !e.Probe?
    ensures |Step(s, e).stages| == |s.stages|
    ensures var stage := Step(s, e).stages[e.c];
            stage.Finished? && stage.via == FromCache <==> Finds(s, e, e.c)
  {
  }

  ghost predicate FindsFile(s0: State, es: seq<Event>, i: nat, c: nat)
    requires CanRun(s0, es) && i < |es|
  {
    RunPrefix(s0, es, i);
    Finds(Run(s0, es[..i]), es[i], c)
  }

  /** A step that is not caller c's own leaves c where it is. */
  lemma StepOfOthers(s: State, e: Event, c: nat)
    requires Enabled(s, e) && c < |s.stages| && (e.Probe? || e.c != c)
    ensures Step(s, e).stages[c] == s.stages[c]
  {
  }

  lemma StepKeepsCallers(s: State, e: Event)
    requires Enabled(s, e)
    ensures |Step(s, e).stages| == |s.stages| && Step(s, e).wants == s.wants
  {
  }

  /** What one step does to caller c. */
  lemma StepOf(s: State, e: Event, c: nat)
    requires Enabled(s, e) && c < |s.stages|
    ensures var t := Step(s, e);
            && |t.stages| == |t.wants| == |s.stages|
            && (t.stages[c].Idle? <==> s.stages[c].Idle? && !(e.Enter? && e.c == c))
            && (t.stages[c].Finished? && t.stages[c].via == FromCache
                <==> (s.stages[c].Finished? && s.stages[c].via == FromCache) || Finds(s, e, c))
  {
    StepKeepsCallers(s, e);
    if e.Probe? || e.c != c { StepOfOthers(s, e, c); } else { AnswersAtOnceExactly(s, e); }
  }

  lemma EarlierStep(s0: State, es: seq<Event>, i: nat, c: nat)
    requires CanRun(s0, es) && i < |es| - 1
    ensures CanRun(s0, es[..|es| - 1])
    ensures FindsFile(s0, es[..|es| - 1], i, c) <==> FindsFile(s0, es, i, c)
    ensures Enters(es[..|es| - 1], i, c) <==> Enters(es, i, c)
  {
    RunPrefix(s0, es, |es| - 1);
    assert es[..|es| - 1][..i] == es[..i];
  }

  /** A caller is idle until it enters, once; and its answer comes from the cache exactly when entering it found a
      usable file. */
  lemma {:induction false} CacheAnswersExactly(s0: State, es: seq<Event>, c: nat)
    requires Initial(s0) && CanRun(s0, es) && c < |s0.stages|
    ensures var s := Run(s0, es);
            && |s.stages| == |s.wants| == |s0.stages|
            && (s.stages[c].Idle? <==> forall i :: 0 <= i < |es| ==> !Enters(es, i, c))
            && (s.stages[c].Finished? && s.stages[c].via == FromCache
                <==> exists i :: 0 <= i < |es| && FindsFile(s0, es, i, c))
    decreases |es|
  {
    if es != [] {
      var n := |es| - 1;
      RunPrefix(s0, es, n);
      assert es[..n + 1] == es;
      CacheAnswersExactly(s0, es[..n], c);
      forall i | 0 <= i < n
        ensures FindsFile(s0, es[..n], i, c) <==> FindsFile(s0, es, i, c)
        ensures Enters(es[..n], i, c) <==> Enters(es, i, c)
      {
        EarlierStep(s0, es, i, c);
      }
      StepOf(Run(s0, es[..n]), es[n], c);
      assert FindsFile(s0, es, n, c) <==> Finds(Run(s0, es[..n]), es[n], c);
      assert Enters(es, n, c) <==> es[n].Enter? && es[n].c == c;
    }
  }

  lemma EntersOnce(s0: State, es: seq<Event>, i: nat, j: nat, c: nat)
    requires Initial(s0) && CanRun(s0, es) && c < |s0.stages| && i < j < |es| && Enters(es, j, c)
    ensures !Enters(es, i, c)
  {
    RunPrefix(s0, es, j);
    CacheAnswersExactly(s0, es[..j], c);
    assert Enters(es[..j], i, c) <==> Enters(es, i, c);
  }

  /** Step i is caller c entering, in a state where `when` holds. */
  ghost predicate EntersWhen(s0: State, es: seq<Event>, i: nat, c: nat, when: State -> bool)
    requires CanRun(s0, es) && i < |es|
  {
    RunPrefix(s0, es, i);
    Enters(es, i, c) && when(Run(s0, es[..i]))
  }

  /** Over a whole run, whatever one asks of the state in which caller c entered: it held then and c found a usable
      file, exactly when it held then and c has its answer from the cache. */
  lemma EarlyAnswersExactly(s0: State, es: seq<Event>, c: nat, when: State -> bool)
    requires Initial(s0) && CanRun(s0, es) && c < |s0.stages|
    ensures |Run(s0, es).stages| == |s0.stages|
    ensures (exists i :: 0 <= i < |es| && FindsFile(s0, es, i, c) && EntersWhen(s0, es, i, c, when))
       <==> Run(s0, es).stages[c].Finished? && Run(s0, es).stages[c].via == FromCache
            && exists i :: 0 <= i < |es| && EntersWhen(s0, es, i, c, when)
  {
    CacheAnswersExactly(s0, es, c);
    forall i, j | 0 <= i < |es| && 0 <= j < |es| && FindsFile(s0, es, i, c) && EntersWhen(s0, es, j, c, when)
      ensures i == j
    {
      if i < j { EntersOnce(s0, es, i, j, c); }
      if j < i { EntersOnce(s0, es, j, i, c); }
    }
  }

  // ---------------------------------------------------------------- which path, and what is being done to it

  /** Every cached path is the output its snapshot belongs to, as in an empty cache. */
  ghost predicate CacheNamesOutputs(s: State) {
    forall u <- s.cache :: s.cache[u] == OutPath(u)
  }

  ghost predicate NamesOutput(s: State, c: nat) {
    c < |s.stages| == |s.wants| && s.stages[c].Finished? && s.stages[c].via == FromCache
    ==> s.stages[c].answer == Answer(OutPath(s.wants[c]), None)
  }

  lemma StepNamesOutputs(s: State, e: Event, c: nat)
    requires Enabled(s, e) && CacheNamesOutputs(s) && NamesOutput(s, c)
    ensures CacheNamesOutputs(Step(s, e)) && NamesOutput(Step(s, e), c)
  {
    StepKeepsCallers(s, e);
    if c < |s.stages| && (e.Probe? || e.c != c) { StepOfOthers(s, e, c); }
  }

  lemma {:induction false} RunNamesOutputs(s: State, es: seq<Event>, c: nat)
    requires CanRun(s, es) && CacheNamesOutputs(s) && NamesOutput(s, c)
    ensures CacheNamesOutputs(Run(s, es)) && NamesOutput(Run(s, es), c)
    decreases |es|
  {
    if es != [] {
      StepNamesOutputs(s, es[0], c);
      RunNamesOutputs(Step(s, es[0]), es[1..], c);
    }
  }

  /** The snapshot's flight is a clone under way that has written some of its output. */
  predicate BeingWritten(s: State, u: Uuid) {
    && u in s.inflight && s.inflight[u] < |s.flights|
    && var leader := s.flights[s.inflight[u]].leader;
       leader < |s.stages| && s.stages[leader] == Cloning(s.inflight[u], true)
  }

  /** Over a whole run: a caller entered while the output of its snapshot was being written and was handed the path
      of that very output, exactly when its entering found a usable file then. */
  lemma HandedWhileWrittenExactly(s0: State, es: seq<Event>, c: nat)
    requires Initial(s0) && CacheNamesOutputs(s0) && CanRun(s0, es) && c < |s0.stages|
    ensures |Run(s0, es).stages| == |s0.stages|
    ensures var written := (s: State) => BeingWritten(s, s0.wants[c]);
            (exists i :: 0 <= i < |es| && FindsFile(s0, es, i, c) && EntersWhen(s0, es, i, c, written))
            <==> Run(s0, es).stages[c] == Finished(Answer(OutPath(s0.wants[c]), None), FromCache)
                 && exists i :: 0 <= i < |es| && EntersWhen(s0, es, i, c, written)
  {
    var written := (s: State) => BeingWritten(s, s0.wants[c]);
    EarlyAnswersExactly(s0, es, c, written);
    RunNamesOutputs(s0, es, c);
    RunKeepsWants(s0, es);
  }

  lemma {:induction false} RunKeepsWants(s: State, es: seq<Event>)
    requires CanRun(s, es)
    ensures Run(s, es).wants == s.wants && |Run(s, es).stages| == |s.stages|
    decreases |es|
  {
    if es != [] {
      StepKeepsCallers(s, es[0]);
      RunKeepsWants(Step(s, es[0]), es[1..]);
    }
  }
}
