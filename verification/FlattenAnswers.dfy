/** Whose output a successful call is handed: its own snapshot's, and one that was written for it. */
module FlattenAnswers {
  import opened Basics
  import opened Text
  import opened FlattenProtocol
  import opened FlattenSafety
  import opened FlattenFiles

  /** Snapshots share an output exactly when their identifiers are the same but for the braces around them. */
  lemma OutPathExactly(u: Uuid, v: Uuid)
    ensures OutPath(u) == OutPath(v) <==> TrimBraces(u) == TrimBraces(v)
  {
    var a, b := TrimBraces(u), TrimBraces(v);
    assert (a + ".raw")[..|a + ".raw"| - 4] == a && (b + ".raw")[..|b + ".raw"| - 4] == b;
  }

  // ---------------------------------------------------------------- which path a success names

  /** An answer names its own snapshot's output, but for a leader that failed, and a success has put it in the
      cache. */
  ghost predicate NamesOwn(s: State, c: nat)
    requires c < |s.stages| == |s.wants|
  {
    s.stages[c].Finished? ==>
      var Finished(answer, via) := s.stages[c];
      && answer.path == (if via.Led? && answer.err.Some? then "" else OutPath(s.wants[c]))
      && (answer.err.None? ==> s.wants[c] in s.cache)
  }

  ghost predicate FlightNames(s: State, f: nat)
    requires f < |s.flights|
  {
    s.flights[f].closed ==>
      && s.flights[f].path == OutPath(s.flights[f].uuid)
      && (s.flights[f].err.None? ==> s.flights[f].uuid in s.cache)
  }

  ghost predicate Named(s: State) {
    && |s.stages| == |s.wants| && CacheNamesOutputs(s)
    && (forall c :: 0 <= c < |s.stages| ==> NamesOwn(s, c))
    && (forall f :: 0 <= f < |s.flights| ==> FlightNames(s, f))
  }

  lemma CacheGrows(s: State, e: Event)
    requires Enabled(s, e)
    ensures s.cache.Keys <= Step(s, e).cache.Keys
  {
  }

  lemma FlightsNamed(s: State, e: Event, f: nat)
    requires Enabled(s, e) && Inv(s) && Named(s) && f < |Step(s, e).flights|
    ensures FlightNames(Step(s, e), f)
  {
    CacheGrows(s, e);
    if f < |s.flights| { assert FlightNames(s, f) && FlightOk(s, f); }
    if e.Publish? { assert CallerOk(s, e.c); }
  }

  lemma CallersNamed(s: State, e: Event, c: nat)
    requires Enabled(s, e) && Inv(s) && Named(s) && c < |s.stages|
    ensures |Step(s, e).stages| == |Step(s, e).wants| == |s.stages| && NamesOwn(Step(s, e), c)
  {
    StepKeepsCallers(s, e);
    CacheGrows(s, e);
    assert NamesOwn(s, c) && CallerOk(s, c);
    if e.Probe? || e.c != c {
      StepOfOthers(s, e, c);
    } else if e.Wake? {
      assert FlightNames(s, s.stages[c].flight);
    }
  }

  lemma StepNamed(s: State, e: Event)
    requires Enabled(s, e) && Inv(s) && Named(s)
    ensures Named(Step(s, e))
  {
    StepKeepsCallers(s, e);
    StepNamesOutputs(s, e, |s.stages|);
    forall c | 0 <= c < |s.stages| ensures NamesOwn(Step(s, e), c) { CallersNamed(s, e, c); }
    forall f | 0 <= f < |Step(s, e).flights| ensures FlightNames(Step(s, e), f) { FlightsNamed(s, e, f); }
  }

  lemma {:induction false} RunNamed(s: State, es: seq<Event>)
    requires Inv(s) && Named(s) && CanRun(s, es)
    ensures Named(Run(s, es))
    decreases |es|
  {
    if es != [] {
      StepKeepsInv(s, es[0]);
      StepNamed(s, es[0]);
      RunNamed(Step(s, es[0]), es[1..]);
    }
  }

  /** Over every run from an empty cache: a caller is answered with its own snapshot's output, a leader that failed
      with no path, and after a success the cache has the output too. */
  lemma AnswersNameOwn(s0: State, es: seq<Event>, c: nat)
    requires Initial(s0) && s0.cache == map[] && CanRun(s0, es) && c < |s0.stages|
    ensures |Run(s0, es).stages| == |s0.stages| && Run(s0, es).wants == s0.wants
    ensures Run(s0, es).stages[c].Finished? ==>
              var Finished(answer, via) := Run(s0, es).stages[c];
              && answer.path == (if via.Led? && answer.err.Some? then "" else OutPath(s0.wants[c]))
              && (answer.err.None? ==> s0.wants[c] in Run(s0, es).cache
                                       && Run(s0, es).cache[s0.wants[c]] == OutPath(s0.wants[c]))
  {
    RunKeepsWants(s0, es);
    RunNamed(s0, es);
    assert NamesOwn(Run(s0, es), c);
  }

  // ---------------------------------------------------------------- who wrote it

  /** Step i brings the file about. */
  ghost predicate AppearsAt(s0: State, es: seq<Event>, i: nat, path: string)
    requires CanRun(s0, es) && i < |es|
  {
    RunPrefix(s0, es, i);
    path !in Run(s0, es[..i]).files && path in Run(s0, es[..i + 1]).files
  }

  /** Only a clone of that snapshot brings an output about. */
  lemma OnlyItsOwnWrites(s0: State, es: seq<Event>, i: nat, u: Uuid)
    requires CanRun(s0, es) && i < |es| && AppearsAt(s0, es, i, OutPath(u))
    ensures es[i].Write? && es[i].c < |s0.wants| && TrimBraces(s0.wants[es[i].c]) == TrimBraces(u)
  {
    RunPrefix(s0, es, i);
    RunKeepsWants(s0, es[..i]);
    StepOfFile(Run(s0, es[..i]), es[i], OutPath(u));
    OutPathExactly(s0.wants[es[i].c], u);
  }

  /** A file that is there, and was not at first, has appeared. */
  lemma {:induction false} HasAppeared(s0: State, es: seq<Event>, k: nat, path: string) returns (i: nat)
    requires CanRun(s0, es) && k <= |es| && path !in s0.files
    requires CanRun(s0, es[..k]) && path in Run(s0, es[..k]).files
    ensures i < k && AppearsAt(s0, es, i, path)
  {
    RunPrefix(s0, es, k - 1);
    if path in Run(s0, es[..k - 1]).files {
      i := HasAppeared(s0, es, k - 1, path);
    } else {
      i := k - 1;
    }
  }

  lemma WrittenHasAppeared(s0: State, es: seq<Event>, w: nat, path: string) returns (i: nat)
    requires CanRun(s0, es) && w < |es| && WritesAt(s0, es, w, path) && path !in s0.files
    ensures i < |es| && AppearsAt(s0, es, i, path)
  {
    RunPrefix(s0, es, w);
    StepOfFile(Run(s0, es[..w]), es[w], path);
    i := HasAppeared(s0, es, w + 1, path);
  }

  /** Over every run from an empty cache and no files: a caller told of success was handed a path that a clone
      brought about, and no clone but of its own snapshot, up to braces, ever brought it about. */
  lemma SuccessWasWrittenForIt(s0: State, es: seq<Event>, c: nat)
    requires Initial(s0) && s0.cache == map[] && s0.files == {} && CanRun(s0, es) && c < |s0.stages|
    requires |Run(s0, es).stages| == |s0.stages|
    requires Run(s0, es).stages[c].Finished? && Run(s0, es).stages[c].answer.err.None?
    ensures var path := Run(s0, es).stages[c].answer.path;
            && (exists i :: 0 <= i < |es| && AppearsAt(s0, es, i, path))
            && (forall i :: 0 <= i < |es| && AppearsAt(s0, es, i, path) ==>
                  es[i].Write? && es[i].c < |s0.wants| && TrimBraces(s0.wants[es[i].c]) == TrimBraces(s0.wants[c]))
  {
    AnswersNameOwn(s0, es, c);
    var i := SomeoneWrote(s0, es, c);
    forall i | 0 <= i < |es| && AppearsAt(s0, es, i, OutPath(s0.wants[c]))
      ensures es[i].Write? && es[i].c < |s0.wants| && TrimBraces(s0.wants[es[i].c]) == TrimBraces(s0.wants[c])
    {
      OnlyItsOwnWrites(s0, es, i, s0.wants[c]);
    }
  }

  lemma SomeoneWrote(s0: State, es: seq<Event>, c: nat) returns (i: nat)
    requires Initial(s0) && s0.cache == map[] && s0.files == {} && CanRun(s0, es) && c < |s0.stages|
    requires |Run(s0, es).stages| == |s0.stages|
    requires Run(s0, es).stages[c].Finished? && Run(s0, es).stages[c].answer.err.None?
    ensures i < |es| && AppearsAt(s0, es, i, OutPath(s0.wants[c]))
  {
    var s := Run(s0, es);
    RunKeepsInv(s0, es);
    RunKeepsWants(s0, es);
    assert CallerOk(s, c);
    match s.stages[c].via {
      case FromCache => i := FoundHasAppeared(s0, es, c);
      case Led(f) => i := LedHasAppeared(s0, es, c);
      case Waited(f) =>
        assert FlightOk(s, f);
        i := LedHasAppeared(s0, es, s.flights[f].leader);
    }
  }

  lemma LedHasAppeared(s0: State, es: seq<Event>, l: nat) returns (i: nat)
    requires Initial(s0) && s0.files == {} && CanRun(s0, es) && l < |s0.stages|
    requires |Run(s0, es).stages| == |s0.stages| && HasWritten(Run(s0, es).stages[l])
    ensures i < |es| && AppearsAt(s0, es, i, OutPath(s0.wants[l]))
  {
    LeaderWrote(s0, es, l);
    var w :| 0 <= w < |es| && WritesAt(s0, es, w, OutPath(s0.wants[l]));
    i := WrittenHasAppeared(s0, es, w, OutPath(s0.wants[l]));
  }

  lemma FoundHasAppeared(s0: State, es: seq<Event>, c: nat) returns (i: nat)
    requires Initial(s0) && s0.cache == map[] && s0.files == {} && CanRun(s0, es) && c < |s0.stages|
    requires |Run(s0, es).stages| == |s0.stages|
    requires Run(s0, es).stages[c].Finished? && Run(s0, es).stages[c].via == FromCache
    ensures i < |es| && AppearsAt(s0, es, i, OutPath(s0.wants[c]))
  {
    CacheAnswersExactly(s0, es, c);
    var k :| 0 <= k < |es| && FindsFile(s0, es, k, c);
    RunPrefix(s0, es, k);
    RunKeepsWants(s0, es[..k]);
    RunNamed(s0, es[..k]);
    i := HasAppeared(s0, es, k, OutPath(s0.wants[c]));
  }

  /** Over every run from an empty cache and no files: what the cache names was written for that snapshot. */
  lemma CachedWasWritten(s0: State, es: seq<Event>, u: Uuid)
    requires Initial(s0) && s0.cache == map[] && s0.files == {} && CanRun(s0, es) && u in Run(s0, es).cache
    ensures exists i :: 0 <= i < |es| && AppearsAt(s0, es, i, Run(s0, es).cache[u])
    ensures Run(s0, es).cache[u] == OutPath(u)
  {
    RunNamed(s0, es);
    assert es[..|es|] == es;
    assert CacheNamesOutputs(Run(s0, es));
    var i := EntryHasAppeared(s0, es, |es|, u);
  }

  lemma {:induction false} EntryHasAppeared(s0: State, es: seq<Event>, k: nat, u: Uuid) returns (i: nat)
    requires Initial(s0) && s0.cache == map[] && s0.files == {} && CanRun(s0, es) && k <= |es|
    requires CanRun(s0, es[..k]) && u in Run(s0, es[..k]).cache
    ensures i < |es| && AppearsAt(s0, es, i, OutPath(u))
  {
    RunPrefix(s0, es, k - 1);
    var s, e := Run(s0, es[..k - 1]), es[k - 1];
    if u in s.cache {
      i := EntryHasAppeared(s0, es, k - 1, u);
    } else if e.Publish? {
      RunKeepsWants(s0, es[..k - 1]);
      RunKeepsWants(s0, es[..k]);
      var p := LedHasAppeared(s0, es[..k], e.c);
      i := p;
      SamePrefixAppears(s0, es, k, p, OutPath(u));
    } else {
      i := HasAppeared(s0, es, k - 1, OutPath(u));
    }
  }

  lemma SamePrefixAppears(s0: State, es: seq<Event>, k: nat, i: nat, path: string)
    requires CanRun(s0, es) && i < k <= |es| && CanRun(s0, es[..k]) && AppearsAt(s0, es[..k], i, path)
    ensures AppearsAt(s0, es, i, path)
  {
    assert es[..k][..i] == es[..i] && es[..k][..i + 1] == es[..i + 1];
  }
}
