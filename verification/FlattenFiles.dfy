/** What becomes of a clone's output: a caller that finds it unusable removes it, even while it is being written,
    so a leader can report success for a file that is gone. */
module FlattenFiles {
  import opened Basics
  import opened FlattenProtocol
  import opened FlattenSafety

  /** The step writes the file. */
  predicate Writes(s: State, e: Event, path: string) {
    e.Write? && e.c < |s.wants| && OutPath(s.wants[e.c]) == path
  }

  /** The step is a caller that finds nothing usable and removes the file. */
  predicate Removes(s: State, e: Event, path: string) {
    && e.Enter? && e.c < |s.wants| && OutPath(s.wants[e.c]) == path && e.removed
    && !(s.wants[e.c] in s.cache && e.cachedUsable) && !e.outUsable
  }

  lemma StepOfFile(s: State, e: Event, path: string)
    requires Enabled(s, e)
    ensures path in Step(s, e).files <==> Writes(s, e, path) || (path in s.files && !Removes(s, e, path))
  {
  }

  ghost predicate WritesAt(s0: State, es: seq<Event>, i: nat, path: string)
    requires CanRun(s0, es) && i < |es|
  {
    RunPrefix(s0, es, i);
    Writes(Run(s0, es[..i]), es[i], path)
  }

  ghost predicate RemovesAt(s0: State, es: seq<Event>, i: nat, path: string)
    requires CanRun(s0, es) && i < |es|
  {
    RunPrefix(s0, es, i);
    Removes(Run(s0, es[..i]), es[i], path)
  }

  /** Nobody removes the file after step i. */
  ghost predicate LeftAlone(s0: State, es: seq<Event>, i: int, path: string)
    requires CanRun(s0, es)
  {
    forall j :: 0 <= j < |es| && i < j ==> !RemovesAt(s0, es, j, path)
  }

  /** The file was written, or there to begin with, and nobody has removed it since. */
  ghost predicate Kept(s0: State, es: seq<Event>, path: string)
    requires CanRun(s0, es)
  {
    || (path in s0.files && LeftAlone(s0, es, -1, path))
    || exists i :: 0 <= i < |es| && WritesAt(s0, es, i, path) && LeftAlone(s0, es, i, path)
  }

  lemma EarlierAt(s0: State, es: seq<Event>, i: nat, path: string)
    requires CanRun(s0, es) && i < |es| - 1
    ensures CanRun(s0, es[..|es| - 1])
    ensures WritesAt(s0, es[..|es| - 1], i, path) <==> WritesAt(s0, es, i, path)
    ensures RemovesAt(s0, es[..|es| - 1], i, path) <==> RemovesAt(s0, es, i, path)
  {
    RunPrefix(s0, es, |es| - 1);
    assert es[..|es| - 1][..i] == es[..i];
  }

  /** One step more: written now, or kept so far and not removed now. */
  lemma KeptOneMore(s0: State, es: seq<Event>, path: string)
    requires CanRun(s0, es) && es != [] && CanRun(s0, es[..|es| - 1])
    ensures Kept(s0, es, path) <==> WritesAt(s0, es, |es| - 1, path)
                                    || (Kept(s0, es[..|es| - 1], path) && !RemovesAt(s0, es, |es| - 1, path))
  {
    var n := |es| - 1;
    forall i | 0 <= i < n
      ensures WritesAt(s0, es[..n], i, path) <==> WritesAt(s0, es, i, path)
      ensures RemovesAt(s0, es[..n], i, path) <==> RemovesAt(s0, es, i, path)
    {
      EarlierAt(s0, es, i, path);
    }
    assert LeftAlone(s0, es, n, path);
    forall i | -1 <= i < n
      ensures LeftAlone(s0, es, i, path) <==> LeftAlone(s0, es[..n], i, path) && !RemovesAt(s0, es, n, path)
    {
    }
  }

  /** A file exists after a run exactly when it was kept. */
  lemma {:induction false} FileExactly(s0: State, es: seq<Event>, path: string)
    requires CanRun(s0, es)
    ensures path in Run(s0, es).files <==> Kept(s0, es, path)
    decreases |es|
  {
    if es != [] {
      var n := |es| - 1;
      RunPrefix(s0, es, n);
      assert es[..n + 1] == es;
      FileExactly(s0, es[..n], path);
      StepOfFile(Run(s0, es[..n]), es[n], path);
      KeptOneMore(s0, es, path);
    }
  }

  // ---------------------------------------------------------------- what a successful leader has

  /** The clone of this caller has written its output, or has ended well, or the caller has said so. */
  predicate HasWritten(stage: Stage) {
    || (stage.Cloning? && stage.wrote)
    || (stage.Cloned? && stage.err.None?)
    || (stage.Finished? && stage.via.Led? && stage.answer.err.None?)
  }

  /** ... and then its output is what it names. */
  lemma StepOfLeader(s: State, e: Event, c: nat)
    requires Enabled(s, e) && c < |s.stages|
    ensures Step(s, e).wants == s.wants && |Step(s, e).stages| == |s.stages|
    ensures HasWritten(Step(s, e).stages[c]) ==> HasWritten(s.stages[c]) || (e.Write? && e.c == c)
  {
    StepKeepsCallers(s, e);
    if e.Probe? || e.c != c { StepOfOthers(s, e, c); }
  }

  lemma {:induction false} LeaderWrote(s0: State, es: seq<Event>, c: nat)
    requires Initial(s0) && CanRun(s0, es) && c < |s0.stages|
    ensures Run(s0, es).wants == s0.wants && |Run(s0, es).stages| == |s0.stages|
    ensures HasWritten(Run(s0, es).stages[c])
        ==> exists i :: 0 <= i < |es| && WritesAt(s0, es, i, OutPath(s0.wants[c]))
    decreases |es|
  {
    if es != [] {
      var n := |es| - 1;
      var path := OutPath(s0.wants[c]);
      RunPrefix(s0, es, n);
      assert es[..n + 1] == es;
      LeaderWrote(s0, es[..n], c);
      StepOfLeader(Run(s0, es[..n]), es[n], c);
      if HasWritten(Run(s0, es[..n]).stages[c]) {
        var i :| 0 <= i < n && WritesAt(s0, es[..n], i, path);
        EarlierAt(s0, es, i, path);
      } else if HasWritten(Run(s0, es).stages[c]) {
        assert WritesAt(s0, es, n, path);
      }
    }
  }

  /** A leader that reports success has written its output, and the output still exists exactly when no caller has
      removed it since it was last written. */
  lemma LedAnswerHasFileExactly(s0: State, es: seq<Event>, c: nat)
    requires Initial(s0) && CanRun(s0, es) && c < |s0.stages| && |Run(s0, es).stages| == |s0.stages|
    requires var stage := Run(s0, es).stages[c]; stage.Finished? && stage.via.Led? && stage.answer.err.None?
    ensures var path := OutPath(s0.wants[c]);
            exists i :: 0 <= i < |es| && WritesAt(s0, es, i, path)
                        && (forall j :: i < j < |es| ==> !WritesAt(s0, es, j, path))
                        && (path in Run(s0, es).files <==> LeftAlone(s0, es, i, path))
  {
    var path := OutPath(s0.wants[c]);
    LeaderWrote(s0, es, c);
    FileExactly(s0, es, path);
    var w :| 0 <= w < |es| && WritesAt(s0, es, w, path);
    var i := LastWrite(s0, es, path, w);
    NoEarlierKeeps(s0, es, path, i);
  }

  /** The last write, at or after a given one. */
  lemma {:induction false} LastWrite(s0: State, es: seq<Event>, path: string, w: nat) returns (i: nat)
    requires CanRun(s0, es) && w < |es| && WritesAt(s0, es, w, path)
    ensures i < |es| && WritesAt(s0, es, i, path) && forall j :: i < j < |es| ==> !WritesAt(s0, es, j, path)
    decreases |es| - w
  {
    if j :| w < j < |es| && WritesAt(s0, es, j, path) {
      i := LastWrite(s0, es, path, j);
    } else {
      i := w;
    }
  }

  /** With i the last write, only what happens after it matters. */
  lemma NoEarlierKeeps(s0: State, es: seq<Event>, path: string, i: nat)
    requires CanRun(s0, es) && i < |es| && WritesAt(s0, es, i, path)
    requires forall j :: i < j < |es| ==> !WritesAt(s0, es, j, path)
    ensures Kept(s0, es, path) <==> LeftAlone(s0, es, i, path)
  {
    if Kept(s0, es, path) && !(path in s0.files && LeftAlone(s0, es, -1, path)) {
      var k :| 0 <= k < |es| && WritesAt(s0, es, k, path) && LeftAlone(s0, es, k, path);
      assert k <= i;
    }
  }

  /** A run in which the leader and its waiter are both told of success and the file is gone: the second caller
      removed it while it was being written. */
  lemma SuccessWithoutFile() returns (s: State)
    ensures Reachable(s) && |s.stages| == |s.wants| == 2 && s.wants[0] == s.wants[1]
    ensures s.stages[0] == Finished(Answer(OutPath(s.wants[0]), None), Led(0))
    ensures s.stages[1] == Finished(Answer(OutPath(s.wants[0]), None), Waited(0))
    ensures OutPath(s.wants[0]) !in s.files
  {
    var s0 := State(["u", "u"], [Idle, Idle], map[], map[], [], {});
    var es := [Enter(0, false, false, true), StartClone(0, true), Write(0)];
    LeaderWrites(s0, es);
    var joined := JoinsAndRemoves(Run(s0, es), Enter(1, false, false, true));
    var ended := EndsWell(joined, EndClone(0, None));
    var published := SaysSo(ended, Publish(0));
    ReachableNext(published, Wake(1));
    s := Step(published, Wake(1));
  }

  lemma JoinsAndRemoves(t: State, e: Event) returns (next: State)
    requires Reachable(t) && e == Enter(1, false, false, true)
    requires t == State(["u", "u"], [Cloning(0, true), Idle], map[], map["u" := 0],
                        [Flight("u", 0, false, "", None)], {OutPath("u")})
    ensures Reachable(next)
    ensures next == State(["u", "u"], [Cloning(0, true), Waiting(0)], map[], map["u" := 0],
                          [Flight("u", 0, false, "", None)], {})
  {
    ReachableNext(t, e);
    next := Step(t, e);
  }

  lemma EndsWell(t: State, e: Event) returns (next: State)
    requires Reachable(t) && e == EndClone(0, None)
    requires t == State(["u", "u"], [Cloning(0, true), Waiting(0)], map[], map["u" := 0],
                        [Flight("u", 0, false, "", None)], {})
    ensures Reachable(next) && next == t.(stages := [Cloned(0, None), Waiting(0)])
  {
    ReachableNext(t, e);
    next := Step(t, e);
  }

  lemma SaysSo(t: State, e: Event) returns (next: State)
    requires Reachable(t) && e == Publish(0)
    requires t == State(["u", "u"], [Cloned(0, None), Waiting(0)], map[], map["u" := 0],
                        [Flight("u", 0, false, "", None)], {})
    ensures Reachable(next) && next.wants == t.wants && next.files == {}
    ensures next.stages == [Finished(Answer(OutPath("u"), None), Led(0)), Waiting(0)]
    ensures next.flights == [Flight("u", 0, true, OutPath("u"), None)]
  {
    ReachableNext(t, e);
    next := Step(t, e);
  }
}
