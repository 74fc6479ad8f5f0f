/** Every interleaving of callers of the clone cache ends, and ends with everyone answered. */
module FlattenProgress {
  import opened Basics
  import opened FlattenProtocol

  /** How many steps a stage is from the end. */
  function Left(stage: Stage): nat {
    match stage
    case Idle => 4
    case Leading(_) => 3
    case Cloning(_, _) => 2
    case Cloned(_, _) => 1
    case Waiting(_) => 1
    case Finished(_, _) => 0
  }

  function Work(stages: seq<Stage>): nat {
    if stages == [] then 0 else Left(stages[0]) + Work(stages[1..])
  }

  lemma {:induction false} WorkUpdate(stages: seq<Stage>, c: nat, stage: Stage)
    requires c < |stages|
    ensures Work(stages[c := stage]) == Work(stages) - Left(stages[c]) + Left(stage)
  {
    if c == 0 {
      assert stages[c := stage][1..] == stages[1..];
    } else {
      WorkUpdate(stages[1..], c - 1, stage);
      assert stages[c := stage][1..] == stages[1..][c - 1 := stage];
    }
  }

  lemma {:induction false} WorkBound(stages: seq<Stage>)
    ensures Work(stages) <= 4 * |stages|
  {
    if stages != [] { WorkBound(stages[1..]); }
  }

  /** The steps of a call itself: not what its clone writes meanwhile, nor what anyone asks. */
  predicate OfCall(e: Event) {
    !e.Write? && !e.Probe?
  }

  function Calls(es: seq<Event>): nat {
    if es == [] then 0 else (if OfCall(es[0]) then 1 else 0) + Calls(es[1..])
  }

  /** One step: a call's own brings it closer to the end, the others leave all calls where they are. */
  lemma StepWork(s: State, e: Event)
    requires Enabled(s, e)
    ensures (if OfCall(e) then 1 else 0) + Work(Step(s, e).stages) <= Work(s.stages)
  {
    if !e.Probe? { WorkUpdate(s.stages, e.c, Step(s, e).stages[e.c]); }
  }

  /** Every step of a call brings it closer to the end, so no run holds more than four a caller. */
  lemma {:induction false} RunsAreShort(s: State, es: seq<Event>)
    requires CanRun(s, es)
    ensures Calls(es) + Work(Run(s, es).stages) <= Work(s.stages)
    decreases |es|
  {
    if es != [] {
      StepWork(s, es[0]);
      RunsAreShort(Step(s, es[0]), es[1..]);
    }
  }

  /** No call can go on. */
  ghost predicate Stuck(s: State) {
    forall e :: OfCall(e) ==> !Enabled(s, e)
  }

  /** A caller that has not finished can move, or waits for one that can. */
  lemma SomeoneCanMove(s: State, c: nat) returns (e: Event)
    requires Inv(s) && c < |s.stages| && !s.stages[c].Finished?
    ensures OfCall(e) && Enabled(s, e)
  {
    assert CallerOk(s, c);
    match s.stages[c] {
      case Idle => e := Enter(c, false, false, false);
      case Leading(_) => e := StartClone(c, true);
      case Cloning(_, _) => e := EndClone(c, Some("interrupted"));
      case Cloned(_, _) => e := Publish(c);
      case Waiting(f) =>
        assert FlightOk(s, f);
        if s.flights[f].closed {
          e := Wake(c);
        } else {
          var l := s.flights[f].leader;
          assert CallerOk(s, l);
          e := if s.stages[l].Leading? then StartClone(l, true)
               else if s.stages[l].Cloning? then EndClone(l, Some("interrupted"))
               else Publish(l);
        }
    }
  }

  /** No deadlock: a run of n callers holds at most 4n steps of theirs, and one that cannot go on has answered all. */
  lemma EveryRunAnswersAll(s0: State, es: seq<Event>)
    requires Initial(s0) && CanRun(s0, es)
    ensures Calls(es) <= 4 * |s0.wants|
    ensures Stuck(Run(s0, es)) ==> forall c :: 0 <= c < |Run(s0, es).stages| ==> Run(s0, es).stages[c].Finished?
  {
    RunsAreShort(s0, es);
    WorkBound(s0.stages);
    RunKeepsInv(s0, es);
    var s := Run(s0, es);
    if Stuck(s) {
      forall c | 0 <= c < |s.stages| ensures s.stages[c].Finished? {
        if !s.stages[c].Finished? {
          var e := SomeoneCanMove(s, c);
        }
      }
    }
  }
}
