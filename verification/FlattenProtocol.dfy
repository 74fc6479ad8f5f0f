/** The single-flight protocol that flattens snapshot disks: any number of callers, one clone per snapshot
    at a time.  Each locked section is one step; a clone is its start, any number of writes of its output, and
    its end; and anyone may ask whether a usable output exists.  So every interleaving is a run of steps. */
module FlattenProtocol {
  import opened Basics
  import opened Text

  type Uuid = string
  datatype Answer = Answer(path: string, err: Option<string>)

  /** How a finished caller came by its answer. */
  datatype Via = FromCache | Led(flight: nat) | Waited(flight: nat)

  /** Where a caller is inside the call. */
  datatype Stage = Idle
                 | Leading(flight: nat)
                 | Cloning(flight: nat, wrote: bool)
                 | Cloned(flight: nat, err: Option<string>)
                 | Waiting(flight: nat)
                 | Finished(answer: Answer, via: Via)

  /** The record that waiters block on; `closed` is the closing of its channel. */
  datatype Flight = Flight(uuid: Uuid, leader: nat, closed: bool, path: string, err: Option<string>)

  /** `wants[c]` is the snapshot caller c asks for; `files` are the output files that exist. */
  datatype State = State(wants: seq<Uuid>, stages: seq<Stage>, cache: map<Uuid, string>,
                         inflight: map<Uuid, nat>, flights: seq<Flight>, files: set<string>)

  /** A step of caller c, with what the file system and the hypervisor tell it, or a question about a snapshot.
      `removed` says whether removing an unusable output succeeds. */
  datatype Event = Enter(c: nat, cachedUsable: bool, outUsable: bool, removed: bool)
                 | StartClone(c: nat, hasMedium: bool)
                 | Write(c: nat)
                 | EndClone(c: nat, failure: Option<string>)
                 | Publish(c: nat)
                 | Wake(c: nat)
                 | Probe(uuid: Uuid, cachedUsable: bool, outUsable: bool)

  function OutPath(u: Uuid): string {
    TrimBraces(u) + ".raw"
  }

  predicate Initial(s: State) {
    && |s.stages| == |s.wants| && s.flights == [] && s.inflight == map[]
    && forall c :: 0 <= c < |s.stages| ==> s.stages[c] == Idle
  }

  // ---------------------------------------------------------------- steps

  /** Only a file that exists is found usable. */
  predicate Plausible(s: State, u: Uuid, cachedUsable: bool, outUsable: bool) {
    && (cachedUsable && u in s.cache ==> s.cache[u] in s.files)
    && (outUsable ==> OutPath(u) in s.files)
  }

  /** A clone that succeeds has written its output. */
  predicate Enabled(s: State, e: Event) {
    && |s.stages| == |s.wants| && (!e.Probe? ==> e.c < |s.stages|)
    && match e
       case Enter(c, cachedUsable, outUsable, _) =>
         s.stages[c].Idle? && Plausible(s, s.wants[c], cachedUsable, outUsable)
       case StartClone(c, _) => s.stages[c].Leading?
       case Write(c) => s.stages[c].Cloning?
       case EndClone(c, failure) => s.stages[c].Cloning? && (failure.None? ==> s.stages[c].wrote)
       case Publish(c) => s.stages[c].Cloned? && s.stages[c].flight < |s.flights|
       case Wake(c) => s.stages[c].Waiting? && s.stages[c].flight < |s.flights|
                       && s.flights[s.stages[c].flight].closed
       case Probe(u, cachedUsable, outUsable) => u != "" && Plausible(s, u, cachedUsable, outUsable)
  }

  function Move(s: State, c: nat, stage: Stage): State
    requires c < |s.stages|
  {
    s.(stages := s.stages[c := stage])
  }

  /** Joining the flight under way, or registering a new one. */
  function JoinStep(s: State, c: nat): State
    requires c < |s.stages| == |s.wants|
  {
    var u := s.wants[c];
    if u in s.inflight then Move(s, c, Waiting(s.inflight[u]))
    else
      var f := |s.flights|;
      Move(s.(inflight := s.inflight[u := f], flights := s.flights + [Flight(u, c, false, "", None)]), c, Leading(f))
  }

  /** The first locked section: a usable cached or existing file; else an unusable output is removed, whoever may
      be writing it, and the caller joins or leads a flight. */
  function EnterStep(s: State, c: nat, cachedUsable: bool, outUsable: bool, removed: bool): State
    requires c < |s.stages| == |s.wants|
  {
    var u := s.wants[c];
    if u in s.cache && cachedUsable then Move(s, c, Finished(Answer(s.cache[u], None), FromCache))
    else if outUsable then
      Move(s.(cache := s.cache[u := OutPath(u)]), c, Finished(Answer(OutPath(u), None), FromCache))
    else JoinStep(if removed then s.(files := s.files - {OutPath(u)}) else s, c)
  }

  /** Asking for a usable output: a file found beside the cache enters it. */
  function ProbeStep(s: State, u: Uuid, cachedUsable: bool, outUsable: bool): State {
    if (u in s.cache && cachedUsable) || !outUsable then s else s.(cache := s.cache[u := OutPath(u)])
  }

  /** The second locked section: deregister, store the outcome, close the channel. */
  function PublishStep(s: State, c: nat): State
    requires Enabled(s, Publish(c))
  {
    var u := s.wants[c];
    var f, err := s.stages[c].flight, s.stages[c].err;
    var flight := s.flights[f].(closed := true, path := OutPath(u), err := err);
    var t := s.(inflight := s.inflight - {u}, flights := s.flights[f := flight],
                cache := if err.None? then s.cache[u := OutPath(u)] else s.cache);
    Move(t, c, Finished(Answer(if err.Some? then "" else OutPath(u), err), Led(f)))
  }

  function Step(s: State, e: Event): State
    requires Enabled(s, e)
  {
    match e
    case Enter(c, cachedUsable, outUsable, removed) => EnterStep(s, c, cachedUsable, outUsable, removed)
    case StartClone(c, hasMedium) =>
      var f := s.stages[c].flight;
      Move(s, c, if hasMedium then Cloning(f, false) else Cloned(f, Some("no disk medium found")))
    case Write(c) =>
      Move(s.(files := s.files + {OutPath(s.wants[c])}), c, Cloning(s.stages[c].flight, true))
    case EndClone(c, failure) => Move(s, c, Cloned(s.stages[c].flight, failure))
    case Publish(c) => PublishStep(s, c)
    case Wake(c) =>
      var f := s.stages[c].flight;
      Move(s, c, Finished(Answer(s.flights[f].path, s.flights[f].err), Waited(f)))
    case Probe(u, cachedUsable, outUsable) => ProbeStep(s, u, cachedUsable, outUsable)
  }

  ghost predicate CanRun(s: State, es: seq<Event>)
    decreases |es|
  {
    es == [] || (Enabled(s, es[0]) && CanRun(Step(s, es[0]), es[1..]))
  }

  ghost function Run(s: State, es: seq<Event>): State
    requires CanRun(s, es)
    decreases |es|
  {
    if es == [] then s else Run(Step(s, es[0]), es[1..])
  }

  /** A run is a shorter run and one more step. */
  lemma {:induction false} RunOneMore(s: State, es: seq<Event>, e: Event)
    ensures CanRun(s, es + [e]) <==> CanRun(s, es) && Enabled(Run(s, es), e)
    ensures CanRun(s, es + [e]) ==> Run(s, es + [e]) == Step(Run(s, es), e)
    decreases |es|
  {
    var all := es + [e];
    if es == [] {
      assert all == [e] && all[1..] == [];
    } else {
      assert all[1..] == es[1..] + [e] && all[0] == es[0];
      if Enabled(s, es[0]) { RunOneMore(Step(s, es[0]), es[1..], e); }
    }
  }

  /** Every prefix of a run is a run, and ends in the state before the next step. */
  lemma {:induction false} RunPrefix(s: State, es: seq<Event>, i: nat)
    requires CanRun(s, es) && i <= |es|
    ensures CanRun(s, es[..i])
    ensures i < |es| ==> CanRun(s, es[..i + 1]) && Enabled(Run(s, es[..i]), es[i])
                         && Run(s, es[..i + 1]) == Step(Run(s, es[..i]), es[i])
    decreases |es| - i
  {
    if i < |es| {
      RunPrefix(s, es, i + 1);
      assert es[..i + 1] == es[..i] + [es[i]];
      RunOneMore(s, es[..i], es[i]);
    } else {
      assert es[..i] == es;
    }
  }

  ghost predicate Reachable(s: State) {
    exists s0, es :: Initial(s0) && CanRun(s0, es) && Run(s0, es) == s
  }

  lemma ReachableNext(s: State, e: Event)
    requires Reachable(s) && Enabled(s, e)
    ensures Reachable(Step(s, e))
  {
    var s0, es :| Initial(s0) && CanRun(s0, es) && Run(s0, es) == s;
    RunOneMore(s0, es, e);
    assert CanRun(s0, es + [e]) && Run(s0, es + [e]) == Step(s, e);
  }

  // ---------------------------------------------------------------- the invariant

  /** The caller is between registering its flight and closing it. */
  predicate Leads(stage: Stage, f: nat) {
    (stage.Leading? || stage.Cloning? || stage.Cloned?) && stage.flight == f
  }

  ghost predicate FlightOk(s: State, f: nat)
    requires f < |s.flights| && |s.stages| == |s.wants|
  {
    var flight := s.flights[f];
    && flight.leader < |s.stages| && s.wants[flight.leader] == flight.uuid
    && (!flight.closed ==>
          && Leads(s.stages[flight.leader], f)
          && flight.uuid in s.inflight && s.inflight[flight.uuid] == f)
    && (flight.closed ==>
          && s.stages[flight.leader].Finished? && s.stages[flight.leader].via == Led(f)
          && s.stages[flight.leader].answer.err == flight.err)
  }

  ghost predicate CallerOk(s: State, c: nat)
    requires c < |s.stages| == |s.wants|
  {
    match s.stages[c]
    case Idle => true
    case Leading(f) => f < |s.flights| && s.flights[f].leader == c && !s.flights[f].closed
    case Cloning(f, _) => f < |s.flights| && s.flights[f].leader == c && !s.flights[f].closed
    case Cloned(f, _) => f < |s.flights| && s.flights[f].leader == c && !s.flights[f].closed
    case Waiting(f) => f < |s.flights| && s.flights[f].uuid == s.wants[c]
    case Finished(answer, via) =>
      match via
      case FromCache => answer.err.None?
      case Led(f) => f < |s.flights| && s.flights[f].leader == c && s.flights[f].closed
      case Waited(f) => f < |s.flights| && s.flights[f].uuid == s.wants[c] && s.flights[f].closed
                        && answer.err == s.flights[f].err
  }

  ghost predicate Inv(s: State) {
    && |s.stages| == |s.wants|
    && (forall f :: 0 <= f < |s.flights| ==> FlightOk(s, f))
    && (forall c :: 0 <= c < |s.stages| ==> CallerOk(s, c))
    && (forall u <- s.inflight :: s.inflight[u] < |s.flights|
          && s.flights[s.inflight[u]].uuid == u && !s.flights[s.inflight[u]].closed)
  }

  /** The files and the cache play no part in the invariant. */
  lemma OutsideInv(s: State, t: State)
    requires Inv(s) && t == s.(cache := t.cache, files := t.files)
    ensures Inv(t)
  {
    forall f | 0 <= f < |t.flights| ensures FlightOk(t, f) { assert FlightOk(s, f); }
    forall d | 0 <= d < |t.stages| ensures CallerOk(t, d) { assert CallerOk(s, d); }
  }

  lemma AnswerKeepsInv(s: State, c: nat, answer: Answer)
    requires Inv(s) && c < |s.stages| && s.stages[c].Idle? && answer.err.None?
    ensures Inv(Move(s, c, Finished(answer, FromCache)))
  {
    var t := Move(s, c, Finished(answer, FromCache));
    forall f | 0 <= f < |t.flights| ensures FlightOk(t, f) { assert FlightOk(s, f); }
    forall d | 0 <= d < |t.stages| ensures CallerOk(t, d) { assert CallerOk(s, d); }
  }

  lemma JoinKeepsInv(s: State, c: nat)
    requires Inv(s) && c < |s.stages| && s.stages[c].Idle?
    ensures Inv(JoinStep(s, c))
  {
    var t := JoinStep(s, c);
    forall f | 0 <= f < |t.flights| ensures FlightOk(t, f) {
      if f < |s.flights| { assert FlightOk(s, f); }
    }
    forall d | 0 <= d < |t.stages| ensures CallerOk(t, d) { assert CallerOk(s, d); }
  }

  lemma EnterKeepsInv(s: State, c: nat, cachedUsable: bool, outUsable: bool, removed: bool)
    requires Inv(s) && Enabled(s, Enter(c, cachedUsable, outUsable, removed))
    ensures Inv(EnterStep(s, c, cachedUsable, outUsable, removed))
  {
    var u := s.wants[c];
    var named := s.(cache := s.cache[u := OutPath(u)]);
    var cleared := if removed then s.(files := s.files - {OutPath(u)}) else s;
    OutsideInv(s, named);
    OutsideInv(s, cleared);
    if u in s.cache && cachedUsable {
      AnswerKeepsInv(s, c, Answer(s.cache[u], None));
    } else if outUsable {
      AnswerKeepsInv(named, c, Answer(OutPath(u), None));
    } else {
      JoinKeepsInv(cleared, c);
    }
  }

  lemma PublishKeepsInv(s: State, c: nat)
    requires Inv(s) && Enabled(s, Publish(c))
    ensures Inv(PublishStep(s, c))
  {
    var t := PublishStep(s, c);
    assert CallerOk(s, c) && FlightOk(s, s.stages[c].flight);
    forall f | 0 <= f < |t.flights| ensures FlightOk(t, f) { assert FlightOk(s, f); }
    forall d | 0 <= d < |t.stages| ensures CallerOk(t, d) { assert CallerOk(s, d); }
  }

  /** The steps that only move their own caller along. */
  lemma MoveKeepsInv(s: State, e: Event)
    requires Inv(s) && Enabled(s, e) && (e.StartClone? || e.Write? || e.EndClone? || e.Wake?)
    ensures Inv(Step(s, e))
  {
    var t := Step(s, e);
    assert CallerOk(s, e.c);
    forall f | 0 <= f < |t.flights| ensures FlightOk(t, f) { assert FlightOk(s, f); }
    forall d | 0 <= d < |t.stages| ensures CallerOk(t, d) { assert CallerOk(s, d); }
  }

  lemma ProbeKeepsInv(s: State, u: Uuid, cachedUsable: bool, outUsable: bool)
    requires Inv(s)
    ensures Inv(ProbeStep(s, u, cachedUsable, outUsable))
  {
    OutsideInv(s, ProbeStep(s, u, cachedUsable, outUsable));
  }

  lemma StepKeepsInv(s: State, e: Event)
    requires Inv(s) && Enabled(s, e)
    ensures Inv(Step(s, e))
  {
    match e {
      case Enter(c, a, b, r) => EnterKeepsInv(s, c, a, b, r);
      case Probe(u, a, b) => ProbeKeepsInv(s, u, a, b);
      case Publish(c) => PublishKeepsInv(s, c);
      case _ => MoveKeepsInv(s, e);
    }
  }

  lemma {:induction false} RunKeepsInv(s: State, es: seq<Event>)
    requires Inv(s) && CanRun(s, es)
    ensures Inv(Run(s, es))
    decreases |es|
  {
    if es != [] {
      StepKeepsInv(s, es[0]);
      RunKeepsInv(Step(s, es[0]), es[1..]);
    }
  }

  lemma ReachableInv(s: State)
    requires Reachable(s)
    ensures Inv(s)
  {
    var s0, es :| Initial(s0) && CanRun(s0, es) && Run(s0, es) == s;
    RunKeepsInv(s0, es);
  }
}
