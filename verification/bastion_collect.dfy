/** Collecting metrics from all servers: one goroutine per server, a semaphore
    bounding how many collect at once, and a wait group for the caller. Every
    interleaving is a sequence of the steps below. */
module BastionCollect {

  /** Where the goroutine of one server stands. */
  datatype Phase = NotStarted | Waiting | Collecting | Holding | Released | Gone

  /** `sem` is how many slots of the semaphore channel are taken, `wait` the count
      of the wait group, `log` the servers in the order their collection ended. */
  datatype State = State(phases: seq<Phase>, started: nat, sem: nat, wait: int, log: seq<nat>, returned: bool)

  datatype Step = Spawn | Acquire(i: nat) | Finish(i: nat) | Release(i: nat) | Leave(i: nat) | Return

  function Start(servers: nat): State {
    State(seq(servers, _ => NotStarted), 0, 0, 0, [], false)
  }

  predicate At(s: State, i: nat, phase: Phase) {
    i < |s.phases| && s.phases[i] == phase
  }

  /** A step that can be taken: sending blocks on a full channel, receiving on an
      empty one, and waiting until the count is zero. */
  predicate Enabled(s: State, step: Step, max: nat) {
    match step
    case Spawn => s.started < |s.phases|
    case Acquire(i) => At(s, i, Waiting) && s.sem < max
    case Finish(i) => At(s, i, Collecting)
    case Release(i) => At(s, i, Holding) && s.sem > 0
    case Leave(i) => At(s, i, Released)
    case Return => s.started == |s.phases| && s.wait == 0 && !s.returned
  }

  function Take(s: State, step: Step, max: nat): State
    requires Enabled(s, step, max)
  {
    match step
    case Spawn =>
      s.(phases := s.phases[s.started := Waiting], started := s.started + 1, wait := s.wait + 1)
    case Acquire(i) => s.(phases := s.phases[i := Collecting], sem := s.sem + 1)
    case Finish(i) => s.(phases := s.phases[i := Holding], log := s.log + [i])
    case Release(i) => s.(phases := s.phases[i := Released], sem := s.sem - 1)
    case Leave(i) => s.(phases := s.phases[i := Gone], wait := s.wait - 1)
    case Return => s.(returned := true)
  }

  // ------------------------------------------------------------------ counting

  function HoldsSlot(phase: Phase): nat {
    if phase.Collecting? || phase.Holding? then 1 else 0
  }

  function IsOut(phase: Phase): nat {
    if phase.NotStarted? || phase.Gone? then 0 else 1
  }

  function IsCollected(phase: Phase): nat {
    if phase.Holding? || phase.Released? || phase.Gone? then 1 else 0
  }

  /** Steps the goroutine still has before it. */
  function StepsLeft(phase: Phase): nat {
    match phase
    case NotStarted => 5
    case Waiting => 4
    case Collecting => 3
    case Holding => 2
    case Released => 1
    case Gone => 0
  }

  function Sum(f: Phase -> nat, phases: seq<Phase>): nat {
    if phases == [] then 0 else f(phases[0]) + Sum(f, phases[1..])
  }

  lemma {:induction false} SumUpdate(f: Phase -> nat, phases: seq<Phase>, i: nat, phase: Phase)
    requires i < |phases|
    ensures Sum(f, phases[i := phase]) + f(phases[i]) == Sum(f, phases) + f(phase)
  {
    if i == 0 {
      assert phases[i := phase][1..] == phases[1..];
    } else {
      assert phases[i := phase][1..] == phases[1..][i - 1 := phase];
      SumUpdate(f, phases[1..], i - 1, phase);
    }
  }

  lemma {:induction false} SumBounds(f: Phase -> nat, phases: seq<Phase>, i: nat)
    requires i < |phases|
    ensures f(phases[i]) <= Sum(f, phases)
  {
    if i > 0 {
      SumBounds(f, phases[1..], i - 1);
    }
  }

  lemma {:induction false} SumOfFresh(f: Phase -> nat, n: nat, c: nat)
    requires f(NotStarted) == c
    ensures Sum(f, seq(n, _ => NotStarted)) == n * c
  {
    if n > 0 {
      assert seq(n, _ => NotStarted)[1..] == seq(n - 1, _ => NotStarted);
      SumOfFresh(f, n - 1, c);
    }
  }

  // ------------------------------------------------------------------ invariant

  ghost predicate Inv(s: State, max: nat) {
    && s.started <= |s.phases|
    && (forall i :: 0 <= i < |s.phases| ==> (s.phases[i].NotStarted? <==> i >= s.started))
    && CountsMatch(s, max)
    && (forall i: nat :: LogMatches(s, i))
    && (s.returned ==> s.wait == 0 && s.started == |s.phases|)
  }

  ghost predicate CountsMatch(s: State, max: nat) {
    s.sem == Sum(HoldsSlot, s.phases) <= max && s.wait == Sum(IsOut, s.phases)
  }

  /** The server is in the log once if its collection has ended, else not at all. */
  ghost predicate LogMatches(s: State, i: nat) {
    multiset(s.log)[i] == if i < |s.phases| then IsCollected(s.phases[i]) else 0
  }

  lemma StartHolds(servers: nat, max: nat)
    ensures Inv(Start(servers), max)
  {
    SumOfFresh(HoldsSlot, servers, 0);
    SumOfFresh(IsOut, servers, 0);
  }

  /** Every step keeps the invariant and uses up exactly one step. */
  lemma StepHolds(s: State, step: Step, max: nat)
    requires Inv(s, max) && Enabled(s, step, max)
    ensures Inv(Take(s, step, max), max)
    ensures Remaining(s) == Remaining(Take(s, step, max)) + 1
  {
    forall j: nat ensures LogMatches(Take(s, step, max), j) {
      StepKeepsLog(s, step, max, j);
    }
    StepKeepsCounts(s, step, max);
  }

  lemma StepKeepsCounts(s: State, step: Step, max: nat)
    requires CountsMatch(s, max) && Enabled(s, step, max)
    requires step.Spawn? ==> s.phases[s.started].NotStarted?
    ensures CountsMatch(Take(s, step, max), max)
    ensures Remaining(s) == Remaining(Take(s, step, max)) + 1
  {
    match step
    case Return =>
    case Spawn => PhaseMoves(s, s.started, Waiting);
    case Acquire(i) => PhaseMoves(s, i, Collecting);
    case Finish(i) => PhaseMoves(s, i, Holding);
    case Release(i) => PhaseMoves(s, i, Released);
    case Leave(i) => PhaseMoves(s, i, Gone);
  }

  lemma StepKeepsLog(s: State, step: Step, max: nat, j: nat)
    requires Inv(s, max) && Enabled(s, step, max)
    ensures LogMatches(Take(s, step, max), j)
  {
    assert LogMatches(s, j);
    if step.Finish? {
      assert multiset(s.log + [step.i]) == multiset(s.log) + multiset{step.i};
    }
  }

  lemma PhaseMoves(s: State, i: nat, phase: Phase)
    requires i < |s.phases|
    ensures var phases := s.phases[i := phase];
            && Sum(HoldsSlot, phases) + HoldsSlot(s.phases[i]) == Sum(HoldsSlot, s.phases) + HoldsSlot(phase)
            && Sum(IsOut, phases) + IsOut(s.phases[i]) == Sum(IsOut, s.phases) + IsOut(phase)
            && Sum(StepsLeft, phases) + StepsLeft(s.phases[i]) == Sum(StepsLeft, s.phases) + StepsLeft(phase)
  {
    SumUpdate(HoldsSlot, s.phases, i, phase);
    SumUpdate(IsOut, s.phases, i, phase);
    SumUpdate(StepsLeft, s.phases, i, phase);
  }

  function Remaining(s: State): nat {
    Sum(StepsLeft, s.phases) + (if s.returned then 0 else 1)
  }

  /** Until the wait returns, some step can always be taken: no deadlock. */
  lemma SomeStepIsEnabled(s: State, max: nat)
    requires max >= 1 && Inv(s, max) && !s.returned
    ensures exists step :: Enabled(s, step, max)
  {
    if s.started < |s.phases| {
      assert Enabled(s, Spawn, max);
    } else if i :| 0 <= i < |s.phases| && s.phases[i].Collecting? {
      assert Enabled(s, Finish(i), max);
    } else if i :| 0 <= i < |s.phases| && s.phases[i].Holding? {
      SumBounds(HoldsSlot, s.phases, i);
      assert Enabled(s, Release(i), max);
    } else if i :| 0 <= i < |s.phases| && s.phases[i].Released? {
      assert Enabled(s, Leave(i), max);
    } else if i :| 0 <= i < |s.phases| && s.phases[i].Waiting? {
      SumIsZero(HoldsSlot, s.phases);
      assert Enabled(s, Acquire(i), max);
    } else {
      SumIsZero(IsOut, s.phases);
      assert Enabled(s, Return, max);
    }
  }

  lemma {:induction false} SumIsZero(f: Phase -> nat, phases: seq<Phase>)
    requires forall i :: 0 <= i < |phases| ==> f(phases[i]) == 0
    ensures Sum(f, phases) == 0
  {
    if phases != [] {
      SumIsZero(f, phases[1..]);
    }
  }

  // ------------------------------------------------------------ interleavings

  /** The steps can be taken one after another. */
  predicate CanRun(s: State, steps: seq<Step>, max: nat)
    decreases |steps|
  {
    steps != [] ==> Enabled(s, steps[0], max) && CanRun(Take(s, steps[0], max), steps[1..], max)
  }

  function Run(s: State, steps: seq<Step>, max: nat): State
    requires CanRun(s, steps, max)
    decreases |steps|
  {
    if steps == [] then s else Run(Take(s, steps[0], max), steps[1..], max)
  }

  lemma {:induction false} RunHolds(s: State, steps: seq<Step>, max: nat)
    requires Inv(s, max) && CanRun(s, steps, max)
    ensures Inv(Run(s, steps, max), max)
    ensures Remaining(s) == Remaining(Run(s, steps, max)) + |steps|
    decreases |steps|
  {
    if steps != [] {
      StepHolds(s, steps[0], max);
      RunHolds(Take(s, steps[0], max), steps[1..], max);
    }
  }

  function InFlight(phases: seq<Phase>): nat {
    Sum((phase: Phase) => if phase.Collecting? then 1 else 0, phases)
  }

  lemma {:induction false} InFlightHoldSlots(phases: seq<Phase>)
    ensures InFlight(phases) <= Sum(HoldsSlot, phases)
  {
    var f := (phase: Phase) => if phase.Collecting? then 1 else 0;
    SumMonotone(f, HoldsSlot, phases);
  }

  lemma {:induction false} SumMonotone(f: Phase -> nat, g: Phase -> nat, phases: seq<Phase>)
    requires forall phase :: f(phase) <= g(phase)
    ensures Sum(f, phases) <= Sum(g, phases)
  {
    if phases != [] {
      SumMonotone(f, g, phases[1..]);
    }
  }

  /** In every interleaving at most `max` collections are in flight, the wait can
      only return when every server was collected exactly once, and it returns
      after exactly five steps per server and one more. */
  lemma EveryInterleaving(servers: nat, max: nat, steps: seq<Step>)
    requires max >= 1 && CanRun(Start(servers), steps, max)
    ensures var s := Run(Start(servers), steps, max);
            && |s.phases| == servers && InFlight(s.phases) <= max
            && (s.returned ==>
                  && |steps| == 5 * servers + 1
                  && (forall i :: 0 <= i < servers ==> s.phases[i] == Gone)
                  && (forall i: nat :: multiset(s.log)[i] == if i < servers then 1 else 0))
            && (!s.returned ==> |steps| <= 5 * servers && exists step :: Enabled(s, step, max))
  {
    StartHolds(servers, max);
    RunHolds(Start(servers), steps, max);
    SumOfFresh(StepsLeft, servers, 5);
    var s := Run(Start(servers), steps, max);
    SameServers(Start(servers), steps, max);
    InFlightHoldSlots(s.phases);
    if s.returned {
      forall i | 0 <= i < servers ensures s.phases[i] == Gone {
        SumBounds(IsOut, s.phases, i);
      }
      SumIsZero(StepsLeft, s.phases);
      forall i: nat ensures multiset(s.log)[i] == if i < servers then 1 else 0 {
        assert LogMatches(s, i);
      }
    } else {
      SomeStepIsEnabled(s, max);
    }
  }

  lemma {:induction false} SameServers(s: State, steps: seq<Step>, max: nat)
    requires CanRun(s, steps, max)
    ensures |Run(s, steps, max).phases| == |s.phases|
    decreases |steps|
  {
    if steps != [] {
      SameServers(Take(s, steps[0], max), steps[1..], max);
    }
  }
}
