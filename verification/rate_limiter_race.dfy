/** The limiter below the level of one call. Allow fetches the visitor under the
    table's lock and decides later under the visitor's own lock; the sweep can
    remove the visitor from the table in between. */
module RateLimiterRace {
  import opened SlidingWindow
  import opened Options

  /** A call that holds a visitor but not yet its lock. */
  datatype Waiting = Waiting(key: string, visitor: nat)

  /** Visitors are heap objects, so a removed one still has its list. `accepted`
      records every accepted request per key. */
  datatype Shared = Shared(
    visitors: map<string, nat>, lists: map<nat, seq<Time>>,
    waiting: map<nat, Waiting>, accepted: Table)

  datatype Step =
    | Lookup(call: nat, key: string, newId: nat)
    | Decide(call: nat, now: Time)
    | SweepKey(key: string, now: Time)

  predicate Enabled(s: Shared, step: Step, window: nat) {
    match step
    case Lookup(call, key, newId) => call !in s.waiting && (key !in s.visitors ==> newId !in s.lists)
    case Decide(call, _) => call in s.waiting && s.waiting[call].visitor in s.lists
    case SweepKey(key, now) =>
      key in s.visitors && s.visitors[key] in s.lists && Stale(s.lists[s.visitors[key]], now, window)
  }

  function Apply(s: Shared, step: Step, rate: nat, window: nat): Shared
    requires Enabled(s, step, window)
  {
    match step
    case Lookup(call, key, newId) =>
      if key in s.visitors then
        s.(waiting := s.waiting[call := Waiting(key, s.visitors[key])])
      else
        s.(visitors := s.visitors[key := newId], lists := s.lists[newId := []],
           waiting := s.waiting[call := Waiting(key, newId)])
    case Decide(call, now) =>
      var Waiting(key, visitor) := s.waiting[call];
      var requests := s.lists[visitor];
      s.(lists := s.lists[visitor := Kept(requests, now, rate, window)],
         waiting := s.waiting - {call},
         accepted := if Admits(requests, now, rate, window)
                     then s.accepted[key := Times(s.accepted, key) + [now]] else s.accepted)
    case SweepKey(key, _) => s.(visitors := s.visitors - {key})
  }

  /** The sweep leaves a visitor alone while a call on its key is under way. */
  predicate Polite(s: Shared, step: Step) {
    step.SweepKey? ==> forall call :: call in s.waiting ==> s.waiting[call].key != step.key
  }

  function ListOf(s: Shared, key: string): seq<Time> {
    if key in s.visitors && s.visitors[key] in s.lists then s.lists[s.visitors[key]] else []
  }

  ghost predicate Listed(s: Shared, key: string, rate: nat, window: nat, clock: Time) {
    Tracks(ListOf(s, key), Times(s.accepted, key), rate, window, clock)
  }

  /** Every visitor in use belongs to one key, and a waiting call holds the
      visitor its key has in the table. */
  ghost predicate Wired(s: Shared) {
    && (forall key :: key in s.visitors ==> s.visitors[key] in s.lists)
    && (forall k, l :: Separate(s.visitors, k, l))
    && (forall call :: call in s.waiting ==>
          s.waiting[call].key in s.visitors && s.visitors[s.waiting[call].key] == s.waiting[call].visitor)
  }

  ghost predicate Separate(visitors: map<string, nat>, k: string, l: string) {
    k in visitors && l in visitors && k != l ==> visitors[k] != visitors[l]
  }

  ghost predicate Inv(s: Shared, rate: nat, window: nat, clock: Time) {
    Wired(s) && forall key :: Listed(s, key, rate, window, clock)
  }

  const INITIAL := Shared(map[], map[], map[], map[])

  lemma InitialHolds(rate: nat, window: nat, clock: Time)
    ensures Inv(INITIAL, rate, window, clock)
  {
    forall key ensures Listed(INITIAL, key, rate, window, clock) {
    }
  }

  function TimeOf(step: Step, clock: Time): Time {
    if step.Lookup? then clock else step.now
  }

  /** A polite step touches the list of no other key than its own. */
  lemma PoliteStepIsLocal(s: Shared, step: Step, rate: nat, window: nat, key: string)
    requires Wired(s) && Enabled(s, step, window) && Polite(s, step)
    ensures Wired(Apply(s, step, rate, window))
    ensures var s' := Apply(s, step, rate, window);
            match step
            case Lookup(_, _, _) => ListOf(s', key) == ListOf(s, key) && s'.accepted == s.accepted
            case SweepKey(k, _) =>
              ListOf(s', key) == (if key == k then [] else ListOf(s, key)) && s'.accepted == s.accepted
            case Decide(call, now) =>
              if key == s.waiting[call].key then
                && ListOf(s, key) == s.lists[s.waiting[call].visitor]
                && ListOf(s', key) == Kept(ListOf(s, key), now, rate, window)
                && Times(s'.accepted, key) == (if Admits(ListOf(s, key), now, rate, window)
                                               then Times(s.accepted, key) + [now] else Times(s.accepted, key))
              else ListOf(s', key) == ListOf(s, key) && Times(s'.accepted, key) == Times(s.accepted, key)
  {
    var s' := Apply(s, step, rate, window);
    forall k, l ensures Separate(s'.visitors, k, l) {
      assert Separate(s.visitors, k, l);
    }
    if step.Decide? {
      assert Separate(s.visitors, key, s.waiting[step.call].key);
    }
  }

  lemma DecisionIsExact(s: Shared, call: nat, now: Time, rate: nat, window: nat, clock: Time)
    requires rate >= 1 && Inv(s, rate, window, clock) && call in s.waiting && clock <= now
    ensures var Waiting(key, visitor) := s.waiting[call];
            && visitor in s.lists
            && AnswerOf(s.lists[visitor], now, rate, window) == AnswerOf(Times(s.accepted, key), now, rate, window)
            && Apply(s, Decide(call, now), rate, window).accepted == Recorded(s.accepted, key, now, rate, window)
  {
    var key := s.waiting[call].key;
    assert Listed(s, key, rate, window, clock);
    SameRecent(ListOf(s, key), Times(s.accepted, key), rate, window, clock, now);
  }

  /** A polite step keeps every list in use in step with the full record, and a
      decision made in it is the one the reference limiter would make. */
  lemma PoliteStepDecidesExactly(s: Shared, step: Step, rate: nat, window: nat, clock: Time)
    requires rate >= 1 && Inv(s, rate, window, clock)
    requires Enabled(s, step, window) && Polite(s, step) && clock <= TimeOf(step, clock)
    ensures Inv(Apply(s, step, rate, window), rate, window, TimeOf(step, clock))
    ensures step.Decide? ==>
              var Waiting(key, visitor) := s.waiting[step.call];
              && AnswerOf(s.lists[visitor], step.now, rate, window)
                 == AnswerOf(Times(s.accepted, key), step.now, rate, window)
              && Apply(s, step, rate, window).accepted == Recorded(s.accepted, key, step.now, rate, window)
  {
    var s', now := Apply(s, step, rate, window), TimeOf(step, clock);
    PoliteStepIsLocal(s, step, rate, window, "");
    if step.Decide? {
      DecisionIsExact(s, step.call, now, rate, window, clock);
    }
    forall key ensures Listed(s', key, rate, window, now) {
      assert Listed(s, key, rate, window, clock);
      ListStaysListed(s, step, key, rate, window, clock);
    }
  }

  lemma ListStaysListed(s: Shared, step: Step, key: string, rate: nat, window: nat, clock: Time)
    requires rate >= 1 && Wired(s) && Listed(s, key, rate, window, clock)
    requires Enabled(s, step, window) && Polite(s, step) && clock <= TimeOf(step, clock)
    ensures Listed(Apply(s, step, rate, window), key, rate, window, TimeOf(step, clock))
  {
    var kept, all, now := ListOf(s, key), Times(s.accepted, key), TimeOf(step, clock);
    PoliteStepIsLocal(s, step, rate, window, key);
    TracksLater(kept, all, rate, window, clock, now);
    if step.SweepKey? && key == step.key {
      SweepTracks(kept, all, rate, window, clock, now);
    } else if step.Decide? && key == s.waiting[step.call].key {
      DecisionTracks(kept, all, rate, window, clock, now);
    }
  }

  /** The steps, one after another, with a clock that never runs backwards;
      None if a step cannot be taken (or, on request, is not polite). */
  function Run(s: Shared, steps: seq<Step>, rate: nat, window: nat, clock: Time, polite: bool): Option<Shared>
    decreases |steps|
  {
    if steps == [] then Some(s)
    else if Enabled(s, steps[0], window) && clock <= TimeOf(steps[0], clock) && (polite ==> Polite(s, steps[0])) then
      Run(Apply(s, steps[0], rate, window), steps[1..], rate, window, TimeOf(steps[0], clock), polite)
    else None
  }

  /** In every interleaving with a polite sweep, no window holds more than
      `rate` accepted requests of a key. */
  lemma {:induction false} PoliteRunsKeepTheLimit(s: Shared, steps: seq<Step>, rate: nat, window: nat, clock: Time,
                                                  key: string, end: Time)
    requires rate >= 1 && Inv(s, rate, window, clock)
    requires Run(s, steps, rate, window, clock, true).Some?
    ensures CountWithin(Times(Run(s, steps, rate, window, clock, true).value.accepted, key),
                        end - window, end) <= rate
    decreases |steps|
  {
    if steps == [] {
      assert Listed(s, key, rate, window, clock);
      NoWindowExceedsRate(Times(s.accepted, key), rate, window, end);
    } else {
      PoliteStepDecidesExactly(s, steps[0], rate, window, clock);
      PoliteRunsKeepTheLimit(Apply(s, steps[0], rate, window), steps[1..], rate, window,
                             TimeOf(steps[0], clock), key, end);
    }
  }

  // -------------------------------------------- what one rude sweep allows

  /** `n` further calls on the key, each looked up and decided at `now`. */
  function Burst(call: nat, key: string, newId: nat, now: Time, n: nat): seq<Step> {
    if n == 0 then [] else [Lookup(call, key, newId), Decide(call, now)] + Burst(call, key, newId, now, n - 1)
  }

  lemma StaleListAdmits(kept: seq<Time>, all: seq<Time>, rate: nat, window: nat, clock: Time, now: Time)
    requires Tracks(kept, all, rate, window, clock) && Stale(kept, now, window)
    ensures Recent(kept, now - window) == []
  {
    var d := |all| - |kept|;
    forall i | 0 <= i < |kept| ensures kept[i] <= now - window {
      assert kept[i] == all[d + i] && kept[|kept| - 1] == all[|all| - 1];
    }
    RecentAfterCut(kept, now - window, |kept|);
  }

  /** `n` requests, all at the same instant. */
  function Ticks(now: Time, n: nat): (r: seq<Time>)
    ensures |r| == n && forall i :: 0 <= i < n ==> r[i] == now
  {
    seq(n, _ => now)
  }

  /** One more call on a key whose list is `have` requests at `now`. */
  lemma OneMoreCall(s: Shared, call: nat, key: string, newId: nat, now: Time,
                    have: nat, rate: nat, window: nat)
    requires window >= 1 && have < rate
    requires call !in s.waiting && ListOf(s, key) == Ticks(now, have)
    requires if key in s.visitors then s.visitors[key] in s.lists else newId !in s.lists && have == 0
    ensures Enabled(s, Lookup(call, key, newId), window)
    ensures var s1 := Apply(s, Lookup(call, key, newId), rate, window);
            && Enabled(s1, Decide(call, now), window)
            && var s2 := Apply(s1, Decide(call, now), rate, window);
               && call !in s2.waiting
               && key in s2.visitors && s2.visitors[key] in s2.lists
               && ListOf(s2, key) == Ticks(now, have + 1)
               && Times(s2.accepted, key) == Times(s.accepted, key) + [now]
  {
    RecentAfterCut(Ticks(now, have), now - window, 0);
  }

  /** While the list of the key holds fewer than `rate` requests, all at `now`,
      every call of a burst is accepted. */
  lemma {:induction false} BurstIsAccepted(s: Shared, call: nat, key: string, newId: nat, now: Time,
                                           have: nat, n: nat, rate: nat, window: nat)
    requires window >= 1 && have + n <= rate
    requires call !in s.waiting && ListOf(s, key) == Ticks(now, have)
    requires if key in s.visitors then s.visitors[key] in s.lists else newId !in s.lists && have == 0
    ensures var end := Run(s, Burst(call, key, newId, now, n), rate, window, now, false);
            end.Some? && Times(end.value.accepted, key) == Times(s.accepted, key) + Ticks(now, n)
    decreases n
  {
    if n > 0 {
      var lookup, decide, rest := Lookup(call, key, newId), Decide(call, now), Burst(call, key, newId, now, n - 1);
      OneMoreCall(s, call, key, newId, now, have, rate, window);
      var s1 := Apply(s, lookup, rate, window);
      var s2 := Apply(s1, decide, rate, window);
      BurstIsAccepted(s2, call, key, newId, now, have + 1, n - 1, rate, window);
      RunTwo(s, s1, s2, lookup, decide, rest, rate, window, now, now);
      TicksFromFront(Times(s.accepted, key), now, n);
    }
  }

  lemma TicksFromFront(before: seq<Time>, now: Time, n: nat)
    requires n > 0
    ensures before + [now] + Ticks(now, n - 1) == before + Ticks(now, n)
  {
  }

  /** Two steps at the same time, and then the rest. */
  lemma RunTwo(s: Shared, s1: Shared, s2: Shared, first: Step, second: Step, rest: seq<Step>,
               rate: nat, window: nat, clock: Time, now: Time)
    requires Enabled(s, first, window) && s1 == Apply(s, first, rate, window)
    requires Enabled(s1, second, window) && s2 == Apply(s1, second, rate, window)
    requires clock <= now && TimeOf(first, clock) == now && TimeOf(second, now) == now
    ensures Run(s, [first, second] + rest, rate, window, clock, false) == Run(s2, rest, rate, window, now, false)
  {
    RunStep(s1, second, rest, rate, window, now);
    RunStep(s, first, [second] + rest, rate, window, clock);
    assert [first, second] + rest == [first] + ([second] + rest);
  }

  /** Prefixing one step to a run. */
  lemma RunStep(s: Shared, first: Step, rest: seq<Step>, rate: nat, window: nat, clock: Time)
    requires Enabled(s, first, window) && clock <= TimeOf(first, clock)
    ensures Run(s, [first] + rest, rate, window, clock, false)
            == Run(Apply(s, first, rate, window), rest, rate, window, TimeOf(first, clock), false)
  {
    assert ([first] + rest)[1..] == rest;
  }

  /** EXACTLY THEN. If the sweep removes a visitor while a call on its key is
      under way, some continuation accepts more than `rate` requests at one
      instant: the waiting call on the orphan, and `rate` more on its successor. */
  lemma RudeSweepBreaksTheLimit(s: Shared, sweep: Step, call: nat, newId: nat, rate: nat, window: nat, clock: Time)
    requires rate >= 1 && window >= 1 && Inv(s, rate, window, clock)
    requires sweep.SweepKey? && Enabled(s, sweep, window) && clock <= sweep.now
    requires call in s.waiting && s.waiting[call].key == sweep.key && newId !in s.lists
    ensures var steps := [sweep, Decide(call, sweep.now)] + Burst(call, sweep.key, newId, sweep.now, rate);
            && !Polite(s, sweep)
            && var end := Run(s, steps, rate, window, clock, false);
               end.Some? && CountWithin(Times(end.value.accepted, sweep.key), sweep.now - window, sweep.now) > rate
  {
    var key, now := sweep.key, sweep.now;
    assert Listed(s, key, rate, window, clock);
    StaleListAdmits(ListOf(s, key), Times(s.accepted, key), rate, window, clock, now);
    OrphanIsAccepted(s, sweep, call, newId, rate, window);
    var s1 := Apply(s, sweep, rate, window);
    OrphanThenBurst(s, s1, Apply(s1, Decide(call, now), rate, window), sweep, call, newId, rate, window, clock);
  }

  /** After the rude sweep the waiting call decides on a list no one else sees. */
  lemma OrphanIsAccepted(s: Shared, sweep: Step, call: nat, newId: nat, rate: nat, window: nat)
    requires rate >= 1 && sweep.SweepKey? && Enabled(s, sweep, window)
    requires call in s.waiting && s.waiting[call] == Waiting(sweep.key, s.visitors[sweep.key]) && newId !in s.lists
    requires Recent(s.lists[s.visitors[sweep.key]], sweep.now - window) == []
    ensures var s1 := Apply(s, sweep, rate, window);
            && Enabled(s1, Decide(call, sweep.now), window)
            && var s2 := Apply(s1, Decide(call, sweep.now), rate, window);
               && call !in s2.waiting && sweep.key !in s2.visitors && newId !in s2.lists
               && Times(s2.accepted, sweep.key) == Times(s.accepted, sweep.key) + [sweep.now]
  {
  }

  lemma OrphanThenBurst(s: Shared, s1: Shared, s2: Shared, sweep: Step, call: nat, newId: nat,
                        rate: nat, window: nat, clock: Time)
    requires rate >= 1 && window >= 1 && sweep.SweepKey? && clock <= sweep.now
    requires Enabled(s, sweep, window) && s1 == Apply(s, sweep, rate, window)
    requires Enabled(s1, Decide(call, sweep.now), window) && s2 == Apply(s1, Decide(call, sweep.now), rate, window)
    requires call !in s2.waiting && sweep.key !in s2.visitors && newId !in s2.lists
    requires Times(s2.accepted, sweep.key) == Times(s.accepted, sweep.key) + [sweep.now]
    ensures var steps := [sweep, Decide(call, sweep.now)] + Burst(call, sweep.key, newId, sweep.now, rate);
            var end := Run(s, steps, rate, window, clock, false);
            end.Some? && CountWithin(Times(end.value.accepted, sweep.key), sweep.now - window, sweep.now) > rate
  {
    var key, now := sweep.key, sweep.now;
    var burst := Burst(call, key, newId, now, rate);
    BurstIsAccepted(s2, call, key, newId, now, 0, rate, rate, window);
    RunTwo(s, s1, s2, sweep, Decide(call, now), burst, rate, window, clock, now);
    TooMany(Times(s.accepted, key), now, rate, window);
  }

  lemma TooMany(before: seq<Time>, now: Time, rate: nat, window: nat)
    requires window >= 1
    ensures CountWithin(before + [now] + Ticks(now, rate), now - window, now) > rate
  {
    CountOfTail(before + [now] + Ticks(now, rate), |before|, now, window);
  }

  lemma {:induction false} CountOfTail(all: seq<Time>, from: nat, now: Time, window: nat)
    requires window >= 1 && from <= |all|
    requires forall i :: from <= i < |all| ==> all[i] == now
    ensures CountWithin(all, now - window, now) >= |all| - from
  {
    if from < |all| {
      CountOfTail(all[..|all| - 1], from, now, window);
    }
  }

  /** FROM THE START. The shortest such run: a first call is looked up, the sweep
      removes its visitor, the call is accepted on the orphan, and `rate` more on
      the visitor that takes its place. */
  lemma LimitBreaksFromTheStart(key: string, rate: nat, window: nat, clock: Time, now: Time)
    requires rate >= 1 && window >= 1 && clock <= now
    ensures var steps := [Lookup(0, key, 0)] + ([SweepKey(key, now), Decide(0, now)] + Burst(0, key, 1, now, rate));
            var end := Run(INITIAL, steps, rate, window, clock, false);
            end.Some? && CountWithin(Times(end.value.accepted, key), now - window, now) > rate
  {
    var lookup := Lookup(0, key, 0);
    var rest := [SweepKey(key, now), Decide(0, now)] + Burst(0, key, 1, now, rate);
    InitialHolds(rate, window, clock);
    PoliteStepDecidesExactly(INITIAL, lookup, rate, window, clock);
    RudeSweepBreaksTheLimit(Apply(INITIAL, lookup, rate, window), SweepKey(key, now), 0, 1, rate, window, clock);
    RunStep(INITIAL, lookup, rest, rate, window, clock);
  }
}
