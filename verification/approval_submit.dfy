/** Submissions below the level of one call. CreateOrReusePending looks for a live
    request of the intent and inserts a new one in a second statement, outside any
    transaction. */
module ApprovalSubmit {
  import opened Approval
  import opened Options

  /** A submission whose look found nothing and which has not inserted yet. */
  datatype Missed = Missed(intent: Intent, expiresAt: Time)

  datatype Shared = Shared(rows: map<string, Request>, missed: map<nat, Missed>)

  datatype Step =
    | Look(call: nat, intent: Intent, expiresAt: Time, now: Time)
    | Insert(call: nat, newId: string, now: Time)
    | Settle(id: string, row: Request, now: Time)

  /** `Settle` is whatever reviews, expiries and reports do to one request: it keeps
      its intent and is no longer pending. */
  predicate Enabled(s: Shared, step: Step) {
    match step
    case Look(call, _, _, _) => call !in s.missed
    case Insert(call, newId, _) => call in s.missed && newId !in s.rows
    case Settle(id, row, _) => id in s.rows && row.intent == s.rows[id].intent && row.status != Pending
  }

  ghost function Apply(s: Shared, step: Step): Shared
    requires Enabled(s, step)
  {
    match step
    case Look(call, intent, expiresAt, now) =>
      if LiveFor(s.rows, intent, now) then s else s.(missed := s.missed[call := Missed(intent, expiresAt)])
    case Insert(call, newId, now) =>
      var Missed(intent, expiresAt) := s.missed[call];
      Shared(s.rows[newId := NewRequest(intent, expiresAt, now)], s.missed - {call})
    case Settle(id, row, _) => s.(rows := s.rows[id := row])
  }

  /** A submission whose two statements nothing comes between does what the service's
      method does in one step. */
  lemma SubmissionAlone(s: Shared, call: nat, intent: Intent, expiresAt: Time, newId: string, now: Time)
    requires call !in s.missed && newId !in s.rows
    ensures var s1 := Apply(s, Look(call, intent, expiresAt, now));
            if LiveFor(s.rows, intent, now) then s1 == s
            else
              && Enabled(s1, Insert(call, newId, now))
              && Apply(s1, Insert(call, newId, now))
                 == Shared(s.rows[newId := NewRequest(intent, expiresAt, now)], s.missed)
  {
    var s1 := Apply(s, Look(call, intent, expiresAt, now));
    assert call in s1.missed ==> s1.missed - {call} == s.missed;
  }

  /** No submission looks in vain while another of its intent is about to insert. */
  ghost predicate Alone(s: Shared, step: Step) {
    step.Look? && !LiveFor(s.rows, step.intent, step.now) ==>
      forall call :: call in s.missed ==> s.missed[call].intent != step.intent
  }

  /** At most one request of an intent is live, or about to be. */
  ghost predicate OnePerIntent(s: Shared, now: Time) {
    && OneLivePerIntent(s.rows, now)
    && (forall c :: c in s.missed ==> !LiveFor(s.rows, s.missed[c].intent, now))
    && (forall c, d :: c in s.missed && d in s.missed && s.missed[c].intent == s.missed[d].intent ==> c == d)
  }

  lemma OnePerIntentLater(s: Shared, now: Time, later: Time)
    requires OnePerIntent(s, now) && now <= later
    ensures OnePerIntent(s, later)
  {
    OneLiveLater(s.rows, now, later);
    forall c | c in s.missed ensures !LiveFor(s.rows, s.missed[c].intent, later) {
      NotLiveLater(s.rows, s.missed[c].intent, now, later);
    }
  }

  lemma NotLiveLater(rows: map<string, Request>, intent: Intent, now: Time, later: Time)
    requires !LiveFor(rows, intent, now) && now <= later
    ensures !LiveFor(rows, intent, later)
  {
    forall id | id in rows && rows[id].intent == intent ensures !Live(rows[id], later) {
      assert !Live(rows[id], now);
    }
  }

  lemma InsertKeepsOne(s: Shared, step: Step)
    requires step.Insert? && Enabled(s, step) && OnePerIntent(s, step.now)
    ensures OnePerIntent(Apply(s, step), step.now)
  {
    var s', now := Apply(s, step), step.now;
    var intent := s.missed[step.call].intent;
    var q := NewRequest(intent, s.missed[step.call].expiresAt, now);
    OneMoreRow(s.rows, step.newId, q, now);
    forall c | c in s'.missed ensures !LiveFor(s'.rows, s'.missed[c].intent, now) {
      assert c in s.missed && s.missed[c].intent != intent;
      OtherIntentStays(s.rows, step.newId, q, s.missed[c].intent, now);
    }
  }

  lemma OtherIntentStays(rows: map<string, Request>, id: string, q: Request, intent: Intent, now: Time)
    requires !LiveFor(rows, intent, now) && (q.intent != intent || !Live(q, now))
    ensures !LiveFor(rows[id := q], intent, now)
  {
    var rows' := rows[id := q];
    forall k | k in rows' && rows'[k].intent == intent ensures !Live(rows'[k], now) {
      if k != id {
        assert !Live(rows[k], now);
      }
    }
  }

  lemma SettleKeepsOne(s: Shared, step: Step)
    requires step.Settle? && Enabled(s, step) && OnePerIntent(s, step.now)
    ensures OnePerIntent(Apply(s, step), step.now)
  {
    var s' := Apply(s, step);
    FewerLive(s.rows, s'.rows, step.now);
    forall c | c in s'.missed ensures !LiveFor(s'.rows, s'.missed[c].intent, step.now) {
      OtherIntentStays(s.rows, step.id, step.row, s.missed[c].intent, step.now);
    }
  }

  lemma AloneStepKeepsOne(s: Shared, step: Step, clock: Time)
    requires OnePerIntent(s, clock) && Enabled(s, step) && Alone(s, step) && clock <= step.now
    ensures OnePerIntent(Apply(s, step), step.now)
  {
    OnePerIntentLater(s, clock, step.now);
    match step
    case Look(_, _, _, _) =>
    case Insert(_, _, _) => InsertKeepsOne(s, step);
    case Settle(_, _, _) => SettleKeepsOne(s, step);
  }

  /** The steps, one after another, with a clock that never runs backwards; None if
      one cannot be taken (or, on request, is not alone). */
  ghost function Run(s: Shared, steps: seq<Step>, clock: Time, alone: bool): Option<Shared>
    decreases |steps|
  {
    if steps == [] then Some(s)
    else if Enabled(s, steps[0]) && clock <= steps[0].now && (alone ==> Alone(s, steps[0])) then
      Run(Apply(s, steps[0]), steps[1..], steps[0].now, alone)
    else None
  }

  /** The time of the last step. */
  function End(steps: seq<Step>, clock: Time): Time {
    if steps == [] then clock else steps[|steps| - 1].now
  }

  const EMPTY := Shared(map[], map[])

  lemma EmptyHolds(clock: Time)
    ensures OnePerIntent(EMPTY, clock)
  {
  }

  /** ONE LIVE REQUEST. In every interleaving in which no submission looks in vain
      while another of its intent is about to insert, at most one request of an
      intent is live, when the run ends and at any time after. */
  lemma {:induction false} AloneRunsKeepOne(s: Shared, steps: seq<Step>, clock: Time, later: Time)
    requires OnePerIntent(s, clock) && Run(s, steps, clock, true).Some? && End(steps, clock) <= later
    ensures OneLivePerIntent(Run(s, steps, clock, true).value.rows, later)
    decreases |steps|
  {
    if steps == [] {
      OneLiveLater(s.rows, clock, later);
    } else {
      AloneStepKeepsOne(s, steps[0], clock);
      AloneRunsKeepOne(Apply(s, steps[0]), steps[1..], steps[0].now, later);
    }
  }

  /** The two new rows of one intent. */
  lemma TwoLive(rows: map<string, Request>, first: string, second: string, q: Request, r: Request, now: Time)
    requires first != second && q.intent == r.intent && Live(q, now) && Live(r, now)
    ensures !OneLivePerIntent(rows[first := q][second := r], now)
  {
    var rows' := rows[first := q][second := r];
    assert rows'[first] == q && rows'[second] == r;
  }

  lemma RunTwo(s: Shared, first: Step, second: Step, clock: Time)
    requires Enabled(s, first) && Enabled(Apply(s, first), second) && clock <= first.now <= second.now
    ensures Run(s, [first, second], clock, false) == Some(Apply(Apply(s, first), second))
  {
    var s1, s2 := Apply(s, first), Apply(Apply(s, first), second);
    assert [first, second][1..] == [second] && [second][1..] == [];
    assert Run(s2, [], second.now, false) == Some(s2);
    assert Run(s1, [second], first.now, false) == Some(s2);
  }

  /** EXACTLY THEN. Whenever a submission looks in vain while another of its intent is
      about to insert, both can insert, and if neither asked for an expiry that has
      passed, two live requests of the intent are left. */
  lemma NotAloneLeavesTwo(s: Shared, look: Step, first: string, second: string)
    returns (other: nat)
    requires look.Look? && Enabled(s, look) && !Alone(s, look)
    requires first !in s.rows && second !in s.rows && first != second
    ensures other in s.missed && s.missed[other].intent == look.intent
    ensures var steps := [Insert(other, first, look.now), Insert(look.call, second, look.now)];
            var end := Run(Apply(s, look), steps, look.now, false);
            && end.Some?
            && (InTime(look.expiresAt, look.now) && InTime(s.missed[other].expiresAt, look.now) ==>
                  !OneLivePerIntent(end.value.rows, look.now))
  {
    other :| other in s.missed && s.missed[other].intent == look.intent;
    var s1, now := Apply(s, look), look.now;
    var a, b := Insert(other, first, now), Insert(look.call, second, now);
    RunTwo(s1, a, b, now);
    var q, r := NewRequest(look.intent, s.missed[other].expiresAt, now), NewRequest(look.intent, look.expiresAt, now);
    assert Apply(Apply(s1, a), b).rows == s.rows[first := q][second := r];
    if InTime(look.expiresAt, now) && InTime(s.missed[other].expiresAt, now) {
      TwoLive(s.rows, first, second, q, r, now);
    }
  }

  /** A request asked for with this expiry is live when it is inserted. */
  predicate InTime(expiresAt: Time, now: Time) {
    expiresAt == ZERO_TIME || expiresAt > now
  }

  /** From an empty table: two equal submissions look before either inserts. */
  lemma TwoSubmissionsFromTheStart(intent: Intent, now: Time)
    ensures var look0, look1 := Look(0, intent, ZERO_TIME, now), Look(1, intent, ZERO_TIME, now);
            && Enabled(EMPTY, look0) && Enabled(Apply(EMPTY, look0), look1)
            && var end := Run(Apply(Apply(EMPTY, look0), look1), [Insert(0, "a", now), Insert(1, "b", now)], now, false);
               end.Some? && !OneLivePerIntent(end.value.rows, now)
  {
    var s0 := Apply(EMPTY, Look(0, intent, ZERO_TIME, now));
    var other := NotAloneLeavesTwo(s0, Look(1, intent, ZERO_TIME, now), "a", "b");
  }
}
