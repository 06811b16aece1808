/** Reviews below the level of one call. Approve and Reject read the request, check
    it, and write the verdict in a second statement that looks at nothing again. */
module ApprovalRace {
  import opened Approval
  import opened Options

  /** What a review that has passed its checks is about to write. */
  datatype Verdict = ToApprove | ToReject | ToExpire

  datatype Underway = Underway(reviewer: int, verdict: Verdict)

  /** One request, the reviews between their two statements, and how many reviews
      have been granted and written. */
  datatype Shared = Shared(row: Request, underway: map<nat, Underway>, granted: nat)

  datatype Step =
    | Begin(call: nat, reviewer: int, approve: bool, now: Time)
    | Finish(call: nat, now: Time)
    | Job(now: Time)
    | Report(status: Status)

  predicate Enabled(s: Shared, step: Step) {
    match step
    case Begin(call, _, _, _) => call !in s.underway
    case Finish(call, _) => call in s.underway
    case Job(_) => true
    case Report(status) => status != Pending
  }

  /** The verdict a review takes to its second statement, if it gets that far. */
  function VerdictOf(row: Request, step: Step): Option<Verdict>
    requires step.Begin?
  {
    match ReviewOf(row, step.reviewer, step.now)
    case Granted => Some(if step.approve then ToApprove else ToReject)
    case ApprovalExpired => if row.status == Pending then Some(ToExpire) else None
    case _ => None
  }

  function Write(row: Request, review: Underway, now: Time): Request {
    match review.verdict
    case ToApprove => row.(status := Approved, approvedBy := review.reviewer, approvedAt := Some(now))
    case ToReject => row.(status := Rejected, rejectedBy := review.reviewer, rejectedAt := Some(now))
    case ToExpire => row.(status := Expired)
  }

  function Apply(s: Shared, step: Step): Shared
    requires Enabled(s, step)
  {
    match step
    case Begin(call, reviewer, _, _) =>
      (match VerdictOf(s.row, step)
       case Some(verdict) => s.(underway := s.underway[call := Underway(reviewer, verdict)])
       case None => s)
    case Finish(call, now) =>
      Shared(Write(s.row, s.underway[call], now), s.underway - {call},
             s.granted + if s.underway[call].verdict == ToExpire then 0 else 1)
    case Job(now) => s.(row := ExpireOne(s.row, now))
    case Report(status) => s.(row := s.row.(status := status))
  }

  /** The call is under way and will write an approval or a rejection. */
  predicate Granting(s: Shared, call: nat) {
    call in s.underway && s.underway[call].verdict != ToExpire
  }

  /** The call is under way and will mark the request as expired. */
  predicate Expiring(s: Shared, call: nat) {
    call in s.underway && s.underway[call].verdict == ToExpire
  }

  // --------------------------------------------------------- rules for the steps

  /** No review is granted while another granted one is under way. */
  ghost predicate Serial(s: Shared, step: Step) {
    step.Begin? && ReviewOf(s.row, step.reviewer, step.now) == Granted ==> forall call :: !Granting(s, call)
  }

  /** No review finds the request expired while a granted one is under way, none is
      granted while an expiry is, and no caller reports a request as expired. */
  ghost predicate Apart(s: Shared, step: Step) {
    match step
    case Begin(_, _, _, _) =>
      var verdict := VerdictOf(s.row, step);
      && (verdict == Some(ToExpire) ==> forall call :: !Granting(s, call))
      && (verdict.Some? && verdict != Some(ToExpire) ==> forall call :: !Expiring(s, call))
    case Report(status) => status != Expired
    case _ => true
  }

  /** The request does not become expired while a granted review is under way. */
  ghost predicate Calm(s: Shared, step: Step)
    requires Enabled(s, step)
  {
    s.row.status != Expired && Apply(s, step).row.status == Expired ==> forall call :: !Granting(s, call)
  }

  datatype Rule = Any | Serially | ExpiryApart | Calmly

  ghost predicate Obeys(rule: Rule, s: Shared, step: Step)
    requires Enabled(s, step)
  {
    match rule
    case Any => true
    case Serially => Serial(s, step)
    case ExpiryApart => Apart(s, step)
    case Calmly => Calm(s, step)
  }

  /** The steps, one after another; None if one cannot be taken or breaks the rule. */
  ghost function Run(s: Shared, steps: seq<Step>, rule: Rule): Option<Shared>
    decreases |steps|
  {
    if steps == [] then Some(s)
    else if Enabled(s, steps[0]) && Obeys(rule, s, steps[0]) then Run(Apply(s, steps[0]), steps[1..], rule)
    else None
  }

  /** A new request, with no review under way. */
  predicate Fresh(s: Shared) {
    s.underway == map[] && s.granted == 0 && s.row.status == Pending && s.row.approvedAt.None? && s.row.rejectedAt.None?
  }

  /** A review whose two statements nothing comes between does what the service's
      methods do in one step. */
  lemma ReviewAlone(s: Shared, call: nat, reviewer: int, approve: bool, now: Time, id: string)
    requires call !in s.underway
    ensures var s1 := Apply(s, Begin(call, reviewer, approve, now));
            var s2 := if call in s1.underway then Apply(s1, Finish(call, now)) else s1;
            var review := ReviewOf(s.row, reviewer, now);
            && s2.underway == s.underway && s1.row == s.row
            && Approval.Reviewed(map[id := s.row], map[id := s2.row], id, reviewer, now,
                        if review == Granted then Success(s2.row) else Failure(Refused(review)), approve)
            && s2.granted == s.granted + if review == Granted then 1 else 0
  {
    var s1 := Apply(s, Begin(call, reviewer, approve, now));
    assert call in s1.underway ==> s1.underway - {call} == s.underway;
  }

  // ------------------------------------------------------- in every interleaving

  /** Whoever reviewed the request, or is about to, is not its requester. */
  ghost predicate NoSelfReview(s: Shared) {
    && (s.row.approvedAt.Some? ==> s.row.approvedBy != s.row.intent.requestedBy)
    && (s.row.rejectedAt.Some? ==> s.row.rejectedBy != s.row.intent.requestedBy)
    && (forall call :: Granting(s, call) ==> s.underway[call].reviewer != s.row.intent.requestedBy)
  }

  lemma StepKeepsNoSelfReview(s: Shared, step: Step)
    requires NoSelfReview(s) && Enabled(s, step)
    ensures NoSelfReview(Apply(s, step))
  {
    var s' := Apply(s, step);
    if step.Finish? && s.underway[step.call].verdict != ToExpire {
      assert Granting(s, step.call);
    }
    forall call | Granting(s', call) ensures s'.underway[call].reviewer != s'.row.intent.requestedBy {
      assert Granting(s, call) || (step.Begin? && call == step.call);
    }
  }

  /** In every interleaving no requester reviews their own request. */
  lemma {:induction false} NoOneReviewsTheirOwn(s: Shared, steps: seq<Step>, rule: Rule)
    requires NoSelfReview(s) && Run(s, steps, rule).Some?
    ensures NoSelfReview(Run(s, steps, rule).value)
    decreases |steps|
  {
    if steps != [] {
      StepKeepsNoSelfReview(s, steps[0]);
      NoOneReviewsTheirOwn(Apply(s, steps[0]), steps[1..], rule);
    }
  }

  // ------------------------------------------------------------ at most one review

  /** Nothing is written yet and at most one review is about to; or one review is
      written, and no other can be granted any more. */
  ghost predicate AtMostOne(s: Shared) {
    && (forall c, d :: Granting(s, c) && Granting(s, d) ==> c == d)
    && (if s.granted == 0 then s.row.approvedAt.None? && s.row.rejectedAt.None?
        else
          && s.granted == 1 && s.row.status != Pending
          && !(s.row.approvedAt.Some? && s.row.rejectedAt.Some?)
          && forall call :: !Granting(s, call))
  }

  lemma SerialStepKeepsAtMostOne(s: Shared, step: Step)
    requires AtMostOne(s) && Enabled(s, step) && Serial(s, step)
    ensures AtMostOne(Apply(s, step))
  {
    var s' := Apply(s, step);
    forall c, d | Granting(s', c) && Granting(s', d) ensures c == d {
      assert Granting(s, c) || (step.Begin? && c == step.call);
      assert Granting(s, d) || (step.Begin? && d == step.call);
    }
    if step.Finish? && s.underway[step.call].verdict != ToExpire {
      assert Granting(s, step.call);
      forall c ensures !Granting(s', c) {
        assert Granting(s', c) ==> Granting(s, c);
      }
    }
    forall c | s'.granted > 0 ensures !Granting(s', c) {
      assert Granting(s', c) ==> Granting(s, c) || step.Begin?;
    }
  }

  /** ONE REVIEW. In every interleaving in which no two granted reviews overlap, at
      most one is written, and the request never carries both an approval and a
      rejection. */
  lemma {:induction false} SerialRunsReviewOnce(s: Shared, steps: seq<Step>)
    requires AtMostOne(s) && Run(s, steps, Serially).Some?
    ensures var end := Run(s, steps, Serially).value;
            && AtMostOne(end) && end.granted <= 1
            && !(end.row.approvedAt.Some? && end.row.rejectedAt.Some?)
    decreases |steps|
  {
    if steps != [] {
      SerialStepKeepsAtMostOne(s, steps[0]);
      SerialRunsReviewOnce(Apply(s, steps[0]), steps[1..]);
    }
  }

  lemma RunTwo(s: Shared, first: Step, second: Step)
    requires Enabled(s, first) && Enabled(Apply(s, first), second)
    ensures Run(s, [first, second], Any) == Some(Apply(Apply(s, first), second))
  {
    assert [first, second][1..] == [second] && [second][1..] == [];
    assert Run(Apply(s, first), [second], Any) == Some(Apply(Apply(s, first), second));
  }

  /** EXACTLY THEN. Whenever a review is granted while another is under way, both
      can finish; if one approves and the other rejects, the request then carries
      both. */
  lemma OverlapReviewsTwice(s: Shared, begin: Step, other: nat, now: Time)
    requires begin.Begin? && Enabled(s, begin) && ReviewOf(s.row, begin.reviewer, begin.now) == Granted
    requires Granting(s, other)
    ensures !Serial(s, begin)
    ensures var s1 := Apply(s, begin);
            var end := Run(s1, [Finish(other, now), Finish(begin.call, now)], Any);
            && end.Some? && end.value.granted == s.granted + 2
            && ((s.underway[other].verdict == ToApprove) != begin.approve ==>
                  end.value.row.approvedAt.Some? && end.value.row.rejectedAt.Some?)
  {
    RunTwo(Apply(s, begin), Finish(other, now), Finish(begin.call, now));
  }

  /** From the start: two reviewers open one new request, one approves it and the
      other rejects it. */
  lemma BothVerdictsFromTheStart(s: Shared, approver: int, rejecter: int, now: Time)
    requires Fresh(s) && now > ZERO_TIME && s.row.expiresAt >= now
    requires approver != s.row.intent.requestedBy && rejecter != s.row.intent.requestedBy
    ensures var s1 := Apply(s, Begin(0, approver, true, now));
            && Enabled(s1, Begin(1, rejecter, false, now))
            && var end := Run(Apply(s1, Begin(1, rejecter, false, now)), [Finish(0, now), Finish(1, now)], Any);
               end.Some? && end.value.granted == 2
               && end.value.row.approvedAt.Some? && end.value.row.rejectedAt.Some?
  {
    var s1 := Apply(s, Begin(0, approver, true, now));
    OverlapReviewsTwice(s1, Begin(1, rejecter, false, now), 0, now);
  }

  // ----------------------------------------------------- reviews against expiry

  predicate CarriesReview(row: Request) {
    row.approvedAt.Some? || row.rejectedAt.Some?
  }

  /** A request that carries a review is not shown as expired, nor about to be; and
      no review and expiry are about to be written together. */
  ghost predicate ReviewStands(s: Shared) {
    && (CarriesReview(s.row) ==>
          s.row.status != Pending && s.row.status != Expired && forall call :: !Expiring(s, call))
    && (forall c, d :: !(Granting(s, c) && Expiring(s, d)))
  }

  lemma ApartStepKeepsReviews(s: Shared, step: Step)
    requires ReviewStands(s) && Enabled(s, step) && Apart(s, step)
    ensures ReviewStands(Apply(s, step))
  {
    var s' := Apply(s, step);
    forall c, d ensures !(Granting(s', c) && Expiring(s', d)) {
      assert !(Granting(s, c) && Expiring(s, d));
      if Granting(s', c) && !Granting(s, c) {
        assert VerdictOf(s.row, step).Some? && !Expiring(s, d);
      }
      if Expiring(s', d) && !Expiring(s, d) {
        assert VerdictOf(s.row, step) == Some(ToExpire) && !Granting(s, c);
      }
    }
    if step.Finish? {
      assert Granting(s, step.call) || Expiring(s, step.call);
    }
    forall c | CarriesReview(s'.row) ensures !Expiring(s', c) {
      assert step.Finish? ==> !(Granting(s, step.call) && Expiring(s, c));
      assert Expiring(s', c) ==> Expiring(s, c) || step.Begin?;
    }
  }

  /** A WRITTEN REVIEW STAYS. In every interleaving in which expiries and granted
      reviews are apart, no request that carries a review is marked expired. */
  lemma {:induction false} ApartRunsKeepReviews(s: Shared, steps: seq<Step>)
    requires ReviewStands(s) && Run(s, steps, ExpiryApart).Some?
    ensures var end := Run(s, steps, ExpiryApart).value;
            ReviewStands(end) && !(CarriesReview(end.row) && end.row.status == Expired)
    decreases |steps|
  {
    if steps != [] {
      ApartStepKeepsReviews(s, steps[0]);
      ApartRunsKeepReviews(Apply(s, steps[0]), steps[1..]);
    }
  }

  /** EXACTLY THEN. Whenever a review begins that is not apart, both calls can finish
      and leave a review on a request marked expired. */
  lemma NotApartLosesReview(s: Shared, begin: Step, now: Time) returns (steps: seq<Step>)
    requires begin.Begin? && Enabled(s, begin) && !Apart(s, begin)
    ensures var end := Run(Apply(s, begin), steps, Any);
            end.Some? && CarriesReview(end.value.row) && end.value.row.status == Expired
  {
    if VerdictOf(s.row, begin) == Some(ToExpire) {
      var other :| Granting(s, other);
      steps := [Finish(other, now), Finish(begin.call, now)];
      RunTwo(Apply(s, begin), steps[0], steps[1]);
    } else {
      var other :| Expiring(s, other);
      steps := [Finish(begin.call, now), Finish(other, now)];
      RunTwo(Apply(s, begin), steps[0], steps[1]);
    }
  }

  /** A review that found the request expired can still overwrite an approval that
      began before the expiry, although the reviews were serial. */
  lemma ExpiryCanOverwriteApproval(s: Shared, approver: int, late: int, before: Time, after: Time)
    requires Fresh(s) && ZERO_TIME < before <= s.row.expiresAt < after
    requires approver != s.row.intent.requestedBy && late != s.row.intent.requestedBy
    ensures var approve, expire := Begin(0, approver, true, before), Begin(1, late, true, after);
            && Serial(s, approve) && Serial(Apply(s, approve), expire)
            && Enabled(Apply(s, approve), expire)
            && var end := Run(Apply(Apply(s, approve), expire), [Finish(0, after), Finish(1, after)], Any);
               end.Some? && end.value.row.approvedAt.Some? && end.value.row.status == Expired
  {
    var s1 := Apply(s, Begin(0, approver, true, before));
    RunTwo(Apply(s1, Begin(1, late, true, after)), Finish(0, after), Finish(1, after));
  }

  /** No review is about to be written over an expiry. */
  ghost predicate ExpiryStands(s: Shared) {
    s.row.status == Expired ==> forall call :: !Granting(s, call)
  }

  lemma CalmStepKeepsExpiry(s: Shared, step: Step)
    requires ExpiryStands(s) && Enabled(s, step) && Calm(s, step)
    ensures ExpiryStands(Apply(s, step))
    ensures step.Finish? && Granting(s, step.call) ==> s.row.status != Expired
  {
    var s' := Apply(s, step);
    forall call | s'.row.status == Expired ensures !Granting(s', call) {
      assert !Granting(s, call);
    }
  }

  /** A WRITTEN EXPIRY STAYS. In every interleaving in which the request does not
      become expired while a granted review is under way, no review is ever written
      over an expiry. */
  lemma {:induction false} CalmRunsKeepExpiry(s: Shared, steps: seq<Step>)
    requires ExpiryStands(s) && Run(s, steps, Calmly).Some?
    ensures ExpiryStands(Run(s, steps, Calmly).value)
    decreases |steps|
  {
    if steps != [] {
      CalmStepKeepsExpiry(s, steps[0]);
      CalmRunsKeepExpiry(Apply(s, steps[0]), steps[1..]);
    }
  }

  /** EXACTLY THEN. Whenever the request becomes expired while a granted review is
      under way, that review can finish and undo the expiry. */
  lemma NotCalmUndoesExpiry(s: Shared, step: Step, now: Time) returns (call: nat)
    requires Enabled(s, step) && !Calm(s, step)
    ensures var s1 := Apply(s, step);
            && s1.row.status == Expired && Enabled(s1, Finish(call, now))
            && Apply(s1, Finish(call, now)).row.status in {Approved, Rejected}
  {
    call :| Granting(s, call);
  }

  /** Such a run from the start: a review is granted in time, the job marks the
      request as expired, and the review turns it into an approved one. Reviews were
      serial in it, and apart. */
  lemma ReviewCanUndoExpiry(s: Shared, approver: int, before: Time, after: Time)
    requires Fresh(s) && ZERO_TIME < before <= s.row.expiresAt < after && approver != s.row.intent.requestedBy
    ensures var s1 := Apply(s, Begin(0, approver, true, before));
            var s2 := Apply(s1, Job(after));
            && Serial(s, Begin(0, approver, true, before)) && Apart(s, Begin(0, approver, true, before))
            && s2.row.status == Expired && EffectiveStatus(s1.row, after) == Expired
            && Apply(s2, Finish(0, after)).row.status == Approved
  {
  }

  // ------------------------------------------------------------- new requests

  /** Everything above holds of a new request, whatever happens to it. */
  lemma NewRequestRuns(s: Shared, steps: seq<Step>, rule: Rule)
    requires Fresh(s) && Run(s, steps, rule).Some?
    ensures var end := Run(s, steps, rule).value;
            && NoSelfReview(end)
            && (rule == Serially ==> end.granted <= 1 && !(end.row.approvedAt.Some? && end.row.rejectedAt.Some?))
            && (rule == ExpiryApart ==> !(CarriesReview(end.row) && end.row.status == Expired))
            && (rule == Calmly ==> ExpiryStands(end))
  {
    NoOneReviewsTheirOwn(s, steps, rule);
    match rule
    case Any =>
    case Serially => SerialRunsReviewOnce(s, steps);
    case ExpiryApart => ApartRunsKeepReviews(s, steps);
    case Calmly => CalmRunsKeepExpiry(s, steps);
  }
}
