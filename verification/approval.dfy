/** The approval life cycle: requests that expire by themselves, a background job
    that writes the expiry down, and the reviews that race with it. */
module Approval {
  import T = Text
  import opened Options

  type Time = int

  // The zero time of the source, before every clock reading.
  const ZERO_TIME: Time := 0
  const DAY: int := 86_400_000_000_000

  datatype Status =
    | Pending | Approved | Rejected | Expired | Executing | Completed | Failed | Canceled
    | Other(text: string)

  /** What makes two submissions the same approval intent, as it is stored. */
  datatype Intent = Intent(moduleName: string, action: string, resourceId: string, requestedBy: int, payload: string)

  datatype Request = Request(
    intent: Intent, status: Status, expiresAt: Time,
    approvedBy: int, approvedAt: Option<Time>,
    rejectedBy: int, rejectedAt: Option<Time>,
    boundTaskType: string, boundTaskId: string)

  /** The status a request is shown with. */
  function EffectiveStatus(r: Request, now: Time): Status {
    if r.status == Pending && r.expiresAt != ZERO_TIME && r.expiresAt <= now then Expired else r.status
  }

  /** The WHERE clause of List for a status filter. */
  predicate ListSelects(filter: Status, r: Request, now: Time) {
    match filter
    case Pending => r.status == filter && r.expiresAt > now
    case Expired => r.status == filter || (r.status == Pending && r.expiresAt <= now)
    case _ => r.status == filter
  }

  /** What the background job does to one row. */
  function ExpireOne(r: Request, now: Time): Request {
    if r.status == Pending && r.expiresAt <= now then r.(status := Expired) else r
  }

  /** A pending request is shown as pending before its expiry and as expired from it
      on; every other request is shown as it is. */
  lemma ShownPendingUntilExpiry(r: Request, now: Time)
    ensures r.status == Pending && r.expiresAt != ZERO_TIME ==>
              EffectiveStatus(r, now) == if now < r.expiresAt then Pending else Expired
    ensures r.status != Pending || r.expiresAt == ZERO_TIME ==> EffectiveStatus(r, now) == r.status
  {
  }

  datatype Review = Granted | RequesterCannotReview | ApprovalExpired | ApprovalNotPending

  /** The checks of Approve and Reject, in their order. */
  function ReviewOf(r: Request, reviewer: int, now: Time): Review {
    if r.intent.requestedBy == reviewer then RequesterCannotReview
    else if r.status == Expired then ApprovalExpired
    else if r.status != Pending then ApprovalNotPending
    else if r.expiresAt != ZERO_TIME && now > r.expiresAt then ApprovalExpired
    else Granted
  }

  // ------------------------------------------------- expiry, background and lazy

  /** A pending request without an expiry. Created requests always have one. */
  predicate NeverExpires(r: Request) {
    r.status == Pending && r.expiresAt == ZERO_TIME
  }

  /** List selects a row for exactly the status it is shown with, for every
      filter, iff the row is not a pending one without an expiry. */
  lemma ListShowsEffectiveStatus(r: Request, now: Time)
    requires now > ZERO_TIME
    ensures (forall filter :: ListSelects(filter, r, now) <==> EffectiveStatus(r, now) == filter) <==> !NeverExpires(r)
  {
    if NeverExpires(r) {
      assert !ListSelects(Pending, r, now) && EffectiveStatus(r, now) == Pending;
    }
  }

  /** The background job changes what no one is shown, now or later, iff the row
      is not a pending one without an expiry. */
  lemma ExpiryIsInvisible(r: Request, now: Time)
    requires now > ZERO_TIME
    ensures (forall later :: now <= later ==>
               EffectiveStatus(ExpireOne(r, now), later) == EffectiveStatus(r, later)) <==> !NeverExpires(r)
  {
    if NeverExpires(r) {
      assert EffectiveStatus(ExpireOne(r, now), now) != EffectiveStatus(r, now);
    }
  }

  /** A review is granted exactly to another user's request that is shown as
      pending, except at the very instant of expiry, when it is shown as expired
      and still granted. */
  lemma GrantedIffShownPending(r: Request, reviewer: int, now: Time)
    ensures (ReviewOf(r, reviewer, now) == Granted <==>
             r.intent.requestedBy != reviewer && EffectiveStatus(r, now) == Pending) <==>
            !(r.intent.requestedBy != reviewer && r.status == Pending &&
              r.expiresAt != ZERO_TIME && r.expiresAt == now)
  {
  }

  /** A review decides the same whether or not the job ran before it, except at
      the very instant of expiry: there the job's row refuses what the untouched
      row still grants. */
  lemma JobDoesNotChangeReviews(r: Request, reviewer: int, jobTime: Time, now: Time)
    requires ZERO_TIME < jobTime <= now
    ensures ReviewOf(ExpireOne(r, jobTime), reviewer, now) == ReviewOf(r, reviewer, now) <==>
            !(r.status == Pending && r.intent.requestedBy != reviewer && r.expiresAt <= jobTime &&
              (r.expiresAt == ZERO_TIME || r.expiresAt == now))
    ensures r.status == Pending && r.expiresAt != ZERO_TIME && r.expiresAt < now ==>
              && ReviewOf(r, reviewer, now) != Granted
              && ReviewOf(ExpireOne(r, jobTime), reviewer, now) != Granted
  {
  }

  // --------------------------------------------------------------------- service

  predicate Live(r: Request, now: Time) {
    r.status == Pending && r.expiresAt > now
  }

  /** No request is both approved and rejected, none is reviewed by its requester,
      a pending one carries no review, and every one can expire. */
  predicate Consistent(r: Request) {
    && r.expiresAt != ZERO_TIME
    && !(r.approvedAt.Some? && r.rejectedAt.Some?)
    && (r.approvedAt.Some? ==> r.approvedBy != r.intent.requestedBy)
    && (r.rejectedAt.Some? ==> r.rejectedBy != r.intent.requestedBy)
    && (r.status == Pending ==> r.approvedAt.None? && r.rejectedAt.None?)
  }

  ghost predicate OneLivePerIntent(rows: map<string, Request>, now: Time) {
    forall i, j ::
      (i in rows && j in rows && Live(rows[i], now) && Live(rows[j], now) && rows[i].intent == rows[j].intent) ==> i == j
  }

  /** A live request of the intent is in the table. */
  ghost predicate LiveFor(rows: map<string, Request>, intent: Intent, now: Time) {
    exists id :: id in rows && Live(rows[id], now) && rows[id].intent == intent
  }

  /** A new row keeps one live request per intent iff it is not live itself or its
      intent has none yet. */
  lemma OneMoreRow(rows: map<string, Request>, id: string, q: Request, now: Time)
    requires id !in rows
    ensures OneLivePerIntent(rows[id := q], now) <==>
            OneLivePerIntent(rows, now) && !(Live(q, now) && LiveFor(rows, q.intent, now))
  {
    var rows' := rows[id := q];
    if OneLivePerIntent(rows', now) {
      forall i, j | i in rows && j in rows && Live(rows[i], now) && Live(rows[j], now) && rows[i].intent == rows[j].intent
        ensures i == j
      {
        assert rows'[i] == rows[i] && rows'[j] == rows[j];
      }
      forall k | k in rows && Live(rows[k], now) && rows[k].intent == q.intent ensures !Live(q, now) {
        assert rows'[k] == rows[k] && rows'[id] == q && k != id;
      }
    }
  }

  /** Updating rows so that none becomes live keeps one live request per intent. */
  lemma FewerLive(rows: map<string, Request>, rows': map<string, Request>, now: Time)
    requires rows'.Keys == rows.Keys
    requires forall id :: id in rows' ==>
               rows'[id].intent == rows[id].intent && (Live(rows'[id], now) ==> Live(rows[id], now))
    ensures OneLivePerIntent(rows, now) ==> OneLivePerIntent(rows', now)
  {
  }

  /** The intent of a submission: its names are trimmed, its payload is not. */
  function Cleaned(raw: Intent): Intent {
    Intent(T.TrimSpace(raw.moduleName), T.TrimSpace(raw.action), T.TrimSpace(raw.resourceId), raw.requestedBy, raw.payload)
  }

  /** The request `create` inserts. */
  function NewRequest(intent: Intent, expiresAt: Time, now: Time): Request {
    Request(intent, Pending, if expiresAt == ZERO_TIME then now + DAY else expiresAt, 0, None, 0, None, "", "")
  }

  datatype ApprovalError = NotFound | Refused(review: Review) | DuplicateId

  /** The row is a pending request of this intent that has not expired. */
  predicate IsPendingFor(r: Request, raw: Intent, now: Time) {
    && r.status == Pending && r.expiresAt > now
    && r.intent.moduleName == T.TrimSpace(raw.moduleName) && r.intent.action == T.TrimSpace(raw.action)
    && r.intent.resourceId == T.TrimSpace(raw.resourceId)
    && r.intent.requestedBy == raw.requestedBy && r.intent.payload == raw.payload
  }

  /** One row more: pending, with the submitted intent, its expiry a day from now
      unless one was asked for, and no review or task. */
  ghost predicate IsNew(rows: map<string, Request>, rows': map<string, Request>, id: string,
                        raw: Intent, expiresAt: Time, now: Time) {
    && id in rows' && rows'.Keys == rows.Keys + {id} && (forall k :: k in rows && k != id ==> rows'[k] == rows[k])
    && var q := rows'[id];
       && q.status == Pending
       && q.intent.moduleName == T.TrimSpace(raw.moduleName) && q.intent.action == T.TrimSpace(raw.action)
       && q.intent.resourceId == T.TrimSpace(raw.resourceId)
       && q.intent.requestedBy == raw.requestedBy && q.intent.payload == raw.payload
       && (expiresAt != ZERO_TIME ==> q.expiresAt == expiresAt)
       && (expiresAt == ZERO_TIME ==> q.expiresAt == now + 24 * 60 * 60 * 1_000_000_000)
       && q.approvedAt.None? && q.rejectedAt.None? && q.boundTaskType == "" && q.boundTaskId == ""
  }

  /** What a review answers, in the order of its checks: the requester is turned away
      first, then an expired request, one that was marked so or whose expiry has
      passed, then any other that is not pending. */
  lemma ReviewAnswers(r: Request, reviewer: int, now: Time)
    ensures var past := r.status == Expired || (r.status == Pending && r.expiresAt != ZERO_TIME && r.expiresAt < now);
            && (ReviewOf(r, reviewer, now) == RequesterCannotReview <==> reviewer == r.intent.requestedBy)
            && (ReviewOf(r, reviewer, now) == ApprovalExpired <==> reviewer != r.intent.requestedBy && past)
            && (ReviewOf(r, reviewer, now) == ApprovalNotPending <==>
                reviewer != r.intent.requestedBy && !past && r.status != Pending)
            && (ReviewOf(r, reviewer, now) == Granted <==>
                reviewer != r.intent.requestedBy && !past && r.status == Pending)
  {
  }

  class Service {
    var rows: map<string, Request>
    ghost var clock: Time

    constructor (ghost now: Time)
      requires now > ZERO_TIME
      ensures Valid() && rows == map[] && clock == now
    {
      rows := map[];
      clock := now;
    }

    ghost predicate Valid()
      reads this
    {
      clock > ZERO_TIME && forall id :: id in rows ==> Consistent(rows[id])
    }

    /** Inserts a request without looking for a live one of its intent. */
    method Create(raw: Intent, expiresAt: Time, newId: string, now: Time)
      returns (r: Result<string, ApprovalError>)
      requires Valid() && clock <= now
      modifies this
      ensures Valid() && clock == now
      ensures if newId in old(rows) then r == Failure(DuplicateId) && rows == old(rows)
              else r == Success(newId) && IsNew(old(rows), rows, newId, raw, expiresAt, now)
      ensures r.Success? ==>
                rows == old(rows)[newId := NewRequest(Cleaned(raw), expiresAt, now)] &&
                (OneLivePerIntent(rows, now) <==>
                 && OneLivePerIntent(old(rows), now)
                 && !(Live(NewRequest(Cleaned(raw), expiresAt, now), now) && LiveFor(old(rows), Cleaned(raw), now)))
    {
      var intent := Cleaned(raw);
      clock := now;
      if newId in rows {
        return Failure(DuplicateId);
      }
      OneMoreRow(rows, newId, NewRequest(intent, expiresAt, now), now);
      rows := rows[newId := NewRequest(intent, expiresAt, now)];
      return Success(newId);
    }

    /** Returns the live request for the intent if there is one, and creates one
        otherwise. */
    method CreateOrReusePending(raw: Intent, expiresAt: Time, newId: string, now: Time)
      returns (r: Result<string, ApprovalError>, reused: bool)
      requires Valid() && clock <= now
      modifies this
      ensures Valid() && clock == now
      ensures reused <==> exists id :: id in old(rows) && IsPendingFor(old(rows)[id], raw, now)
      ensures reused ==>
                r.Success? && r.value in rows && IsPendingFor(rows[r.value], raw, now) && rows == old(rows)
      ensures !reused && newId in old(rows) ==> r == Failure(DuplicateId) && rows == old(rows)
      ensures !reused && newId !in old(rows) ==>
                r == Success(newId) && IsNew(old(rows), rows, newId, raw, expiresAt, now)
      ensures OneLivePerIntent(rows, now) <==> OneLivePerIntent(old(rows), now)
    {
      var intent := Cleaned(raw);
      clock := now;
      if id :| id in rows && Live(rows[id], now) && rows[id].intent == intent {
        return Success(id), true;
      }
      r := Create(raw, expiresAt, newId, now);
      reused := false;
    }

    /** One background pass. */
    method ExpirePending(now: Time) returns (count: nat)
      requires Valid() && clock <= now
      modifies this
      ensures Valid() && clock == now
      ensures rows == map id | id in old(rows) :: ExpireOne(old(rows)[id], now)
      ensures forall id :: id in rows ==>
                rows[id] == if old(rows)[id].status == Pending && old(rows)[id].expiresAt <= now
                            then old(rows)[id].(status := Expired) else old(rows)[id]
      ensures count == |set id | id in old(rows) && ExpireOne(old(rows)[id], now) != old(rows)[id]|
      ensures forall id, later :: id in rows && now <= later ==>
                EffectiveStatus(rows[id], later) == EffectiveStatus(old(rows)[id], later)
      ensures OneLivePerIntent(old(rows), now) ==> OneLivePerIntent(rows, now)
    {
      count := |set id | id in rows && ExpireOne(rows[id], now) != rows[id]|;
      rows := map id | id in rows :: ExpireOne(rows[id], now);
      clock := now;
    }

    method Approve(rawId: string, reviewer: int, now: Time) returns (r: Result<Request, ApprovalError>)
      requires Valid() && clock <= now
      modifies this
      ensures Valid() && clock == now
      ensures Reviewed(old(rows), rows, T.TrimSpace(rawId), reviewer, now, r, true)
      ensures r.Success? ==>
                && r.value.status == Approved && r.value.approvedBy == reviewer && r.value.approvedAt == Some(now)
                && r.value.rejectedAt.None? && rows == old(rows)[T.TrimSpace(rawId) := r.value]
      ensures OneLivePerIntent(old(rows), now) ==> OneLivePerIntent(rows, now)
    {
      r := ReviewRequest(T.TrimSpace(rawId), reviewer, now, true);
    }

    method Reject(rawId: string, reviewer: int, now: Time) returns (r: Result<Request, ApprovalError>)
      requires Valid() && clock <= now
      modifies this
      ensures Valid() && clock == now
      ensures Reviewed(old(rows), rows, T.TrimSpace(rawId), reviewer, now, r, false)
      ensures r.Success? ==>
                && r.value.status == Rejected && r.value.rejectedBy == reviewer && r.value.rejectedAt == Some(now)
                && r.value.approvedAt.None? && rows == old(rows)[T.TrimSpace(rawId) := r.value]
      ensures OneLivePerIntent(old(rows), now) ==> OneLivePerIntent(rows, now)
    {
      r := ReviewRequest(T.TrimSpace(rawId), reviewer, now, false);
    }

    /** What Approve and Reject have in common; they differ in the columns written. */
    method ReviewRequest(id: string, reviewer: int, now: Time, approve: bool) returns (r: Result<Request, ApprovalError>)
      requires Valid() && clock <= now
      modifies this
      ensures Valid() && clock == now
      ensures Reviewed(old(rows), rows, id, reviewer, now, r, approve)
      ensures OneLivePerIntent(old(rows), now) ==> OneLivePerIntent(rows, now)
    {
      clock := now;
      if id !in rows {
        return Failure(NotFound);
      }
      var request := rows[id];
      if request.intent.requestedBy == reviewer {
        return Failure(Refused(RequesterCannotReview));
      }
      if request.status == Expired {
        return Failure(Refused(ApprovalExpired));
      }
      if request.status != Pending {
        return Failure(Refused(ApprovalNotPending));
      }
      if request.expiresAt != ZERO_TIME && now > request.expiresAt {
        rows := rows[id := request.(status := Expired)];
        return Failure(Refused(ApprovalExpired));
      }
      if approve {
        request := request.(status := Approved, approvedBy := reviewer, approvedAt := Some(now));
      } else {
        request := request.(status := Rejected, rejectedBy := reviewer, rejectedAt := Some(now));
      }
      rows := rows[id := request];
      return Success(request);
    }

    /** Callers report executing, completed or failed; none writes pending back,
        and while none does, the requests stay consistent. */
    method UpdateExecutionResult(rawId: string, status: Status, boundTaskType: string, boundTaskId: string)
      requires Valid()
      modifies this`rows
      ensures status != Pending ==>
                Valid() && (OneLivePerIntent(old(rows), clock) ==> OneLivePerIntent(rows, clock))
      ensures var id := T.TrimSpace(rawId);
              rows == if id in old(rows) then
                        old(rows)[id := old(rows)[id].(status := status,
                                                       boundTaskType := T.TrimSpace(boundTaskType),
                                                       boundTaskId := T.TrimSpace(boundTaskId))]
                      else old(rows)
    {
      var id := T.TrimSpace(rawId);
      if id in rows {
        rows := rows[id := rows[id].(status := status, boundTaskType := T.TrimSpace(boundTaskType),
                                     boundTaskId := T.TrimSpace(boundTaskId))];
      }
    }

    method UpdateBoundTaskResult(boundTaskType: string, boundTaskId: string, status: Status)
      requires Valid()
      modifies this`rows
      ensures status != Pending ==>
                Valid() && (OneLivePerIntent(old(rows), clock) ==> OneLivePerIntent(rows, clock))
      ensures rows == ReportAll(old(rows), T.TrimSpace(boundTaskType), T.TrimSpace(boundTaskId), status)
      ensures forall id :: id in rows ==>
                var q := old(rows)[id];
                rows[id] == if q.boundTaskType == T.TrimSpace(boundTaskType) && q.boundTaskId == T.TrimSpace(boundTaskId)
                               && q.status == Executing then q.(status := status) else q
    {
      var taskType, taskId := T.TrimSpace(boundTaskType), T.TrimSpace(boundTaskId);
      if status != Pending {
        FewerLive(rows, ReportAll(rows, taskType, taskId, status), clock);
      }
      rows := ReportAll(rows, taskType, taskId, status);
    }
  }

  /** The rows bound to the task, and executing, take the status it reports. */
  function ReportAll(rows: map<string, Request>, taskType: string, taskId: string, status: Status)
    : map<string, Request>
  {
    map id | id in rows :: if IsBoundTo(rows[id], taskType, taskId) then rows[id].(status := status) else rows[id]
  }

  predicate IsBoundTo(r: Request, taskType: string, taskId: string) {
    r.boundTaskType == taskType && r.boundTaskId == taskId && r.status == Executing
  }

  /** The effect of one review: granted exactly when the checks grant it; then the
      one row carries the review; otherwise no row is shown differently. */
  ghost predicate Reviewed(rows: map<string, Request>, rows': map<string, Request>, id: string,
                           reviewer: int, now: Time, r: Result<Request, ApprovalError>, approve: bool)
  {
    if id !in rows then r == Failure(NotFound) && rows' == rows
    else
      var review := ReviewOf(rows[id], reviewer, now);
      if review == Granted then
        && r.Success? && rows' == rows[id := r.value]
        && r.value == (if approve
                       then rows[id].(status := Approved, approvedBy := reviewer, approvedAt := Some(now))
                       else rows[id].(status := Rejected, rejectedBy := reviewer, rejectedAt := Some(now)))
      else
        && r == Failure(Refused(review)) && rows'.Keys == rows.Keys
        && (forall k :: k in rows && k != id ==> rows'[k] == rows[k])
        && rows'[id] == (if review == ApprovalExpired then ExpireOne(rows[id], now) else rows[id])
        && forall k, later :: k in rows && now <= later ==>
             EffectiveStatus(rows'[k], later) == EffectiveStatus(rows[k], later)
  }

  /** Live requests only get fewer as time passes. */
  lemma OneLiveLater(rows: map<string, Request>, now: Time, later: Time)
    requires OneLivePerIntent(rows, now) && now <= later
    ensures OneLivePerIntent(rows, later)
  {
    forall i, j |
      i in rows && j in rows && Live(rows[i], later) && Live(rows[j], later) && rows[i].intent == rows[j].intent
      ensures i == j
    {
      assert Live(rows[i], now) && Live(rows[j], now);
    }
  }

  /** Two submissions through Create leave two live requests of one intent; the
      second through CreateOrReusePending instead leaves one. */
  method SubmitTwice(raw: Intent, now: Time)
    returns (created: map<string, Request>, reused: map<string, Request>)
    requires now > ZERO_TIME
    ensures !OneLivePerIntent(created, now) && OneLivePerIntent(reused, now)
    ensures LiveFor(created, Cleaned(raw), now) && LiveFor(reused, Cleaned(raw), now)
  {
    var first := new Service(now);
    var second := new Service(now);
    var r := first.Create(raw, ZERO_TIME, "a", now);
    assert Live(first.rows["a"], now) && first.rows["a"].intent == Cleaned(raw);
    r := first.Create(raw, ZERO_TIME, "b", now);
    var again: bool;
    assert Live(first.rows["b"], now) && first.rows["b"].intent == Cleaned(raw);
    r, again := second.CreateOrReusePending(raw, ZERO_TIME, "a", now);
    assert Live(second.rows["a"], now) && second.rows["a"].intent == Cleaned(raw);
    r, again := second.CreateOrReusePending(raw, ZERO_TIME, "b", now);
    return first.rows, second.rows;
  }
}
