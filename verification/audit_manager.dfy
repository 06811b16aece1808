/** The audit manager: the verifier loop, the append loop with its retries, the
    retention cleanup, and the scheduled cleaner on top of them. */
module AuditManager {
  import opened AuditChain
  import opened Options

  // The message field of a verification result, by meaning.
  datatype Message = Intact | BadCheckpoint | BrokenLink | BadSignature | MissingHead | BadHead

  datatype VerificationResult = VerificationResult(
    valid: bool, checkedEntries: nat, checkpointSequence: nat, firstSequence: nat,
    lastSequence: nat, invalidSequence: nat, message: Message)

  datatype CleanupResult = CleanupResult(
    deletedEntries: nat, checkpointSequence: nat, checkpointEntryHash: string)

  /** Where the database can fail inside one append transaction. */
  datatype Stage = ReadHead | ReadState | CreateEvent | SaveState

  /** What the database does to one transaction: nothing, or an error at one of
      its statements. `busy` is what `isDatabaseBusy` finds in the error text. */
  datatype Fault = NoFault | Fault(stage: Stage, busy: bool)

  datatype AuditError =
    | HeadInvalid
    | DuplicateHash
    | DatabaseError(busy: bool)
    | RefusedCleanup(message: Message)

  const MAX_ATTEMPTS := 4

  /** Attempt `k` of the four meets no database error and every attempt before it was
      busy. */
  ghost predicate WinningAttempt(faults: nat -> Fault, k: nat) {
    && k < 4 && faults(k) == NoFault
    && forall j: nat :: j < k ==> faults(j).Fault? && faults(j).busy
  }

  predicate HeadTrusted(sign: Mac, db: Db) {
    var (sequence, hash) := LoadChainHead(db);
    HeadRecorded(sign, db.state, sequence, hash)
  }

  /** The digest the draft would get is already in the table, which the unique
      index on it refuses. */
  ghost predicate HashTaken(sign: Mac, db: Db, draft: AuditEvent) {
    var (sequence, hash) := LoadChainHead(db);
    exists row :: row in db.events &&
                  row.entryHash == sign(EventPayload(sequence + 1, draft.fields, hash, draft.chainVersion))
  }

  lemma OnlyFirstBadRow(sign: Mac, db: Db, i: nat)
    requires FirstBadRow(sign, db, i)
    ensures !RowsGenuine(sign, db)
    ensures forall k: nat :: FirstBadRow(sign, db, k) ==> k == i
  {
  }

  /** The two statements of the cleanup transaction perform one cleanup step. */
  lemma CleanupEffect(sign: Mac, w: World, cutoff: int)
    requires ChainIntact(sign, w.db) && LastExpired(w.db.events, cutoff).Some?
    ensures var k := LastExpired(w.db.events, cutoff).value;
            var w' := w.(db := Cleaned(sign, w.db, k));
            && DeleteThrough(w.db.events, w.db.events[k].sequence) == w.db.events[k + 1..]
            && CleanupStep(sign, w, w', cutoff)
            && (Digests(sign) && Represents(sign, w) ==> Represents(sign, w'))
  {
    var k := LastExpired(w.db.events, cutoff).value;
    DeleteThroughRow(sign, w.db, k);
    if Digests(sign) && Represents(sign, w) {
      CleanupPreserves(sign, w, w.(db := Cleaned(sign, w.db, k)), cutoff);
    }
  }

  class Manager {
    const sign: Mac
    var db: Db
    ghost var history: seq<AuditEvent>

    constructor (sign: Mac)
      ensures this.sign == sign && Snapshot() == EMPTY_WORLD
      ensures Digests(sign) ==> Valid()
    {
      this.sign := sign;
      db := Db([], None, None);
      history := [];
    }

    ghost function Snapshot(): World
      reads this
    {
      World(db, history)
    }

    /** The tables are those of an honest run; the methods below do not need it. */
    ghost predicate Valid()
      reads this
    {
      Digests(sign) && Represents(sign, Snapshot())
    }

    method Verify() returns (r: VerificationResult)
      ensures r.valid <==> ChainIntact(sign, db)
      ensures r.valid <==> r.message == Intact
      ensures r.valid ==>
                && r.checkedEntries == |db.events|
                && r.checkpointSequence == BaseSequence(db)
                && r.firstSequence == (if db.events == [] then 0 else BaseSequence(db) + 1)
                && r.lastSequence == (if db.events == [] then 0 else LogicalHead(db).0)
                && r.invalidSequence == 0
      ensures !BaseGenuine(sign, db) ==>
                r == VerificationResult(false, 0, 0, 0, 0, BaseSequence(db), BadCheckpoint)
      ensures BaseGenuine(sign, db) ==>
                forall k: nat :: FirstBadRow(sign, db, k) ==>
                  && r.invalidSequence == r.lastSequence == db.events[k].sequence
                  && r.checkpointSequence == BaseSequence(db)
                  && r.firstSequence == db.events[0].sequence
                  && r.checkedEntries == k + 1
                  && r.message == (if Linked(db, k) then BadSignature else BrokenLink)
      ensures BaseGenuine(sign, db) && RowsGenuine(sign, db) && !ChainIntact(sign, db) ==>
                && r.invalidSequence == LogicalHead(db).0
                && r.checkpointSequence == BaseSequence(db)
                && r.firstSequence == (if db.events == [] then 0 else BaseSequence(db) + 1)
                && r.lastSequence == (if db.events == [] then 0 else LogicalHead(db).0)
                && r.checkedEntries == |db.events|
                && r.message == (if db.state.None? then MissingHead else BadHead)
    {
      r := VerificationResult(true, 0, 0, 0, 0, 0, Intact);
      var expectedSequence, expectedPrevious := 1, GENESIS_HASH;
      if db.checkpoint.Some? {
        var checkpoint := db.checkpoint.value;
        if !CheckpointGenuine(sign, checkpoint) {
          r := r.(valid := false, message := BadCheckpoint, invalidSequence := checkpoint.throughSequence);
          return;
        }
        r := r.(checkpointSequence := checkpoint.throughSequence);
        expectedSequence, expectedPrevious := checkpoint.throughSequence + 1, checkpoint.throughEntryHash;
      }
      var i := 0;
      while i < |db.events|
        invariant 0 <= i <= |db.events|
        invariant forall j :: 0 <= j < i ==> RowGenuine(sign, db, j)
        invariant expectedSequence == BaseSequence(db) + 1 + i
        invariant expectedPrevious == ExpectedPrevious(db, i)
        invariant r == VerificationResult(
                         true, i, BaseSequence(db), if i == 0 then 0 else BaseSequence(db) + 1,
                         if i == 0 then 0 else BaseSequence(db) + i, 0, Intact)
      {
        var event := db.events[i];
        r := r.(checkedEntries := r.checkedEntries + 1);
        if r.firstSequence == 0 {
          r := r.(firstSequence := event.sequence);
        }
        r := r.(lastSequence := event.sequence);
        if event.sequence != expectedSequence || event.previousHash != expectedPrevious
           || event.chainVersion != CHAIN_VERSION {
          r := r.(valid := false, invalidSequence := event.sequence, message := BrokenLink);
          OnlyFirstBadRow(sign, db, i);
          return;
        }
        if SignEvent(sign, event) != event.entryHash {
          r := r.(valid := false, invalidSequence := event.sequence, message := BadSignature);
          OnlyFirstBadRow(sign, db, i);
          return;
        }
        expectedSequence, expectedPrevious := expectedSequence + 1, event.entryHash;
        i := i + 1;
      }
      var headSequence, headHash := expectedSequence - 1, expectedPrevious;
      if headSequence == 0 {
        headHash := GENESIS_HASH;
      }
      if db.state.None? {
        if headSequence > 0 {
          r := r.(valid := false, invalidSequence := headSequence, message := MissingHead);
        }
        return;
      }
      var state := db.state.value;
      if !StateGenuine(sign, state) || state.lastSequence != headSequence || state.lastEntryHash != headHash {
        r := r.(valid := false, invalidSequence := headSequence, message := BadHead);
      }
    }

    /** One transaction of the append loop: all of its writes or none. */
    method TryAppend(draft: AuditEvent, fault: Fault) returns (r: Result<AuditEvent, AuditError>)
      requires draft.chainVersion == CHAIN_VERSION
      modifies this
      ensures r.Success? ==>
                && AppendStep(sign, old(Snapshot()), Snapshot(), r.value)
                && r.value.fields == draft.fields && r.value.id == draft.id
      ensures r.Failure? ==> Snapshot() == old(Snapshot())
      ensures r.Success? <==> fault == NoFault && HeadTrusted(sign, old(db)) && !HashTaken(sign, old(db), draft)
      ensures r.Failure? ==>
                (r.error == DatabaseError(true) <==>
                 && fault.Fault? && fault.busy
                 && (fault.stage.CreateEvent? || fault.stage.SaveState? ==> HeadTrusted(sign, old(db)))
                 && (fault.stage.SaveState? ==> !HashTaken(sign, old(db), draft)))
      ensures r.Failure? ==>
                r.error == (if fault.Fault? && (fault.stage.ReadHead? || fault.stage.ReadState?) then DatabaseError(fault.busy)
                            else if !HeadTrusted(sign, old(db)) then HeadInvalid
                            else if fault.Fault? && fault.stage.CreateEvent? then DatabaseError(fault.busy)
                            else if HashTaken(sign, old(db), draft) then DuplicateHash
                            else DatabaseError(fault.busy))
    {
      if fault.Fault? && fault.stage.ReadHead? {
        return Failure(DatabaseError(fault.busy));
      }
      var (sequence, previousHash) := LoadChainHead(db);
      if fault.Fault? && fault.stage.ReadState? {
        return Failure(DatabaseError(fault.busy));
      }
      if !HeadRecorded(sign, db.state, sequence, previousHash) {
        return Failure(HeadInvalid);
      }
      var event := draft.(sequence := sequence + 1, previousHash := previousHash);
      event := event.(entryHash := SignEvent(sign, event));
      if fault.Fault? && fault.stage.CreateEvent? {
        return Failure(DatabaseError(fault.busy));
      }
      if exists row :: row in db.events && row.entryHash == event.entryHash {
        return Failure(DuplicateHash);
      }
      if fault.Fault? {
        return Failure(DatabaseError(fault.busy));
      }
      db := Db(db.events + [event], db.checkpoint,
               Some(SignedState(sign, event.sequence, event.entryHash)));
      history := history + [event];
      return Success(event);
    }

    /** Append with up to four attempts. It succeeds iff the stored head is the
        true head, the new digest is unused, and some attempt goes through with
        only busy attempts before it; then it is one append step from the tables
        found on entry. Otherwise nothing changed. */
    method Append(fields: EventFields, rowId: nat, faults: nat -> Fault) returns (r: Result<AuditEvent, AuditError>)
      modifies this
      ensures r.Success? <==>
                && HeadTrusted(sign, old(db))
                && !HashTaken(sign, old(db), AuditEvent(rowId, 0, fields, "", "", CHAIN_VERSION))
                && exists k: nat :: WinningAttempt(faults, k)
      ensures r.Success? ==>
                AppendStep(sign, old(Snapshot()), Snapshot(), r.value) && r.value.fields == fields && r.value.id == rowId
      ensures r.Failure? ==> Snapshot() == old(Snapshot())
      ensures r == Failure(DatabaseError(true)) ==> forall j: nat :: j < 4 ==> faults(j).Fault? && faults(j).busy
      ensures old(Valid()) ==>
                && Valid()
                && (r.Success? <==>
                    && !NextCollides(sign, old(Snapshot()), fields)
                    && exists k: nat :: WinningAttempt(faults, k))
    {
      if Valid() {
        AppendIsEnabled(sign, Snapshot(), fields);
      }
      var event := AuditEvent(rowId, 0, fields, "", "", CHAIN_VERSION);
      ghost var open := HeadTrusted(sign, db) && !HashTaken(sign, db, event);
      var attempt := 0;
      r := Failure(DatabaseError(true));
      while attempt < MAX_ATTEMPTS
        invariant 0 <= attempt <= MAX_ATTEMPTS
        invariant r == Failure(DatabaseError(true))
        invariant Snapshot() == old(Snapshot())
        invariant open == (HeadTrusted(sign, db) && !HashTaken(sign, db, event))
        invariant forall j: nat :: j < attempt ==> faults(j).Fault? && faults(j).busy
      {
        r := TryAppend(event, faults(attempt));
        if r.Success? {
          assert WinningAttempt(faults, attempt);
          if old(Valid()) {
            AppendPreserves(sign, old(Snapshot()), Snapshot(), r.value);
          }
          return;
        }
        if r.error != DatabaseError(true) {
          assert open ==> faults(attempt).Fault? && !faults(attempt).busy;
          return;
        }
        attempt := attempt + 1;
      }
    }

    /** Retention cleanup. `fault` is an error inside its one transaction. */
    method CleanupBefore(cutoff: int, fault: bool) returns (r: Result<CleanupResult, AuditError>)
      modifies this`db
      ensures !ChainIntact(sign, old(db)) ==> r.Failure? && r.error.RefusedCleanup? && db == old(db)
      ensures ChainIntact(sign, old(db)) && LastExpired(old(db.events), cutoff).None? ==>
                r == Success(CleanupResult(0, BaseSequence(db), "")) && db == old(db)
      ensures ChainIntact(sign, old(db)) && LastExpired(old(db.events), cutoff).Some? ==>
                if fault then r.Failure? && db == old(db)
                else
                  var k := LastExpired(old(db.events), cutoff).value;
                  && CleanupStep(sign, old(Snapshot()), Snapshot(), cutoff)
                  && db.events == old(db.events)[k + 1..]
                  && r == Success(CleanupResult(k + 1, old(db).events[k].sequence, old(db).events[k].entryHash))
      ensures old(Valid()) ==> Valid()
    {
      var verification := Verify();
      if !verification.valid {
        return Failure(RefusedCleanup(verification.message));
      }
      var last := LastExpired(db.events, cutoff);
      if last.None? {
        return Success(CleanupResult(0, verification.checkpointSequence, ""));
      }
      if fault {
        return Failure(DatabaseError(false));
      }
      var lastExpired := db.events[last.value];
      var remaining := DeleteThrough(db.events, lastExpired.sequence);
      CleanupEffect(sign, Snapshot(), cutoff);
      var deleted := |db.events| - |remaining|;
      db := Db(remaining,
               Some(SignedCheckpoint(sign, lastExpired.sequence, lastExpired.entryHash)),
               db.state);
      r := Success(CleanupResult(deleted, lastExpired.sequence, lastExpired.entryHash));
    }
  }

  /** One run of the scheduled cleaner: a cleanup, and a record of it when it
      removed anything. The record needs its own transaction, so it can fail
      after the cleanup has taken effect. */
  method RunNow(manager: Manager, cutoff: int, notice: EventFields, rowId: nat,
                cleanupFault: bool, faults: nat -> Fault)
    returns (r: Result<CleanupResult, AuditError>)
    modifies manager
    ensures old(manager.Valid()) ==> manager.Valid()
    ensures var before, after := old(manager.Snapshot()), manager.Snapshot();
            var last := LastExpired(before.db.events, cutoff);
            if !ChainIntact(manager.sign, before.db) then r.Failure? && r.error.RefusedCleanup? && after == before
            else if last.None? then r == Success(CleanupResult(0, BaseSequence(before.db), "")) && after == before
            else if cleanupFault then r.Failure? && after == before
            else
              var between := before.(db := Cleaned(manager.sign, before.db, last.value));
              && CleanupStep(manager.sign, before, between, cutoff)
              && if r.Failure? then after == between
                 else
                   && r == Success(CleanupResult(last.value + 1, before.db.events[last.value].sequence,
                                                 before.db.events[last.value].entryHash))
                   && exists e :: AppendStep(manager.sign, between, after, e) && e.fields == notice && e.id == rowId
    ensures old(manager.Valid()) && r.Failure? ==>
              || old(LastExpired(manager.db.events, cutoff)).None? || cleanupFault
              || NextCollides(manager.sign, manager.Snapshot(), notice)
              || !exists k: nat :: WinningAttempt(faults, k)
  {
    r := manager.CleanupBefore(cutoff, cleanupFault);
    if r.Failure? {
      return;
    }
    if r.value.deletedEntries > 0 {
      ghost var between := manager.Snapshot();
      assert between == old(manager.Snapshot()).(db := Cleaned(manager.sign, old(manager.db),
                                                                LastExpired(old(manager.db.events), cutoff).value));
      var recorded := manager.Append(notice, rowId, faults);
      if recorded.Failure? {
        return Failure(recorded.error);
      }
      assert AppendStep(manager.sign, between, manager.Snapshot(), recorded.value);
    }
  }
}
