/** The audit log as data: the three tables, what is signed in each, what it
    means for them to form an intact chain, and what an intact chain proves. */
module AuditChain {
  import opened Options

  /** The fields of an event that the caller supplies, after clean-up. */
  datatype EventFields = EventFields(
    requestId: string, eventType: string, action: string, httpMethod: string,
    route: string, path: string, status: int, outcome: string, sensitive: bool,
    userId: int, username: string, authMode: string, remoteIp: string,
    userAgent: string, contentLength: int, durationMs: int, message: string,
    createdAt: int)

  datatype AuditEvent = AuditEvent(
    id: nat, sequence: nat, fields: EventFields, previousHash: string,
    entryHash: string, chainVersion: nat)

  datatype AuditCheckpoint = AuditCheckpoint(
    throughSequence: nat, throughEntryHash: string, signature: string)

  datatype AuditChainState = AuditChainState(
    lastSequence: nat, lastEntryHash: string, signature: string)

  /** The three tables. `events` lists the event rows by ascending sequence,
      the order in which every query of the source walks them. */
  datatype Db = Db(
    events: seq<AuditEvent>,
    checkpoint: Option<AuditCheckpoint>,
    state: Option<AuditChainState>)

  /** What is signed. The JSON field names keep the three kinds apart. */
  datatype Payload =
    | EventPayload(sequence: nat, fields: EventFields, previousHash: string, chainVersion: nat)
    | CheckpointPayload(throughSequence: nat, throughEntryHash: string)
    | StatePayload(lastSequence: nat, lastEntryHash: string)

  /** The keyed digest of the manager, as a function of the payload. */
  type Mac = Payload -> string

  /** A digest is printed as 64 characters, so never as the empty text. */
  ghost predicate Digests(sign: Mac) {
    forall p :: |sign(p)| == 64
  }

  /** Two payloads with one digest. There are such pairs, as there are only so many
      digests; what HMAC-SHA-256 promises is that no one can show one. */
  ghost predicate Collide(sign: Mac, p: Payload, q: Payload) {
    p != q && sign(p) == sign(q)
  }

  const CHAIN_VERSION := 1
  const GENESIS_HASH := "0000000000000000000000000000000000000000000000000000000000000000"

  // ---------------------------------------------------------------- signing

  function PayloadOf(e: AuditEvent): Payload {
    EventPayload(e.sequence, e.fields, e.previousHash, e.chainVersion)
  }

  function SignEvent(sign: Mac, e: AuditEvent): string {
    sign(PayloadOf(e))
  }

  predicate CheckpointGenuine(sign: Mac, c: AuditCheckpoint) {
    && c.throughSequence != 0 && c.throughEntryHash != "" && c.signature != ""
    && sign(CheckpointPayload(c.throughSequence, c.throughEntryHash)) == c.signature
  }

  predicate StateGenuine(sign: Mac, s: AuditChainState) {
    && s.lastSequence != 0 && s.lastEntryHash != "" && s.signature != ""
    && sign(StatePayload(s.lastSequence, s.lastEntryHash)) == s.signature
  }

  function SignedCheckpoint(sign: Mac, sequence: nat, hash: string): AuditCheckpoint {
    AuditCheckpoint(sequence, hash, sign(CheckpointPayload(sequence, hash)))
  }

  function SignedState(sign: Mac, sequence: nat, hash: string): AuditChainState {
    AuditChainState(sequence, hash, sign(StatePayload(sequence, hash)))
  }

  // ------------------------------------------------------- the intact chain

  function BaseSequence(db: Db): nat {
    if db.checkpoint.Some? then db.checkpoint.value.throughSequence else 0
  }

  function BaseHash(db: Db): string {
    if db.checkpoint.Some? then db.checkpoint.value.throughEntryHash else GENESIS_HASH
  }

  /** The digest that row `i` must name as its predecessor. */
  function ExpectedPrevious(db: Db, i: nat): string
    requires i <= |db.events|
  {
    if i == 0 then BaseHash(db) else db.events[i - 1].entryHash
  }

  predicate Linked(db: Db, i: nat)
    requires i < |db.events|
  {
    && db.events[i].sequence == BaseSequence(db) + 1 + i
    && db.events[i].previousHash == ExpectedPrevious(db, i)
    && db.events[i].chainVersion == CHAIN_VERSION
  }

  predicate RowGenuine(sign: Mac, db: Db, i: nat)
    requires i < |db.events|
  {
    Linked(db, i) && db.events[i].entryHash == SignEvent(sign, db.events[i])
  }

  predicate BaseGenuine(sign: Mac, db: Db) {
    db.checkpoint.Some? ==> CheckpointGenuine(sign, db.checkpoint.value)
  }

  ghost predicate RowsGenuine(sign: Mac, db: Db) {
    forall i :: 0 <= i < |db.events| ==> RowGenuine(sign, db, i)
  }

  /** The head row vouches for exactly this sequence and digest; it may be
      missing only while nothing was ever appended. */
  predicate HeadRecorded(sign: Mac, state: Option<AuditChainState>, sequence: nat, hash: string) {
    match state
    case None => sequence == 0
    case Some(s) => StateGenuine(sign, s) && s.lastSequence == sequence && s.lastEntryHash == hash
  }

  function LogicalHead(db: Db): (nat, string) {
    (BaseSequence(db) + |db.events|, ExpectedPrevious(db, |db.events|))
  }

  ghost predicate ChainIntact(sign: Mac, db: Db) {
    && BaseGenuine(sign, db)
    && RowsGenuine(sign, db)
    && HeadRecorded(sign, db.state, LogicalHead(db).0, LogicalHead(db).1)
  }

  /** The rows of a log that follows sequence `base` with digest `hash`. */
  ghost predicate RowsFollow(sign: Mac, events: seq<AuditEvent>, base: nat, hash: string) {
    forall i :: 0 <= i < |events| ==> RowFollows(sign, events, base, hash, i)
  }

  ghost predicate RowFollows(sign: Mac, events: seq<AuditEvent>, base: nat, hash: string, i: nat)
    requires i < |events|
  {
    var e := events[i];
    && e.sequence == base + 1 + i
    && e.previousHash == (if i == 0 then hash else events[i - 1].entryHash)
    && e.chainVersion == 1
    && e.entryHash == sign(EventPayload(e.sequence, e.fields, e.previousHash, e.chainVersion))
  }

  /** WHAT IS SIGNED. A chain is intact iff every digest in its three tables is the
      keyed digest of what stands beside it, and they follow one another: the rows
      after the checkpoint, or after 64 zeros and sequence 0 if there is none, and
      the head row after the last of them. */
  lemma IntactMeansSigned(sign: Mac, db: Db)
    ensures ChainIntact(sign, db) <==>
            && (db.checkpoint.Some? ==>
                  var c := db.checkpoint.value;
                  && c.throughSequence > 0 && |c.throughEntryHash| > 0 && |c.signature| > 0
                  && c.signature == sign(CheckpointPayload(c.throughSequence, c.throughEntryHash)))
            && (var (base, hash) := if db.checkpoint.Some?
                                    then (db.checkpoint.value.throughSequence, db.checkpoint.value.throughEntryHash)
                                    else (0, "0000000000000000000000000000000000000000000000000000000000000000");
                && RowsFollow(sign, db.events, base, hash)
                && if db.state.None? then base == 0 && db.events == []
                   else
                     var s := db.state.value;
                     && s.lastSequence == base + |db.events| && s.lastSequence > 0
                     && s.lastEntryHash == (if db.events == [] then hash else db.events[|db.events| - 1].entryHash)
                     && |s.lastEntryHash| > 0 && |s.signature| > 0
                     && s.signature == sign(StatePayload(s.lastSequence, s.lastEntryHash)))
  {
    forall i | 0 <= i < |db.events|
      ensures RowGenuine(sign, db, i) <==> RowFollows(sign, db.events, BaseSequence(db), BaseHash(db), i)
    {
    }
    assert RowsGenuine(sign, db) <==> RowsFollow(sign, db.events, BaseSequence(db), BaseHash(db));
  }

  /** Row `k` is where a scan from the checkpoint first goes wrong. */
  ghost predicate FirstBadRow(sign: Mac, db: Db, k: nat) {
    && k < |db.events| && !RowGenuine(sign, db, k)
    && forall i :: 0 <= i < k ==> RowGenuine(sign, db, i)
  }

  // ------------------------------------------------------- tamper evidence

  /** Two rows agree on everything but the unsigned row id. */
  predicate SameRecord(e: AuditEvent, f: AuditEvent) {
    e == f.(id := e.id)
  }

  /** The two head rows vouch for the same head; signatures follow. */
  predicate SameHead(a: Db, b: Db) {
    match (a.state, b.state)
    case (None, None) => true
    case (Some(s), Some(t)) => s.lastSequence == t.lastSequence && s.lastEntryHash == t.lastEntryHash
    case (_, _) => false
  }

  /** The row of an intact chain that carries sequence `n`. */
  function RowAt(db: Db, n: nat): AuditEvent
    requires BaseSequence(db) < n <= BaseSequence(db) + |db.events|
  {
    db.events[n - BaseSequence(db) - 1]
  }

  /** The digest an intact chain binds to sequence `n`, the checkpoint's included. */
  function DigestAt(db: Db, n: nat): string
    requires BaseSequence(db) <= n <= BaseSequence(db) + |db.events|
  {
    ExpectedPrevious(db, n - BaseSequence(db))
  }

  /** An event of one table and an event of the other exhibit a collision. */
  ghost predicate EventsCollide(sign: Mac, a: Db, b: Db) {
    exists i, j :: 0 <= i < |a.events| && 0 <= j < |b.events| &&
                   Collide(sign, PayloadOf(a.events[i]), PayloadOf(b.events[j]))
  }

  /** Rows of intact chains with one digest are one record, or they collide. */
  lemma SameDigestSameRecord(sign: Mac, a: Db, b: Db, i: nat, j: nat)
    requires RowsGenuine(sign, a) && RowsGenuine(sign, b) && i < |a.events| && j < |b.events|
    requires a.events[i].entryHash == b.events[j].entryHash
    ensures SameRecord(a.events[i], b.events[j]) || EventsCollide(sign, a, b)
  {
    assert RowGenuine(sign, a, i) && RowGenuine(sign, b, j);
    assert Collide(sign, PayloadOf(a.events[i]), PayloadOf(b.events[j])) ==> EventsCollide(sign, a, b);
  }

  /** Intact chains with the same head bind the same digest to every sequence
      that both still cover, however much retention has removed from either. */
  lemma {:induction false} SameHeadSameDigests(sign: Mac, a: Db, b: Db, n: nat)
    requires ChainIntact(sign, a) && ChainIntact(sign, b) && SameHead(a, b)
    ensures LogicalHead(a).0 == LogicalHead(b).0
    ensures BaseSequence(a) <= n <= LogicalHead(a).0 && BaseSequence(b) <= n ==>
              DigestAt(a, n) == DigestAt(b, n) || EventsCollide(sign, a, b)
    decreases LogicalHead(a).0 - n
  {
    if BaseSequence(a) <= n < LogicalHead(a).0 && BaseSequence(b) <= n {
      SameHeadSameDigests(sign, a, b, n + 1);
      var i, j := n - BaseSequence(a), n - BaseSequence(b);
      assert RowGenuine(sign, a, i) && RowGenuine(sign, b, j);
      if !EventsCollide(sign, a, b) {
        SameDigestSameRecord(sign, a, b, i, j);
      }
    }
  }

  /** Every event both databases still hold is the same record, and a checkpoint of
      one names the digest the other holds at that sequence. */
  ghost predicate Agree(a: Db, b: Db)
    requires LogicalHead(a).0 == LogicalHead(b).0
  {
    && (forall n :: BaseSequence(a) < n <= LogicalHead(a).0 && BaseSequence(b) < n ==>
          SameRecord(RowAt(a, n), RowAt(b, n)))
    && (BaseSequence(a) < BaseSequence(b) ==> BaseHash(b) == RowAt(a, BaseSequence(b)).entryHash)
    && (BaseSequence(b) < BaseSequence(a) ==> BaseHash(a) == RowAt(b, BaseSequence(a)).entryHash)
    && (BaseSequence(a) == BaseSequence(b) && BaseSequence(a) < LogicalHead(a).0 ==> BaseHash(a) == BaseHash(b))
  }

  /** TAMPER EVIDENCE. If two databases both verify and their head rows agree, then
      the databases agree, or two of their events collide. */
  lemma TamperEvidence(sign: Mac, a: Db, b: Db)
    requires ChainIntact(sign, a) && ChainIntact(sign, b) && SameHead(a, b)
    ensures LogicalHead(a).0 == LogicalHead(b).0
    ensures Agree(a, b) || EventsCollide(sign, a, b)
  {
    SameHeadSameDigests(sign, a, b, 0);
    if !EventsCollide(sign, a, b) {
      forall n | BaseSequence(a) < n <= LogicalHead(a).0 && BaseSequence(b) < n
        ensures SameRecord(RowAt(a, n), RowAt(b, n))
      {
        SameHeadSameDigests(sign, a, b, n);
        SameDigestSameRecord(sign, a, b, n - BaseSequence(a) - 1, n - BaseSequence(b) - 1);
      }
      SameHeadSameDigests(sign, a, b, BaseSequence(a));
      SameHeadSameDigests(sign, a, b, BaseSequence(b));
    }
  }

  /** With equal checkpoint and head rows, verified tables are equal row by row. */
  lemma SameAnchorsSameLog(sign: Mac, a: Db, b: Db)
    requires ChainIntact(sign, a) && ChainIntact(sign, b)
    requires a.state == b.state && a.checkpoint == b.checkpoint
    ensures |a.events| == |b.events|
    ensures (forall i :: 0 <= i < |a.events| ==> SameRecord(a.events[i], b.events[i])) || EventsCollide(sign, a, b)
  {
    TamperEvidence(sign, a, b);
    if Agree(a, b) {
      forall i | 0 <= i < |a.events| ensures SameRecord(a.events[i], b.events[i]) {
        assert SameRecord(RowAt(a, BaseSequence(a) + 1 + i), RowAt(b, BaseSequence(a) + 1 + i));
      }
    }
  }

  /** Dropping the checkpoint row of an intact database is always noticed. */
  lemma LosingTheCheckpointIsNoticed(sign: Mac, db: Db)
    requires ChainIntact(sign, db) && db.checkpoint.Some?
    ensures !ChainIntact(sign, db.(checkpoint := None))
  {
    var cut := db.(checkpoint := None);
    if db.events != [] {
      assert RowGenuine(sign, db, 0);
      assert !RowGenuine(sign, cut, 0);
    }
  }

  // ------------------------------------------------ the head read by Append

  /** The sequence and digest the next event continues from. */
  function LoadChainHead(db: Db): (nat, string) {
    if db.events != [] then
      var last := db.events[|db.events| - 1];
      (last.sequence, last.entryHash)
    else if db.checkpoint.Some? then
      (db.checkpoint.value.throughSequence, db.checkpoint.value.throughEntryHash)
    else
      (0, GENESIS_HASH)
  }

  lemma HeadOfIntactChain(sign: Mac, db: Db)
    requires RowsGenuine(sign, db)
    ensures LoadChainHead(db) == LogicalHead(db)
  {
    if db.events != [] {
      assert RowGenuine(sign, db, |db.events| - 1);
    }
  }

  // --------------------------------------------------------------- cleanup

  /** Position of the newest row (by sequence) created before the cutoff. */
  function LastExpired(events: seq<AuditEvent>, cutoff: int): (r: Option<nat>)
    ensures r.None? <==> forall e :: e in events ==> e.fields.createdAt >= cutoff
    ensures r.Some? ==> r.value < |events| && events[r.value].fields.createdAt < cutoff
    ensures r.Some? ==> forall i :: r.value < i < |events| ==> events[i].fields.createdAt >= cutoff
  {
    if events == [] then None
    else if events[|events| - 1].fields.createdAt < cutoff then Some(|events| - 1)
    else
      assert events == events[..|events| - 1] + [events[|events| - 1]];
      LastExpired(events[..|events| - 1], cutoff)
  }

  /** DELETE FROM audit_events WHERE sequence <= through. */
  function DeleteThrough(events: seq<AuditEvent>, through: nat): seq<AuditEvent> {
    if events == [] then []
    else (if events[0].sequence <= through then [] else [events[0]]) + DeleteThrough(events[1..], through)
  }

  lemma {:induction false} DeleteThroughAscending(events: seq<AuditEvent>, k: nat, through: nat)
    requires k <= |events|
    requires forall i :: 0 <= i < |events| ==> (events[i].sequence <= through <==> i < k)
    ensures DeleteThrough(events, through) == events[k..]
  {
    if events != [] {
      DeleteThroughAscending(events[1..], if k == 0 then 0 else k - 1, through);
    }
  }

  /** No row that is still fresh precedes an expired one. */
  ghost predicate ExpiredFirst(events: seq<AuditEvent>, cutoff: int) {
    forall i, j :: 0 <= i < j < |events| && events[j].fields.createdAt < cutoff ==>
                     events[i].fields.createdAt < cutoff
  }

  /** What one cleanup leaves behind when row `k` is the newest expired one. */
  function Cleaned(sign: Mac, db: Db, k: nat): Db
    requires k < |db.events|
  {
    var last := db.events[k];
    Db(DeleteThrough(db.events, last.sequence),
       Some(SignedCheckpoint(sign, last.sequence, last.entryHash)),
       db.state)
  }

  /** Deleting through row `k` of a genuine table drops exactly the rows up to it. */
  lemma DeleteThroughRow(sign: Mac, db: Db, k: nat)
    requires RowsGenuine(sign, db) && k < |db.events|
    ensures DeleteThrough(db.events, db.events[k].sequence) == db.events[k + 1..]
  {
    assert RowGenuine(sign, db, k);
    forall i | 0 <= i < |db.events|
      ensures db.events[i].sequence <= db.events[k].sequence <==> i < k + 1
    {
      assert RowGenuine(sign, db, i);
    }
    DeleteThroughAscending(db.events, k + 1, db.events[k].sequence);
  }

  /** Truncating an intact chain at row `k`, with a signed checkpoint for that
      row, leaves an intact chain with the same head. */
  lemma TruncationKeepsIntact(sign: Mac, db: Db, k: nat)
    requires Digests(sign) && ChainIntact(sign, db) && k < |db.events|
    ensures var db' := Cleaned(sign, db, k);
            && db'.events == db.events[k + 1..]
            && BaseSequence(db') == BaseSequence(db) + k + 1
            && LogicalHead(db') == LogicalHead(db)
            && ChainIntact(sign, db')
  {
    var db' := Cleaned(sign, db, k);
    DeleteThroughRow(sign, db, k);
    assert RowGenuine(sign, db, k);
    forall i | 0 <= i < |db'.events| ensures RowGenuine(sign, db', i) {
      assert RowGenuine(sign, db, k + 1 + i);
      assert ExpectedPrevious(db', i) == ExpectedPrevious(db, k + 1 + i);
    }
  }

  /** A cleanup of an intact chain keeps exactly the rows after the newest
      expired one, all of them fresh, linked to the new checkpoint, and the
      result is intact again. */
  lemma CleanupKeepsFreshSuffix(sign: Mac, db: Db, cutoff: int)
    requires Digests(sign) && ChainIntact(sign, db) && LastExpired(db.events, cutoff).Some?
    ensures var k := LastExpired(db.events, cutoff).value;
            var db' := Cleaned(sign, db, k);
            && db'.events == db.events[k + 1..]
            && (forall e :: e in db'.events ==> e.fields.createdAt >= cutoff)
            && (db'.events != [] ==> db'.events[0].previousHash == db'.checkpoint.value.throughEntryHash)
            && ChainIntact(sign, db')
  {
    var k := LastExpired(db.events, cutoff).value;
    TruncationKeepsIntact(sign, db, k);
    if k + 1 < |db.events| {
      assert RowGenuine(sign, db, k + 1);
    }
  }

  /** Cleanup removes exactly the expired rows iff no fresh row precedes an
      expired one; creation times that never decrease are enough. */
  lemma CleanupExactness(sign: Mac, db: Db, cutoff: int)
    requires Digests(sign) && ChainIntact(sign, db) && LastExpired(db.events, cutoff).Some?
    ensures var removed := db.events[..LastExpired(db.events, cutoff).value + 1];
            && ((forall e :: e in removed ==> e.fields.createdAt < cutoff) <==> ExpiredFirst(db.events, cutoff))
            && (forall e :: e in db.events && e.fields.createdAt < cutoff ==> e in removed)
    ensures (forall i, j :: 0 <= i < j < |db.events| ==>
                              db.events[i].fields.createdAt <= db.events[j].fields.createdAt) ==>
              ExpiredFirst(db.events, cutoff)
  {
    var k := LastExpired(db.events, cutoff).value;
    var removed := db.events[..k + 1];
    if forall e :: e in removed ==> e.fields.createdAt < cutoff {
      forall i, j | 0 <= i < j < |db.events| && db.events[j].fields.createdAt < cutoff
        ensures db.events[i].fields.createdAt < cutoff
      {
        assert removed[i] in removed;
      }
    }
    if ExpiredFirst(db.events, cutoff) {
      forall e | e in removed ensures e.fields.createdAt < cutoff {
        var i :| 0 <= i < |removed| && removed[i] == e;
        assert i == k || db.events[i].fields.createdAt < cutoff;
      }
    }
    forall e | e in db.events && e.fields.createdAt < cutoff ensures e in removed {
      var i :| 0 <= i < |db.events| && db.events[i] == e;
      assert removed[i] == e;
    }
  }

  // ------------------------------------------------------ runs of the system

  /** The tables together with every event ever appended. */
  datatype World = World(db: Db, history: seq<AuditEvent>)

  const EMPTY_WORLD := World(Db([], None, None), [])

  ghost predicate AppendStep(sign: Mac, w: World, w': World, e: AuditEvent) {
    var (sequence, hash) := LoadChainHead(w.db);
    && HeadRecorded(sign, w.db.state, sequence, hash)
    && e.sequence == sequence + 1
    && e.previousHash == hash
    && e.chainVersion == CHAIN_VERSION
    && e.entryHash == SignEvent(sign, e)
    && (forall row :: row in w.db.events ==> row.entryHash != e.entryHash)
    && w' == World(
               Db(w.db.events + [e], w.db.checkpoint, Some(SignedState(sign, e.sequence, e.entryHash))),
               w.history + [e])
  }

  ghost predicate CleanupStep(sign: Mac, w: World, w': World, cutoff: int) {
    && ChainIntact(sign, w.db)
    && LastExpired(w.db.events, cutoff).Some?
    && w' == w.(db := Cleaned(sign, w.db, LastExpired(w.db.events, cutoff).value))
  }

  ghost predicate Next(sign: Mac, w: World, w': World) {
    || w' == w
    || (exists e :: AppendStep(sign, w, w', e))
    || (exists cutoff :: CleanupStep(sign, w, w', cutoff))
  }

  ghost predicate IsRun(sign: Mac, run: seq<World>) {
    && run != [] && run[0] == EMPTY_WORLD
    && forall i :: 0 <= i < |run| - 1 ==> Next(sign, run[i], run[i + 1])
  }

  /** The whole history read back as an untruncated database. */
  function FullLog(w: World): Db {
    Db(w.history, None, w.db.state)
  }

  /** The tables hold the suffix of the history after the checkpoint, and the
      untruncated log would verify. */
  ghost predicate Represents(sign: Mac, w: World) {
    && ChainIntact(sign, w.db)
    && ChainIntact(sign, FullLog(w))
    && BaseSequence(w.db) <= |w.history|
    && w.db.events == w.history[BaseSequence(w.db)..]
    && BaseHash(w.db) == ExpectedPrevious(FullLog(w), BaseSequence(w.db))
  }

  lemma AppendPreserves(sign: Mac, w: World, w': World, e: AuditEvent)
    requires Digests(sign) && Represents(sign, w) && AppendStep(sign, w, w', e)
    ensures Represents(sign, w')
    ensures e.sequence == |w.history| + 1
  {
    HeadOfIntactChain(sign, w.db);
    AppendKeepsIntact(sign, w.db, w'.db, e);
    assert LogicalHead(FullLog(w)) == LogicalHead(w.db) by {
      if w.db.events == [] {
      } else {
        assert w.db.events[|w.db.events| - 1] == w.history[|w.history| - 1];
      }
    }
    AppendKeepsIntact(sign, FullLog(w), FullLog(w'), e);
  }

  /** Extending an intact chain by a signed row at its head keeps it intact. */
  lemma AppendKeepsIntact(sign: Mac, db: Db, db': Db, e: AuditEvent)
    requires Digests(sign) && ChainIntact(sign, db)
    requires (e.sequence, e.previousHash) == (LogicalHead(db).0 + 1, LogicalHead(db).1)
    requires e.chainVersion == CHAIN_VERSION && e.entryHash == SignEvent(sign, e)
    requires db' == Db(db.events + [e], db.checkpoint, Some(SignedState(sign, e.sequence, e.entryHash)))
    ensures ChainIntact(sign, db')
  {
    forall i | 0 <= i < |db'.events| ensures RowGenuine(sign, db', i) {
      if i < |db.events| {
        assert RowGenuine(sign, db, i);
      }
    }
  }

  /** The digest before row `i` is the same in the tables as in the full log. */
  lemma SameAsInHistory(sign: Mac, w: World, i: nat)
    requires Represents(sign, w) && i <= |w.db.events|
    ensures BaseSequence(w.db) + i <= |w.history|
    ensures ExpectedPrevious(w.db, i) == ExpectedPrevious(FullLog(w), BaseSequence(w.db) + i)
    ensures w.db.events[i..] == w.history[BaseSequence(w.db) + i..]
  {
    if i > 0 {
      assert w.db.events[i - 1] == w.history[BaseSequence(w.db) + i - 1];
    }
  }

  lemma TruncationPreserves(sign: Mac, w: World, k: nat)
    requires Digests(sign) && Represents(sign, w) && k < |w.db.events|
    ensures Represents(sign, w.(db := Cleaned(sign, w.db, k)))
  {
    var w' := w.(db := Cleaned(sign, w.db, k));
    SameAsInHistory(sign, w, k + 1);
    TruncationKeepsIntact(sign, w.db, k);
    assert FullLog(w') == FullLog(w);
    assert BaseHash(w'.db) == ExpectedPrevious(w.db, k + 1);
  }

  lemma CleanupPreserves(sign: Mac, w: World, w': World, cutoff: int)
    requires Digests(sign) && Represents(sign, w) && CleanupStep(sign, w, w', cutoff)
    ensures Represents(sign, w')
  {
    TruncationPreserves(sign, w, LastExpired(w.db.events, cutoff).value);
  }

  lemma StepPreserves(sign: Mac, w: World, w': World)
    requires Digests(sign) && Represents(sign, w) && Next(sign, w, w')
    ensures Represents(sign, w') && w.history <= w'.history
  {
    if e :| AppendStep(sign, w, w', e) {
      AppendPreserves(sign, w, w', e);
    } else if cutoff :| CleanupStep(sign, w, w', cutoff) {
      CleanupPreserves(sign, w, w', cutoff);
    }
  }

  /** SAFETY OVER RUNS. After any run of appends and cleanups from empty tables
      the chain verifies and the tables are the suffix of the history after the
      checkpoint; the history only grows. */
  lemma {:induction false} RunsStayIntact(sign: Mac, run: seq<World>, i: nat, j: nat)
    requires Digests(sign) && IsRun(sign, run) && i <= j < |run|
    ensures Represents(sign, run[j])
    ensures run[i].history <= run[j].history
    decreases j
  {
    if j > 0 {
      RunsStayIntact(sign, run, if i < j then i else j - 1, j - 1);
      StepPreserves(sign, run[j - 1], run[j]);
    }
  }

  /** No sequence number is ever given out twice, whatever was cleaned up in
      between, even when cleanup emptied the table. */
  lemma SequencesNeverReused(sign: Mac, run: seq<World>, i: nat, j: nat, e: AuditEvent, f: AuditEvent)
    requires Digests(sign) && IsRun(sign, run) && i < j < |run| - 1
    requires AppendStep(sign, run[i], run[i + 1], e) && AppendStep(sign, run[j], run[j + 1], f)
    ensures e.sequence < f.sequence
    ensures e.entryHash != f.entryHash || Collide(sign, PayloadOf(e), PayloadOf(f))
  {
    RunsStayIntact(sign, run, i, i);
    RunsStayIntact(sign, run, i + 1, j);
    AppendPreserves(sign, run[i], run[i + 1], e);
    AppendPreserves(sign, run[j], run[j + 1], f);
  }

  /** A database that verifies under the head row of an honest run holds only records
      of the true history and a checkpoint from it, or one of its rows collides with
      one of the history. */
  lemma SameHeadMatchesHistory(sign: Mac, run: seq<World>, j: nat, forged: Db)
    requires Digests(sign) && IsRun(sign, run) && j < |run|
    requires ChainIntact(sign, forged) && SameHead(forged, run[j].db)
    ensures HoldsHistory(forged, run[j].history) || EventsCollide(sign, forged, FullLog(run[j]))
  {
    RunsStayIntact(sign, run, j, j);
    var full := FullLog(run[j]);
    TamperEvidence(sign, forged, full);
    if Agree(forged, full) {
      forall i | 0 <= i < |forged.events|
        ensures SameRecord(forged.events[i], run[j].history[BaseSequence(forged) + i])
      {
        var n := BaseSequence(forged) + 1 + i;
        assert SameRecord(RowAt(forged, n), RowAt(full, n));
      }
    }
  }

  /** The log is what follows its checkpoint in the history, row by row. */
  ghost predicate HoldsHistory(db: Db, history: seq<AuditEvent>) {
    var base := if db.checkpoint.Some? then db.checkpoint.value.throughSequence else 0;
    && base + |db.events| == |history|
    && (forall i :: 0 <= i < |db.events| ==> SameRecord(db.events[i], history[base + i]))
    && (base > 0 ==> db.checkpoint.value.throughEntryHash == history[base - 1].entryHash)
  }

  /** The run signed this head. */
  ghost predicate SignedHead(run: seq<World>, sequence: nat, hash: string) {
    exists j :: 0 <= j < |run| && run[j].db.state.Some? &&
                run[j].db.state.value.lastSequence == sequence && run[j].db.state.value.lastEntryHash == hash
  }

  /** FORGERY. Whatever database is presented after an honest run: if it verifies, it
      is empty; or it holds the history as it was at some moment of the run, up to a
      collision; or its head row shows the digest of a head the run never signed. */
  lemma ForgeriesMatchHistory(sign: Mac, run: seq<World>, forged: Db)
    requires Digests(sign) && IsRun(sign, run) && ChainIntact(sign, forged)
    ensures || forged == Db([], None, None)
            || (exists j :: 0 <= j < |run| &&
                            (HoldsHistory(forged, run[j].history) || EventsCollide(sign, forged, FullLog(run[j]))))
            || (&& forged.state.Some?
                && var s := forged.state.value;
                   && s.signature == sign(StatePayload(s.lastSequence, s.lastEntryHash))
                   && !SignedHead(run, s.lastSequence, s.lastEntryHash))
  {
    IntactMeansSigned(sign, forged);
    if forged.state.Some? {
      var s := forged.state.value;
      if SignedHead(run, s.lastSequence, s.lastEntryHash) {
        var j :| 0 <= j < |run| && run[j].db.state.Some? &&
                 run[j].db.state.value.lastSequence == s.lastSequence &&
                 run[j].db.state.value.lastEntryHash == s.lastEntryHash;
        SameHeadMatchesHistory(sign, run, j, forged);
      }
    }
  }

  /** The tables of an earlier moment verify too, so going back to them is not
      noticed; neither is emptying all three. */
  lemma OldCopiesVerify(sign: Mac, run: seq<World>, j: nat)
    requires Digests(sign) && IsRun(sign, run) && j < |run|
    ensures ChainIntact(sign, run[j].db) && HoldsHistory(run[j].db, run[j].history)
    ensures ChainIntact(sign, Db([], None, None))
  {
    RunsStayIntact(sign, run, j, j);
    SameAsInHistory(sign, run[j], 0);
  }

  /** The row one append adds at the head of `w`. */
  function NextRow(sign: Mac, w: World, fields: EventFields): AuditEvent {
    var (sequence, hash) := LoadChainHead(w.db);
    var e := AuditEvent(0, sequence + 1, fields, hash, "", CHAIN_VERSION);
    e.(entryHash := SignEvent(sign, e))
  }

  function Appended(sign: Mac, w: World, fields: EventFields): World {
    var e := NextRow(sign, w, fields);
    World(Db(w.db.events + [e], w.db.checkpoint, Some(SignedState(sign, e.sequence, e.entryHash))),
          w.history + [e])
  }

  /** The new row has the digest of a row of the table, which the unique index on
      the digest refuses. */
  ghost predicate NextCollides(sign: Mac, w: World, fields: EventFields) {
    exists i :: 0 <= i < |w.db.events| &&
                Collide(sign, PayloadOf(w.db.events[i]), PayloadOf(NextRow(sign, w, fields)))
  }

  /** In an honest state an append goes through iff the new row collides with no
      row of the table: the stored head is the true head. */
  lemma AppendIsEnabled(sign: Mac, w: World, fields: EventFields)
    requires Digests(sign) && Represents(sign, w)
    ensures AppendStep(sign, w, Appended(sign, w, fields), NextRow(sign, w, fields)) <==>
            !NextCollides(sign, w, fields)
    ensures !NextCollides(sign, w, fields) ==>
              Represents(sign, Appended(sign, w, fields)) && Next(sign, w, Appended(sign, w, fields))
  {
    var e := NextRow(sign, w, fields);
    HeadOfIntactChain(sign, w.db);
    forall i | 0 <= i < |w.db.events|
      ensures w.db.events[i].entryHash == e.entryHash <==> Collide(sign, PayloadOf(w.db.events[i]), PayloadOf(e))
    {
      assert RowGenuine(sign, w.db, i);
    }
    if !NextCollides(sign, w, fields) {
      assert AppendStep(sign, w, Appended(sign, w, fields), e);
      AppendPreserves(sign, w, Appended(sign, w, fields), e);
    }
  }

  /** Two events appended to empty tables, then a cleanup through the second. */
  function TwoEvents(sign: Mac, first: EventFields, second: EventFields): World {
    Appended(sign, Appended(sign, EMPTY_WORLD, first), second)
  }

  lemma TwoEventsRun(sign: Mac, first: EventFields, second: EventFields)
    requires Digests(sign) && !NextCollides(sign, Appended(sign, EMPTY_WORLD, first), second)
    ensures var w := TwoEvents(sign, first, second);
            && IsRun(sign, [EMPTY_WORLD, Appended(sign, EMPTY_WORLD, first), w])
            && Represents(sign, w)
            && |w.db.events| == 2 && w.db.events[0].fields == first && w.db.events[1].fields == second
  {
    AppendIsEnabled(sign, EMPTY_WORLD, first);
    AppendIsEnabled(sign, Appended(sign, EMPTY_WORLD, first), second);
  }

  /** Creation times come from the caller, so they may decrease. Then a cleanup
      in an ordinary run can remove an event that is not expired. */
  lemma CleanupCanRemoveFreshRow(sign: Mac, fields: EventFields)
    requires Digests(sign)
    requires !NextCollides(sign, Appended(sign, EMPTY_WORLD, fields.(createdAt := 200)), fields.(createdAt := 50))
    ensures var w := TwoEvents(sign, fields.(createdAt := 200), fields.(createdAt := 50));
            && IsRun(sign, [EMPTY_WORLD, Appended(sign, EMPTY_WORLD, fields.(createdAt := 200)), w])
            && CleanupStep(sign, w, w.(db := Cleaned(sign, w.db, 1)), 100)
            && w.db.events[0].fields.createdAt == 200
            && Cleaned(sign, w.db, 1).events == []
  {
    TwoEventsRun(sign, fields.(createdAt := 200), fields.(createdAt := 50));
    TwoRowCleanup(sign, TwoEvents(sign, fields.(createdAt := 200), fields.(createdAt := 50)));
  }

  lemma TwoRowCleanup(sign: Mac, w: World)
    requires Digests(sign) && ChainIntact(sign, w.db) && |w.db.events| == 2
    requires w.db.events[1].fields.createdAt == 50
    ensures CleanupStep(sign, w, w.(db := Cleaned(sign, w.db, 1)), 100)
    ensures Cleaned(sign, w.db, 1).events == []
  {
    assert LastExpired(w.db.events, 100) == Some(1);
    TruncationKeepsIntact(sign, w.db, 1);
  }
}
