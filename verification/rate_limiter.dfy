/** The sliding-window rate limiter: a list of recent requests per key, pruned on
    every call and dropped by a periodic sweep, against a limiter that remembers
    every accepted request for ever. */
module SlidingWindow {

  // Times and durations are whole nanoseconds.
  type Time = int

  /** The requests strictly after the cutoff, in order. */
  function Recent(requests: seq<Time>, cutoff: Time): (r: seq<Time>)
    ensures |r| <= |requests|
    ensures r != [] ==> r[0] > cutoff
  {
    if requests == [] then []
    else
      var n := |requests| - 1;
      Recent(requests[..n], cutoff) + (if requests[n] > cutoff then [requests[n]] else [])
  }

  ghost predicate Sorted(all: seq<Time>) {
    forall i, j :: 0 <= i < j < |all| ==> all[i] <= all[j]
  }

  ghost predicate Until(all: seq<Time>, clock: Time) {
    forall i :: 0 <= i < |all| ==> all[i] <= clock
  }

  /** Any two accepted times `rate` places apart are at least a window apart. */
  ghost predicate Spaced(all: seq<Time>, rate: nat, window: nat) {
    forall i: nat :: SpacedAt(all, rate, window, i)
  }

  ghost predicate SpacedAt(all: seq<Time>, rate: nat, window: nat, i: nat) {
    i + rate < |all| ==> all[i + rate] - all[i] >= window
  }

  /** `kept` is what remains of the full record `all` after dropping only
      requests that no decision at or after `clock` can still see. */
  ghost predicate Tracks(kept: seq<Time>, all: seq<Time>, rate: nat, window: nat, clock: Time) {
    && Sorted(all) && Until(all, clock) && Spaced(all, rate, window)
    && |kept| <= |all| && kept == all[|all| - |kept|..]
    && forall i :: 0 <= i < |all| - |kept| ==> all[i] <= clock - window
  }

  datatype Answer = Allowed | Rejected(retryAfter: int)

  /** The reference limiter: admit iff fewer than `rate` of all accepted requests
      lie in the half-open window ending now. */
  predicate Admits(all: seq<Time>, now: Time, rate: nat, window: nat) {
    |Recent(all, now - window)| < rate
  }

  /** The cutoff falls between positions `n - 1` and `n`. */
  ghost predicate CutsAt(all: seq<Time>, cutoff: Time, n: nat) {
    && n <= |all|
    && (forall i :: 0 <= i < n ==> all[i] <= cutoff)
    && (forall i :: n <= i < |all| ==> all[i] > cutoff)
  }

  lemma Cut(all: seq<Time>, cutoff: Time) returns (n: nat)
    requires Sorted(all)
    ensures CutsAt(all, cutoff, n)
  {
    n := |all|;
    while n > 0 && all[n - 1] > cutoff
      invariant n <= |all|
      invariant forall i :: n <= i < |all| ==> all[i] > cutoff
    {
      n := n - 1;
    }
  }

  /** What a cutoff leaves of a record it cuts at `n`. */
  lemma {:induction false} RecentAfterCut(all: seq<Time>, cutoff: Time, n: nat)
    requires CutsAt(all, cutoff, n)
    ensures Recent(all, cutoff) == all[n..]
  {
    if all != [] {
      var last := |all| - 1;
      RecentAfterCut(all[..last], cutoff, if n <= last then n else last);
      assert n <= last ==> all[n..] == all[..last][n..] + [all[last]];
    }
  }

  /** Dropped requests are invisible: the pruned list and the full record show
      the same recent requests at any later time. */
  lemma SameRecent(kept: seq<Time>, all: seq<Time>, rate: nat, window: nat, clock: Time, now: Time)
    requires Tracks(kept, all, rate, window, clock) && clock <= now
    ensures Recent(kept, now - window) == Recent(all, now - window)
  {
    RecentOfSuffix(all, |all| - |kept|, now - window);
  }

  lemma RecentOfSuffix(all: seq<Time>, d: nat, cutoff: Time)
    requires Sorted(all) && d <= |all|
    requires forall i :: 0 <= i < d ==> all[i] <= cutoff
    ensures Recent(all[d..], cutoff) == Recent(all, cutoff)
  {
    var n := Cut(all, cutoff);
    assert n < |all| ==> all[n] > cutoff;
    CutOfSuffix(all, cutoff, d, n);
    RecentAfterCut(all, cutoff, n);
    RecentAfterCut(all[d..], cutoff, n - d);
  }

  lemma CutOfSuffix(all: seq<Time>, cutoff: Time, d: nat, n: nat)
    requires CutsAt(all, cutoff, n) && d <= n
    ensures CutsAt(all[d..], cutoff, n - d) && all[d..][n - d..] == all[n..]
  {
    assert forall i :: 0 <= i < |all| - d ==> all[d..][i] == all[d + i];
  }

  /** Pruning and a refused call keep the list in step with the record. */
  lemma PruneTracks(kept: seq<Time>, all: seq<Time>, rate: nat, window: nat, clock: Time, now: Time)
    requires Tracks(kept, all, rate, window, clock) && clock <= now
    ensures Tracks(Recent(kept, now - window), all, rate, window, now)
  {
    SameRecent(kept, all, rate, window, clock, now);
    var n := Cut(all, now - window);
    RecentAfterCut(all, now - window, n);
    assert all[n..] == all[|all| - |all[n..]|..];
  }

  /** Admitting a request only while there is room keeps the record spaced out. */
  lemma AdmitKeepsSpacing(all: seq<Time>, rate: nat, window: nat, now: Time)
    requires rate >= 1 && Sorted(all) && Until(all, now) && Spaced(all, rate, window)
    requires Admits(all, now, rate, window)
    ensures Sorted(all + [now]) && Until(all + [now], now) && Spaced(all + [now], rate, window)
  {
    var n := Cut(all, now - window);
    RecentAfterCut(all, now - window, n);
    var all' := all + [now];
    forall i: nat ensures SpacedAt(all', rate, window, i) {
      assert SpacedAt(all, rate, window, i);
      assert i + rate == |all| ==> i < n;
    }
  }

  /** An admitted call keeps them in step. */
  lemma AdmitTracks(kept: seq<Time>, all: seq<Time>, rate: nat, window: nat, clock: Time, now: Time)
    requires Tracks(kept, all, rate, window, clock) && clock <= now
    requires rate >= 1 && Admits(all, now, rate, window)
    ensures Tracks(Recent(kept, now - window) + [now], all + [now], rate, window, now)
  {
    AdmitKeepsSpacing(all, rate, window, now);
    PruneTracks(kept, all, rate, window, clock, now);
    var recent := Recent(kept, now - window);
    assert recent + [now] == (all + [now])[|all| - |recent|..];
  }

  /** Whatever is decided, list and record stay in step. */
  lemma DecisionTracks(kept: seq<Time>, all: seq<Time>, rate: nat, window: nat, clock: Time, now: Time)
    requires rate >= 1 && Tracks(kept, all, rate, window, clock) && clock <= now
    ensures Tracks(Kept(kept, now, rate, window),
                   if Admits(kept, now, rate, window) then all + [now] else all, rate, window, now)
  {
    SameRecent(kept, all, rate, window, clock, now);
    PruneTracks(kept, all, rate, window, clock, now);
    if Admits(kept, now, rate, window) {
      AdmitTracks(kept, all, rate, window, clock, now);
    }
  }

  /** A visitor whose last request is older than two windows holds nothing that
      any later decision can see, and neither does an empty one. */
  predicate Stale(kept: seq<Time>, now: Time, window: nat) {
    kept == [] || kept[|kept| - 1] < now - 2 * window
  }

  lemma SweepTracks(kept: seq<Time>, all: seq<Time>, rate: nat, window: nat, clock: Time, now: Time)
    requires Tracks(kept, all, rate, window, clock) && clock <= now && Stale(kept, now, window)
    ensures Tracks([], all, rate, window, now)
  {
    forall i | 0 <= i < |all| ensures all[i] <= now - window {
      if i >= |all| - |kept| {
        assert all[i] <= all[|all| - 1] == kept[|kept| - 1];
      }
    }
  }

  lemma TracksLater(kept: seq<Time>, all: seq<Time>, rate: nat, window: nat, clock: Time, now: Time)
    requires Tracks(kept, all, rate, window, clock) && clock <= now
    ensures Tracks(kept, all, rate, window, now)
  {
  }

  /** How many accepted requests lie in (low, high]. */
  function CountWithin(all: seq<Time>, low: Time, high: Time): nat {
    if all == [] then 0
    else
      var n := |all| - 1;
      CountWithin(all[..n], low, high) + (if low < all[n] <= high then 1 else 0)
  }

  /** The positions of the requests in (low, high]. */
  function PlacesWithin(all: seq<Time>, low: Time, high: Time): set<nat> {
    set i: nat | i < |all| && low < all[i] <= high
  }

  lemma {:induction false} CountIsNumberOfPlaces(all: seq<Time>, low: Time, high: Time)
    ensures CountWithin(all, low, high) == |PlacesWithin(all, low, high)|
  {
    if all != [] {
      var n := |all| - 1;
      CountIsNumberOfPlaces(all[..n], low, high);
      assert PlacesWithin(all, low, high)
             == PlacesWithin(all[..n], low, high) + (if low < all[n] <= high then {n} else {});
    }
  }

  lemma {:induction false} RecentIsCount(all: seq<Time>, low: Time, high: Time)
    requires Until(all, high)
    ensures |Recent(all, low)| == CountWithin(all, low, high)
  {
    if all != [] {
      RecentIsCount(all[..|all| - 1], low, high);
    }
  }

  /** A call is admitted iff fewer than `rate` requests of the record lie in the
      window that ends now. */
  lemma AdmitsIffFewer(all: seq<Time>, now: Time, rate: nat, window: nat)
    requires Until(all, now)
    ensures Admits(all, now, rate, window) <==> |PlacesWithin(all, now - window, now)| < rate
  {
    RecentIsCount(all, now - window, now);
    CountIsNumberOfPlaces(all, now - window, now);
  }

  /** A stretch of a spaced record that fits into one window holds at most `rate`. */
  lemma AtMostRate(all: seq<Time>, rate: nat, window: nat, a: nat, b: nat)
    requires rate >= 1 && Spaced(all, rate, window) && a <= b <= |all|
    requires forall i, j :: a <= i < j < b ==> all[j] - all[i] < window
    ensures b - a <= rate
  {
    assert SpacedAt(all, rate, window, a);
  }

  /** THE LIMIT. In a spaced record no window of the configured length, wherever
      it lies, holds more than `rate` requests. */
  lemma NoWindowExceedsRate(all: seq<Time>, rate: nat, window: nat, end: Time)
    requires rate >= 1 && Sorted(all) && Spaced(all, rate, window)
    ensures CountWithin(all, end - window, end) <= rate
  {
    var a := Cut(all, end - window);
    var b := Cut(all, end);
    CountBetween(all, end - window, end, a, b);
    if a <= b {
      AtMostRate(all, rate, window, a, b);
    }
  }

  lemma {:induction false} CountBetween(all: seq<Time>, low: Time, high: Time, a: nat, b: int)
    requires a <= |all| && b <= |all|
    requires forall i :: 0 <= i < |all| ==> (all[i] > low <==> i >= a) && (all[i] > high <==> i >= b)
    ensures CountWithin(all, low, high) == if a <= b then b - a else 0
  {
    if all != [] {
      var n := |all| - 1;
      CountBetween(all[..n], low, high, if a <= n then a else n, if b <= n then b else n);
    }
  }

  /** RETRY TIMES ARE EXACT. After a rejection, as long as nothing else is
      accepted, a later call is admitted iff it comes at or after now + retryAfter. */
  lemma RetryAfterIsExact(all: seq<Time>, rate: nat, window: nat, now: Time, later: Time)
    requires rate >= 1 && Sorted(all) && Until(all, now) && Spaced(all, rate, window) && now <= later
    requires !Admits(all, now, rate, window)
    ensures var retryAfter := Recent(all, now - window)[0] + window - now;
            && 0 < retryAfter <= window
            && (Admits(all, later, rate, window) <==> later >= now + retryAfter)
  {
    var n := Cut(all, now - window);
    var m := Cut(all, later - window);
    RecentAfterCut(all, now - window, n);
    RecentAfterCut(all, later - window, m);
    AtMostRate(all, rate, window, n, |all|);
    assert m < |all| ==> all[m] > later - window;
  }

  /** Waiting `retryAfter` is what it takes, no more and no less. */
  ghost predicate RetryExact(all: seq<Time>, rate: nat, window: nat, now: Time, retryAfter: int) {
    && 0 < retryAfter <= window
    && forall later :: now <= later ==> (Admits(all, later, rate, window) <==> later >= now + retryAfter)
  }

  lemma RejectionStands(all: seq<Time>, rate: nat, window: nat, now: Time)
    requires rate >= 1 && Sorted(all) && Until(all, now) && Spaced(all, rate, window)
    requires !Admits(all, now, rate, window)
    ensures RetryExact(all, rate, window, now, Recent(all, now - window)[0] + window - now)
  {
    forall later | now <= later
      ensures var retryAfter := Recent(all, now - window)[0] + window - now;
              Admits(all, later, rate, window) <==> later >= now + retryAfter
    {
      RetryAfterIsExact(all, rate, window, now, later);
    }
    RetryAfterIsExact(all, rate, window, now, now);
  }

  const SECOND: int := 1_000_000_000

  /** The Retry-After header: whole seconds rounded up, at least one. */
  function RetrySeconds(retryAfter: int): int {
    var ceiling := -((-retryAfter) / SECOND);
    if ceiling > 1 then ceiling else 1
  }

  /** The header is the least positive number of whole seconds after which the
      retry is accepted. */
  lemma RetryHeaderIsLeast(all: seq<Time>, rate: nat, window: nat, now: Time, seconds: int)
    requires rate >= 1 && Sorted(all) && Until(all, now) && Spaced(all, rate, window)
    requires !Admits(all, now, rate, window) && seconds >= 1
    ensures var retryAfter := Recent(all, now - window)[0] + window - now;
            Admits(all, now + seconds * SECOND, rate, window) <==> seconds >= RetrySeconds(retryAfter)
  {
    RetryAfterIsExact(all, rate, window, now, now + seconds * SECOND);
  }

  // ------------------------------------------------------- whole traces

  datatype Event = Call(key: string, time: Time) | Sweep(time: Time)

  type Table = map<string, seq<Time>>

  function Times(table: Table, key: string): seq<Time> {
    if key in table then table[key] else []
  }

  function AfterSweep(visitors: Table, now: Time, window: nat): Table {
    map key | key in visitors && !Stale(visitors[key], now, window) :: visitors[key]
  }

  /** What one call leaves of a request list: pruned, and extended if admitted. */
  function Kept(requests: seq<Time>, now: Time, rate: nat, window: nat): seq<Time> {
    var recent := Recent(requests, now - window);
    if |recent| >= rate then recent else recent + [now]
  }

  function AfterCall(visitors: Table, key: string, now: Time, rate: nat, window: nat): Table {
    visitors[key := Kept(Times(visitors, key), now, rate, window)]
  }

  function AnswerOf(requests: seq<Time>, now: Time, rate: nat, window: nat): Answer
    requires rate >= 1
  {
    var recent := Recent(requests, now - window);
    if |recent| >= rate then Rejected(recent[0] + window - now) else Allowed
  }

  /** The answers of the pruned, swept tables along a trace. */
  function PrunedAnswers(visitors: Table, trace: seq<Event>, rate: nat, window: nat): seq<Answer>
    requires rate >= 1
    decreases |trace|
  {
    if trace == [] then []
    else match trace[0]
      case Sweep(now) => PrunedAnswers(AfterSweep(visitors, now, window), trace[1..], rate, window)
      case Call(key, now) =>
        [AnswerOf(Times(visitors, key), now, rate, window)] +
        PrunedAnswers(AfterCall(visitors, key, now, rate, window), trace[1..], rate, window)
  }

  /** The record of the reference limiter after one call. */
  function Recorded(all: Table, key: string, now: Time, rate: nat, window: nat): Table {
    if Admits(Times(all, key), now, rate, window) then all[key := Times(all, key) + [now]] else all
  }

  /** The answers of the limiter that never forgets; sweeps mean nothing to it. */
  function FullAnswers(all: Table, trace: seq<Event>, rate: nat, window: nat): seq<Answer>
    requires rate >= 1
    decreases |trace|
  {
    if trace == [] then []
    else match trace[0]
      case Sweep(_) => FullAnswers(all, trace[1..], rate, window)
      case Call(key, now) =>
        [AnswerOf(Times(all, key), now, rate, window)] +
        FullAnswers(Recorded(all, key, now, rate, window), trace[1..], rate, window)
  }

  ghost predicate Monotone(trace: seq<Event>, clock: Time) {
    trace != [] ==> clock <= trace[0].time && Monotone(trace[1..], trace[0].time)
  }

  ghost predicate AllTrack(visitors: Table, all: Table, rate: nat, window: nat, clock: Time) {
    forall key :: KeyTracks(visitors, all, key, rate, window, clock)
  }

  ghost predicate KeyTracks(visitors: Table, all: Table, key: string, rate: nat, window: nat, clock: Time) {
    Tracks(Times(visitors, key), Times(all, key), rate, window, clock)
  }

  /** A call is answered from the pruned list as from the full record. */
  lemma CallAnswers(visitors: Table, all: Table, key: string, rate: nat, window: nat, clock: Time, now: Time)
    requires rate >= 1 && clock <= now && KeyTracks(visitors, all, key, rate, window, clock)
    ensures AnswerOf(Times(visitors, key), now, rate, window) == AnswerOf(Times(all, key), now, rate, window)
    ensures AnswerOf(Times(all, key), now, rate, window).Allowed? <==> Admits(Times(all, key), now, rate, window)
    ensures !Admits(Times(all, key), now, rate, window) ==>
              RetryExact(Times(all, key), rate, window, now,
                         AnswerOf(Times(all, key), now, rate, window).retryAfter)
  {
    var kept, record := Times(visitors, key), Times(all, key);
    SameRecent(kept, record, rate, window, clock, now);
    TracksLater(kept, record, rate, window, clock, now);
    if !Admits(record, now, rate, window) {
      RejectionStands(record, rate, window, now);
    }
  }

  lemma CallTracksKey(visitors: Table, all: Table, key: string, other: string,
                      rate: nat, window: nat, clock: Time, now: Time)
    requires rate >= 1 && clock <= now
    requires KeyTracks(visitors, all, key, rate, window, clock) && KeyTracks(visitors, all, other, rate, window, clock)
    ensures KeyTracks(AfterCall(visitors, key, now, rate, window), Recorded(all, key, now, rate, window), other,
                      rate, window, now)
  {
    if other == key {
      SameRecent(Times(visitors, key), Times(all, key), rate, window, clock, now);
      DecisionTracks(Times(visitors, key), Times(all, key), rate, window, clock, now);
    } else {
      TracksLater(Times(visitors, other), Times(all, other), rate, window, clock, now);
    }
  }

  lemma CallTracks(visitors: Table, all: Table, key: string, rate: nat, window: nat, clock: Time, now: Time)
    requires rate >= 1 && clock <= now && AllTrack(visitors, all, rate, window, clock)
    ensures AllTrack(AfterCall(visitors, key, now, rate, window), Recorded(all, key, now, rate, window),
                     rate, window, now)
  {
    var visitors', all' := AfterCall(visitors, key, now, rate, window), Recorded(all, key, now, rate, window);
    forall other ensures KeyTracks(visitors', all', other, rate, window, now) {
      assert KeyTracks(visitors, all, key, rate, window, clock) && KeyTracks(visitors, all, other, rate, window, clock);
      CallTracksKey(visitors, all, key, other, rate, window, clock, now);
    }
  }

  /** So no key ever gets more than `rate` requests accepted within one window. */
  lemma LimitHolds(visitors: Table, all: Table, key: string, rate: nat, window: nat, clock: Time, end: Time)
    requires rate >= 1 && AllTrack(visitors, all, rate, window, clock)
    ensures CountWithin(Times(all, key), end - window, end) <= rate
  {
    assert KeyTracks(visitors, all, key, rate, window, clock);
    NoWindowExceedsRate(Times(all, key), rate, window, end);
  }

  lemma SweepTracksAll(visitors: Table, all: Table, rate: nat, window: nat, clock: Time, now: Time)
    requires clock <= now && AllTrack(visitors, all, rate, window, clock)
    ensures AllTrack(AfterSweep(visitors, now, window), all, rate, window, now)
  {
    var swept := AfterSweep(visitors, now, window);
    forall key ensures KeyTracks(swept, all, key, rate, window, now) {
      assert KeyTracks(visitors, all, key, rate, window, clock);
      if Stale(Times(visitors, key), now, window) {
        SweepTracks(Times(visitors, key), Times(all, key), rate, window, clock, now);
      } else {
        TracksLater(Times(visitors, key), Times(all, key), rate, window, clock, now);
      }
    }
  }

  /** REFINEMENT. Along every trace of calls and sweeps with a clock that never
      runs backwards, the pruned tables answer exactly as the full record. */
  lemma {:induction false} PrunedAnswersAsFull(visitors: Table, all: Table, trace: seq<Event>,
                                               rate: nat, window: nat, clock: Time)
    requires rate >= 1 && AllTrack(visitors, all, rate, window, clock) && Monotone(trace, clock)
    ensures PrunedAnswers(visitors, trace, rate, window) == FullAnswers(all, trace, rate, window)
    decreases |trace|
  {
    if trace != [] {
      match trace[0]
      case Sweep(now) =>
        SweepTracksAll(visitors, all, rate, window, clock, now);
        PrunedAnswersAsFull(AfterSweep(visitors, now, window), all, trace[1..], rate, window, now);
      case Call(key, now) =>
        assert KeyTracks(visitors, all, key, rate, window, clock);
        CallAnswers(visitors, all, key, rate, window, clock, now);
        CallTracks(visitors, all, key, rate, window, clock, now);
        PrunedAnswersAsFull(AfterCall(visitors, key, now, rate, window), Recorded(all, key, now, rate, window),
                            trace[1..], rate, window, now);
    }
  }
}

/** The limiter as the source keeps it: one mutable table of request lists. */
module RateLimiter {
  import opened SlidingWindow
  import Text

  function NormalizeKey(key: string): string {
    var trimmed := Text.TrimSpace(key);
    if trimmed == "" then "unknown" else trimmed
  }

  /** What a call does to the records of accepted requests: it is decided from the
      record of one key, which it extends if it is admitted, and no other record
      changes. */
  ghost predicate DecidedFor(key: string, before: Table, after: Table, now: Time, rate: nat, window: nat, allowed: bool) {
    && (allowed <==> |PlacesWithin(Times(before, key), now - window, now)| < rate)
    && Times(after, key) == (if allowed then Times(before, key) + [now] else Times(before, key))
    && forall other :: other != key ==> Times(after, other) == Times(before, other)
  }

  lemma RecordedIsDecided(all: Table, key: string, now: Time, rate: nat, window: nat)
    requires Until(Times(all, key), now)
    ensures DecidedFor(key, all, Recorded(all, key, now, rate, window), now, rate, window,
                       Admits(Times(all, key), now, rate, window))
  {
    AdmitsIffFewer(Times(all, key), now, rate, window);
  }

  /** The text is the key between white space, or blank and the key is "unknown". */
  ghost predicate Addresses(rawKey: string, key: string) {
    || (Text.Blank(rawKey) && key == "unknown")
    || (Text.Bare(key) && exists pre, post :: Text.Blank(pre) && Text.Blank(post) && rawKey == pre + key + post)
  }

  /** Every text addresses one key. */
  lemma OnlyKeyAddressed(rawKey: string)
    ensures forall key :: Addresses(rawKey, key) <==> key == NormalizeKey(rawKey)
  {
    if Text.Blank(rawKey) {
      Text.TrimSpaceOfBlank(rawKey);
    } else {
      var pre, post := Text.CoreBetweenBlanks(rawKey);
    }
    forall key | Addresses(rawKey, key) ensures key == NormalizeKey(rawKey) {
      if Text.Blank(rawKey) && key == "unknown" {
        Text.TrimSpaceOfBlank(rawKey);
      } else {
        var pre, post :| Text.Blank(pre) && Text.Blank(post) && rawKey == pre + key + post;
        Text.TrimSpaceKeepsCore(pre, key, post);
      }
    }
  }

  class Limiter {
    const rate: nat
    const window: nat
    var visitors: Table
    ghost var accepted: Table
    ghost var clock: Time

    constructor (rate: nat, window: nat, ghost now: Time)
      requires rate >= 1
      ensures Valid() && this.rate == rate && this.window == window
      ensures visitors == map[] && accepted == map[] && clock == now
    {
      this.rate, this.window := rate, window;
      visitors, accepted, clock := map[], map[], now;
    }

    /** The pruned lists track the full record of accepted requests. */
    ghost predicate Valid()
      reads this
    {
      rate >= 1 && AllTrack(visitors, accepted, rate, window, clock)
    }

    /** The section of Allow under the visitor's lock: prune, then decide. */
    static method Decide(requests: seq<Time>, now: Time, rate: nat, window: nat)
      returns (kept: seq<Time>, allowed: bool, retryAfter: int)
      requires rate >= 1
      ensures kept == Kept(requests, now, rate, window)
      ensures AnswerOf(requests, now, rate, window) == (if allowed then Allowed else Rejected(retryAfter))
      ensures allowed ==> retryAfter == 0
    {
      var cutoff := now - window;
      var validRequests := [];
      for i := 0 to |requests|
        invariant validRequests == Recent(requests[..i], cutoff)
      {
        assert requests[..i + 1][..i] == requests[..i];
        if requests[i] > cutoff {
          validRequests := validRequests + [requests[i]];
        }
      }
      assert requests[..|requests|] == requests;
      if |validRequests| >= rate {
        retryAfter := validRequests[0] + window - now;
        if retryAfter < 0 {
          retryAfter := 0;
        }
        return validRequests, false, retryAfter;
      }
      return validRequests + [now], true, 0;
    }

    /** One call, atomic with respect to the sweep. It decides from the full
        record, which only an accepted call extends. */
    method Allow(rawKey: string, now: Time) returns (allowed: bool, retryAfter: int)
      requires Valid() && clock <= now
      modifies this
      ensures Valid() && clock == now
      ensures var key := NormalizeKey(rawKey);
              && visitors == AfterCall(old(visitors), key, now, rate, window)
              && accepted == Recorded(old(accepted), key, now, rate, window)
              && (allowed <==> Admits(Times(old(accepted), key), now, rate, window))
              && (allowed ==> retryAfter == 0)
              && (!allowed ==>
                    && accepted == old(accepted)
                    && RetryExact(Times(accepted, key), rate, window, now, retryAfter))
      ensures forall key :: Addresses(rawKey, key) ==>
                DecidedFor(key, old(accepted), accepted, now, rate, window, allowed)
    {
      var key := NormalizeKey(rawKey);
      assert KeyTracks(visitors, accepted, key, rate, window, clock);
      CallAnswers(visitors, accepted, key, rate, window, clock, now);
      CallTracks(visitors, accepted, key, rate, window, clock, now);
      OnlyKeyAddressed(rawKey);
      RecordedIsDecided(accepted, key, now, rate, window);
      var requests := if key in visitors then visitors[key] else [];
      var kept;
      kept, allowed, retryAfter := Decide(requests, now, rate, window);
      visitors := visitors[key := kept];
      accepted := Recorded(accepted, key, now, rate, window);
      clock := now;
    }

    /** One tick of the sweep: forgets visitors, never an answer. */
    method Cleanup(now: Time)
      requires Valid() && clock <= now
      modifies this`visitors, this`clock
      ensures Valid() && clock == now
      ensures visitors == AfterSweep(old(visitors), now, window)
      ensures forall key :: key in visitors <==>
                && key in old(visitors) && old(visitors)[key] != []
                && old(visitors)[key][|old(visitors)[key]| - 1] >= now - 2 * window
    {
      SweepTracksAll(visitors, accepted, rate, window, clock, now);
      var cutoff := now - 2 * window;
      var pending := visitors.Keys;
      while pending != {}
        invariant pending <= old(visitors).Keys
        invariant visitors == map key | key in old(visitors) &&
                                        (key in pending || !Stale(old(visitors)[key], now, window))
                                        :: old(visitors)[key]
        decreases |pending|
      {
        var key :| key in pending;
        pending := pending - {key};
        var requests := visitors[key];
        if |requests| == 0 || requests[|requests| - 1] < cutoff {
          visitors := visitors - {key};
        }
      }
      assert visitors == AfterSweep(old(visitors), now, window);
      clock := now;
    }
  }
}
