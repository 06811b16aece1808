# Verified models of the One-Instack panel services

A Dafny 4.11 model of the parts of the panel whose correctness rests on more
than one function: the audit hash chain, the rate limiter, configuration
snapshots, audit search, the response copier, approvals, backup cleanup, metric
collection and the credential migration. `dafny verify dfyconfig.toml` checks
everything.

## What is modelled

- **Audit chain** (`audit_chain.dfy`, `audit_manager.dfy`). Three tables: events
  in ascending sequence, the retention checkpoint and the chain head. HMAC-SHA-256
  (RFC 2104, section 2) is a function `sign` from payloads to texts of 64 characters.
  Nothing says that it never collides: what a collision would upset is stated as "this
  holds, or these two payloads collide". Event, checkpoint and head payloads are
  three constructors, as their JSON field names keep them apart. The manager's mutex makes every method one step, and a transaction writes all of
  its tables or none. `Append` takes the database's behaviour as a parameter: which
  statement of which attempt fails, and whether the error is a busy one. A ghost
  history keeps every event ever appended.
- **Rate limiter** (`rate_limiter.dfy`, `rate_limiter_race.dfy`). Times are whole
  nanoseconds of a clock that never runs backwards; `rate` is at least 1, since the
  code indexes the first request of a full list. The first file takes one call as
  atomic with respect to the sweep. The second splits a call at the gap between the
  table lookup and the visitor's lock.
- **Configuration snapshots** (`json.dfy`, `json_text.dfy`, `json_numbers.dfy`,
  `config_diff.dfy`, `config_patch.dfy`, `config_snapshot.dfy`). Decoded JSON values
  (RFC 8259, sections 3 and 4) with objects as maps; printed documents, whose members
  have an order, and their text with its escapes; what decoding does to numbers, as a
  function from the token of a number to the token of its float64; Go values as redaction meets them, maps and slices of
  `any` on the one hand and everything it returns as it is on the other; the
  collected difference as structural paths and as the dotted names that are stored;
  the stored rows.
- **Audit search** (`audit_query.dfy`). The escaped pattern, and SQL LIKE with
  ESCAPE (ISO/IEC 9075:1992, section 8.5) with SQLite's ASCII case folding.
- **Response copier** (`response_copier.dfy`, `copier_termination.dfy`). Values as reflection shows them over
  a heap of pointers, sharing and cycles included. The translation tables, case
  folding and the Han test are parameters. `FirstNames` gives, of the data alone, the
  name every pointer is copied under. The second file asks only when the copier
  returns, over graphs in which slices and maps are shared too.
- **Approvals** (`approval.dfy`, one call at a time; `approval_race.dfy`, with the
  reading and the writing of a review apart; `approval_submit.dfy`, with the look and
  the insert of a submission apart), **backup cleanup** (`backup_cleanup.dfy`, and
  `backup_race.dfy` against restores that are being submitted), **metric collection**
  (`bastion_collect.dfy`), **credential migration** (`credential_migration.dfy`).

## Where the code does not do what one would expect

Each of these is a lemma about the code as it is, with the exact condition where
one exists.

- Retention cleanup deletes by sequence up to the newest expired event. Creation
  times come from callers and may decrease, so an event that is not expired can go
  (`CleanupCanRemoveFreshRow`); exactly the expired ones go iff no fresh event
  precedes an expired one (`CleanupExactness`).
- The chain notices every change of a row, but not going back: the tables of an earlier
  moment, or no tables at all, verify (`OldCopiesVerify`). Short of showing a collision
  or the digest of a head that was never signed, nothing else does
  (`ForgeriesMatchHistory`).
- The limiter's sweep may remove a visitor while a call holds it without its lock.
  The limit holds in every interleaving in which it does not, and each time it does,
  some continuation exceeds the limit (`PoliteRunsKeepTheLimit`,
  `RudeSweepBreaksTheLimit`); such a run from the start is given
  (`LimitBreaksFromTheStart`).
- Redaction enters maps and slices of `any` and nothing else. A struct is stored as it
  is, secrets included; no secret is stored iff none stands in such a part that is not
  itself redacted away (`NoSecretsIffOtherPartsClean`). The panel's network request is
  a struct, and its private key path is stored in clear (`PanelRequestIsStoredInClear`).
- The drift test compares the text of a struct with the text of a decoded map. Texts
  and differences agree iff the members are listed in the same order and the numbers
  are the same (`EqualIffNoDiffInSameOrder`). Decoding makes a float64 of every number,
  so {traffic_alert_bytes: 9007199254740992} and {traffic_alert_bytes:
  9007199254740993} have no difference and are not equal (`MergedNumbersAreNotEqual`).
  A resource that has not changed is reported as unchanged iff it prints its members by
  ascending key, no number in it changes when it is decoded, and it holds no secret
  redaction misses (`UnchangedIsEqualIff`). The panel's request never is
  (`PanelRequestAlwaysDrifts`), nor is a large number (`LargeNumberAlwaysDrifts`).
- Two differences can share a dotted name. Which key sets are safe is stated exactly
  (`UniqueIffNoClash`): of those that hold the parts of their keys, the empty key
  alone and the ones without empty keys and dots (`NamesAreUniqueIffPlain`,
  `EmptyKeyAloneIsSafe`).
- At the very instant of expiry a request is shown as expired but can still be
  approved, unless the background job ran first (`GrantedIffShownPending`,
  `JobDoesNotChangeReviews`).
- A review reads the request and writes its verdict in two statements. No one reviews
  their own request in any interleaving; at most one review is written while no two
  granted ones overlap, and whenever two do, both can be written, one as an approval
  and one as a rejection (`SerialRunsReviewOnce`, `OverlapReviewsTwice`,
  `BothVerdictsFromTheStart`).
- The same gap lies between reviews and expiries. A written review is never marked
  expired while expiries and granted reviews are apart, and whenever they are not, it
  can be (`ApartRunsKeepReviews`, `NotApartLosesReview`, `ExpiryCanOverwriteApproval`).
  A written expiry is never undone while the request does not become expired under a
  granted review, and whenever it does, it can be (`CalmRunsKeepExpiry`,
  `NotCalmUndoesExpiry`, `ReviewCanUndoExpiry`).
- `Create` does not look for a live request of the same intent. One live request per
  intent is kept iff the new request is not live or its intent has none yet
  (`OneMoreRow`, `SubmitTwice`). `CreateOrReusePending` looks, and inserts in a second
  statement: one live request is kept while no submission looks in vain with another of
  its intent about to insert, and whenever one does, two can be left
  (`AloneRunsKeepOne`, `NotAloneLeavesTwo`, `TwoSubmissionsFromTheStart`).
- The cleaner counts the restores of a backup before it removes the file, and a restore
  finds the backup before it creates its task. A restore keeps its source while the two
  are apart, and whenever they are not, it can lose it (`ApartRunsKeepSources`,
  `NotApartLosesSource`, `SourceLostFromTheStart`).
- The copier returns iff nothing it reaches is a slice or map that contains itself
  without a pointer in between (`ReturnsIffNothingContainsItself`,
  `SelfContainingSlice`).
- A cell that two fields share is translated once, for the field met first. No error
  field shows Han characters iff every cell is clean as filed there, under every name
  it is reached by (`ErrorsCleanIff`); with a plain field first it is not
  (`SharedCellCanKeepHan`).

## Model

| member | source | states |
|---|---|---|
| AuditChain.IntactMeansSigned | internal/services/audit/integrity.go:34-127 | a chain is intact iff every digest and signature in the three tables is the keyed digest of what stands beside it, and rows, checkpoint and head follow one another |
| AuditChain.SameHeadSameDigests | internal/services/audit/integrity.go:34-127 | two verifying databases with the same head bind the same digest to every sequence both cover, or two of their events collide; by backward induction along previous hashes |
| AuditChain.TamperEvidence | internal/services/audit/integrity.go:34-127 | two verifying databases with the same head agree on every event both hold in every signed field, and a checkpoint of one names the digest the other holds there; or two of their events collide |
| AuditChain.SameAnchorsSameLog | internal/services/audit/manager.go:259-304 | with the same head and checkpoint rows the tables are equal row by row, up to the unsigned row id, or two events collide |
| AuditChain.LosingTheCheckpointIsNoticed | internal/services/audit/integrity.go:39-60 | an intact database whose checkpoint row is dropped no longer verifies |
| AuditChain.HeadOfIntactChain | internal/services/audit/manager.go:239-257 | the head read before an append is the end of the verified chain |
| AuditChain.LastExpired | internal/services/audit/integrity.go:147-157 | the row found is expired and every later one is fresh; none is found iff none is expired |
| AuditChain.DeleteThroughRow | internal/services/audit/integrity.go:173-177 | on a genuine table, deleting by sequence drops exactly the rows up to that one |
| AuditChain.TruncationKeepsIntact | internal/services/audit/integrity.go:159-182 | truncating an intact chain under a signed checkpoint leaves an intact chain with the same head |
| AuditChain.CleanupKeepsFreshSuffix | internal/services/audit/integrity.go:147-185 | a cleanup keeps a suffix, all fresh, whose first event names the checkpoint's hash as its predecessor |
| AuditChain.CleanupExactness | internal/services/audit/integrity.go:147-185 | every expired event is deleted, and only expired ones iff no fresh event precedes an expired one, which non-decreasing creation times guarantee |
| AuditChain.CleanupCanRemoveFreshRow | internal/services/audit/integrity.go:147-178 | a concrete run in which a cleanup deletes an event that is not expired |
| AuditChain.AppendKeepsIntact | internal/services/audit/manager.go:151-168 | a signed row added at the head with a new head row keeps the chain intact |
| AuditChain.AppendPreserves | internal/services/audit/manager.go:139-169 | an append keeps the tables the suffix of the history after the checkpoint, and gives out the next sequence |
| AuditChain.CleanupPreserves | internal/services/audit/integrity.go:136-185 | so does a cleanup |
| AuditChain.RunsStayIntact | internal/services/audit/manager.go:132-179 | after every run of appends and cleanups from empty tables the chain verifies and the tables are the suffix of a history that only grows |
| AuditChain.SequencesNeverReused | internal/services/audit/manager.go:239-257 | of two appends in a run the later one gets the larger sequence, whatever was cleaned up between them, and another digest unless the two events collide |
| AuditChain.SameHeadMatchesHistory | internal/services/audit/integrity.go:104-126 | any database that verifies under the head of a moment of an honest run holds the history of that moment after its checkpoint, and the checkpoint from it, or one of its rows collides with one of the history |
| AuditChain.ForgeriesMatchHistory | internal/services/audit/integrity.go:104-126 | any database that verifies after an honest run is empty, or holds the history of some moment of the run up to a collision, or its head row shows the digest of a head the run never signed |
| AuditChain.OldCopiesVerify | internal/services/audit/integrity.go:34-127 | the tables of every earlier moment verify, and so do empty ones, so going back to them is not noticed |
| AuditChain.AppendIsEnabled | internal/services/audit/manager.go:140-169 | in an honest state an append goes through iff the new event collides with none in the table; the stored head never refuses it |
| AuditManager.Manager.constructor | internal/services/audit/manager.go:83-95 | a manager over empty tables starts in an honest state |
| AuditManager.Manager.Verify | internal/services/audit/integrity.go:34-127 | valid iff the chain is intact; otherwise the first bad row's sequence, the rows checked up to it, where the scan began and ended, and which check failed |
| AuditManager.Manager.TryAppend | internal/services/audit/manager.go:143-169 | one transaction: an append step or no change, when it succeeds, and otherwise with which error |
| AuditManager.Manager.Append | internal/services/audit/manager.go:132-179 | succeeds iff the head is trusted, the digest unused and one of four attempts goes through after only busy ones; then exactly one append step, otherwise no change; keeps honest states honest |
| AuditManager.Manager.CleanupBefore | internal/services/audit/integrity.go:129-186 | refuses a broken chain, changes nothing when nothing is expired or the transaction fails, otherwise one cleanup step with its exact result |
| AuditManager.RunNow | internal/services/audit/cleaner.go:88-109 | refuses a broken chain, does nothing when nothing is expired or the cleanup fails; otherwise one cleanup and its result, recorded by one append, or the cleanup alone when that append fails |
| SlidingWindow.SameRecent | router/middleware/ratelimit.go:77-85 | the pruned list shows the same recent requests as the full record |
| SlidingWindow.CountIsNumberOfPlaces | router/middleware/ratelimit.go:77-88 | counting a window of a record is the number of its requests that lie in it |
| SlidingWindow.AdmitsIffFewer | router/middleware/ratelimit.go:77-88 | a call is admitted iff fewer than rate requests of the record lie in the window that ends now |
| SlidingWindow.DecisionTracks | router/middleware/ratelimit.go:77-98 | pruning and deciding keep the list in step with the full record, accepted or not |
| SlidingWindow.SweepTracks | router/middleware/ratelimit.go:113-119 | a visitor the sweep drops holds nothing a later decision can see |
| SlidingWindow.NoWindowExceedsRate | router/middleware/ratelimit.go:87-98 | no window of the configured length, wherever it lies, holds more than rate accepted requests |
| SlidingWindow.LimitHolds | router/middleware/ratelimit.go:53-99 | the same for every key of a limiter in a reachable state |
| SlidingWindow.RetryAfterIsExact | router/middleware/ratelimit.go:88-94 | after a rejection, a later call is admitted iff it comes at or after now plus retryAfter, which is positive and at most the window |
| SlidingWindow.RetryHeaderIsLeast | router/middleware/ratelimit.go:136-139 | the Retry-After header (RFC 9110, section 10.2.3) is the least positive number of whole seconds after which a retry is admitted |
| SlidingWindow.CallAnswers | router/middleware/ratelimit.go:77-98 | a call is answered from the pruned list as from the full record |
| SlidingWindow.PrunedAnswersAsFull | router/middleware/ratelimit.go:53-123 | along every trace of calls and sweeps the pruned tables answer exactly as a limiter that never forgets |
| RateLimiter.Limiter.Decide | router/middleware/ratelimit.go:77-98 | the pruning loop leaves the recent requests and decides on their number |
| RateLimiter.OnlyKeyAddressed | router/middleware/ratelimit.go:54-57 | every text addresses one key: its core between white space, or "unknown" if it is blank |
| RateLimiter.Limiter.Allow | router/middleware/ratelimit.go:53-99 | is decided from the record of the key its text addresses, admits iff fewer than rate of its requests lie in the window, extends only that record and only if admitted, and gives an exact retry time |
| RateLimiter.Limiter.Cleanup | router/middleware/ratelimit.go:109-120 | keeps exactly the visitors whose last request is at most two windows old, and the lists in step with the record |
| Text.TrimSpaceKeepsCore | router/middleware/ratelimit.go:54 | trimming takes white space off both ends and nothing else |
| Text.TrimmedIsEmptyIffBlank | router/middleware/ratelimit.go:54-57 | nothing is left of a text iff it is all white space |
| RateLimiterRace.PoliteStepDecidesExactly | router/middleware/ratelimit.go:58-72 | while the sweep spares keys with a call under way, every decision is the one of the full record |
| RateLimiterRace.PoliteRunsKeepTheLimit | router/middleware/ratelimit.go:58-120 | in every such interleaving no window holds more than rate accepted requests of a key |
| RateLimiterRace.RudeSweepBreaksTheLimit | router/middleware/ratelimit.go:58-120 | in a state with the invariant, whenever the sweep removes a visitor a call is holding, some continuation accepts more than rate requests at one instant |
| RateLimiterRace.LimitBreaksFromTheStart | router/middleware/ratelimit.go:58-120 | a run from empty tables in which that happens, for every key, rate and window |
| AuditQuery.FoldIsAsciiCase | internal/services/audit/query.go:148-178 | to LIKE two characters are the same iff equal or the two cases of one ASCII letter |
| AuditQuery.LikeReadsPattern | internal/services/audit/query.go:148-178 | what a pattern matches, by its first character: any stretch, any one character, an escaped one, itself |
| AuditQuery.EscapedPrefix | internal/services/audit/query.go:182-185 | an escaped value followed by a wildcard matches exactly the texts that begin with the value |
| AuditQuery.EscapedAnywhere | internal/services/audit/query.go:182-185 | between two wildcards it matches exactly the texts that contain the value |
| AuditQuery.SearchIsLiteral | internal/services/audit/query.go:148-178 | a text matches the pattern of a search value iff the trimmed value occurs in it, up to ASCII case |
| AuditQuery.EscapeIsInjective | internal/services/audit/query.go:182-185 | different values have different patterns |
| Json.LessIsLexicographic | internal/services/configsnapshot/service.go:505 | keys are compared by their first difference, a proper prefix coming first |
| Json.SortedKeys | internal/services/configsnapshot/service.go:494-505 | the keys of both sides, each once, strictly ascending |
| JsonText.PrintIsJson | internal/services/configsnapshot/service.go:434-443 | literals, digits, quoted texts, and parts between brackets with commas in between, as in RFC 8259 |
| JsonText.ArrayIsJson | internal/services/configsnapshot/service.go:434-443 | a decoded array is written item by item |
| JsonText.ObjectIsJson | internal/services/configsnapshot/service.go:434-443 | a decoded object is written member by member in ascending order of its keys |
| JsonText.TextReadsBack | internal/services/configsnapshot/service.go:434-443 | a reader of JSON string literals (RFC 8259, section 7) reads every written text back |
| JsonText.TextIsTame | internal/services/configsnapshot/service.go:434-443 | no written text holds a bare control character, angle bracket or ampersand |
| JsonText.PrintIsPrefixCode | internal/services/configsnapshot/service.go:434-443 | the text of a document, up to where it ends, determines the document and what follows |
| JsonText.PrintIsInjective | internal/services/configsnapshot/service.go:407-417 | two documents have the same text iff they are the same, member order included |
| JsonText.DecodeCanonical | internal/services/configsnapshot/service.go:534-538 | printing a decoded value and decoding it gives it back |
| JsonText.SameTextSameValue | internal/services/configsnapshot/service.go:534-538 | two decoded values have the same text iff they are the same |
| JsonText.CanonicalIffAscending | internal/services/configsnapshot/service.go:434-443 | a document is the one printed for the value it denotes iff its objects list their members by ascending key |
| JsonNumbers.RoundTripsIffAscending | internal/services/configsnapshot/service.go:469-476 | decoding a document and printing the result gives it back iff its objects list their members by ascending key and no number changes when it is decoded to float64 |
| JsonNumbers.SameDocIffSameOrder | internal/services/configsnapshot/service.go:407-417 | documents that are decoded alike are the same iff they list their members in the same order and have the same numbers |
| ConfigDiff.WalkIsExact | internal/services/configsnapshot/service.go:493-532 | an entry is collected iff following its path on both sides ends in a difference of its kind |
| ConfigDiff.DiffIsSituated | internal/services/configsnapshot/service.go:506-531 | that is, iff its parent is an object on both sides and its key is only right, only left, or on both with different values that are not both objects |
| ConfigDiff.EmptyWalkIffEqual | internal/services/configsnapshot/service.go:493-532 | nothing is collected iff the objects are equal |
| ConfigDiff.SwappedSides | internal/services/configsnapshot/service.go:493-532 | swapping the sides swaps added and removed, keeps changed, and keeps the order |
| ConfigDiff.WalkIsOrdered | internal/services/configsnapshot/service.go:506-531 | of two collected paths the earlier parts from the later at a smaller key |
| ConfigDiff.BeforeSeparates | internal/services/configsnapshot/service.go:506-531 | such paths are different, none a prefix of the other, in one order only |
| ConfigDiff.DottedIsInjective | internal/services/configsnapshot/service.go:507-510 | dotted names are unambiguous over non-empty keys without dots |
| ConfigDiff.DottedNamesAreUnique | internal/services/configsnapshot/service.go:507-510 | then no two differences share a name |
| ConfigDiff.EveryClashHappens | internal/services/configsnapshot/service.go:506-531 | any two paths with one name that one document can hold are both differences of some two documents over their keys |
| ConfigDiff.UniqueIffNoClash | internal/services/configsnapshot/service.go:506-531 | for any set of keys, documents over it never show two differences under one name iff no two such paths over it have one name |
| ConfigDiff.DottedKeyClashes | internal/services/configsnapshot/service.go:507-510 | every key with a dot behind a non-empty part clashes with the path through its parts |
| ConfigDiff.EmptyKeyClashes | internal/services/configsnapshot/service.go:507-510 | behind an empty key every non-empty key clashes with itself |
| ConfigDiff.NamesAreUniqueIffPlain | internal/services/configsnapshot/service.go:506-531 | over a set of keys that holds the parts of its keys, other than the empty key alone, names are unique iff every key is plain |
| ConfigDiff.EmptyKeyAloneIsSafe | internal/services/configsnapshot/service.go:507-510 | over the empty key alone names are unique, as of any two paths one is a prefix of the other |
| ConfigPatch.OneMoreDone | internal/services/configsnapshot/service.go:493-532 | carrying out one difference, whichever are already done, adds exactly that one |
| ConfigPatch.AnyOrderPatches | internal/services/configsnapshot/service.go:493-532 | deleting the removed paths and copying the added and changed ones from the right, in any order, gives the right side |
| ConfigPatch.ThreeListsPatch | internal/services/configsnapshot/service.go:493-532 | in particular in the order removed, added, changed |
| ConfigSnapshot.RedactEntries | internal/services/configsnapshot/service.go:445-467 | a map entry becomes the placeholder iff its lower-case key holds one of five words, and is otherwise the redaction of its value; nothing else changes |
| ConfigSnapshot.RedactKeepsPublicPart | internal/services/configsnapshot/service.go:445-467 | two Go values redact alike iff they differ at most under sensitive keys of maps |
| ConfigSnapshot.RedactFixesSecretFree | internal/services/configsnapshot/service.go:445-467 | redaction leaves a decoded value alone iff nothing but the placeholder stands under its sensitive keys |
| ConfigSnapshot.NoSecretsIffOtherPartsClean | internal/services/configsnapshot/service.go:434-467 | for every Go value, what is stored holds no secrets iff none stands in a part that redaction neither enters nor takes away |
| ConfigSnapshot.PanelRequestIsStoredInClear | router/handler/system/system.go:194-197 | the private key path of the panel's network request is stored as it is |
| ConfigSnapshot.RedactIsIdempotent | internal/services/configsnapshot/service.go:445-467 | redacting any Go value twice is redacting it once |
| ConfigSnapshot.Normalize | internal/services/configsnapshot/service.go:434-443 | succeeds iff the text of the redacted value has at most 4 MiB in UTF-8, and shows secrets iff the value had some where redaction does not enter |
| ConfigSnapshot.DiffOfShowsDifference | internal/services/configsnapshot/service.go:469-532 | added, removed and changed are the names of exactly the paths only right, only left, or differing on both, each once and in order; for sides that are not both objects, nothing or "$" under changed |
| ConfigSnapshot.NoDiffIffEqual | internal/services/configsnapshot/service.go:469-491 | the stored difference is empty iff the sides are equal, objects or not |
| ConfigSnapshot.EqualIffNoDiffInSameOrder | internal/services/configsnapshot/service.go:407-417 | for all Go values, Equal holds iff both fit the size limit, their difference is empty, their members are listed in the same order and their numbers are the same |
| ConfigSnapshot.MergedNumbersAreNotEqual | internal/services/website/settings.go:65 | two numbers that decoding merges have no difference and the same order and are not equal |
| ConfigSnapshot.TextAgreesIffAscending | internal/services/configsnapshot/service.go:407-417 | compared with every decoded value, a value's text agrees with the difference iff it prints its members by ascending key and no number that changes when it is decoded |
| ConfigSnapshot.UnchangedIsEqualIff | router/handler/configsnapshot/configsnapshot.go:140-145 | a resource read again unchanged is reported as unchanged iff it prints its members by ascending key, no number in it changes when it is decoded, and it holds no secret that redaction misses |
| ConfigSnapshot.LargeNumberAlwaysDrifts | router/handler/configsnapshot/configsnapshot.go:140-145 | a number that changes when it is decoded is always reported as changed, though printed in order and no secret |
| ConfigSnapshot.PanelRequestAlwaysDrifts | router/handler/configsnapshot/configsnapshot.go:215-220 | the panel's request is always reported as changed, with an empty difference |
| ConfigSnapshot.EqualIffNoDiff | internal/services/configsnapshot/service.go:407-417 | the corollary for decoded values on both sides: Equal holds iff both fit and have no difference, iff they differ at most in secrets |
| ConfigSnapshot.SwappedDiff | internal/services/configsnapshot/service.go:469-532 | comparing the other way round swaps the added and removed lists |
| ConfigSnapshot.CollectDiff | internal/services/configsnapshot/service.go:493-532 | appends the dotted names of exactly the collected entries, kind by kind and in order |
| ConfigSnapshot.BuildDiff | internal/services/configsnapshot/service.go:469-491 | those lists for what the two texts are decoded to, numbers as float64 |
| ConfigSnapshot.Service.Create | internal/services/configsnapshot/service.go:94-153 | adds a row of the redacted sides and their decoded difference iff the input is valid and fits, and otherwise says which failed; a side shows secrets iff the value had some where redaction does not enter; every row shows the difference of what its texts are decoded to |
| ConfigSnapshot.FinishesIffClosing | internal/services/configsnapshot/service.go:157-160 | a status closes a snapshot iff it is one of two or ends in "failed" |
| ConfigSnapshot.Service.Mark | internal/services/configsnapshot/service.go:155-169 | changes only the status columns of the row, or reports that there is none |
| ConfigSnapshot.Service.MarkWithAfter | internal/services/configsnapshot/service.go:171-190 | replaces the outcome and the decoded difference together, so that they still agree; the outcome shows secrets under the same condition |
| ResponseCopier.Copier.Localize | internal/i18n/business_text.go:92-187 | terminates on cyclic pointers, leaves the data and earlier copies unchanged, and copies every cell it visits in full, under the first name it meets it by |
| ResponseCopier.Copier.FollowPointer | internal/i18n/business_text.go:109-120 | a pointer met for the first time gets a new cell, the full copy of its target, and is filed under the name it is met by |
| ResponseCopier.Copier.CopySlots | internal/i18n/business_text.go:121-170 | structs, maps, slices and arrays are copied part by part, each under its name, unexported fields as they are |
| ResponseCopier.LocalizeResponseData | internal/i18n/business_text.go:76-85 | every cell has one copy of its own, under the first name it is met by in slot order, and every text is shown as the name it is filed under demands; other locales and nil return the data itself |
| ResponseCopier.TextsAreShown | internal/i18n/business_text.go:171-184 | business text under no name or a message name; business text, else error text, else the generic error if Han remains, under an error name; unchanged under any other |
| ResponseCopier.SlotIsReadAs | internal/i18n/business_text.go:121-148 | a part is read under its field or key or the name of the whole; "message" and "statusMessage" of a struct or map that says it failed, as an error |
| ResponseCopier.PartsAreKept | internal/i18n/business_text.go:121-170 | kinds, labels and the values of unexported fields are kept, and every other part is copied |
| ResponseCopier.FirstNamesAreReached | internal/i18n/business_text.go:109-120 | that first name is one of the names a reader reaches the cell by |
| ResponseCopier.FollowBoth | internal/i18n/business_text.go:92-187 | a path leads somewhere in the copy iff it does in the data, and then to the copy of what it leads to |
| ResponseCopier.SharingIsKept | internal/i18n/business_text.go:113-119 | two paths lead to one pointer in the copy iff they do in the data, and never to a pointer of the data |
| ResponseCopier.ErrorsCleanIff | internal/i18n/business_text.go:171-181 | no string read under an error field keeps a Han character, at any depth, iff every cell is clean as filed under its first name for every name it is reached by |
| ResponseCopier.NoHanUnderErrorFields | internal/i18n/business_text.go:171-181 | if every pointer is reached under one name only, no string under an error field keeps a Han character, at any depth |
| ResponseCopier.UnsharedDataIsClean | internal/i18n/business_text.go:171-181 | in particular for data in which no pointer occurs twice |
| ResponseCopier.SharedTextIsCleanIff | internal/i18n/business_text.go:113-181 | of two fields sharing a text the second shows no Han character iff it is no error field or the text as localised for the first has none |
| ResponseCopier.SharedCellCanKeepHan | internal/i18n/business_text.go:113-116 | a run of the copier that leaves Han text under an error field, and none with the fields the other way round |
| CopierTermination.ReturnsIffNothingContainsItself | internal/i18n/business_text.go:92-187 | over graphs with shared slices and maps, the copier returns iff it reaches no slice or map that contains itself without a pointer in between |
| CopierTermination.SelfContainingSlice | internal/i18n/business_text.go:151-162 | a slice that holds itself, on which it does not return, and one that holds a pointer to itself, on which it does |
| Approval.ListShowsEffectiveStatus | internal/services/approval/service.go:161-170 | a status filter selects a row iff the row is shown with that status, for every filter, iff the row is not pending without an expiry |
| Approval.ShownPendingUntilExpiry | internal/services/approval/service.go:245-254 | a pending request is shown as pending before its expiry and as expired from it on, every other as it is |
| Approval.ExpiryIsInvisible | internal/services/approval/expiry.go:74-82 | the background job changes no shown status at any later time, iff the row is not pending without an expiry |
| Approval.ReviewAnswers | internal/services/approval/service.go:389-410 | which of the four answers a review gives, in the order of its checks |
| Approval.GrantedIffShownPending | internal/services/approval/service.go:389-410 | a review is granted exactly to another user's request shown as pending, except at the instant of expiry |
| Approval.JobDoesNotChangeReviews | internal/services/approval/service.go:389-409 | a review decides the same whether or not the job ran before, with the exact exception; strictly after expiry it refuses in both cases |
| Approval.OneMoreRow | internal/services/approval/service.go:125-147 | a new row keeps one live request per intent iff it is not live or its intent has none |
| Approval.Service.Create | internal/services/approval/service.go:83-147 | inserts, without looking, one pending row with the trimmed intent, the expiry asked for or one day, and no review; with that exact effect on one live request per intent |
| Approval.Service.CreateOrReusePending | internal/services/approval/service.go:96-123 | as one step: returns the live request of the intent if there is one and creates one otherwise; afterwards there is one live request per intent iff there was before |
| Approval.SubmitTwice | internal/services/approval/service.go:83-123 | two submissions, one after the other, leave two live requests through the one and one through the other |
| ApprovalSubmit.AloneStepKeepsOne | internal/services/approval/service.go:107-123 | with look and insert apart, a step keeps one request per intent live or about to be, unless a submission looks in vain while another of its intent is about to insert |
| ApprovalSubmit.AloneRunsKeepOne | internal/services/approval/service.go:107-123 | in every interleaving without such a look, one live request per intent, at the end and at any later time |
| ApprovalSubmit.NotAloneLeavesTwo | internal/services/approval/service.go:107-123 | after every such look both can insert and leave two live requests, unless one asked for an expiry that has passed |
| ApprovalSubmit.TwoSubmissionsFromTheStart | internal/services/approval/service.go:107-123 | a run from an empty table in which they do |
| ApprovalSubmit.SubmissionAlone | internal/services/approval/service.go:96-123 | a submission nothing comes between does what the service's method does in one step |
| Approval.Service.ExpirePending | internal/services/approval/expiry.go:74-82 | expires exactly the due rows, counts them, and changes no shown status |
| Approval.Service.Approve | internal/services/approval/service.go:389-422 | as one step: approves iff the checks grant it; no request is both approved and rejected, none by its requester; a lazy expiry changes no shown status |
| Approval.Service.Reject | internal/services/approval/service.go:424-457 | the same for rejections |
| Approval.Service.UpdateExecutionResult | internal/services/approval/service.go:459-476 | writes the status and binding of one row; requests stay consistent unless it writes pending |
| Approval.Service.UpdateBoundTaskResult | internal/services/approval/service.go:482-498 | writes the status of the executing rows bound to the task and of no other |
| ApprovalRace.ReviewAlone | internal/services/approval/service.go:389-457 | a review nothing comes between does what the service's methods do in one step |
| ApprovalRace.NoOneReviewsTheirOwn | internal/services/approval/service.go:389-457 | with reading and writing apart, in every interleaving no requester reviews their own request |
| ApprovalRace.SerialStepKeepsAtMostOne | internal/services/approval/service.go:389-457 | while no two granted reviews overlap, at most one can still be written |
| ApprovalRace.SerialRunsReviewOnce | internal/services/approval/service.go:389-457 | in every such interleaving at most one review is written and no request carries both verdicts |
| ApprovalRace.OverlapReviewsTwice | internal/services/approval/service.go:389-457 | whenever two granted reviews overlap both can be written, and opposite ones leave both verdicts |
| ApprovalRace.BothVerdictsFromTheStart | internal/services/approval/service.go:389-457 | from every new request that is not expired, two reviewers reach that |
| ApprovalRace.ApartRunsKeepReviews | internal/services/approval/service.go:389-457 | in every interleaving in which no review finds the request expired while a granted one is under way, or is granted while an expiry is, no reviewed request is marked expired |
| ApprovalRace.NotApartLosesReview | internal/services/approval/service.go:389-457 | after every review that is not apart both calls can finish and leave a review on a request marked expired |
| ApprovalRace.ExpiryCanOverwriteApproval | internal/services/approval/service.go:389-457 | a run from a new request in which an approval is overwritten by a late expiry, although the reviews were serial |
| ApprovalRace.CalmRunsKeepExpiry | internal/services/approval/service.go:389-457 | in every interleaving in which the request does not become expired under a granted review, no review is ever about to be written over an expiry |
| ApprovalRace.NotCalmUndoesExpiry | internal/services/approval/service.go:389-457 | whenever it does become expired under one, that review can finish and undo the expiry |
| ApprovalRace.ReviewCanUndoExpiry | internal/services/approval/expiry.go:74-82 | a run from a new request in which the job's expiry is undone, although the reviews were serial and apart |
| ApprovalRace.NewRequestRuns | internal/services/approval/service.go:389-457 | all of these hold of a new request, whatever happens to it under the rule in question |
| BackupCleanup.ResumeCompletes | internal/services/databasetask/cleaner.go:99-131 | what a stopped run left to do, done to the end, completes it |
| BackupCleanup.RerunConverges | internal/services/databasetask/cleaner.go:88-133 | stopped anywhere and rerun, rows, files and outcome are those of an uninterrupted run, and the counts add up |
| BackupCleanup.DiskShrinks | internal/services/databasetask/cleaner.go:114-126 | a run removes only regular files of listed inactive backups |
| BackupCleanup.DeletedFilesAreGone | internal/services/databasetask/cleaner.go:114-130 | the file of a deleted row is gone wherever the run stops |
| BackupCleanup.SafePathIs | internal/services/databasetask/manager.go:604-621 | a backup has a path iff its library number and id are sound and its stored path is root, number and id |
| BackupCleanup.DecimalReadsBack | internal/services/databasetask/manager.go:524 | the library number is written in decimal without leading zeros |
| BackupCleanup.ExpiredInOrder | internal/services/databasetask/cleaner.go:93-97 | the expired backups are worked on in the order of the table |
| BackupCleanup.ArtifactsLieApart | internal/services/databasetask/manager.go:517-529 | the source's paths keep backups with different ids in different places |
| BackupCleanup.StoppedRunIsSafe | internal/services/databasetask/cleaner.go:88-133 | under that layout, wherever a run stops, a backup file on disk still has its row, and unexpired and active backups keep both |
| BackupCleanup.FinishesIffNoneRefused | internal/services/databasetask/cleaner.go:99-132 | a run finishes iff no expired inactive backup has an unsafe path or a non-file in its place, and then deletes exactly those backups |
| BackupCleanup.RefusesIff | internal/services/databasetask/cleaner.go:109-121 | a backup is refused iff it has no path or something other than a file lies there |
| BackupCleanup.CountsAreExact | internal/services/databasetask/cleaner.go:122-131 | the counts of a run are the files and rows it removed |
| BackupCleanup.Cleaner.RunNow | internal/services/databasetask/cleaner.go:88-133 | the loop makes the changes and counts of that run for a fixed set of active tasks, stopped wherever it is stopped |
| BackupRace.ApartRunsKeepSources | internal/services/databasetask/cleaner.go:99-131 | against submissions: in every interleaving in which the count finds no task only while no submission has found the backup, and none finds it between the count and the delete, an active restore has its file and row |
| BackupRace.NotApartLosesSource | internal/services/databasetask/cleaner.go:99-131 | whenever they are not apart, some continuation leaves an active restore without its file |
| BackupRace.SourceLostFromTheStart | internal/services/databasetask/manager.go:166-211 | a run from the start in which a restore loses its file |
| BastionCollect.StepHolds | internal/services/bastion/manager.go:184-198 | every step keeps the slot count, the wait count and the log in agreement with the goroutines, and uses up one step |
| BastionCollect.SomeStepIsEnabled | internal/services/bastion/manager.go:184-198 | until the wait returns some step can be taken |
| BastionCollect.EveryInterleaving | internal/services/bastion/manager.go:174-198 | in every interleaving at most the configured number collect at once, and the wait returns, after a fixed number of steps, only when every server was collected exactly once |
| CredentialMigration.PlainIsSealed | utils/credential.go:83-110 | a plain password becomes the mark and the password sealed for its table's purpose under the row's nonce |
| CredentialMigration.DecryptReadsMark | utils/credential.go:112-138 | empty opens to empty, a marked text to what the rest opens to, any other to nothing |
| CredentialMigration.MigrationKeepsMeaning | utils/credential.go:83-138 | a migrated value opens under its own purpose to the password it stood for, and is not migrated again |
| CredentialMigration.MigrationKeepsPasswords | app/db.go:374-441 | when every row passes, every password then opens to the value it had, and empty ones stay empty |
| CredentialMigration.SecondPassChangesNothing | app/db.go:374-441 | a second migration then finds the same rows, passes all of them whatever would fail, and changes none |
| CredentialMigration.MigrateRow | app/db.go:416-440 | one row is checked if it is marked encrypted and encrypted if it is not |
| CredentialMigration.Database.Migrate | app/db.go:374-441 | succeeds iff nothing is stored, or the cipher is ready, every marked row opens and nothing fails; then every row holds what is spelled out for it, every password is kept and another migration changes nothing, otherwise the tables are unchanged |

## Left out

- AuditChain.TamperEvidence: valid UTF-8 in the signed fields, since JSON encoding replaces invalid bytes.
- AuditChain.RunsStayIntact: sequences are unbounded; the wrap of the 64-bit counter after 2^64 events is not modelled.
- AuditManager.Manager.Verify: database read errors, which the code returns instead of a result.
- AuditManager.Manager.Append: the clean-up of the input fields by `normalize` and `sanitize`; fields arrive cleaned. The row id is a parameter.
- RateLimiter.Limiter.Allow: atomic with respect to the sweep; the gap in it is the subject of `rate_limiter_race.dfy`.
- SlidingWindow.RetryHeaderIsLeast: rounds exactly, where the code rounds a floating-point number of seconds.
- RateLimiterRace.RudeSweepBreaksTheLimit: needs a window of at least one nanosecond.
- JsonText.SameTextSameValue: strings are valid Unicode.
- JsonNumbers.RoundTripsIffAscending: the rounding of a number is a parameter, of which only that rounding twice is rounding once is used; numbers too large for a float64, which the decoder refuses, are not modelled.
- ConfigSnapshot.NoSecretsIffOtherPartsClean: a struct or other type redaction does not enter is known by the document it prints, with distinct keys; values that cannot be printed, for which the code returns an error, are not modelled.
- ConfigDiff.DottedNamesAreUnique: sufficient for one pair of documents; which key sets are safe for all documents is `UniqueIffNoClash`.
- ConfigSnapshot.Service.Create: revisions, labels, artifacts, names and failure messages of a snapshot row.
- ResponseCopier.Copier.Localize: slices and maps are copied as trees, each place its own; whether the copier returns when they are shared or contain themselves is the subject of `copier_termination.dfy`. Map entries are listed in the order in which they are visited.
- Approval.Service.Approve: one step with one clock reading; the gap between its two statements, and its second reading, are the subject of `approval_race.dfy`. Names and comments of reviewers.
- Approval.Service.CreateOrReusePending: one step; the gap between its look and its insert is the subject of `approval_submit.dfy`. The order by creation time, which chooses among several live requests; reasons, risk levels and display names.
- The keyword, module and date filters of the approval list, paging and display names.
- BackupCleanup.Cleaner.RunNow: the set of active tasks does not change during a run; that it can is the subject of `backup_race.dfy`. Start-up errors of the task manager.
- BackupRace.ApartRunsKeepSources: one backup, whose file exists at the start, and one active task of its library.
- BastionCollect.EveryInterleaving: what a collection does, its time limit and its panics.
- CredentialMigration.Database.Migrate: encryption is a pair of functions that open what they seal; nonces are parameters.
- The cryptography, GORM and SQLite, HTTP handlers, translation tables, configuration, certificates, SSH and shell execution, and the unit scaling of file sizes.
