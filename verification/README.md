# Meemee's durable stores and protocols, verified

Meemee keeps its state in a dozen small SQLite databases and coordinates workers, devices and retries through them.
This project models the parts where a guarantee spans many calls, and proves those guarantees for every input, every
run and every interleaving. One module models one source file; a SQLite transaction is one atomic step on maps,
sequences and sets, and clocks, random identifiers and renderings are parameters.

Each store has four layers: a specification function per operation; a class whose methods follow the source statement
by statement and are proved equal to those functions; lemmas that state, on the columns before and after and without
those functions' own vocabulary, when an operation is refused, what it writes and what it leaves alone; and lemmas about
whole runs.

| Module | Models | Main results |
|---|---|---|
| `Timestamps` | `_iso` and every stored instant | text order is time order |
| `Goals` | the goal graph with expiring leases | progress as an equivalence, lease fencing, dependency safety |
| `Json`, `Extract` | `extract_json_object` against the grammar of RFC 8259 (sections 2 to 7) | leftmost object, exactly to its end, or none exists; the parser's limits apart |
| `Base64`, `Cursors` | pagination cursors (RFC 4648 section 5, RFC 8259 section 7) | the round trip, with its exact condition |
| `Jobs` | the job queue and its event log | the log determines the row, and is bounded |
| `Chains`, `Paging`, `Order` | keyset paging | following the cursors refines the sorted listing |
| `Audit` | the hash chain, anchors and pruning | tamper evidence with its exact condition and without assuming an injective hash; anchors outlive growth |
| `Idempotency`, `CreateJob`, `Publication`, `Ownership` | stored responses and the endpoint that uses them | one reported job per lifetime of a key under any interleaving; exactly when a second one is made |
| `Monitors` | bounded monitors with deduplicated events | exact fire counts, invisible deduplication |
| `Replay` | the replay guards of device commands | accepted at most once although nonces are forgotten, with the exact drift that breaks it |
| `RateLimit` | the fixed-window limiter | exact aligned windows, the tight sliding bound, invisible cleanup |
| `KeyRotation` | key rotation with a marker and backups | all or nothing under a fault at every step, with its exact condition |
| `AccountDeletion` | resumable account deletion | a returned attempt has erased everything of the principal |

`Text` holds strings: sequences of code points, surrogates included, compared code point by code point.

Eight promises fail on some inputs, and the model keeps the code as it is:

* A cursor does not survive its round trip when a text holds a lone high surrogate directly before a lone low one
  (`Cursors.SplitPairIsJoined`); `Cursors.CursorRoundTrip` gives the exact condition. SQLite stores no such text.
* Moving a field boundary over a separator inside an audit field goes unnoticed (`Audit.SeparatorInFieldIsUndetected`);
  `Audit.TamperEvidenceExactly` and `Audit.AnchorDetectsTampering` hold if and only if no row up to the entry holds one.
* A caller of `JobStore.event` that writes a lifecycle kind breaks the log
  (`Jobs.UndisciplinedEventBreaksReplay`, with the exact condition).
* A replay guard whose clock drifts a second or more against the verifier's accepts an envelope twice, if the drift and
  twice the tolerance outlast the TTL (`Replay.TwiceExactlyByDrift`, both directions). The two clocks are read one after
  the other, so a second can turn in between. A guard whose clock steps back is decided by
  `Replay.ReplayedExactlyWhenLive`.
* `claim` promises that None means ownership. It answers None from the insert, and then the caller owns the key, or from
  the look-up when the row has gone in between, and then no row exists (`CreateJob.NoneMeansOwnedExactlyByInsert`,
  `CreateJob.NoneExactlyWhenFree`).
* So concurrent retries can both create a job: two calls of one key do so only as owners of different lifetimes or as
  such strays (`Ownership.TwoJobsNeedTwoLifetimesOrStray`), and a stray does it within one lifetime, for every key
  (`Ownership.TwoJobsInOneLifetime`). Only one job per lifetime is
  ever reported; `CreateJob.FailsWithJobExactly` says when a single call fails after making its job.
* Key rotation mixes keys without a marker exactly when it gets as far as removing the marker, the removal raises after
  its effect, and the handler then restores one of two changed databases only (`KeyRotation.RotateKeys`).
* The docstring of `rotate_keys` promises restored backups on any failure. A failure while closing the databases or
  removing the backup directory is raised after the marker is gone and everything is rotated (`LateFailure` in
  `KeyRotation.RotateKeys`). An exception out of the handler leaves the marker, unless it is the removal of the marker
  that raises after its effect; then everything has been restored.

The job bounds hold with max(max_attempts, 1): a queued job is started once even if max_attempts is 0.

To verify everything: `dafny verify dfyconfig.toml`.

## Model

| member | source | states |
|---|---|---|
| Timestamps.TextOrderIsTimeOrder | meemee/goals.py:28-29 | For all valid UTC instants of years 1 to 9999, code-point order of the `isoformat` texts is chronological order (both directions, and equality), although the microseconds are left out when zero |
| Timestamps.TextOrderIsFieldOrder | meemee/goals.py:28-29 | Text order is the lexicographic order of year, month, day, hour, minute, second, microsecond |
| Timestamps.EarlierIsBefore | meemee/goals.py:28-29 | That lexicographic order agrees with the microsecond count through month lengths and leap years |
| Timestamps.IsoSpells | meemee/goals.py:28-29 | The text has the form YYYY-MM-DDTHH:MM:SS[.ffffff]+00:00, the fraction left out when zero, and its digits spell the fields of the instant |
| Text.StripExactly | meemee/goals.py:69 | What `strip` removes at both ends is white space, and what it leaves neither begins nor ends with it |
| Goals.RunKeepsInvariant | meemee/goals.py:66-173 | Along any run of create, claim, renew and transition: edges go to older rows of the same principal, leases sit only on active goals whose dependencies are completed, completed goals have completed dependencies |
| Goals.GraphIsAcyclic | meemee/goals.py:66-89 | Along any dependency path row numbers strictly decrease, so no goal depends on itself through others |
| Goals.CreateRecords | meemee/goals.py:66-89 | In terms of the tables before and after: exactly when a create is accepted, every column of the new row, its edges, and that nothing else changes |
| Goals.NewGoalWaits | meemee/goals.py:84-124 | After a successful create, over any run: while one of the given dependencies is not completed, no claim takes the goal, no operation completes it and it is not completed |
| Goals.OnlyActiveGoalsFinish | meemee/goals.py:16-21 | A goal that is not terminal can take every other status, but only an active one can complete or fail |
| Goals.NothingToClaim | meemee/goals.py:110-125 | A claim finds nothing if and only if each pending or active goal of the principal waits for an uncompleted dependency or is leased beyond now; a blank worker or a lease that is not positive is refused |
| Goals.ClaimRecords | meemee/goals.py:110-130 | The claimed goal is first by priority, creation and identifier; every column written, and that nothing else changes |
| Goals.RenewRecords | meemee/goals.py:132-142 | A renewal succeeds exactly for the holder of a live lease and moves its end; every column written, and that nothing else changes |
| Goals.TransitionRecords | meemee/goals.py:144-173 | Exactly when a transition succeeds, by status, version, lease and dependencies; every column written, the lease kept only on an active goal, and that nothing else changes |
| Goals.DependencySafety | meemee/goals.py:16-21 | In every reachable state the whole transitive dependency closure of a completed goal is completed |
| Goals.CompletedClosure | meemee/goals.py:160-164 | The same along a given dependency path |
| Goals.TerminalIsAbsorbing | meemee/goals.py:15-21 | No operation ever changes a completed, failed or cancelled goal |
| Goals.WorkableLeadsToReady | meemee/goals.py:110-125 | An uncompleted goal whose closure is pending, active or completed without live leases has a claimable goal in its closure (well-founded descent in the graph) |
| Goals.ReadyIsWorkable | meemee/goals.py:116-124 | The converse: every claimable goal is such a goal |
| Goals.Progress | meemee/goals.py:110-130 | Deadlock freedom, as an equivalence: a valid claim returns a goal if and only if some uncompleted goal of the principal has a closure that is unobstructed |
| Goals.ExpiredLeaseIsReclaimable | meemee/goals.py:116-129 | A goal with an expired lease is always a claim candidate although renew and transition refuse it to everyone |
| Goals.HeldStep | meemee/goals.py:132-173 | While a lease is live, any operation other than the holder's own leaves the goal row unchanged; the holder's renewals keep it held |
| Goals.LeaseFencing | meemee/goals.py:110-173 | Over any interleaving, from a claim until the lease (with renewals) expires or its holder transitions the goal, no other worker's claim, renew or transition of it succeeds |
| Goals.ClaimGrantsLease | meemee/goals.py:112-130 | A successful claim leases the first ready goal by priority, creation and id to the worker until now + lease |
| Goals.StepFrame | meemee/goals.py:126-173 | A success raises the version of its one target by one and touches no other row; a failure touches nothing; edges are added only from new goals |
| Goals.VersionCountsSuccesses | meemee/goals.py:126-173 | Along any run the version of a goal grows by exactly the number of successful operations on it, and the row is unchanged if there were none |
| Goals.OneWinnerPerVersion | meemee/goals.py:154-155 | Of all transitions in a run that expect the same version of a goal at most one succeeds |
| Goals.GoalStore.Create | meemee/goals.py:66-89 | The statements with their loops over dependencies: a success adds the new row with every column stated, exactly the edges to its dependencies, and nothing else; each error has its exact condition; the invariant is kept |
| Goals.GoalStore.Claim | meemee/goals.py:110-130 | Same state and answer as `ClaimSpec`; the invariant is kept |
| Goals.GoalStore.Renew | meemee/goals.py:132-142 | Same state and answer as `RenewSpec`; the invariant is kept |
| Goals.GoalStore.Transition | meemee/goals.py:144-173 | Same state and answer as `TransitionSpec`: the six refusals in order, lease cleared unless the goal becomes active; the invariant is kept |
| Extract.ObjectClosesOnce | meemee/providers.py:66-82 | On every text of the RFC 8259 object grammar the three-variable scanner is at depth zero exactly at the end, never before |
| Extract.OnlyCandidate | meemee/providers.py:67-83 | Every object in a text is what the scanner hands to the parser when started at its brace |
| Extract.ParsedCandidate | meemee/providers.py:83-86 | Of the candidates, exactly the objects are texts of the grammar |
| Extract.CandidateEnd | meemee/providers.py:66-83 | The inner loop finds the candidate that starts at a brace, or shows that there is none |
| Extract.ExtractJsonObject | meemee/providers.py:62-92 | The outcome is the verdict of `json.loads` on the leftmost candidate it does not reject: the candidate, one of the two ModelErrors, or the ValueError that escapes. For every parser that decides the grammar where its limits do not strike: a found text is the leftmost object, up to exactly its end; no object means that none occurs anywhere; and if no limit strikes on a candidate, there is no object if and only if none occurs |
| Extract.OutcomeMeans | meemee/providers.py:62-92 | What each outcome says about the objects of the text, with the interpreter's limits as separate verdicts |
| Extract.OutcomeIsUnique | meemee/providers.py:62-92 | Text and parser determine the outcome |
| Extract.ObjectEndIsUnique | meemee/providers.py:62-92 | At one position at most one object starts, so the answer is unique |
| Extract.LeftmostIsUnique | meemee/providers.py:62-92 | The leftmost object of a text is unique |
| Extract.ObjectInProse | meemee/providers.py:62-63 | A prefix without braces, a serialised object and any suffix: the leftmost object is that object |
| Json.BracedElementIsObject | meemee/providers.py:83-86 | A candidate that begins with a brace and parses is an object with no white space around it |
| Base64.EncodeDecodes | meemee/cursors.py:8-15 | The lenient decoder inverts the padded URL-safe encoder on all byte sequences |
| Base64.SymbolsAreUrlSafe | meemee/cursors.py:8 | The alphabet of section 5 of RFC 4648, symbol by symbol |
| Base64.GroupIsPositional | meemee/cursors.py:8 | Four symbols in base 64 are the number that the three bytes are in base 256 |
| Base64.EncodingShape | meemee/cursors.py:8-10 | How long the unpadded text is and that it ends in no pad |
| Base64.PadsAreRestored | meemee/cursors.py:15 | The pads computed from the length modulo 4 are those that were stripped |
| Base64.RoundTrip | meemee/cursors.py:8-15 | Strip, restore by the length modulo 4 and decode gives the bytes back |
| Cursors.EscapedIsScanned | meemee/cursors.py:8-9 | The JSON string scanner reads the escaped text of any Python string back, up to merging an unpaired high surrogate that is followed by an unpaired low one |
| Cursors.DumpsIsLoaded | meemee/cursors.py:9-15 | The same for the array of two texts |
| Cursors.DumpsVerbatim | meemee/cursors.py:8-9 | For printable texts without quotes and backslashes the array is the texts with its punctuation and no white space |
| Cursors.CursorDecodes | meemee/cursors.py:7-22 | What `decode_cursor(encode_cursor(a, b))` is, for all texts, the invalid (empty) ones included |
| Cursors.CursorRoundTrip | meemee/cursors.py:7-22 | The round trip gives (a, b) back if and only if both are non-empty and neither holds a lone high surrogate directly before a lone low one |
| Cursors.SplitPairIsJoined | meemee/cursors.py:7-22 | A concrete pair of non-empty strings that does not come back |
| Jobs.LogDeterminesRow | meemee/jobs.py:85-213 | In every reachable state folding a live job's events gives exactly its status and attempts; running events are at most max(max_attempts, 1); the lifecycle log has at most 2 * max(max_attempts, 1) + 2 entries; a tombstone has none |
| Jobs.OwnEventsSayAll | meemee/jobs.py:70-83 | What the log says about a job is said by the job's own events |
| Jobs.RunKeepsInvariant | meemee/jobs.py:85-213 | The invariant behind it along every run of queue operations, purges and sweeps |
| Jobs.LogBoundIsTight | meemee/jobs.py:85-201 | For every max_attempts >= 1 a run from the empty queue (enqueue, claim and fail, last claim, request cancel, cancel running) starts the job max_attempts times and leaves exactly 2 * max_attempts + 2 lifecycle events |
| Jobs.UndisciplinedEventBreaksReplay | meemee/jobs.py:70-75 | In every sound state an event written by a caller keeps the invariant if and only if its kind is outside the lifecycle, and keeps the fold equal to the row if and only if it repeats what the row says |
| Jobs.FinalIsAbsorbing | meemee/jobs.py:133-213 | Done, failed and cancelled rows never change; only purging their principal removes them |
| Jobs.ClaimTakesFirstDue | meemee/jobs.py:103-123 | A claim finds nothing exactly if every queued job is due later; else it starts a queued job with run_at not after now, and no such job is earlier by (run_at, id); the columns written, and that nothing else changes |
| Jobs.EnqueueRecords | meemee/jobs.py:85-101 | Exactly when an enqueue is refused, every column of the new row, its event, and that nothing else changes |
| Jobs.FinishRecords | meemee/jobs.py:147-165 | A finished job is done with its result and no error, one done event carries the result, and everything else stays |
| Jobs.FailRecords | meemee/jobs.py:150-169 | A failed job has its error and no result, is queued again if and only if attempts are left and failed otherwise, with the matching event, and everything else stays |
| Jobs.PublishRefusesExactly | meemee/jobs.py:138-147 | A terminal call is refused exactly for an unknown job and for one neither running nor a tombstone, and reports a removal exactly for a tombstone |
| Jobs.CancelsExactly | meemee/jobs.py:172-213 | The three cancellations by status of the job: what they answer, what they write, and that they otherwise change nothing |
| Jobs.SweepsExactly | meemee/jobs.py:300-312 | Exactly which rows a sweep deletes, with their events, and that it keeps the rest |
| Jobs.NextDue | meemee/jobs.py:107-110 | The ordered query answers nothing exactly when no job is due, else a due job before all others |
| Jobs.PurgeForgetsPrincipal | meemee/jobs.py:251-284 | A purge leaves no row or event of the principal except ownerless, wiped tombstones of running jobs, column by column, and touches nobody else's rows or events |
| Jobs.TerminalCallRemovesTombstone | meemee/jobs.py:133-145 | Whichever terminal call the worker makes, the tombstone and its events are gone and nothing else changed |
| Jobs.TombstoneStays | meemee/jobs.py:264-283 | A tombstone cannot be claimed, cancelled or finished as a job, and stays as it is until a terminal call or a sweep |
| Jobs.JobStore.Enqueue | meemee/jobs.py:85-101 | Same state and answer as `EnqueueSpec` |
| Jobs.JobStore.Claim | meemee/jobs.py:103-123 | Same state and answer as `ClaimSpec` |
| Jobs.JobStore.Publish | meemee/jobs.py:133-161 | Same state and answer as `PublishSpec`; the refusals and the removal of a tombstone are stated on the tables |
| Jobs.JobStore.Finish | meemee/jobs.py:163-165 | The row becomes done with the result and no error, and one done event is logged; nothing else changes |
| Jobs.JobStore.Fail | meemee/jobs.py:167-169 | The row gets the error and no result, and is queued or failed by its attempts, with the matching event; nothing else changes |
| Jobs.JobStore.RequestCancel | meemee/jobs.py:172-190 | Same state and answer as `RequestCancelSpec` |
| Jobs.JobStore.CancelRunning | meemee/jobs.py:192-201 | Same state and answer as `CancelRunningSpec` |
| Jobs.JobStore.Cancel | meemee/jobs.py:203-213 | Same state and answer as `CancelSpec` |
| Jobs.JobStore.PurgePrincipal | meemee/jobs.py:251-284 | The two loops over running and idle jobs and the final delete give exactly `PurgeSpec`, with the three counts; an empty principal is refused |
| Jobs.JobStore.SweepPurges | meemee/jobs.py:300-312 | Same state as `SweepSpec` and the number of tombstones removed |
| Paging.ListingIsOrdered | meemee/jobs.py:229-233 | The plain listing holds each matching row once, in descending (updated_at, id) order |
| Paging.ListingExactly | meemee/jobs.py:219-233 | On the columns: which jobs of the principal are listed for a status and a time, each once, and that they come by descending (updated_at, id) |
| Paging.PageIsSlice | meemee/jobs.py:224-235 | The page after the first k rows is the next slice of the listing, with a cursor exactly when more rows follow |
| Paging.FaithfulPagingRefinesListing | meemee/jobs.py:215-236 | For every cursor codec that reads its own cursors back, following next_cursor ends and concatenates to the listing |
| Paging.PagingRefinesListing | meemee/jobs.py:215-236 | With the real cursors: following next_cursor from none to none gives exactly the filtered rows in order, no gap, no duplicate, for every limit |
| Paging.CursorIsFaithful | meemee/jobs.py:235 | Every position of a table that SQLite can store survives the cursor codec |
| Paging.SelectNewest | meemee/jobs.py:229-233 | Selecting newest first until the limit gives the prefix of the sorted rows |
| Paging.SelectPage | meemee/jobs.py:228-235 | Fetching one row more than the page size gives the page and its next position |
| Paging.ListForPrincipal | meemee/jobs.py:215-236 | Same answer as `PageSpec`, with an invalid cursor refused |
| Chains.FollowCovers | meemee/jobs.py:215-236 | A client that follows slices to the end has concatenated the rest of the list |
| Audit.RunKeepsInvariant | meemee/audit.py:48-79 | Every state reached by append and prune_to_anchor passes `verify`, including appends after a prune has emptied the table |
| Audit.PruneKeepsInvariant | meemee/audit_anchor.py:57-75 | A prune keeps the invariant of the log |
| Audit.PruneExactly | meemee/audit_anchor.py:57-75 | A prune succeeds exactly with a passing anchor that is neither empty nor older than the base; it deletes the rows up to the place of the anchor, makes the anchor the base and leaves a verifiable chain: the RuntimeError cannot happen on any table |
| Audit.PruneDeletesUpTo | meemee/audit_anchor.py:64-70 | The deleted rows are exactly those numbered up to the anchor's, and the anchor's hash is that of the last of them, or of the base |
| Audit.CanonicalIsInjective | meemee/audit.py:45 | The separator-joined text determines all seven fields when no field but the metadata contains the separator |
| Audit.CanonicalSplits | meemee/audit.py:45 | The text that is hashed, cut at its separators, is the previous hash and the six fields of the row in this order |
| Audit.CanonicalSeparators | meemee/audit.py:45 | The joined text holds six separators and those of its fields |
| Audit.VerifiedAt | meemee/audit.py:66-79 | A verified chain is numbered without gaps, each row links to the one before it, and each digest is that of its texts |
| Audit.VerifyExactly | meemee/audit.py:66-79 | `verify` answers the number of the first place whose row is misnumbered, not linked or has a wrong digest, and None if and only if there is none |
| Audit.SameTexts | meemee/audit.py:43-79 | Two verified chains from one base that agree on one digest hash the same texts up to there, unless they exhibit a hash collision |
| Audit.TamperEvidence | meemee/audit.py:43-79 | Of two verified tables with the same base row that agree on the entry hash at n and exhibit no collision, if the rows of one up to n hold no separator the other, whatever its fields hold, is identical up to n; the same if the metadata may hold separators but the other fields of neither do |
| Audit.TamperEvidenceExactly | meemee/audit.py:43-79 | The exact condition: every such table is identical up to n if and only if no row up to n has a separator in one of its six texts |
| Audit.AnchorDetectsTampering | meemee/audit_anchor.py:41-54 | `verify_anchor` fails after every edit, deletion, insertion or reorder at or before an anchored entry, with arbitrary fields in the altered table, if and only if no row up to the entry has a separator in its texts |
| Audit.PassesExactly | meemee/audit_anchor.py:41-54 | For any table: an anchor passes if and only if its signature is that of its payload under the key, every row is numbered, linked and hashed by place, and its hash is that of the row or base with its number, or the number is 0 and on neither |
| Audit.AnchorExactly | meemee/audit_anchor.py:17-38 | What the payload and the signature of a created anchor are, and exactly when each error is raised |
| Audit.AlteredAnchorFails | meemee/audit_anchor.py:41-61 | With an injective HMAC, an issued anchor whose payload, signature or key is altered passes on no log and prunes none |
| Audit.SeparatorInFieldIsUndetected | meemee/audit.py:48-64 | For every sound log and every record with a separator that append accepts, another record gives a different row with the same digest, and every anchor passes on one table if and only if it passes on the other |
| Audit.MovedHasSameText | meemee/audit.py:45 | Moving a field boundary over a separator gives a different row with the same joined text |
| Audit.VerifySeesTexts | meemee/audit.py:66-79 | Verification depends on sequence numbers, stored digests and joined texts only |
| Audit.HashAtPlace | meemee/audit_anchor.py:46-52 | In a reachable state the hash found for n is the row's at its place, or the base's, or none |
| Audit.CreatedAnchorPasses | meemee/audit_anchor.py:17-38 | An anchor that is created passes in that state exactly as the source builds it |
| Audit.AppendKeepsAnchor | meemee/audit_anchor.py:41-54 | Appending never makes a passing anchor fail |
| Audit.PruneAndAnchor | meemee/audit_anchor.py:57-75 | After a successful prune to m a passing anchor at n still passes if and only if m <= n or n is 0 |
| Audit.AnchorOutlivesGrowth | meemee/audit_anchor.py:17-75 | An anchor at n keeps passing through any appends and any prunes to sequences at most n |
| Audit.AuditLog.Append | meemee/audit.py:48-64 | Same table and sequence as `AppendSpec`; every column of the new row, its link and its digest; a duplicate digest is refused |
| Audit.AuditLog.Verify | meemee/audit.py:66-79 | The loop answers the place where the chain breaks, if it does |
| Audit.AuditLog.CreateAnchor | meemee/audit_anchor.py:17-38 | Same answer as `CreateAnchorSpec`: short key, existing file, broken chain, else the signed head |
| Audit.AuditLog.VerifyAnchor | meemee/audit_anchor.py:41-54 | The loop over the rows and the look-ups answer pass if and only if the signature is that of the payload under the key, the rows continue the chain by place from the base, and the anchored hash is on record |
| Audit.AuditLog.PruneToAnchor | meemee/audit_anchor.py:57-75 | Same table, base and answer as `PruneSpec`; a success implies the signature and leaves exactly the rows after the anchor, with the anchor as the base; an error changes nothing |
| Idempotency.LifetimeStep | meemee/idempotency.py:54-124 | Within one lifetime of a key's record the digest and token never change, a stored response never changes, and only a put of the same request, with the claim's own token before its lease ends, stores it |
| Idempotency.InsertExactly | meemee/idempotency.py:80-88 | A claim inserts exactly when no row of its key is alive; every column of the pending row and its five-minute lease; what expired is deleted, the rest stays |
| Idempotency.GetExactly | meemee/idempotency.py:54-69 | The answer by the row that is alive: none, conflict, in progress or the stored response |
| Idempotency.ReleaseExactly | meemee/idempotency.py:91-95 | Only the pending row of its own claim is deleted |
| Idempotency.PutExactly | meemee/idempotency.py:97-124 | Exactly when a put is accepted, with and without a token, every column it stores, and that a finished row and all other rows stay |
| Idempotency.DeletePrincipalExactly | meemee/idempotency.py:130-133 | Exactly the rows of the principal are deleted |
| Idempotency.StepOnRecord | meemee/idempotency.py:54-124 | Every operation leaves a record alone, deletes it, starts a new lifetime or finishes it |
| Idempotency.StepKeepsNumbers | meemee/idempotency.py:80-124 | Lifetimes are numbered apart |
| Idempotency.IdempotencyStore.Insert | meemee/idempotency.py:80-88 | Same table and answer as `InsertSpec` |
| Idempotency.IdempotencyStore.Get | meemee/idempotency.py:54-69 | Same table and answer as `GetSpec` |
| Idempotency.IdempotencyStore.Claim | meemee/idempotency.py:71-89 | Insert, then get when the row was there; an invalid key is refused |
| Idempotency.IdempotencyStore.Release | meemee/idempotency.py:91-95 | Deletes the pending row of this token, nothing else |
| Idempotency.IdempotencyStore.Put | meemee/idempotency.py:97-124 | Same table and answer as `PutSpec` |
| Idempotency.IdempotencyStore.DeletePrincipal | meemee/idempotency.py:130-133 | Deletes the principal's rows and counts them |
| CreateJob.RunKeepsInvariant | meemee/api.py:697-737 | Along any interleaving of calls, deaths and other users of the store, every finished record holds the one response of its lifetime and every successful call reported it |
| CreateJob.OneJobPerLifetime | meemee/api.py:697-737 | All calls that succeed against one lifetime of a key's record sent the same request and report the same response |
| Publication.ResponsesComeFromOneJob | meemee/api.py:697-737 | With the queue interleaved: the response of every successful call renders the identifier of a job that exactly one call enqueued, and that call published it in the lifetime reported |
| Publication.OnePublisherPerLifetime | meemee/api.py:729-734 | Of all calls that made a job at most one succeeds against a lifetime of a key's record |
| Publication.CourseKeepsInvariant | meemee/api.py:697-737 | Along any interleaving makers and jobs correspond one to one and every finished lifetime of the route was finished by a call |
| Publication.MadeJobsAreQueued | meemee/api.py:724 | Without account deletions every job a call made stays in the queue and belongs to the caller |
| Ownership.MakersStartedOrStrayed | meemee/api.py:706-724 | Every call that made a job either started a lifetime by its insert or is a stray whose look-up found the row gone, and never both |
| Ownership.TwoJobsNeedTwoLifetimesOrStray | meemee/api.py:705-724 | Two calls both make a job only in different lifetimes that they started, or as strays |
| Ownership.TwoJobsInOneLifetime | meemee/api.py:705-734 | For every key, request, tokens and identifiers a run in which two calls of the key both make a job during one lifetime; the stray gets the conflict and only the starter succeeds |
| Ownership.OnlyStartersSucceed | meemee/api.py:729-737 | A maker that succeeds reports the lifetime its own insert started; strays never succeed |
| Ownership.OwnerIsStarter | meemee/idempotency.py:97-116 | In a sound trace a call owns its key if and only if the lifetime that its insert started is still there, unfinished |
| Ownership.TraceKeepsSound | meemee/api.py:697-737 | Along any orderly interleaving every row of the route is the claim of the call that started its lifetime |
| CreateJob.PublishNeedsOwnClaim | meemee/api.py:730-734 | A call publishes if and only if the pending row of its own claim is there, for its request, and the lease has not ended; the row then holds its response |
| CreateJob.NoneMeansOwnedExactlyByInsert | meemee/idempotency.py:71-89 | A claim that answers None leaves the caller its own pending row if and only if the answer comes from the insert; from the look-up it means that no row of the key exists |
| CreateJob.NoneExactlyWhenFree | meemee/idempotency.py:80-89 | The insert and the look-up of a claim answer None if and only if no row of the key is alive at their time |
| CreateJob.NoneWithoutRow | meemee/idempotency.py:80-89 | An interleaving after which a claim has answered None although no row of its key exists |
| CreateJob.FirstCallSucceeds | meemee/api.py:713-737 | A first call with a good request under its lease makes exactly one queued job of the principal and stores its response for the time to live |
| CreateJob.FailsWithJobExactly | meemee/api.py:713-734 | A call fails after it has made a job if and only if the request is good and its claim is lost before publication: its own row expired by then, or the row that kept it from inserting was gone at the look-up; the answer is then a conflict |
| CreateJob.RetryReplays | meemee/api.py:704-712 | A retry within the time to live of a successful call gets the same response and makes no second job |
| CreateJob.FailureUndoesClaim | meemee/api.py:725-734 | A failed call has made a job exactly under that condition, and after any other failure than a conflict it holds no claim any more |
| CreateJob.WithoutKeyExactly | meemee/api.py:700-737 | The whole answer without a key: 422, 429 and 500 under their exact conditions with the queue unchanged, otherwise exactly one job with every column stated and reported with its quota; the stored responses are not touched |
| CreateJob.WithoutKeyEveryCallMakesAJob | meemee/api.py:700-737 | Without a key a second good call with a fresh identifier makes a second job |
| CreateJob.UnderKeyExactly | meemee/api.py:703-737 | The whole answer under a key: refused for its length, answered by the living row with a conflict or its response, and otherwise as without a key, reported if and only if its own claim is alive when it publishes |
| CreateJob.CallIsARun | meemee/api.py:697-737 | The specification of one call equals a run of the interleaved machine that nothing comes between: same store, same answer |
| CreateJob.JobApi.Work | meemee/api.py:714-724 | Same queue and answer as `WorkSpec`: bad time, quota, enqueue |
| CreateJob.JobApi.CreateJob | meemee/api.py:697-737 | Claim, work, release or publish give exactly `CreateSpec` of both stores; without a key the job, the answer and each error are stated on the tables |
| Monitors.OrderingsAgree | meemee/monitors.py:92-103 | gt, gte, lt, lte and eq fit together on every pair of values; booleans are never ordered |
| Monitors.MatchesOnNumbers | meemee/monitors.py:93-103 | gt, gte, lt, lte and eq on numbers are the orderings and equality of the field against the expected value |
| Monitors.MatchesOnTexts | meemee/monitors.py:93-103 | The same on texts, by code points |
| Monitors.MatchesOtherwise | meemee/monitors.py:93-103 | exists, eq and contains on every value, a missing field as a null one; values of different kinds, booleans and null are never ordered |
| Monitors.RowExactly | meemee/monitors.py:123-129 | Exactly when a scanned row times out, fires or is left alone, with its new count and status; the condition is decided by `Matches` |
| Monitors.EvaluateExactly | meemee/monitors.py:107-130 | A repeated identity is a replay or a conflict by its digest and changes nothing; otherwise it is written down, every row is evaluated by itself, and the answer names exactly the rows that fired |
| Monitors.FiredExactly | meemee/monitors.py:123-129 | A scan reports an identifier if and only if a row with it fired |
| Monitors.CreateExactly | meemee/monitors.py:76-80 | Exactly when a monitor is created, and that only its row and its entry are added |
| Monitors.CancelExactly | meemee/monitors.py:131-136 | Exactly which row is cancelled, that it is logged, and that nothing else changes |
| Monitors.DeleteOwnerExactly | meemee/monitors.py:141-148 | Exactly the owner's rows, entries and event identities are gone |
| Monitors.FireCountIsExact | meemee/monitors.py:107-136 | In every reachable state fire_count equals the monitor's triggered entries, is at most max_fires, and equals it exactly when the monitor is completed |
| Monitors.RunKeepsInvariant | meemee/monitors.py:76-148 | The invariant behind it along every run of create, evaluate, cancel and delete_owner |
| Monitors.ScanCountsTriggers | meemee/monitors.py:122-129 | One scan logs a trigger for a row exactly when it raises the row's count |
| Monitors.ScanIsPointwise | meemee/monitors.py:122-129 | A scan treats each selected row by itself |
| Monitors.DeduplicationIsInvisible | meemee/monitors.py:107-130 | Dropping every identified evaluation whose key was recorded before leaves monitors, log, keys and all other outcomes as they were, in any run without delete_owner |
| Monitors.KeysAreRecorded | meemee/monitors.py:115-121 | An identified evaluation records its key; a repeated key changes nothing and answers replay or conflict |
| Monitors.MonitorStore.Create | meemee/monitors.py:76-80 | Same tables and answer as the create step |
| Monitors.MonitorStore.Settle | meemee/monitors.py:124-129 | One scanned row is timed out, fired (and completed at its limit) or left alone, with its log entry |
| Monitors.MonitorStore.ScanRows | meemee/monitors.py:122-129 | The loop over the rows gives the scan of the whole table |
| Monitors.MonitorStore.EvaluateIdentified | meemee/monitors.py:107-130 | Same tables and answer as the evaluate step: replay, conflict, or record and scan |
| Monitors.MonitorStore.Cancel | meemee/monitors.py:131-136 | Same tables and answer as the cancel step |
| Monitors.MonitorStore.DeleteOwner | meemee/monitors.py:141-148 | Refuses an empty owner, else removes the owner's keys, entries and monitors |
| Replay.AcceptedAtMostOnce | meemee/device_protocol.py:119-176 | Over any run with a monotone guard clock that drifts less than a second against the verifier's, an envelope is accepted at most once although nonces are forgotten, for every TTL, tolerance, constant offset of the clocks and starting state; so is any envelope with its nonce issued no later |
| Replay.AcceptedTwiceNeedsDrift | meemee/device_protocol.py:155-168 | Two acceptances take a drift of at least a second that, with twice the tolerance, outlasts the TTL |
| Replay.TwiceExactlyByDrift | meemee/device_protocol.py:155-168 | The exact condition, for every verifier and every envelope it accepts at all: a drift lets some run accept the envelope twice if and only if it is at least a second and, with twice the tolerance, at least the TTL |
| Replay.AcceptedAgainAfterExpiry | meemee/device_protocol.py:68-75 | With a monotone clock a nonce is accepted again only when its first acceptance has expired, from every state of the guard |
| Replay.ReplayedExactlyWhenLive | meemee/device_protocol.py:61-75 | For arbitrary clocks, after the other checks a call is refused as a replay if and only if a call with its nonce was accepted before and every call since that passed the checks, this one included, read less than its expiry |
| Replay.AnswerExactly | meemee/device_protocol.py:140-168 | The answer to a call on the fields of the envelope: each refusal in order, and acceptance exactly if it is well formed, ASCII-signed by the key, timely, for this device, declared, and its nonce not remembered |
| Replay.MemoryExactly | meemee/device_protocol.py:68-75 | After a call the guard holds an accepted nonce for the TTL and for as long as its envelope is timely, and of the others exactly the unexpired; a call refused before leaves it alone |
| Replay.AcceptedIsSigned | meemee/device_protocol.py:149-163 | In every run, from every state, an accepted envelope is signed, timely, for this device and declared |
| Replay.AlteredIsRefused | meemee/device_protocol.py:149-153 | With injective signatures no run accepts an envelope that differs from a signed one under its signature |
| Replay.RefusedExactlyWhenRemembered | meemee/device_protocol.py:61-75 | With a monotone guard clock: refused as a replay if and only if a call with its nonce was accepted before and has not expired |
| Replay.BlockedRun | meemee/device_protocol.py:68-75 | Once accepted, a nonce is refused until its expiry for the rest of the run |
| Replay.ExpiredIsForgotten | meemee/device_protocol.py:71 | An expired nonce is gone after the next claim |
| Replay.SteppingBackReplays | meemee/device_protocol.py:68-75 | For every verifier and command: stepping back to a call after another command accepts its envelope again if and only if the other command read its expiry or later |
| Replay.GuardAheadReplays | meemee/device_protocol.py:155-168 | For every verifier, envelope, offset and drift that meets the condition, the first and last second of freshness both accept the envelope |
| Replay.TableClaimIsClaim | meemee/device_protocol.py:94-102 | A claim in the shared table answers and changes its namespace as the in-memory guard would, and no other namespace sees it |
| Replay.TableAnswersLikeMemory | meemee/device_protocol.py:61-102 | In any interleaving of namespaces the answers of the persistent guard in one namespace are those of an in-memory guard that saw only that namespace's calls |
| Replay.ReplayGuard.Claim | meemee/device_protocol.py:68-75 | Same memory and answer as `ClaimSpec` |
| Replay.ReplayGuard.VerifyCommand | meemee/device_protocol.py:119-176 | Same memory and answer as `VerifySpec`; the answer is stated on the fields of the envelope: the refusals in order, then the guard |
| Replay.SQLiteReplayGuard.Open | meemee/device_protocol.py:82-92 | A guard is made exactly for a positive TTL and a non-empty namespace |
| Replay.SQLiteReplayGuard.Claim | meemee/device_protocol.py:94-102 | Same table and answer as `TableClaimSpec` |
| Replay.SQLiteReplayGuard.VerifyCommand | meemee/device_protocol.py:119-176 | Same table and answer as `TableVerifySpec`; the answer is stated on the fields of the envelope and the rows |
| RateLimit.CleanupIsInvisible | meemee/rate_limit.py:66-69 | With a monotone clock, cleaning up at any points never changes the answer to a hit, from any table |
| RateLimit.CleanupExactly | meemee/rate_limit.py:66-69 | Exactly the counters of windows that began more than two windows ago are deleted |
| RateLimit.EveryAnswerIsExact | meemee/rate_limit.py:49-64 | Every answer of a run is decided by the hit's rank in its aligned window: allowed, remaining and reset |
| RateLimit.WindowAdmitsMin | meemee/rate_limit.py:49-64 | Each aligned window admits exactly min(hits, limit) per identity |
| RateLimit.SlidingBound | meemee/rate_limit.py:49-64 | Any interval of window seconds, both ends included, admits at most 2 * limit hits per identity |
| RateLimit.SlidingBoundIsTight | meemee/rate_limit.py:49-64 | For every limit and window a run admits 2 * limit hits in such an interval |
| RateLimit.RealIntervalIsCovered | meemee/rate_limit.py:50 | The seconds that truncate from a real interval of length window lie in such an interval |
| RateLimit.Start | meemee/rate_limit.py:51 | The window start is the multiple of the window at or below the second, less than a window away |
| RateLimit.SQLiteRateLimiter.Open | meemee/rate_limit.py:24-36 | A limiter is made exactly for a positive limit and window |
| RateLimit.SQLiteRateLimiter.Hit | meemee/rate_limit.py:49-64 | Same table and answer as `HitSpec` |
| RateLimit.SQLiteRateLimiter.Cleanup | meemee/rate_limit.py:66-69 | Same table as `CleanupSpec` and the number of rows deleted |
| KeyRotation.RotateKeys | meemee/key_rotation.py:46-134 | For every pattern of exceptions and crashes before or after the effect of every step: without the marker the disk is as before or completely rotated if and only if the rotation is not torn, that is, unless it gets as far as removing the marker, the removal raises after its effect, and the handler then restores one of two changed databases; what a torn rotation leaves is stated; a normal return, with its counts, and a failure raised over a completed rotation have their exact conditions; the other outcomes come only from faults that explain them, and without faults it rotates or the handler puts everything back |
| KeyRotation.Attempt | meemee/key_rotation.py:65-113 | What the protected region can leave: each file as before or rotated as a whole, nothing changed before the backups are needed, no marker only when all is rotated |
| KeyRotation.Prepare | meemee/key_rotation.py:66-93 | It succeeds if and only if all secrets open under the old key and nothing strikes; the updates are the same plaintexts sealed under the new key |
| KeyRotation.Write | meemee/key_rotation.py:95-109 | Two transactions and two commits with faults between them |
| KeyRotation.Recover | meemee/key_rotation.py:114-129 | If the handler completes, or gets as far as removing the marker, both files equal their backups; one file is restored without the other exactly under the stated faults |
| KeyRotation.Guarded | meemee/key_rotation.py:62-134 | What is left from the published marker on, with the exact conditions |
| KeyRotation.DecodeAll | meemee/key_rotation.py:72-84 | The decoding loops succeed if and only if every secret opens, and give all plaintexts |
| KeyRotation.UpdateRows | meemee/key_rotation.py:97-104 | Updating row by row gives the table of updates |
| KeyRotation.RotationKeepsPlaintexts | meemee/key_rotation.py:72-93 | A complete rotation opens under the new key to the same plaintexts |
| KeyRotation.UniformExactly | meemee/key_rotation.py:72-87 | An installation opens under a key if and only if every secret is sealed under it, for its own name or subscription; a plain text never opens |
| KeyRotation.RotationReplacesKeys | meemee/key_rotation.py:88-97 | A complete rotation replaces the key of every secret and nothing else; no secret comes or goes |
| KeyRotation.HistoryIsSafe | meemee/key_rotation.py:46-134 | Across any history of rotations, failures and crashes in which none is torn, whenever the marker is absent every secret is sealed under one and the same key with the plaintexts of the start |
| KeyRotation.HistoryIsSafeExactly | meemee/key_rotation.py:46-134 | An installation without a marker opens under some key if and only if no rotation of its history was torn |
| KeyRotation.SplitIsMixed | meemee/key_rotation.py:109-128 | The disk that a torn rotation leaves opens under no single key |
| KeyRotation.MarkerStays | meemee/key_rotation.py:53-55 | After an interrupted rotation every later one is refused and changes nothing |
| KeyRotation.UniformKeyIsKnown | meemee/key_rotation.py:72-84 | Two keys that open one installation are equal unless there is nothing to open |
| AccountDeletion.ReturnedMeansErased | meemee/account_deletion.py:191-209 | After any pattern of crashes and resumes during which nobody adds rows for the principal, an attempt that returns has every step recorded, its deletion completed and no row of the principal left in any store |
| AccountDeletion.RecordedStepsNeverRerun | meemee/account_deletion.py:192-197 | At any point of any run the step about to be executed is not a recorded one |
| AccountDeletion.OneOpenDeletion | meemee/account_deletion.py:78-91 | Whatever crashes, resumes and requests come, at most one deletion of a principal is open |
| AccountDeletion.OpenSpec | meemee/account_deletion.py:78-91 | An open deletion is reused; the answer is always an open deletion of the principal |
| AccountDeletion.OpenExactly | meemee/account_deletion.py:78-91 | Exactly when a deletion is reused, made or refused; every column of a new one, and that nothing else changes |
| AccountDeletion.OpenKeepsLedger | meemee/account_deletion.py:78-91 | `open` never makes a second open deletion, forgets none, and a new one has no recorded step |
| AccountDeletion.PurgeCleans | meemee/account_deletion.py:153-183 | A step leaves no row of the principal in its store |
| AccountDeletion.PurgeKeepsClean | meemee/account_deletion.py:153-183 | No step, whoever it is for, puts rows of a principal into a store |
| AccountDeletion.PurgeKeepsOthers | meemee/account_deletion.py:153-183 | A step keeps everybody else's rows and their jobs' events |
| AccountDeletion.AttemptKeepsOthers | meemee/account_deletion.py:191-198 | So does a whole attempt, interrupted or not |
| AccountDeletion.RunKeepsOthers | meemee/account_deletion.py:185-209 | Over any pattern of crashes, resumes and new requests of a principal's deletion, everybody else's rows and their jobs' events stay as they were |
| AccountDeletion.UninterruptedReturns | meemee/account_deletion.py:191-209 | An attempt that is not interrupted returns |
| AccountDeletion.ResumedReturns | meemee/account_deletion.py:191-209 | One resume that nothing stops completes a deletion that was left open |
| AccountDeletion.RequestedReturns | meemee/account_deletion.py:185-206 | So does a request under a fresh identifier |
| AccountDeletion.StepsAreDistinct | meemee/account_deletion.py:153-183 | The step list names each configured store once |
| AccountDeletion.MemoryGoesFirst | meemee/account_deletion.py:161-165 | The steps begin with memory, jobs and runs, in this order |
| AccountDeletion.AccountPurger.constructor | meemee/account_deletion.py:146-183 | The purger's steps are those of the configured stores, each once |
| AccountDeletion.QueueIsQuiet | meemee/account_deletion.py:9-15 | No queue operation but the principal's own enqueue makes a job of the principal, so workers may go on during a deletion |
| AccountDeletion.RequestsAreQuiet | meemee/account_deletion.py:9-15 | Nor do requests under other principals' keys add records of the principal |
| AccountDeletion.DeletionLedger.Open | meemee/account_deletion.py:78-91 | Same ledger and answer as `OpenSpec`, found by looking through the rows |
| AccountDeletion.DeletionLedger.RecordStep | meemee/account_deletion.py:100-105 | Adds the step to the record |
| AccountDeletion.DeletionLedger.Complete | meemee/account_deletion.py:107-111 | Marks the deletion completed |
| AccountDeletion.DeletionLedger.DoneSteps | meemee/account_deletion.py:93-98 | Exactly the steps recorded for the deletion |
| AccountDeletion.AccountPurger.Turn | meemee/account_deletion.py:193-197 | One turn of the loop, or as much of it as the process lives for |
| AccountDeletion.AccountPurger.Loop | meemee/account_deletion.py:193-197 | The loop is the machine's advances |
| AccountDeletion.AccountPurger.Run | meemee/account_deletion.py:191-209 | `_run` in a process that dies after any number of durable actions reaches exactly the machine's state |
| AccountDeletion.AccountPurger.PurgeAccount | meemee/account_deletion.py:185-189 | `purge` opens or reuses a deletion and runs it; an empty principal is refused |
| Order.SortedIsOrdered | meemee/jobs.py:229-233 | ORDER BY on a strict order lists each row once, in order |
| Order.SortedSuffix | meemee/jobs.py:224-227 | Sorting the rows after the k-th gives the rest of the sorted list |

## Left out

- SQLite itself: write-ahead logging, busy retries, schema creation and migration. Transactions are serialisable and
  primary keys are unique; a database that cannot be opened or is full is a step that raises.
- Goals.GoalStore.Create: the row is read back in a second step after the commit; the answer here is the identifier, and
  the overflow of `timedelta` for very long leases is not modelled.
- Goals.LeaseFencing: clocks are those the operations read; a worker that acts outside the store is not fenced by it.
- Cursors.DecodeCursor: payload bytes above 127 count as invalid, where `json.loads` detects UTF-8, UTF-16 and UTF-32;
  no encoded cursor contains them.
- Extract.ExtractJsonObject: where the recursion limit and the limit of 4300 digits strike is the interpreter's choice, so
  the parser is a parameter. The constants NaN, Infinity and -Infinity, which it accepts, are in the grammar.
- Jobs.JobStore.CancelRunning: `_settle_purge` and the cancellation are two transactions in the source and one step here.
  SQLite jobs have no worker fencing, so none is claimed.
- Jobs.JobStore.SweepPurges: the source deletes row by row in autocommit; here the sweep is one step.
- Audit.AuditLog.CreateAnchor: verifying the chain and reading the head are one step here and two in the source.
- Audit.AuditLog.PruneToAnchor: verification, the prune and the verification after it are one step here.
- Audit.AuditLog.VerifyAnchor: reading the row and verifying the chain are one step here and two in the source.
- Audit.CreateAnchorSpec: `encode()` refuses lone surrogates, in keys and in hashed texts; here they count three bytes and
  are hashed like any other character.
- Audit.TamperEvidence: digests are an arbitrary function; that two different rows at one place do not hash to the same
  digest is a hypothesis about the two tables compared, not about the function. Digests contain no separator.
- Audit.AlteredAnchorFails: that the HMAC of two payloads or keys differs is a hypothesis.
- Replay.AlteredIsRefused: that two envelopes have different signatures is a hypothesis.
- Ownership.OnlyStartersSucceed: tokens are fresh and only `create_job` claims or puts under its route; both are conditions
  on the run.
- Publication.ResponsesComeFromOneJob: quota consumption, request validation, the audit entry and the job counter are not part of
  the interleaved model, and a crash between enqueue and put leaves a job that no record names.
- CreateJob.JobApi.CreateJob: quota consumption, the audit entry and the job counter are left out.
- CreateJob.JobApi.Work: the quota's answer is an input and its consumption is left out.
- CreateJob.WorkSpec: the quota's answer is an input; how a request is digested and a response rendered are parameters.
- Monitors.Matches: `str(value).lower()` is a parameter, and numbers are reals.
- Monitors.MonitorStore.EvaluateIdentified: payload validation and its digest come before the transaction and are inputs.
- Monitors.MonitorStore.Create: names and creation times of monitors are left out.
- Replay.VerifySpec: types of envelope fields are given by the datatype; the keyed hash is a parameter.
- RateLimit.SQLiteRateLimiter.Hit: the limiter's clock is a real number; the middleware around it is left out.
- KeyRotation.RotateKeys: encryption is ideal and nonces are left out; each commit and each restore of a file is atomic;
  no other process writes; the backup directory holds exact copies.
- AccountDeletion.ReturnedMeansErased: one attempt runs at a time; two processes that run the same deletion at once can
  execute a step twice. The step list is the same in every attempt.
- AccountDeletion.Purge: stores other than jobs, idempotency and monitors are owner-keyed rows.
- AccountDeletion.DeletionLedger.RecordStep: the counts stored with a step are left out.
- AccountDeletion.AccountPurger.Run: the counts and totals of the report are left out, and so is `discard_late_run`.
- PostgreSQL twins, the worker loop, webhooks delivery, HTTP routing, authentication, streaming, the command line,
  model clients, connectors, browser sessions, mail: input and output, or calls into code outside the repository.
- Memory and context search: results depend on ranking code that is not part of this model.
- Quotas, entitlements, approvals, policy, schema registry, backups and packaging: each of their guarantees is a single
  check or a database constraint within one call, and none spans calls.
