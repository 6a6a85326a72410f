# JN gateway: a verified model

This project models the stateful core of the JN engine gateway, a Python service that gives
contributors audited tools over one committed snapshot of a repository, and proves what that core
keeps in every run. `dafny verify dfyconfig.toml` checks all of it.

- **Ownership of work items.** `Audit` is the locked, append-only NDJSON ledger on bytes, with short
  reads and writes and failed syncs; `Json`, `Utf8` and `Timestamps` are the formats it stands on.
  `TaskClaims` decides claim and release calls by replaying the ledger. `TaskClaimRuns`,
  `TaskClaimSafety`, `TaskClaimClocks`, `TaskClaimLedger` and `TaskClaimFile` prove what holds over whole runs: no
  poisoned ledger, mutual exclusion, idempotent replay, guarded release, compaction, crash safety.
  `TaskClaimAnswers` is what callers are told and what the ledger says of it.
- **Opening pull requests.** `OpenPr` is the write protocol as a state machine over GitHub requests,
  any of which can fail, be applied with its reply lost, or succeed, with any number of calls
  interleaved. `OpenPrRuns` proves safety over all runs. `OpenPrService` is the call in the service's
  own order, proved to be a run of the machine in every environment. `Trailer`, `OpenPrFiles` and
  `GitHubSession` are the commit trailer, the file arguments and the retrying session below it.
- **Exporting and validating snapshots.** `AdmittedPaths` is the path policy, `Export` the in-place
  prune of an unpacked archive, `Inventory`, `InventoryReport` and `DigestStream` the validator and
  its digest stream, `ExportValidates` the link between the two.
- **Content IDs.** `Base64Url`, `ContentId` and `SnapshotIds`.
- **Authorization.** `CollaboratorCache` is the bounded-staleness cache of collaborator checks;
  `DeviceEnrollment`, `DeviceEnrollmentRuns` and `DeviceEnrollmentAnswers` are enrollment with requests
  interleaved at `await`.
- **Answers over the snapshot and CI.** `CheckStatus`, `ContentSearch`, `FourccQuarantine` and
  `HeadingSections`, each a loop-heavy computation proved against a declarative reading.

Code that works on state is modelled as classes and loops whose contracts name a specification
function; the theorems are lemmas about that function over whole runs, and state what it means without
naming it or its parts: by status codes, by fields of a job, by the requests before, by the names on a path.

Times are whole microseconds since year 1 (the authorization modules use reals). Strings are sequences
of Unicode scalar values, bytes are integers below 256. A call is its clock reading followed by one
locked transaction, so clock readings need not follow lock order; where a theorem needs that they do,
it says so.

## Findings

- Grants of one task can overlap when clocks step back (`TaskClaimLedger.ClockStepBreaksExclusion`): a
  claim that a later grant has hidden can still be running once that later one is released. They exclude
  each other exactly when every granted call reads a second at or past its task's high-water mark
  (`TaskClaimClocks.ExclusiveExactly`). It is enough that clocks do not step back between grants of one
  task; a step back in a refused call, a release or another task is harmless.
- A valid pull request title may itself be a trailer line with another key; exactly then replay does not
  recognise the call's own branch (`Trailer.RoundTrip`, `Trailer.OtherKey`).
- `encode_content_id` has no length bound but `decode_content_id` has: paths of more than 6100 UTF-8
  bytes get IDs that never resolve (`ContentId.RoundTrip`). The decoder ignores trailing bits, so a file
  has a single ID exactly when its path has 1 modulo 3 UTF-8 bytes (`ContentId.UniqueExactly`).
- `is_admitted_repository_path` raises IndexError on `.` and its like (`AdmittedPaths.JudgeCrashes`); no
  caller passes such a path (`AdmittedPaths.JudgeNames`, `AdmittedPaths.ValidatesCorpus`).
- A corpus whose admitted files are all empty passes the exporter and the validator's scan but not the
  manifest model, which asks for at least one byte (`ExportValidates.BuildManifest`,
  `ExportValidates.EmptyCorpusIsRefused`).
- Only the top-level `.git` and workflow directories are closed to proposed files
  (`OpenPrFiles.AcceptedPathStaysOut`).

## Model

| member | source | states |
|---|---|---|
| `Timestamps.RoundTrip` | app/core/task_claims.py:66-81 | A stored timestamp reads back as its instant rounded down to the second, for every instant of the Gregorian calendar from year 1 to 9999. |
| `Json.RoundTrip` | app/collaboration/audit.py:125-128 | What is dumped with ASCII escapes (surrogate pairs included) loads back as the same value, for every value without floats. |
| `Json.DumpIsPlain` | app/collaboration/audit.py:125-128 | A dumped value is printable ASCII, so it never holds a line break. |
| `Utf8.RoundTrip` | app/core/path_safety.py:89-90 | Strict decoding undoes encoding for every text. |
| `Audit.AuditLog.Transact` | app/collaboration/audit.py:77-152 | One locked transaction, loops included: reply and file bytes are those of the byte-level specification for every mix of short reads, short writes and failed syncs. |
| `Audit.Refines` | app/collaboration/audit.py:104-146 | On a file of whole records plus a torn tail the byte-level transaction does exactly what the record-level step does. |
| `Audit.ReadsBack` | app/collaboration/audit.py:107-129 | A file of written records reads back as those records, in order. |
| `Audit.TornHasNoNewline` | app/collaboration/audit.py:110-111 | A nonempty proper prefix of a record never ends in a newline, so a cut-off append is always noticed. |
| `Audit.CrashSafety` | app/collaboration/audit.py:104-146 | Every file reachable by complete, failed or cut-off transactions is whole records and at most one proper prefix of a record. |
| `Audit.TornStaysTorn` | app/collaboration/audit.py:110-111 | After a cut-off append every later transaction fails and no byte changes any more. |
| `Audit.CommittedIsRead` | app/collaboration/audit.py:131-146 | What a transaction returned success for is in the file, and the next one reads the old records plus it. |
| `Audit.ReadsExactly` | app/collaboration/audit.py:104-129 | Any file is read, as given records, exactly when it is at most 64 MiB, its last line is ended, and each line is at most 64 KiB and the UTF-8 text of that JSON object. |
| `TaskClaims.LedgerClaims` | app/core/task_claims.py:135-213 | The replay loop yields the claims of the event fold that are unexpired at `now`, and fails exactly when the fold does. |
| `TaskClaims.TaskClaimService.Serve` | app/core/task_claims.py:236-421 | A claim or release call is one locked transaction on its decision; what that decision answers and records is stated by the TaskClaimAnswers rows. |
| `TaskClaimRuns.GrantedTerm` | app/core/task_claims.py:294-296 | A granted term starts at the second the clock read and ends exactly the asked number of minutes later. |
| `TaskClaimRuns.DecisionEvent` | app/core/task_claims.py:305-329 | The record a decision appends replays as precisely the decided event: a grant, a matching release, or nothing. |
| `TaskClaimRuns.NeverPoisoned` | app/core/task_claims.py:146-208 | Every ledger reached by claim and release calls, whatever their clock readings, replays without error. |
| `TaskClaimSafety.ReplayIsLastEvent` | app/core/task_claims.py:138-208 | A claim is held exactly when it is the latest grant of its task and no matching release follows it. |
| `TaskClaimSafety.ConsecutiveExclusion` | app/core/task_claims.py:267-301 | Without any clock assumption the same holds for consecutive grants of a task. |
| `TaskClaimClocks.UnreleasedAre` | app/core/task_claims.py:138-208 | The high-water fold lists exactly the grants of a task that no later release matches, those hidden by later grants included. |
| `TaskClaimClocks.ExclusiveExactly` | app/core/task_claims.py:244-301 | Whatever the clocks, all grants of one task exclude each other in a run exactly when every granted call read a second at or past the high-water mark that the ledger shows for its task before the call. |
| `TaskClaimClocks.MutualExclusion` | app/core/task_claims.py:244-301 | If the clocks of granted calls of one task do not step back from one to the next, of any two grants of a task in the run the earlier is released in between or over when the later starts; other calls may read what they like. |
| `TaskClaimLedger.ClockStepBreaksExclusion` | app/core/task_claims.py:244-245 | With a clock that steps back between grants of one task, four valid calls leave two overlapping grants. |
| `TaskClaimLedger.IdempotentReplay` | app/core/task_claims.py:267-287 | Across any interleaved calls until release or expiry the owner's same-key call gets the identical claim, and every other claim call of that task is refused as held. |
| `TaskClaimLedger.ReleaseFrees` | app/core/task_claims.py:374-385 | The owner's release of a running claim frees its task, whatever calls come between. |
| `TaskClaimLedger.ReleaseNamesItsGrant` | app/core/task_claims.py:363-385 | With distinct claim IDs a release removes the very grant whose ID it names, of that task and owner. |
| `TaskClaimLedger.DelayedReleaseIsHarmless` | app/core/task_claims.py:363-385 | With distinct claim IDs a release that arrives after its task was granted anew changes nothing. |
| `TaskClaimLedger.Bisimilar` | app/core/task_claims.py:247-329 | Two ledgers that agree on the claims unexpired at a horizon answer and record every later run alike. |
| `TaskClaimLedger.Compaction` | docs/deployment.md:124-135 | The drain-and-archive rule: 1440 minutes after the latest grant an empty ledger gives every later run the same replies and the same records as the old one. |
| `TaskClaimFile.FileIsSafe` | app/core/task_claims.py:332-341 | End to end: whatever fails in whatever transaction, the ledger file's whole records replay and consecutive grants never overlap; no two grants of a task overlap exactly when the recorded grants read their clocks on time. |
| `TaskClaimFile.ToldClaimIsDurable` | app/core/task_claims.py:332-341 | Every claimed reply, new or replayed, names a claim of the caller's that a durable record granted and that is held and runs when the reply is given. |
| `TaskClaimFile.ToldClaimsTakeTurns` | app/core/task_claims.py:244-341 | When the recorded grants read their clocks on time, no two replies of a history name overlapping claims of one task. |
| `TaskClaimFile.RecordsFit` | app/collaboration/audit.py:135-136 | No record the service writes, after escaping, exceeds the 64 KiB record bound. |
| `TaskClaimAnswers.DecisionAnswers` | app/core/task_claims.py:255-303 | Over any readable ledger the answer is the right one: each refusal in its order; for a task held at the reading the identical claim to its owner with its key, and held-by to all others; otherwise a new claim of the caller, with the fresh ID and key, from the second read for exactly the asked minutes. Releases likewise. |
| `TaskClaimAnswers.DecidedExactly` | app/core/task_claims.py:288-301 | A call over a readable ledger goes undecided exactly when it is owed a grant and the drawn ID is malformed or the end lies beyond year 9999. |
| `TaskClaimAnswers.ClaimTakesEffect` | app/core/task_claims.py:288-329 | A claim call that answers with a new claim puts that claim in force for its task; every other answer changes no claim. |
| `TaskClaimAnswers.ReleaseTakesEffect` | app/core/task_claims.py:363-385 | A release answered with released ends the claim of its task; one answered with not released, or refused, changes no claim. |
| `TaskClaimAnswers.RecordTells` | app/core/task_claims.py:305-329 | The appended record says what the caller is told: tool, time, commit, outcome, and for a claim its ID and term. |
| `TaskClaimAnswers.RecordsMean` | app/core/task_claims.py:138-208 | Any record whatever is a grant or a release exactly when its fields are there and valid, is passed over exactly when it is of another tool or outcome, and otherwise is an error. |
| `TaskClaimAnswers.ArgumentsMean` | app/core/task_claims.py:84-132 | Each argument check, read character by character. |
| `TaskClaimAnswers.RepliesAreRight` | app/core/task_claims.py:332-341 | Through the file, whatever failed before: a call whose transaction succeeds is told the right answer over the ledger it found, and exactly one more record, with that outcome, is in the file; every other call is told unavailable. |
| `Trailer.MessageKey` | app/core/open_pr.py:275-279 | For any title and identity the key read back is the first that a line before the trailer carries, or else the call's. |
| `Trailer.MessageLines` | app/core/open_pr.py:275-279 | The message has five lines: title, blank, proposer, key, and nothing. |
| `Trailer.RoundTrip` | app/core/open_pr.py:230-240 | For a one-line title and identity the key read back is the call's exactly when the title is not a trailer line with another key. |
| `Trailer.OtherKey` | app/core/open_pr.py:89-98 | For every key there is a title that title validation accepts and that hides the call's own key. |
| `OpenPr.InvStep` | app/core/open_pr.py:358-442 | Every step of interleaved, failing calls keeps the protocol invariant and only ever adds commits, contrib refs and pull requests. |
| `OpenPr.BranchMeans` | app/core/open_pr.py:79-86 | The branch check, read character by character. |
| `OpenPrRuns.BaseNeverWritten` | app/core/open_pr.py:291-302 | No run of calls, however requests fail, moves master. |
| `OpenPrRuns.BranchesCreatedOnce` | app/core/open_pr.py:291-302 | In any run each contrib ref is created at most once and still holds the commit its creating call made. |
| `OpenPrRuns.BranchCarriesKey` | app/core/open_pr.py:242-289 | The head of a created branch carries its creator's key exactly when the title is no trailer line with another key. |
| `OpenPrRuns.ExpectedBaseIsKept` | app/core/open_pr.py:402-418 | When the caller named an expected base, the branch it creates starts from exactly that commit, whatever happened to master meanwhile. |
| `OpenPrRuns.BasesAreRead` | app/core/open_pr.py:376-418 | Every base that a call works on was master's commit when it read it, and every commit it makes has that parent, with or without an expected base and however the call ends. |
| `OpenPrRuns.CreatedOnBase` | app/core/open_pr.py:280-289 | Every branch created in a run holds a commit whose parent is the base that its call read off master. |
| `OpenPrRuns.RetryCreatesNothing` | app/core/open_pr.py:390-398 | A call that starts when its branch exists never creates a tree, a commit or a ref, in any interleaving. |
| `OpenPrRuns.OtherKeyChangesNothing` | app/core/open_pr.py:390-396 | A call whose branch holds work under another key never changes anything and never succeeds. |
| `OpenPrRuns.OpenedIsTrue` | app/core/open_pr.py:423-440 | A reported success names the branch's present head, a pull request for the branch, and a base that was master's commit when the call read it; if the call created the branch, that base is the head's parent and the message is the call's. |
| `OpenPrRuns.RetryCompletes` | app/core/open_pr.py:390-442 | Whatever was lost before, a same-key retry left alone and without faults succeeds as a replay with the existing head. |
| `OpenPrRuns.FreshCompletes` | app/core/open_pr.py:376-442 | A fault-free call on a new branch opens a pull request for a branch whose head is a commit with the call's message on master's commit. |
| `OpenPrRuns.OpeningIsOpen` | app/core/open_pr.py:304-356 | When a call ends in success its pull request is open and of its branch. |
| `OpenPrRuns.FaultsEnd` | app/core/open_pr.py:213-302 | A failed request ends the call with the refusal's own code or as an upstream failure, but for a missing branch and a rejected pull request. |
| `OpenPrService.OpenPrCall.OpenPr` | app/core/open_pr.py:376-442 | The call in the service's own order is, in every environment, a run of the machine, and returns how the machine's call ended; what that says of base, head and pull request is stated by the OpenPrRuns rows. |
| `OpenPrFiles.ValidateFiles` | app/core/open_pr.py:145-172 | Accepts exactly the lists of 1 to 32 valid entries with different paths within both size bounds, and returns them in order. |
| `OpenPrFiles.AcceptedPathStaysOut` | app/core/open_pr.py:128-142 | A path is accepted exactly when it is plain text of real segments outside the top-level .git and workflow directories. |
| `GitHubSession.Session.Get` | app/collaboration/github.py:61-108 | A read makes at most three attempts, only after transient failures, and records every status and sleep in order. |
| `GitHubSession.ReadOutcome` | app/collaboration/github.py:37-108 | A read comes out as the first of three attempts that does not find GitHub busy (a broken connection, 5xx, 429, or 403 with a rate-limit sign), by its status code, and fails as upstream when three do. |
| `GitHubSession.SleepsAreBounded` | app/collaboration/github.py:51-59 | What Retry-After asks for is slept, cut to between zero and five seconds; without a usable one 0.25 and then 0.75 seconds. |
| `GitHubSession.Session.Send` | app/collaboration/github.py:198-232 | A mutation is one exchange whatever its outcome, and never sleeps or retries. |
| `AdmittedPaths.JudgeNames` | app/core/snapshot.py:135-156 | On names joined by slashes the string test decides exactly the policy stated on the names, and never crashes. |
| `AdmittedPaths.PolicyMeans` | app/core/snapshot.py:135-156 | The policy without joined text or computed suffix: plain names; one of three root files, or below one of five roots with a last name that is a nonempty stem and an allowed extension up to ASCII case; not one of four engine files, not below the vendored directory. |
| `AdmittedPaths.SuffixIs` | app/core/snapshot.py:156 | A nonempty suffix is exactly a dot and at least one more character, none of them a dot, after a nonempty stem. |
| `AdmittedPaths.JudgeCrashes` | app/core/snapshot.py:142-156 | The string test indexes an empty tuple exactly on nonempty relative paths whose every piece is empty or a dot. |
| `AdmittedPaths.ValidatesCorpus` | app/core/path_safety.py:63-82 | A raw path is accepted, unchanged, exactly when its pieces satisfy the policy; nothing crashes. |
| `Export.Archive.FilterExport` | deploy/export_snapshot.py:40-72 | The in-place bottom-up prune leaves exactly the admitted files and the directories that hold them or are approved roots; it fails exactly for unfit admitted files or missing roots, and never loses an admitted file. |
| `Export.ExportedFilesMean` | deploy/export_snapshot.py:42-50 | The export keeps exactly the files that belong to the corpus, with their contents. |
| `Export.ExportedDirectoriesMean` | deploy/export_snapshot.py:56-63 | Of the directories it keeps exactly the approved roots and those above a kept file. |
| `Export.ExportAsks` | deploy/export_snapshot.py:52-72 | It asks exactly that each kept file has at most a million bytes and no zero byte among the first 4096, and that each required root is there. |
| `Export.VisitNext` | deploy/export_snapshot.py:42-63 | Visiting one directory after all below it removes exactly its refused files and the subdirectories without admitted files. |
| `Inventory.Scan.ScanDirectory` | app/core/snapshot.py:196-265 | The recursive scan fails exactly when some entry below is at fault, and otherwise lists every file below once with its size. |
| `Inventory.FaultMeans` | app/core/snapshot.py:217-258 | What each fault says of an entry, in the policy's own terms, both ways. |
| `Inventory.CleanMeans` | app/core/snapshot.py:196-265 | A tree is faultless exactly when every file is a text of the corpus and every directory is unhidden, approved when it is a root, and not the vendored one. |
| `LexOrder.OneOrder` | app/core/snapshot.py:282 | A set of elements with different keys has one sorted order. |
| `InventoryReport.ComputeContentInventory` | app/core/snapshot.py:268-316 | Accepts exactly the clean trees with the required roots within both bounds; reports every file once in path-byte order, with count, total and digest stream; each refusal names a true fault. |
| `InventoryReport.OneReport` | app/core/snapshot.py:279-309 | Two reports of one tree are equal, whatever order its directories were enumerated in. |
| `DigestStream.StreamInjective` | app/core/snapshot.py:292-309 | With recorded sizes equal to content lengths, equal digest streams come from the same files in the same order. |
| `DigestStream.DishonestSizesCollide` | app/core/snapshot.py:298-306 | With a recorded size that is not the content length two different corpora can share a stream. |
| `InventoryReport.StreamDeterminesTree` | app/core/snapshot.py:292-316 | Equal digest streams mean equal sets of paths with equal contents. |
| `ExportValidates.ExportImpliesValidate` | deploy/export_snapshot.py:40-72 | For every tree whose admitted files are fit, the filtered tree has no entry the scan objects to. |
| `ExportValidates.OnlyBoundsFail` | app/core/snapshot.py:283-290 | An exported tree can be refused for the file-count or total-byte bound only. |
| `ExportValidates.BuildManifest` | deploy/export_snapshot.py:75-112 | A build succeeds exactly for archives with fit admitted files, the required roots and both bounds met in which some admitted file holds a byte; for the other such archives the manifest model refuses it, and validating what was written never finds a mismatch. |
| `ExportValidates.BuildAsks` | deploy/export_snapshot.py:75-112 | The condition of a build read off the archive: texts, roots, at most 20 000 files and 128 000 000 bytes kept, and one byte. |
| `ExportValidates.EmptyCorpusIsRefused` | app/core/snapshot.py:79-90 | The tree of the required roots with empty files passes filter and validator unchanged and holds no byte, so its build is refused. |
| `Base64Url.RoundTrip` | app/core/path_safety.py:90-106 | Decoding undoes unpadded base64url encoding for all byte strings. |
| `Base64Url.DecodesAlike` | app/core/path_safety.py:101-106 | Two texts decode alike exactly when they differ in ignored trailing bits only. |
| `ContentId.RoundTrip` | app/core/path_safety.py:85-125 | For every commit and admitted path the ID reads back exactly when the path has at most 6100 UTF-8 bytes; longer paths get IDs that are refused. |
| `ContentId.IdExactly` | app/core/path_safety.py:85-91 | An ID is made exactly for 40 lower-case hex digits and a path of the corpus, and is the prefix and the base64url of commit, NUL and path. |
| `ContentId.Injective` | app/core/path_safety.py:85-91 | Different commits or paths get different IDs, whatever their length. |
| `ContentId.Reencodes` | app/core/path_safety.py:94-125 | What an ID reads back as encodes to the same ID up to ignored trailing bits. |
| `ContentId.SameMeaning` | app/core/path_safety.py:94-125 | Two IDs mean the same file exactly when they agree up to ignored trailing bits. |
| `ContentId.SecondId` | app/core/path_safety.py:101-106 | When the payload does not fill whole groups, a second, different ID means the same file. |
| `ContentId.OnlyId` | app/core/path_safety.py:94-125 | When the payload fills whole groups, an ID that means the file is the one the encoder makes. |
| `ContentId.UniqueExactly` | app/core/path_safety.py:85-125 | Among files whose IDs resolve, exactly those with a path of 1 modulo 3 UTF-8 bytes have a single ID. |
| `ContentId.ResolvesOnlyMembers` | app/core/path_safety.py:158-171 | An ID resolves exactly when it decodes to the active commit and a file of the snapshot; otherwise the error is invalid, stale or missing. |
| `SnapshotIds.EveryFileIsAddressable` | app/core/path_safety.py:167-171 | Every file of a validated snapshot gets an ID that leads back to it, and that is stale under any other commit. |
| `SnapshotIds.OnlyFilesResolve` | app/core/path_safety.py:158-171 | Whatever resolves is a file of the snapshot. |
| `CollaboratorCache.ContributorAuthorizer.Check` | app/mcp/github_oauth.py:145-181 | One check under the lock, whether identity is refused, the cache hits, or GitHub is asked, is one step of the runs; what it answers by status code is stated by CheckAnswers. |
| `CollaboratorCache.CheckAnswers` | app/mcp/github_oauth.py:108-181 | A check in any run: unavailable without a valid identity; while the latest answer about the same user and login up to case is good it is repeated; otherwise GitHub is asked, and 204 allows, 404 denies and all else is unavailable. |
| `CollaboratorCache.LoginGrammar` | app/mcp/github_oauth.py:42 | The login check, by the shape of the text. |
| `CollaboratorCache.AnswersAreBacked` | app/mcp/github_oauth.py:123-181 | Allowed means that GitHub answered 204 about the same user and login up to case less than the positive lifetime ago; denied, that it answered 404 less than the negative lifetime ago. |
| `CollaboratorCache.StaleAnswersEnd` | app/mcp/github_oauth.py:154-181 | Once GitHub stops answering 204 (or 404) about a caller, no check reading the clock a lifetime later still allows (or denies), in any interleaving. |
| `CollaboratorCache.BoundIsTight` | app/mcp/github_oauth.py:156-158 | At any moment before that bound the old answer, allowed or denied, can still be given. |
| `CollaboratorCache.AsksOncePerLifetime` | app/mcp/github_oauth.py:156-159 | With a monotone clock GitHub is not asked again about a caller while its 204 or 404 is good. |
| `CollaboratorCache.KeysAreIndependent` | app/mcp/github_oauth.py:153-181 | What the cache holds for a key depends on the checks of that key alone. |
| `CollaboratorCache.AnswersAreIndependent` | app/mcp/github_oauth.py:153-181 | So a caller gets the same decision however many others are served in between. |
| `DeviceEnrollment.DeviceOAuthProvider.Authorize` | app/mcp/device_oauth.py:306-334 | Expired transactions and codes go, and a fresh transaction without attempts is opened. |
| `DeviceEnrollment.DeviceOAuthProvider.ShowForm` | app/mcp/device_oauth.py:384-395 | Showing the form counts no attempt; it only drops the transaction when it has lapsed. |
| `DeviceEnrollment.DeviceOAuthProvider.LoadAuthorizationCode` | app/mcp/device_oauth.py:462-471 | A live code is shown to the client it was minted for, and to no other. |
| `DeviceEnrollment.DeviceOAuthProvider.ExchangeAuthorizationCode` | app/mcp/device_oauth.py:473-483 | The code is gone before tokens are made, whether or not they can be. |
| `DeviceEnrollment.DeviceOAuthProvider.Submit` | app/mcp/device_oauth.py:398-460 | The uninterrupted stretch from the parsed form to the sleep or redirect is one step of the interleaved runs: a wrong secret is counted and the fifth closes the transaction, a right one closes it and mints a code. |
| `DeviceEnrollmentAnswers.OpenExactly` | app/mcp/device_oauth.py:306-341 | In every run a transaction is in the table exactly when some request opened it and since then no prune or look-up came too late, no right secret was given, and fewer than five wrong ones were; with its client, scopes, end and count. |
| `DeviceEnrollmentAnswers.CodesExactly` | app/mcp/device_oauth.py:410-483 | A code is held exactly when a right secret in time earned it, for the opening client, its scopes and 300 seconds, and since then no prune came at or past its end and nothing exchanged it. |
| `DeviceEnrollmentAnswers.ResponsesAreRight` | app/mcp/device_oauth.py:306-483 | Every request of every run gets the right response, read off the requests before it: a form only in time, a code only to its client and before its end, tokens only for a held code, a device identifier and the one scope. |
| `DeviceEnrollmentAnswers.ExchangedWasShownInTime` | app/mcp/device_oauth.py:462-483 | Where exchanges follow loads, the code of every exchange was earned, and shown to its client before its 300 seconds were over. |
| `DeviceEnrollment.IdentifierGrammar` | app/mcp/device_oauth.py:63 | The device identifier check, by the shape of the text. |
| `DeviceEnrollmentRuns.AttemptsAreLimited` | app/mcp/device_oauth.py:398-435 | In every interleaving and under any clock, a transaction takes at most five wrong secrets, is accepted at most once, and never after the fifth. |
| `DeviceEnrollmentRuns.CodesAreSingleUse` | app/mcp/device_oauth.py:436-483 | A code is minted once, for one client, and exchanged at most once and only after that. |
| `DeviceEnrollmentRuns.TokensGoToTheirClient` | app/mcp/device_oauth.py:462-483 | When exchanges follow loads by the same client, tokens for a code go to the client it was minted for. |
| `DeviceEnrollmentRuns.ExchangesAreEarned` | app/mcp/device_oauth.py:436-483 | Exchanges never outnumber correct submissions, nor these the transactions opened. |
| `DeviceEnrollmentRuns.GuessesAreLimited` | app/mcp/device_oauth.py:411-421 | All wrong secrets together are at most five for each transaction opened. |
| `DeviceEnrollmentRuns.EnrollmentCompletes` | app/mcp/device_oauth.py:306-483 | From any reachable state and with any other actions in between, authorizing, submitting the secret after at most four wrong ones, loading and exchanging, each in time, yields tokens. |
| `CheckStatus.ContextsAndArtifactRuns` | app/core/check_status.py:226-312 | The loops with their early break compute the specified contexts, and the runs whose artifacts are listed are exactly those that gave a context; what a context says of its job is stated by ContextsAreNewest and StateSays. |
| `CheckStatusFacts.EarlyExitIsFullScan` | app/core/check_status.py:243-291 | On runs in order, stopping when both contexts are found gives what a full scan gives. |
| `CheckStatusFacts.ContextsAreNewest` | app/core/check_status.py:243-312 | Each context has the run, the times and the state, by the job's own status and conclusion, of the first job of that name in the newest run with one; missing is reported only for a page that holds every run. |
| `CheckStatusFacts.StateSays` | app/core/check_status.py:141-152 | A job is in exactly one state, given for each state by its status and conclusion; whatever is unknown or absent is a failure. |
| `CheckStatusFacts.SuccessExactly` | app/core/check_status.py:165-312 | For any page with distinct run IDs, malformed replies included: the overall state is success exactly when, for both names, the first job of the newest run with one is completed with conclusion success, and that run and every newer one were read in full. |
| `CheckStatusFacts.RefusedWhenIncomplete` | app/core/check_status.py:293-296 | A page in order is refused exactly when some context is not on it and GitHub has more runs. |
| `CheckStatusFacts.PageOrderIsIrrelevant` | app/core/check_status.py:243-247 | The order in which runs are listed does not matter when their IDs differ. |
| `CheckStatusFacts.BlockedMeans` | app/core/check_status.py:155-163 | The verdict is blocked exactly when a context is missing, and exactly the missing ones are named. |
| `CheckStatusFacts.VerdictMeans` | app/core/check_status.py:164-177 | With nothing missing the verdict is the worse state of the two, success only when both succeeded. |
| `ContentSearch.RipgrepLineMap` | app/core/content_search.py:273-311 | The event loop and the in-place sorts build the specified line map. |
| `ContentSearch.PythonLineMap` | app/core/content_search.py:211-232 | The loop with its break maps each matching file to its first twenty matching lines, and no other file. |
| `ContentSearch.Search` | app/core/content_search.py:333-427 | A search answers exactly for valid queries and limits, with the rechecked, ranked and cut results of one of the engines' maps. |
| `ContentSearchFacts.SearchIsSound` | app/core/content_search.py:350-400 | For any engine output every reported result is a file of the scope with its title, kind and the asked content, and its matches are lines in which the query occurs, ascending and at most twenty, each cut to 500 characters. |
| `ContentSearchFacts.EnginesAgree` | app/core/content_search.py:273-311 | If the events name exactly the first twenty matching lines of each file, in any order and repetition, ripgrep's map is the Python engine's. |
| `ContentSearchFacts.SameResponse` | app/core/content_search.py:333-427 | With such events both engines give the same response. |
| `ContentSearchFacts.ResponseIsLeast` | app/core/content_search.py:403-427 | What the response leaves out comes, in the order of results, after everything in it. |
| `ContentSearchFacts.BeforeIsTuple` | app/core/content_search.py:396-420 | The order of results, stated by whether the query is the name or title or occurs in name or path, then by kind, folded path and path, is the order of the sort tuples. |
| `ContentSearchFacts.LastPartIs` | app/core/content_search.py:404 | The file name is what follows the last slash. |
| `ContentSearchFacts.FirstHitsMean` | app/core/content_search.py:221-232 | The reported lines of a file are the matching ones with fewer than twenty matching lines before them. |
| `ContentSearchFacts.NothingMissed` | app/core/content_search.py:350-400 | With an exact line map every selected file that matches has a result with its first twenty matching lines. |
| `FourccQuarantine.SymbolIndex.ValidateExplicitFourccs` | app/core/symbol_index.py:613-627 | Accepts exactly when every claim of a class with rows of its own is one of them. |
| `FourccQuarantine.SymbolIndex.ClassFourccs` | app/core/symbol_index.py:665-705 | The table-building loops serve each class the specified FourCC and record exactly the contradicted claims. |
| `FourccQuarantine.QuarantinedIsServedNothing` | app/core/symbol_index.py:613-705 | Once the claims are accepted, a quarantined class has no named registrar row and is served nothing. |
| `FourccQuarantine.QuarantinedExactly` | app/core/symbol_index.py:629-658 | A claim is quarantined exactly when no row of the class confirms it and it is a level's ID either way round, or a row gives it to another class, or the tags give it to another name while some tag names this class. |
| `FourccQuarantine.ServedIsUncontested` | app/core/symbol_index.py:643-705 | A served FourCC is committed to the class itself, or is no level ID and committed to no class. |
| `FourccQuarantine.SharedFourcc` | app/core/symbol_index.py:643-705 | Two classes are served one FourCC only when rows commit it to both or to neither. |
| `FourccQuarantine.OrderIsIrrelevant` | app/core/symbol_index.py:665-705 | Acceptance, quarantine and the served FourCC up to case do not depend on the order of registrar rows. |
| `FourccQuarantine.LastSpellingIsServed` | app/core/symbol_index.py:681-683 | A class served from its rows gets the text of the last row that names it, in every corpus. |
| `FourccQuarantine.SpellingIsFixed` | app/core/symbol_index.py:665-705 | The exact served text is the same for every order of the rows exactly when the class is not served from its rows or they all spell the FourCC alike. |
| `HeadingSections.FindSections` | app/core/project_context.py:145-167 | The nested loops with their break compute the section of every heading. |
| `HeadingSections.HeadingExactly` | app/core/project_context.py:97-151 | A line is a heading exactly when it can be cut into one to six hashes, a gap, a title and trailing white space; level and title are those of the one cut in which the gap is longest and then the title shortest. |
| `HeadingSections.InSection` | app/core/project_context.py:152-158 | A line is in a heading's section exactly when every later heading up to it is strictly deeper; so the section is the longest such range. |
| `HeadingSections.OneSectionPerHeading` | app/core/project_context.py:147-166 | Exactly the heading lines have sections, in order. |
| `HeadingSections.Laminar` | app/core/project_context.py:145-167 | For any text two section ranges are nested or disjoint. |

## Left out

- Python text details: lone surrogates, UTF-16 and UTF-32 detection, the digit limit and recursion limit of the JSON reader, and numbers with equal value but another type in `schema_version`; `str.isprintable` is an arbitrary predicate, case folding an arbitrary function (ASCII lowering where the alphabet is ASCII), digits of a user ID are ASCII digits.
- Timestamps in layouts that the service never writes: `datetime.fromisoformat` accepts more than `YYYY-MM-DDTHH:MM:SSZ`, and the model calls those malformed.
- File modes, links, `O_NOFOLLOW` and `flock`: folded into one flag of `Audit.System`; the lock is taken to make a transaction atomic, and the second size check is not told apart from the first.
- `AuditLog.append` and files written through it: it does not look for a torn tail, so the ledger theorems are about files written by `transact` alone.
- TaskClaimLedger.Compaction: is about the records of a ledger; the 64 MiB bound of the file, which the old ledger can reach before the fresh one, is outside it.
- TaskClaimLedger.DelayedReleaseIsHarmless: takes distinct claim IDs as given, since the random generator is not modelled.
- TaskClaimFile.RecordsFit: takes a snapshot commit of at most 40 characters, as the manifest guarantees.
- Open pull requests: tokens, HTTP, the audit record and its timestamp, the pull request body and the form of the expected base, lower-casing of SHAs; replies to reads are truthful, and contrib refs are created by this service only.
- Snapshots: symbolic links, special files and hard links (trees hold regular files and directories), file names that are not valid UTF-8, files that change while being read, the manifest's identity fields and time stamps, and the read-only check.
- ContentId.ResolvesOnlyMembers: stops before the re-check of the file on disk, which needs the file system.
- Bounded reads, citations, titles and languages of files.
- The collaborator check's deployment preflight, which is uncached, and HTTP below it.
- DeviceEnrollmentRuns.TokensGoToTheirClient: needs the token endpoint's order of load before exchange; the exchange itself does not compare clients.
- DeviceEnrollmentAnswers.ExchangedWasShownInTime: the exchange reads no clock, so a code shown in time can be exchanged later; the token endpoint's own expiry check belongs to the MCP library and is not part of this model.
- Device enrollment keeps a transaction as a value in its table; the object that a request still holds after its sleep is only read there for the form.
- Signing, token verification, refresh tokens, client registration and its private file.
- Check status: resolving a pull request or branch to a commit, and listing the artifacts of the runs that gave a context.
- Search: classification of paths into kinds and scopes, stripping the query, choosing and running an engine, and files that become unreadable after startup.
- Symbol index: parsing ledgers, class documents and object tags, and symbol lookup.
- Headings: splitting a text into lines, and joining and stripping section bodies.
- FastAPI, MCP and REST wiring, configuration, the gateway's own repository tools, CSV and Markdown table parsing, and shell scripts.
