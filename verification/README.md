# Verified model of the GitHub MCP server's decision logic

This project models, in Dafny, the decision logic behind the server's tools, and proves what
that logic promises. Every call to GitHub, every clock and every log chunk is an adversarial
parameter: the theorems hold for all replies, failures, interleavings and cuttings.

- **Log evidence** (`Utf8`, `Evidence`, `ActionLogEvidence`, `ActionLogs`). Logs arrive in
  chunks of any size. The online machine normalizes control characters, finds literal markers
  that may straddle chunks, and keeps a bounded UTF-8 prefix or tail. It is proved to return what
  a batch definition returns for the whole log; run evidence does not depend on listing order,
  job paging or chunking.
- **Patch engine** (`PatchWrites`, `PatchTargets`). Edits are found by exact context in the
  original, compared with their neighbours only, and applied in one pass; targets are resolved
  through one growing tree cache.
- **Writes** (`WriteContracts`, `ContentCommit`). One mutation, an authoritative readback, and
  tri-state verdicts; a ref compare-and-swap against a branch that others move and a transport
  that loses messages.
- **Workflow dispatch** (`WorkflowDispatch`). A transition system over callers, one lock, a
  reservation table and a record of everything sent and learnt, interleaved at every await.
- **Request governor** (`RequestGovernor`). A class with a ghost history over two clocks.
- **Artifact archives** (`ArchivePaths`, `ArtifactContent`). Path normalization and the one-pass
  tree check against an order-free definition.
- **Merge requirements** (`MergePolicy`, `RequiredChecks`, `MergeRequirements`, `LatestRows`).
  Conservative layering as a join, paged evidence, reconciliation and approvals.

`Prelude`, `Text` and `Sorting` hold the shared vocabulary. `dafny verify dfyconfig.toml` checks
the whole project.

Results where the code and its first reading differ, each with its exact condition:

- A success response with both a Retry-After and an exhausted limit is blocked until the
  Retry-After deadline, even if the reported reset is later (`RequestGovernor.ResetHonoured`;
  `ResetCanBePassed` is a concrete response).
- A path listed for an artifact is refused by the content tool exactly when it starts with a
  drive: `./C:/x` is listed as `C:/x` (`ArchivePaths.ListedPathIsAccepted`, `UncoveredDrive`).
- The three-count listing before a dispatch can pass while a run is not complete. It does so
  exactly when more completed runs left than arrived between its first two reads
  (`WorkflowDispatch.ListingExactly`; `ListingCanBeFooled` is a concrete case).
- The pinned-check loop does not end exactly when, having gone on so far, it meets empty pages
  that claim a successor for ever (`RequiredChecks.NeverEndsExactly`). The reading method asks of
  its caller only that this is not so.
- A read of the ref may lag behind. On a branch nobody else writes, an applied update is
  confirmed exactly when some read within the bound is fresh (`ContentCommit.QuietVerdict`).
- The transport also reports an unambiguous failure when the response to a request that arrived is
  not JSON (src/mcp_gh_server/gh_client.py:434-442). The design note
  docs/git_content_write_contract.md:61 calls an unchanged head conclusive after such a failure;
  the code can then give a negative verdict for an update that was applied
  (`ContentCommit.ReportedFailureExactly`, `ReportedFailureCanBeWrong`). "Reported failed" in the
  dispatch results has the same meaning.
- A standalone classifier of a failed write agrees with the write protocol except for one extra
  warning when the readback contradicts the request (`WriteContracts.ClassifiersAgree`).
- The last fallback of the commit reconciliation warning cannot be reached
  (`ContentCommit.CommitService.Commit`).

## Model

| member | source | states |
|---|---|---|
| Utf8.DecodeIgnoreRoundTrip | src/mcp_gh_server/action_log_evidence.py:42-59 | Lenient decoding of encoded text gives the text back. |
| Utf8.EncodeCharMeaning | src/mcp_gh_server/action_log_evidence.py:42-59 | Encoded characters have the lengths, marker bits and payload of the table in section 3 of RFC 3629. |
| Utf8.FitPrefixIsLongest | src/mcp_gh_server/action_log_evidence.py:25-59 | The kept prefix is the longest one of whole code points within the byte limit, and wastes at most three bytes of it. |
| Utf8.DecodePrefix | src/mcp_gh_server/evidence.py:96-115 | Cutting encoded text at any byte and decoding leniently keeps exactly that longest prefix. |
| Utf8.DecodeSuffix | src/mcp_gh_server/action_log_evidence.py:193-237 | Lenient decoding of the last bytes keeps exactly the longest whole-code-point suffix. |
| Utf8.FitSuffixIsLongest | src/mcp_gh_server/action_log_evidence.py:193-237 | That suffix is maximal and wastes at most three bytes. |
| Evidence.BoundedTextAccumulator.constructor | src/mcp_gh_server/evidence.py:67-94 | A fresh accumulator has consumed nothing and carries the requested and hard limits. |
| Evidence.BoundedTextAccumulator.AddText | src/mcp_gh_server/evidence.py:96-115 | The state stays the longest fitting prefix of everything fed so far. |
| Evidence.BoundedTextAccumulator.Finish | src/mcp_gh_server/evidence.py:117-140 | The evidence is the report of the whole fed text. |
| Evidence.BoundChunks | src/mcp_gh_server/evidence.py:64-158 | Any cutting into chunks gives the report of the whole text, and the completeness validator accepts it. |
| Evidence.BoundedReportValidates | src/mcp_gh_server/evidence.py:50-61 | The validator never rejects a bounded report; its content is the longest fitting prefix. |
| Evidence.BoundedWarnings | src/mcp_gh_server/evidence.py:117-140 | The cap warning is given exactly if more was requested than the hard limit, the incompleteness warning exactly if something is missing. |
| Evidence.ResolvePagination | src/mcp_gh_server/evidence.py:161-235 | Pagination evidence that is produced always satisfies its own validator. |
| Evidence.PaginationComplete | src/mcp_gh_server/evidence.py:21-37 | Nothing that the validator would accept is refused, and `has_more` is the only value it would accept. |
| Evidence.PaginationReports | src/mcp_gh_server/evidence.py:161-235 | Every field of produced evidence: without a total `has_more` is the caller's, with one it says whether results follow the page; the page is incomplete exactly if it is short or the cap hides results; each warning has its own cause. |
| Evidence.PaginationRefuses | src/mcp_gh_server/evidence.py:161-235 | Exactly which arguments are refused. |
| Evidence.PaginationErrors | src/mcp_gh_server/evidence.py:161-235 | Each refusal names what is wrong with the arguments. |
| Evidence.PagesReassemble | src/mcp_gh_server/tools/artifact_content.py:370-385 | The pages laid end to end are the listing: no repetition and no gap, for any count and page size. |
| Evidence.PageListingIsHonest | src/mcp_gh_server/tools/artifact_content.py:370-400 | The evidence of a page slice is accepted, `has_more` holds exactly if page times page size is below the total, and it is truncated only by the cap. |
| ActionLogEvidence.NormalizeInert | src/mcp_gh_server/action_log_evidence.py:19-22 | Normalized text holds no terminal control, and normalizing it again changes nothing. |
| ActionLogEvidence.NormalizeExactly | src/mcp_gh_server/action_log_evidence.py:12-22 | Normalized text spells each character in order: a C0 control other than tab, LF and CR, DEL or a C1 control as a backslash, `x` and two lowercase hexadecimal digits of its code, any other as itself. |
| ActionLogEvidence.Utf8PrefixCollector.AddText | src/mcp_gh_server/action_log_evidence.py:42-59 | The collector keeps the longest fitting prefix of what it was fed. |
| ActionLogEvidence.ActionLogEvidenceAccumulator.constructor | src/mcp_gh_server/action_log_evidence.py:70-110 | A fresh machine stands for the empty log. |
| ActionLogEvidence.ActionLogEvidenceAccumulator.AddText | src/mcp_gh_server/action_log_evidence.py:112-154 | One more chunk: totals, fingerprint, tail and marker search are those of the log so far, wherever it was cut. |
| ActionLogEvidence.ActionLogEvidenceAccumulator.ConsumeSelected | src/mcp_gh_server/action_log_evidence.py:156-183 | Text after the start is collected up to the first end marker, which may straddle chunks. |
| ActionLogEvidence.ActionLogEvidenceAccumulator.MemoryIsBounded | src/mcp_gh_server/action_log_evidence.py:125-183 | Each held-back suffix stays shorter than its marker, and tail and content stay within the limit. |
| ActionLogEvidence.ActionLogEvidenceAccumulator.Finish | src/mcp_gh_server/action_log_evidence.py:185-237 | The result is the batch selection of everything fed. |
| ActionLogEvidence.SelectChunks | src/mcp_gh_server/action_log_evidence.py:62-262 | For every way of cutting a log, the machine returns the batch selection, success or error. |
| ActionLogEvidence.MarkerModeMeaning | src/mcp_gh_server/action_log_evidence.py:112-237 | Marker mode succeeds exactly when the markers delimit a selection of the normalized text. |
| ActionLogEvidence.MarkerModeContent | src/mcp_gh_server/action_log_evidence.py:156-237 | It returns the longest fitting prefix from the first start through the first end at or after it, with totals and fingerprint of the whole normalized stream. |
| ActionLogEvidence.StartFailureMeaning | src/mcp_gh_server/action_log_evidence.py:185-191 | The start-marker error is raised exactly when the marker occurs nowhere. |
| ActionLogEvidence.EndFailureMeaning | src/mcp_gh_server/action_log_evidence.py:185-191 | The end-marker error is raised exactly when the marker occurs nowhere at or after the first start. |
| ActionLogEvidence.TailModeMeaning | src/mcp_gh_server/action_log_evidence.py:125-135 | Tail mode never fails and returns the longest whole-code-point suffix within its limit. |
| ActionLogEvidence.SelectValidates | src/mcp_gh_server/action_log_evidence.py:193-237 | The evidence validator never rejects a selection, and truncation is reported exactly when something is missing. |
| ActionLogEvidence.InvalidRequests | src/mcp_gh_server/action_log_evidence.py:82-91 | Exactly which combinations of limits and markers are refused. |
| ActionLogEvidence.LimitsAreTight | src/mcp_gh_server/action_log_evidence.py:93-96 | The byte limit is the smaller of the requested and the hard one, and a tail is further limited to what was asked for. |
| ActionLogEvidence.NotesAreExact | src/mcp_gh_server/action_log_evidence.py:193-228 | Each warning of a selection is given exactly for its own cause. |
| ActionLogs.ListAttemptJobs | src/mcp_gh_server/tools/action_logs.py:190-226 | Enumeration terminates and succeeds exactly when some page count is a complete, consistent, duplicate-free enumeration of the claimed total; jobs come sorted by id. A failure names what is wrong at the page where it stops. |
| ActionLogs.ListingForgetsOrder | src/mcp_gh_server/tools/action_logs.py:190-226 | Two complete listings of the same jobs, however paged and ordered, sort to the same list. |
| ActionLogs.CompleteOnce | src/mcp_gh_server/tools/action_logs.py:201-219 | At most one page count is complete. |
| ActionLogs.StreamJobs | src/mcp_gh_server/tools/action_logs.py:600-607 | The accumulator is fed the non-skipped logs joined by newlines. |
| ActionLogs.ListedJobsAscend | src/mcp_gh_server/tools/action_logs.py:190-226 | The enumerated jobs come in strictly ascending order of their ids. |
| ActionLogs.SkippedJobsAreLeftOut | src/mcp_gh_server/tools/action_logs.py:600-607 | Exactly the jobs whose conclusion is not `skipped` contribute, in the listed order. |
| ActionLogs.JoinedByNewlines | src/mcp_gh_server/tools/action_logs.py:600-607 | The joined logs can be cut between any two jobs, with one newline at the cut; a single log is joined to nothing. |
| ActionLogs.GetRunLogs | src/mcp_gh_server/tools/action_logs.py:578-617 | Evidence is returned exactly when run, attempt and commit and the jobs' identities are unchanged and complete, and it is the batch selection of the joined logs in job-id order; each error has its cause. |
| ActionLogs.RunEvidenceIsCanonical | src/mcp_gh_server/tools/action_logs.py:585-617 | Reordering and re-paging both listings and re-chunking the logs never changes whether there is evidence, nor which. |
| ActionLogs.EvidenceSurvives | src/mcp_gh_server/tools/action_logs.py:585-617 | A read of the same jobs and logs, however reordered, re-paged and re-chunked, gives the same evidence. |
| ActionLogs.EvidenceAgrees | src/mcp_gh_server/tools/action_logs.py:585-617 | Whatever the second listings are, two reads of the same jobs and logs that both give evidence give the same. |
| PatchWrites.FindAllOccurrences | src/mcp_gh_server/tools/patch_writes.py:43-51 | Exactly the occurrences, overlapping ones included, in increasing order. |
| PatchWrites.ChainIsPairwise | src/mcp_gh_server/tools/patch_writes.py:70-73 | Comparing sorted neighbours decides disjointness of all pairs of spans. |
| PatchWrites.LocateEdit | src/mcp_gh_server/tools/patch_writes.py:54-69 | An edit is located exactly if its context occurs once; not-found and ambiguous are told apart. |
| PatchWrites.MaterializeEdits | src/mcp_gh_server/tools/patch_writes.py:54-82 | Accepts exactly the patches whose contexts occur once and are pairwise disjoint, and then replaces all of them simultaneously; otherwise the error is that of the first edit whose context is missing or ambiguous, or else the overlap. |
| PatchWrites.AssemblePieces | src/mcp_gh_server/tools/patch_writes.py:75-82 | The one-pass assembly is the simultaneous replacement. |
| PatchWrites.PatchForgetsOrder | src/mcp_gh_server/tools/patch_writes.py:54-82 | Permuting the edits changes neither whether a patch is accepted nor its result. |
| PatchWrites.PatchIsRightToLeft | src/mcp_gh_server/tools/patch_writes.py:54-82 | The result equals splicing the edits in one at a time from the right. |
| PatchWrites.PatchLength | src/mcp_gh_server/tools/patch_writes.py:75-82 | The length changes by exactly what the edits add and remove. |
| PatchTargets.TreeCache.Entries | src/mcp_gh_server/tools/patch_writes.py:85-125 | A tree is requested only if it is not cached, and the entries are GitHub's. |
| PatchTargets.TreeCache.Resolve | src/mcp_gh_server/tools/patch_writes.py:102-164 | Resolution through the cache equals a fresh uncached walk, whatever is cached. |
| PatchTargets.WalkFindsExactly | src/mcp_gh_server/tools/patch_writes.py:102-164 | A path names a file exactly if a chain of trees leads to it: one entry of each name, directories up to the last, which is a regular or executable file; its own identity, mode and size are what is found. |
| PatchTargets.WalkFailsExactly | src/mcp_gh_server/tools/patch_writes.py:102-164 | Each failure names what is wrong in the first tree where something is: unreadable, no entry, several, no identity, no directory, no regular file, or an invalid size. |
| PatchTargets.ResolvePatch | src/mcp_gh_server/tools/patch_writes.py:210-262 | One patch gives exactly its fresh outcome: mode, blob and content, or an error that names its cause if there is none. |
| PatchTargets.ResolvesExactly | src/mcp_gh_server/tools/patch_writes.py:210-262 | A patch has an outcome exactly if such a chain leads to a readable file that it changes within the file limit; the outcome keeps the entry's mode and identity and holds the replaced text. |
| PatchTargets.ResolveAllPatches | src/mcp_gh_server/tools/patch_writes.py:210-267 | All patches resolve as each would alone and within the limits, or nothing is returned; the error is that of the first patch that fails, or the total. |
| PatchTargets.ResolutionForgetsOrder | src/mcp_gh_server/tools/patch_writes.py:210-267 | The resolved files, as a collection, do not depend on the order of the patches. |
| WriteContracts.ExecuteWriteReadback | src/mcp_gh_server/write_contracts.py:142-254 | The callbacks are called in order: the mutation once, only after a check that passed, and the readback right after it unless the mutation raised past the handlers; completion is unknown exactly for an ambiguous failure, and silence means a confirmed write. |
| WriteContracts.ConcludeIsVerdict | src/mcp_gh_server/write_contracts.py:166-254 | Completion, state verdict, notices, request id and values are exactly those of the two replies: each notice is given for its own cause only. |
| WriteContracts.DefensiveCheckIsRedundant | src/mcp_gh_server/write_contracts.py:122-139 | With the public precondition helper, under equality or a custom comparison, the write happens exactly if the state read is accepted, and the second check never fires. |
| WriteContracts.ClassifiersAgree | src/mcp_gh_server/write_contracts.py:57-119 | The standalone classifier agrees with the protocol exactly unless the readback contradicts the request, and then differs by one named warning. |
| ContentCommit.CommitService.WriteRef | src/mcp_gh_server/content_commit_service.py:322-350 | Exactly one mutation is sent, and it is applied exactly if it arrives at the old head; it counts as known to have failed exactly for an unambiguous failure, and GraphQL errors count as ambiguous. |
| ContentCommit.CommitService.ReadbackRef | src/mcp_gh_server/content_commit_service.py:352-392 | At most three reads, stopping at the first that settles the outcome, with the flags the warning needs. |
| ContentCommit.CommitService.Commit | src/mcp_gh_server/content_commit_service.py:394-470 | One mutation, at most three reads after it, and a verdict and warning that are exactly what the reads establish; the known-failed flag agrees with `write_completed`, and the fallback warning is never chosen. Reads may lag. |
| ContentCommit.SuccessIsSound | src/mcp_gh_server/content_commit_service.py:428-430 | Success means a read saw the created commit, and that our mutation put it on the branch unless somebody else did, even if reads lag. |
| ContentCommit.FailureIsSound | src/mcp_gh_server/content_commit_service.py:431-443 | A negative verdict rests on a sighting of another commit: the old head only after a reported failure, and otherwise a head the branch began with or somebody else gave it. |
| ContentCommit.UndecidedExactly | src/mcp_gh_server/content_commit_service.py:444-456 | No verdict exactly when a read failed or three reads saw only the old head. |
| ContentCommit.WarningsMeanWhatTheySay | src/mcp_gh_server/content_commit_service.py:128-222 | Each reconciliation warning has its cause, with the completion, the number of reads and the head seen last; there is none exactly for a completed write whose commit was seen. |
| ContentCommit.QuietVerdict | src/mcp_gh_server/content_commit_service.py:352-456 | On a branch nobody else writes: success exactly if the mutation was applied and some read was fresh; otherwise failure exactly if it was reported failed; otherwise nothing, after all the reads. |
| ContentCommit.FreshQuietVerdict | src/mcp_gh_server/content_commit_service.py:352-456 | If moreover no read lags, an applied mutation is confirmed by the first read. |
| ContentCommit.ReportedFailureExactly | src/mcp_gh_server/content_commit_service.py:336-341 | A mutation reported failed was applied all the same exactly when it arrived at the old head and its response could not be read. |
| ContentCommit.ReportedFailureCanBeWrong | src/mcp_gh_server/content_commit_service.py:431-443 | A concrete case: such a failure and one lagging read give a negative verdict for a branch at the created commit. |
| WorkflowDispatch.ListingExactly | src/mcp_gh_server/tools/workflow_dispatch.py:168-249 | A passing listing counts the runs of its unfiltered read; all of them were complete exactly when as many completed runs left as arrived between the first two reads, and otherwise more left. |
| WorkflowDispatch.ListingIsSound | src/mcp_gh_server/tools/workflow_dispatch.py:168-249 | A passing listing is right if completed runs stay between the first two reads or none completes between the last two. |
| WorkflowDispatch.ListingCanBeFooled | src/mcp_gh_server/tools/workflow_dispatch.py:228-249 | Without either condition a deletion and a completion can cancel out: a concrete case. |
| WorkflowDispatch.ListingDecides | src/mcp_gh_server/tools/workflow_dispatch.py:168-249 | On an unchanging GitHub below the search limit the listing passes exactly if every run is complete, and otherwise reports a duplicate. |
| WorkflowDispatch.ListingVerdicts | src/mcp_gh_server/tools/workflow_dispatch.py:168-249 | The verdict of the counts read so far: duplicate, passed, one more read, or uncertain. |
| WorkflowDispatch.OneOpenPostPerKey | src/mcp_gh_server/tools/workflow_dispatch.py:431-493 | In every run, a request for a key is sent only if each earlier one was reported failed, or its run was re-read as completed with exact identity, or as gone with the listing passing. |
| WorkflowDispatch.MutualExclusion | src/mcp_gh_server/tools/workflow_dispatch.py:678-706 | At most one call is past the lock, so at most one request is in flight. |
| WorkflowDispatch.OrphanBlocksItsKey | src/mcp_gh_server/tools/workflow_dispatch.py:480-493 | A request whose caller is gone, with no run identity and no reported failure, blocks its key forever. |
| WorkflowDispatch.EveryPostIsPrepared | src/mcp_gh_server/tools/workflow_dispatch.py:589-612 | Every request comes right after a complete preflight for its key: ref, listing, name, ref again, workflow. |
| WorkflowDispatch.FreeKeyIsServed | src/mcp_gh_server/tools/workflow_dispatch.py:589-654 | A call that finds its key free sends its request whenever all checks are good, whatever completed runs the listing counts. |
| WorkflowDispatch.KeyIsFreedExactly | src/mcp_gh_server/tools/workflow_dispatch.py:442-478 | A waiting call reaches the checks by exactly these answers: none if its key is unreserved; the reserved run, completed and with exact identity; or its absence and a listing that passes. |
| WorkflowDispatch.ReservedRunRefusals | src/mcp_gh_server/tools/workflow_dispatch.py:442-478 | A reserved run that is found leads to the checks if it is exact and completed, to a duplicate if it is exact and not, and otherwise to an uncertain refusal. |
| WorkflowDispatch.CheckRefusals | src/mcp_gh_server/tools/workflow_dispatch.py:589-612 | Each check refuses exactly for its own reason, and the request is sent exactly after the last. |
| WorkflowDispatch.EndingsSayWhy | src/mcp_gh_server/tools/workflow_dispatch.py:431-706 | A call that has the lock is interrupted exactly if it is cancelled or its request raised, and refused exactly for the reason that its stage and the reply give; a request that was sent is never refused. |
| WorkflowDispatch.ReadbackIsMadeExactly | src/mcp_gh_server/tools/workflow_dispatch.py:656-676 | After the request there is a readback exactly if it returned a run, or failed with no older matching run. |
| WorkflowDispatch.ExecutedReports | src/mcp_gh_server/tools/workflow_dispatch.py:656-706 | Whenever a call ends with an outcome, its request was answered last, completion is that of the answer, and the state is confirmed exactly if one run with the key's workflow, commit and event was read back, contradicted exactly by another completed readback; the reservation that stays is the one that answer calls for. |
| WorkflowDispatch.RunKeeps | src/mcp_gh_server/tools/workflow_dispatch.py:618-706 | Over every sequence of steps, cancellations included, the reservation table covers every open request. |
| RequestGovernor.StatusIsTransparent | src/mcp_gh_server/request_governor.py:204-228 | Histories that differ only in status queries block and delay the same later requests. |
| RequestGovernor.BlockedExactly | src/mcp_gh_server/request_governor.py:259-349 | Requests are blocked exactly while a deadline recorded so far lies ahead. |
| RequestGovernor.CooldownHolds | src/mcp_gh_server/request_governor.py:150-202 | In any history the governor can have, no operation starts at a wall time before a deadline recorded earlier. |
| RequestGovernor.ResetHonoured | src/mcp_gh_server/request_governor.py:284-308 | With nothing blocked before, a success reporting exhaustion blocks until the reset exactly if it carries no earlier Retry-After. |
| RequestGovernor.ResetCanBePassed | src/mcp_gh_server/request_governor.py:284-308 | A concrete response after which requests are allowed again long before the reset. |
| RequestGovernor.CooldownAfterFailure | src/mcp_gh_server/request_governor.py:259-308 | With nothing blocked, a rate-limited failure blocks exactly until the Retry-After; without one until the reset of an exhausted limit; without either for the configured fallback. The reason and request id are those of the response. |
| RequestGovernor.CooldownAfterSuccess | src/mcp_gh_server/request_governor.py:284-308 | A success blocks exactly if it reports an exhausted limit with a reset ahead, and then as a failure would. |
| RequestGovernor.DeadlinesOnlyAdvance | src/mcp_gh_server/request_governor.py:259-282 | A deadline in force is replaced exactly by a later one. |
| RequestGovernor.DeadlineComesIntoForce | src/mcp_gh_server/request_governor.py:259-282 | Responses are taken in only while nothing is blocked, so every deadline that one sets comes into force. |
| RequestGovernor.NthWrite | src/mcp_gh_server/request_governor.py:248-257 | The n-th write starts at least n - 1 spacings after the first finished, failed and cancelled ones included. |
| RequestGovernor.PacingDelayMeaning | src/mcp_gh_server/request_governor.py:248-252 | The pacing delay is what is left of the spacing since the last write, or nothing. |
| RequestGovernor.BackoffBounds | src/mcp_gh_server/request_governor.py:244-246 | Backoffs start at the base, double up to the maximum, and never exceed it. |
| RequestGovernor.GitHubRequestGovernor.constructor | src/mcp_gh_server/request_governor.py:110-148 | A fresh governor has an empty history. |
| RequestGovernor.GitHubRequestGovernor.RateStatus | src/mcp_gh_server/request_governor.py:204-228 | The snapshot shows the block in force and the pacing delay; only a status query is recorded. |
| RequestGovernor.GitHubRequestGovernor.EnforcePause | src/mcp_gh_server/request_governor.py:327-349 | A request is blocked exactly if some recorded deadline has not passed. |
| RequestGovernor.GitHubRequestGovernor.PaceWrite | src/mcp_gh_server/request_governor.py:254-257 | Unless cancelled, the spacing since the last write has passed. |
| RequestGovernor.GitHubRequestGovernor.Operate | src/mcp_gh_server/request_governor.py:168-187 | One operation is sent, and the end of a write is recorded however it ends. |
| RequestGovernor.GitHubRequestGovernor.TakeIn | src/mcp_gh_server/request_governor.py:259-295 | Rate-limit metadata of a failure or a success enters the history once. |
| RequestGovernor.GitHubRequestGovernor.Attempt | src/mcp_gh_server/request_governor.py:162-202 | One attempt; it is repeated only for a retryable, not rate-limited failure of a retry-safe read with attempts left. |
| RequestGovernor.GitHubRequestGovernor.Execute | src/mcp_gh_server/request_governor.py:150-202 | A request is blocked exactly if a recorded deadline lies ahead; otherwise a write is sent at most once, a retry-safe read at most the configured number of times, with total backoff bounded accordingly; what is returned or raised is a reply to it, and every sleep in the history is the pacing or backoff that was due. |
| ArchivePaths.NormalizeArchivePath | src/mcp_gh_server/tools/artifact_content.py:123-141 | The loop computes the normal form, or reports which rule the path breaks. |
| ArchivePaths.NormalizeIsNormal | src/mcp_gh_server/tools/artifact_content.py:123-141 | A normalized path has exactly the kept components and no traversal, NUL or backslash. |
| ArchivePaths.RefusedPaths | src/mcp_gh_server/tools/artifact_content.py:123-141 | Why a path is refused, in terms of its stored characters: empty or NUL, a leading slash or drive, a parent component, or nothing but the root. |
| ArchivePaths.AcceptedPaths | src/mcp_gh_server/tools/artifact_content.py:144-154 | A requested path is accepted exactly if it is in normal form without a drive prefix. |
| ArchivePaths.ListedPathIsAccepted | src/mcp_gh_server/tools/artifact_content.py:123-154 | A listed path can be requested exactly if it has no drive prefix. |
| ArchivePaths.UncoveredDrive | src/mcp_gh_server/tools/artifact_content.py:127-141 | A concrete path whose normal form is refused. |
| ArchivePaths.AncestorIsComponentPrefix | src/mcp_gh_server/tools/artifact_content.py:207-217 | The parents looked up are exactly the proper component-wise prefixes. |
| ArchivePaths.AncestorIsTextPrefix | src/mcp_gh_server/tools/artifact_content.py:207-217 | In text: the other path starts with this one and a slash. |
| ArtifactContent.InspectEntry | src/mcp_gh_server/tools/artifact_content.py:197-242 | An entry passes exactly if the tables admit it, and the tables are extended by it. |
| ArtifactContent.EntryKindExactly | src/mcp_gh_server/tools/artifact_content.py:157-174 | Exactly encrypted entries, symbolic links and special files are refused; the others are directories exactly if their names end in a slash. |
| ArtifactContent.InspectArchive | src/mcp_gh_server/tools/artifact_content.py:177-245 | The one-pass check accepts exactly the archives with readable entries, distinct paths, no file above another entry, and sizes within the limits; the error names what is wrong with the first entry that breaks this. |
| ArtifactContent.ListingExactly | src/mcp_gh_server/tools/artifact_content.py:177-245 | The listing has exactly the file entries under their normalized paths with their own sizes, in strictly ascending order of paths; at most 1000 entries and fifty million bytes. |
| ArtifactContent.InspectionForgetsOrder | src/mcp_gh_server/tools/artifact_content.py:177-245 | Reordering the entries changes neither whether the archive is accepted nor the sorted listing. |
| ArtifactContent.IndexIsExact | src/mcp_gh_server/tools/artifact_content.py:241-245 | The index is keyed by exactly the listed files and leads back to their entries. |
| MergePolicy.JoinIsLeast | src/mcp_gh_server/merge_requirements_policy.py:23-37 | Layering is the least policy that demands what both layers demand. |
| MergePolicy.MergePolicy.ApplyRulesetRules | src/mcp_gh_server/merge_requirements_policy.py:217-305 | The loop rejects exactly if some rule is malformed, and otherwise joins what every rule demands. |
| MergePolicy.MergePolicy.ApplyPullRequest | src/mcp_gh_server/merge_requirements_policy.py:255-305 | One pull-request rule is joined to the policy. |
| MergePolicy.MergePolicy.ApplyClassicProtection | src/mcp_gh_server/merge_requirements_policy.py:122-214 | Classic protection is joined to the policy, or rejected as a whole. |
| MergePolicy.LayersForgetOrderAndRepetition | src/mcp_gh_server/merge_requirements_policy.py:217-305 | Policy and rejection depend only on which rules there are, not on order or repetition. |
| MergePolicy.LayersAreMonotone | src/mcp_gh_server/merge_requirements_policy.py:217-305 | More rules never remove a check, lower approvals, clear a flag or add a method. |
| MergePolicy.LayersCommute | src/mcp_gh_server/merge_requirements_policy.py:645-667 | Applying rules twice changes nothing, and the ruleset and classic layers commute. |
| MergePolicy.AnyAppContexts | src/mcp_gh_server/merge_requirements_policy.py:125-171 | A legacy context is an any-app requirement exactly if no precise classic check names it, and -1 never survives. |
| MergePolicy.ActiveRulesAreComplete | src/mcp_gh_server/merge_requirements_policy.py:313-423 | Rules are used only if the bounded page and its probe prove they are all of them. |
| MergePolicy.ReadEffectiveMergePolicy | src/mcp_gh_server/merge_requirements_policy.py:623-675 | A policy results exactly if both sources were read and nothing is unmodeled; linear history excludes merge commits. |
| MergePolicy.RuleDemandsExactly | src/mcp_gh_server/merge_requirements_policy.py:217-305 | What one well-formed rule demands, field by field, in terms of the raw rule. |
| MergePolicy.MalformedRules | src/mcp_gh_server/merge_requirements_policy.py:217-305 | Exactly which rules are malformed. |
| MergePolicy.ClassicDemandsExactly | src/mcp_gh_server/merge_requirements_policy.py:122-214 | What classic protection demands, field by field, in terms of the raw settings. |
| MergePolicy.MalformedClassic | src/mcp_gh_server/merge_requirements_policy.py:122-214 | Exactly which classic protection is malformed. |
| MergePolicy.EffectiveApprovalsAreMaximal | src/mcp_gh_server/merge_requirements_policy.py:645-667 | The approvals required are the most that any source asks for, and something is unmodeled exactly if some rule is. |
| MergePolicy.EffectivePolicyIsExact | src/mcp_gh_server/merge_requirements_policy.py:645-667 | In terms of what GitHub sent: a flag is set and a check is required exactly if some source asks for it, and a method is allowed exactly if every rule lets it through and linear history does not exclude it. |
| RequiredChecks.TakeIn | src/mcp_gh_server/required_check_evidence.py:457-506 | One page is folded into rows and warnings, or refused exactly if it is unusable, for the reason it is. |
| RequiredChecks.ReadPinnedEvidence | src/mcp_gh_server/required_check_evidence.py:398-530 | Whenever the read ends, it has consumed pages until the last or the bound and reports what their nodes say; it is complete only if the last page was reached, all identities match and nothing was warned about. |
| RequiredChecks.ReadIsBounded | src/mcp_gh_server/required_check_evidence.py:423-461 | A read takes in at most the limit and at most a thousand nodes, a hundred a page, and is truncated only at exactly the bound. |
| RequiredChecks.PagingDoesNotMatter | src/mcp_gh_server/required_check_evidence.py:434-530 | Checks, warnings and truncation are those of the listing up to the bound, whatever the page boundaries. |
| RequiredChecks.NeverEndsExactly | src/mcp_gh_server/required_check_evidence.py:434-521 | The read never ends exactly when, having gone on so far, it meets empty pages that claim a successor for ever. |
| RequiredChecks.AdvancingPagesEnd | src/mcp_gh_server/required_check_evidence.py:434-521 | It ends if after every point some page has nodes or claims no successor. |
| RequiredChecks.EmptyPagesNeverEnd | src/mcp_gh_server/required_check_evidence.py:434-521 | The concrete case of only empty pages that claim a successor. |
| RequiredChecks.RowsKeepTheLatest | src/mcp_gh_server/required_check_evidence.py:503-506 | One row per logical check, holding the first of the runs that started last. |
| RequiredChecks.RowsAreExact | src/mcp_gh_server/required_check_evidence.py:469-506 | In terms of names, apps, workflows, events and time stamps: the rows are, for each check, the first of the pinned runs that started last. |
| RequiredChecks.WarningsAreExact | src/mcp_gh_server/required_check_evidence.py:469-500 | A warning is given exactly for a status or run that cannot satisfy a context required from apps only. |
| LatestRows.KeepsTheLatest | src/mcp_gh_server/required_check_evidence.py:503-506 | A keyed table updated only by later entries holds the first latest entry of each key. |
| MergeRequirements.CurrentValidApprovals | src/mcp_gh_server/tools/merge_requirements.py:109-141 | The loop computes the approved ones among the latest reviews, sorted by id. |
| MergeRequirements.ApprovalsExactly | src/mcp_gh_server/tools/merge_requirements.py:109-141 | An approval counts exactly if it is the latest considered decisive review by its case-folded author; nobody counts twice. |
| MergeRequirements.ApprovalsByTime | src/mcp_gh_server/tools/merge_requirements.py:109-141 | An approval counts exactly if it is considered and every other considered review by the same case-folded login has a smaller time stamp, or the same one and a smaller id. |
| MergeRequirements.ChangeRequestRemovesApproval | src/mcp_gh_server/tools/merge_requirements.py:109-141 | A newer change request by the same reviewer removes an approval. |
| MergeRequirements.ApprovalsForgetOrder | src/mcp_gh_server/tools/merge_requirements.py:109-141 | The order and repetition of listed reviews do not matter. |
| MergeRequirements.EffectiveRequiredChecks | src/mcp_gh_server/tools/merge_requirements.py:346-357 | The loop keeps each normalized identity at its first place. |
| MergeRequirements.EffectiveExactly | src/mcp_gh_server/tools/merge_requirements.py:346-357 | The result has each normalized identity once, no sentinel, and nothing else. |
| MergeRequirements.ReconcileRequiredChecks | src/mcp_gh_server/tools/merge_requirements.py:290-343 | The loops compute the reconciled rows in order. |
| MergeRequirements.ReconciledExactly | src/mcp_gh_server/tools/merge_requirements.py:290-343 | How often every possible row appears: each matching observation as often as observed, one placeholder per unobserved requirement if absence is authoritative, nothing else. |
| MergeRequirements.RequirementsAreCovered | src/mcp_gh_server/tools/merge_requirements.py:290-343 | Rows belong to requirements; a requirement has a row exactly if it was observed or absence is authoritative. |

## Left out

- The wording of warnings and messages: the model keeps their kinds. The commit service's concatenation of transport notes is left out with it.
- SHA-256 is represented by the byte stream that is hashed.
- JSON shape validation outside the merge policy: replies are already parsed, or marked unusable.
- Subprocess, ZIP, temporary-file and GraphQL transport code: each call is a reply chosen by the environment.
- The creation of blobs, tree and commit before the ref update: straight-line requests whose failures end the call.
- Case folding is a parameter, or taken as already applied to keys and object names.
- The wording of run results and the per-field copy of rows: records keep the fields the decisions read.
- The order of a policy's required-check dictionary: the policy keeps the set of its keys, which determine the entries.
- The rejection of invalid governor settings: the governor is built from valid ones.
- Pull-request, issue, label, release and branch writes: they reuse the write protocol with field comparisons and would add easy members.
- The membership check of a single job, settings, tool registration and schemas.
- Text is a sequence of Unicode scalar values, so lone surrogates are not represented.
- The workflow dispatch tool is a state machine on values, because its steps interleave with other calls; its dictionary updates appear as updates of that state.
