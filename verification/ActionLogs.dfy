/** Enumerating the jobs of one run attempt and aggregating their logs. GitHub is a function from page
    numbers to replies; each job's log arrives in whatever chunks the transport cuts. */
module ActionLogs {
  import opened Prelude
  import opened Text
  import opened Evidence
  import opened Sorting
  import opened ActionLogEvidence

  datatype Job = Job(jobId: int, runId: int, headSha: string, status: string, conclusion: Option<string>)
  {
    function Identity(): (int, int, string) { (jobId, runId, headSha) }
  }

  /** One reply to a jobs request: unusable, or a page with the total count GitHub claims. */
  datatype JobPage = Unreadable | Page(total: nat, jobs: seq<Job>)

  datatype JobsError = PageUnreadable | TooManyJobs | TotalChanged | EndedEarly | WrongCount | DuplicateIds

  predicate ById(a: Job, b: Job) { a.jobId <= b.jobId }

  ghost predicate DistinctIds(jobs: seq<Job>) {
    forall i, j :: 0 <= i < j < |jobs| ==> jobs[i].jobId != jobs[j].jobId
  }

  /** The jobs on pages 1 through `n`. */
  ghost function JobsOn(pages: int -> JobPage, n: nat): seq<Job> {
    if n == 0 then []
    else JobsOn(pages, n - 1) + (match pages(n) case Page(_, jobs) => jobs case Unreadable => [])
  }

  ghost predicate Consistent(pages: int -> JobPage, n: nat) {
    forall i :: 1 <= i <= n ==> pages(1).Page? && pages(i).Page? && pages(i).total == pages(1).total
  }

  ghost predicate NoGaps(pages: int -> JobPage, n: nat) {
    forall i :: 1 <= i <= n ==> pages(i).Page? && pages(i).jobs != []
  }

  /** The first `n` pages are one complete, consistent enumeration: every reply is usable and claims
      the same total, only the last may be empty, and the total is reached exactly on page `n`. */
  ghost predicate Complete(pages: int -> JobPage, n: nat, maxJobs: nat) {
    && n >= 1
    && Consistent(pages, n) && pages(1).total <= maxJobs
    && |JobsOn(pages, n)| == pages(1).total && DistinctIds(JobsOn(pages, n))
    && (n > 1 ==> |JobsOn(pages, n - 1)| < pages(1).total)
    && NoGaps(pages, n - 1)
  }

  lemma {:induction false} JobsGrow(pages: int -> JobPage, m: nat, n: nat)
    requires m <= n
    ensures |JobsOn(pages, m)| <= |JobsOn(pages, n)|
  {
    if m < n {
      JobsGrow(pages, m, n - 1);
    }
  }

  /** After a page that reached or passed the total, no later page can complete the enumeration. */
  lemma NeverAfter(pages: int -> JobPage, page: nat, n: nat, maxJobs: nat)
    requires 1 <= page < n && pages(1).Page?
    requires |JobsOn(pages, page)| >= pages(1).total
    ensures !Complete(pages, n, maxJobs)
  {
    JobsGrow(pages, page, n - 1);
  }

  /** Before the total is reached, the enumeration is not complete yet. */
  lemma NotYet(pages: int -> JobPage, page: nat, n: nat, maxJobs: nat)
    requires n <= page && pages(1).Page? && |JobsOn(pages, page)| < pages(1).total
    ensures !Complete(pages, n, maxJobs)
  {
    JobsGrow(pages, n, page);
  }

  lemma SmallerPagesIncomplete(pages: int -> JobPage, page: nat, maxJobs: nat)
    requires page >= 1
    requires page > 1 ==> pages(1).Page? && |JobsOn(pages, page - 1)| < pages(1).total
    ensures forall k: nat :: k < page ==> !Complete(pages, k, maxJobs)
  {
    forall k: nat | k < page ensures !Complete(pages, k, maxJobs) {
      if k >= 1 {
        NotYet(pages, page - 1, k, maxJobs);
      }
    }
  }

  /** An unusable page, or one that claims another total, ends every hope of a complete enumeration. */
  lemma BadPageEndsIt(pages: int -> JobPage, page: nat, maxJobs: nat)
    requires page >= 1
    requires page > 1 ==> pages(1).Page? && |JobsOn(pages, page - 1)| < pages(1).total
    requires pages(page).Unreadable? || (page > 1 && pages(page).total != pages(1).total)
    ensures forall k: nat :: !Complete(pages, k, maxJobs)
  {
    SmallerPagesIncomplete(pages, page, maxJobs);
    assert forall k: nat :: k >= page ==> !Consistent(pages, k);
  }

  /** An empty page short of the total ends every hope of a complete enumeration. */
  lemma NotYetHere(pages: int -> JobPage, page: nat, maxJobs: nat)
    requires page >= 1 && pages(1).Page? && |JobsOn(pages, page)| < pages(1).total
    requires pages(page).Page? && pages(page).jobs == []
    ensures forall k: nat :: !Complete(pages, k, maxJobs)
  {
    forall k: nat ensures !Complete(pages, k, maxJobs) {
      if k <= page {
        NotYet(pages, page, k, maxJobs);
      } else {
        assert !NoGaps(pages, k - 1);
      }
    }
  }

  function IdSet(jobs: seq<Job>): set<int> {
    if jobs == [] then {} else {jobs[0].jobId} + IdSet(jobs[1..])
  }

  lemma {:induction false} IdSetMembers(jobs: seq<Job>, id: int)
    ensures id in IdSet(jobs) <==> exists i :: 0 <= i < |jobs| && jobs[i].jobId == id
  {
    if jobs != [] {
      IdSetMembers(jobs[1..], id);
      assert jobs == [jobs[0]] + jobs[1..];
    }
  }

  lemma DistinctHead(jobs: seq<Job>)
    requires jobs != []
    ensures DistinctIds(jobs) <==> jobs[0].jobId !in IdSet(jobs[1..]) && DistinctIds(jobs[1..])
  {
    var first, rest := jobs[0].jobId, jobs[1..];
    IdSetMembers(rest, first);
    assert forall i :: 0 <= i < |rest| ==> rest[i] == jobs[i + 1];
    if first !in IdSet(rest) && DistinctIds(rest) {
      forall i, j | 0 <= i < j < |jobs| ensures jobs[i].jobId != jobs[j].jobId {
        assert jobs[j] == rest[j - 1];
      }
    }
  }

  /** Counting the set of ids detects duplicates exactly. */
  lemma {:induction false} IdSetCounts(jobs: seq<Job>)
    ensures |IdSet(jobs)| <= |jobs|
    ensures |IdSet(jobs)| == |jobs| <==> DistinctIds(jobs)
  {
    if jobs != [] {
      var first, rest := jobs[0].jobId, jobs[1..];
      IdSetCounts(rest);
      DistinctHead(jobs);
      assert first in IdSet(rest) ==> IdSet(jobs) == IdSet(rest);
    }
  }

  /** The enumeration got as far as page `n` and fails there, for this reason. */
  ghost predicate FailsAt(pages: int -> JobPage, n: nat, maxJobs: nat, error: JobsError) {
    && n >= 1 && Consistent(pages, n - 1) && NoGaps(pages, n - 1)
    && (n > 1 ==> pages(1).Page? && pages(1).total <= maxJobs && |JobsOn(pages, n - 1)| < pages(1).total)
    && if pages(n).Unreadable? then error == PageUnreadable
       else if n == 1 && pages(1).total > maxJobs then error == TooManyJobs
       else if pages(1).Unreadable? || pages(n).total != pages(1).total then error == TotalChanged
       else
         var listed, total := JobsOn(pages, n), pages(1).total;
         match error
         case EndedEarly => pages(n).jobs == [] && |listed| < total
         case WrongCount => |listed| > total
         case DuplicateIds => |listed| == total && !DistinctIds(listed)
         case _ => false
  }

  /** Terminates because every non-final page is non-empty, and succeeds exactly when some number of
      pages is a complete enumeration. */
  method ListAttemptJobs(pages: int -> JobPage, maxJobs: nat) returns (r: Result<seq<Job>, JobsError>, ghost n: nat)
    ensures r.Ok? ==> Complete(pages, n, maxJobs) && r.value == Sort(JobsOn(pages, n), ById)
    ensures r.Err? ==> (forall k: nat :: !Complete(pages, k, maxJobs)) && FailsAt(pages, n, maxJobs, r.error)
  {
    var jobs: seq<Job> := [];
    var totalCount: Option<nat> := None;
    var page := 1;
    while true
      invariant page >= 1 && jobs == JobsOn(pages, page - 1)
      invariant page == 1 <==> totalCount.None?
      invariant page > 1 ==>
        && pages(1).Page? && totalCount == Some(pages(1).total) && pages(1).total <= maxJobs
        && |jobs| < pages(1).total
      invariant Consistent(pages, page - 1) && NoGaps(pages, page - 1)
      decreases if totalCount.None? then 1 else 0, if totalCount.Some? then totalCount.value - |jobs| else 0
    {
      n := page;
      var reply := pages(page);
      if reply.Unreadable? {
        BadPageEndsIt(pages, page, maxJobs);
        return Err(PageUnreadable), n;
      }
      if totalCount.None? {
        totalCount := Some(reply.total);
        if reply.total > maxJobs {
          return Err(TooManyJobs), n;
        }
      } else if reply.total != totalCount.value {
        BadPageEndsIt(pages, page, maxJobs);
        return Err(TotalChanged), n;
      }
      SmallerPagesIncomplete(pages, page, maxJobs);
      jobs := jobs + reply.jobs;
      assert jobs == JobsOn(pages, page);
      if |jobs| >= totalCount.value {
        break;
      }
      if reply.jobs == [] {
        NotYetHere(pages, page, maxJobs);
        return Err(EndedEarly), n;
      }
      page := page + 1;
    }
    forall k: nat | k > page ensures !Complete(pages, k, maxJobs) {
      NeverAfter(pages, page, k, maxJobs);
    }
    if |jobs| != totalCount.value {
      return Err(WrongCount), n;
    }
    IdSetCounts(jobs);
    if |IdSet(jobs)| != |jobs| {
      return Err(DuplicateIds), n;
    }
    r := Ok(Sort(jobs, ById));
  }

  lemma ByIdOrders(jobs: seq<Job>)
    requires DistinctIds(jobs)
    ensures TotalPreorder(ById) && Untied(jobs, ById)
  {
  }

  /** The enumeration does not depend on how GitHub orders the listing or cuts it into pages. */
  lemma ListingForgetsOrder(pages: int -> JobPage, n: nat, pages': int -> JobPage, n': nat, maxJobs: nat)
    requires Complete(pages, n, maxJobs) && Complete(pages', n', maxJobs)
    requires multiset(JobsOn(pages, n)) == multiset(JobsOn(pages', n'))
    ensures Sort(JobsOn(pages, n), ById) == Sort(JobsOn(pages', n'), ById)
  {
    ByIdOrders(JobsOn(pages, n));
    SortForgetsOrder(JobsOn(pages, n), JobsOn(pages', n'), ById);
  }

  /** At most one page count is complete, so the enumeration is well defined. */
  lemma CompleteOnce(pages: int -> JobPage, m: nat, n: nat, maxJobs: nat)
    requires Complete(pages, m, maxJobs) && Complete(pages, n, maxJobs)
    ensures m == n
  {
    if m < n {
      NeverAfter(pages, m, n, maxJobs);
    } else if n < m {
      NeverAfter(pages, n, m, maxJobs);
    }
  }

  // ----- Aggregating job logs -----

  datatype Snapshot = Snapshot(runId: int, attempt: int, headSha: string, status: string)
  {
    function Identity(): (int, int, string) { (runId, attempt, headSha) }
  }

  predicate Ran(job: Job) {
    job.conclusion != Some("skipped")
  }

  function NonSkipped(jobs: seq<Job>): seq<Job> {
    Filter(Ran, jobs)
  }

  /** The whole logs of the jobs, joined by newlines. */
  function JoinLogs(jobs: seq<Job>, logs: int -> seq<string>): string {
    if jobs == [] then []
    else if |jobs| == 1 then Concat(logs(jobs[0].jobId))
    else JoinLogs(jobs[..|jobs| - 1], logs) + "\n" + Concat(logs(jobs[|jobs| - 1].jobId))
  }

  lemma JoinAppend(jobs: seq<Job>, job: Job, logs: int -> seq<string>)
    ensures JoinLogs(jobs + [job], logs) ==
            (if jobs == [] then [] else JoinLogs(jobs, logs) + "\n") + Concat(logs(job.jobId))
  {
    var all := jobs + [job];
    assert all[..|all| - 1] == jobs;
    if jobs == [] {
      assert all == [job];
    }
  }

  /** The joined logs after one more job. */
  lemma OneMoreJob(jobs: seq<Job>, i: nat, logs: int -> seq<string>)
    requires i < |jobs|
    ensures var done, next := NonSkipped(jobs[..i]), NonSkipped(jobs[..i + 1]);
            if Ran(jobs[i]) then
              && next != []
              && JoinLogs(next, logs) ==
                 (if done == [] then [] else JoinLogs(done, logs) + "\n") + Concat(logs(jobs[i].jobId))
            else next == done
  {
    assert jobs[..i + 1] == jobs[..i] + [jobs[i]];
    FilterOneMore(Ran, jobs[..i], jobs[i]);
    JoinAppend(NonSkipped(jobs[..i]), jobs[i], logs);
  }

  method StreamJob(first: bool, chunks: seq<string>, accumulator: ActionLogEvidenceAccumulator)
    requires accumulator.Valid()
    modifies accumulator, accumulator.collector
    ensures accumulator.Valid()
    ensures accumulator.fed == (if first then old(accumulator.fed) else old(accumulator.fed) + "\n") + Concat(chunks)
  {
    if !first {
      accumulator.AddText("\n");
    }
    Feed(accumulator, chunks);
  }

  /** Stream the logs of `jobs` into a fresh accumulator: a newline before every log but the first. */
  method StreamJobs(jobs: seq<Job>, logs: int -> seq<string>, accumulator: ActionLogEvidenceAccumulator)
    requires accumulator.Valid() && accumulator.fed == []
    modifies accumulator, accumulator.collector
    ensures accumulator.Valid() && accumulator.fed == JoinLogs(NonSkipped(jobs), logs)
  {
    var firstLog := true;
    for i := 0 to |jobs|
      invariant accumulator.Valid() && accumulator.fed == JoinLogs(NonSkipped(jobs[..i]), logs)
      invariant firstLog <==> NonSkipped(jobs[..i]) == []
    {
      OneMoreJob(jobs, i, logs);
      if !Ran(jobs[i]) {
        continue;
      }
      StreamJob(firstLog, logs(jobs[i].jobId), accumulator);
      firstLog := false;
    }
    assert jobs[..|jobs|] == jobs;
  }

  datatype RunLogError =
    | RunNotCompleted | JobNotCompleted | Listing(error: JobsError)
    | IdentityChanged | MembershipChanged | Selection(reason: LogError)

  function Identities(jobs: seq<Job>): seq<(int, int, string)> {
    seq(|jobs|, i requires 0 <= i < |jobs| => jobs[i].Identity())
  }

  /** The same jobs of the same run and commit, one by one. */
  ghost predicate SameMembership(jobs: seq<Job>, others: seq<Job>) {
    && |jobs| == |others|
    && forall i :: 0 <= i < |jobs| ==>
         jobs[i].jobId == others[i].jobId && jobs[i].runId == others[i].runId && jobs[i].headSha == others[i].headSha
  }

  lemma MembershipByIdentity(jobs: seq<Job>, others: seq<Job>)
    ensures Identities(jobs) == Identities(others) <==> SameMembership(jobs, others)
  {
    if Identities(jobs) == Identities(others) {
      assert |Identities(jobs)| == |jobs| && |Identities(others)| == |others|;
      forall i | 0 <= i < |jobs|
        ensures jobs[i].jobId == others[i].jobId && jobs[i].runId == others[i].runId && jobs[i].headSha == others[i].headSha
      {
        assert Identities(jobs)[i] == Identities(others)[i];
      }
    }
  }

  method CheckMembership(jobs: seq<Job>, others: seq<Job>) returns (same: bool)
    ensures same <==> SameMembership(jobs, others)
  {
    MembershipByIdentity(jobs, others);
    same := Identities(others) == Identities(jobs);
  }

  /** The same attempt of the same run at the same commit. */
  predicate SameRun(a: Snapshot, b: Snapshot) {
    a.runId == b.runId && a.attempt == b.attempt && a.headSha == b.headSha
  }

  ghost predicate AllCompleted(jobs: seq<Job>) {
    forall job :: job in jobs ==> job.status == "completed"
  }

  ghost predicate EvidenceFrom(
    request: Request, before: seq<Job>, after: seq<Job>, logs: int -> seq<string>, evidence: BoundedTextEvidence)
  {
    && AllCompleted(before)
    && SameMembership(Sort(before, ById), Sort(after, ById))
    && Select(request, JoinLogs(NonSkipped(Sort(before, ById)), logs)) == Ok(evidence)
  }

  /** What run-log evidence is: one complete listing before and one after the read name the same
      completed jobs, and the evidence is the batch selection over their joined logs. */
  ghost predicate RunEvidence(
    request: Request, before: int -> JobPage, after: int -> JobPage, maxJobs: nat,
    logs: int -> seq<string>, evidence: BoundedTextEvidence)
  {
    exists n: nat, m: nat ::
      && Complete(before, n, maxJobs) && Complete(after, m, maxJobs)
      && EvidenceFrom(request, JobsOn(before, n), JobsOn(after, m), logs, evidence)
  }

  lemma EvidenceIsFrom(
    request: Request, before: int -> JobPage, n: nat, after: int -> JobPage, m: nat, maxJobs: nat,
    logs: int -> seq<string>)
    requires Complete(before, n, maxJobs) && Complete(after, m, maxJobs)
    ensures forall e :: RunEvidence(request, before, after, maxJobs, logs, e) <==>
                        EvidenceFrom(request, JobsOn(before, n), JobsOn(after, m), logs, e)
  {
    forall k: nat | Complete(before, k, maxJobs) ensures k == n {
      CompleteOnce(before, k, n, maxJobs);
    }
    forall k: nat | Complete(after, k, maxJobs) ensures k == m {
      CompleteOnce(after, k, m, maxJobs);
    }
  }

  lemma IncompleteJobEndsIt(
    request: Request, before: int -> JobPage, n: nat, after: int -> JobPage, maxJobs: nat, logs: int -> seq<string>)
    requires Complete(before, n, maxJobs) && !AllCompleted(JobsOn(before, n))
    ensures forall e :: !RunEvidence(request, before, after, maxJobs, logs, e)
  {
    forall k: nat | Complete(before, k, maxJobs) ensures k == n {
      CompleteOnce(before, k, n, maxJobs);
    }
  }

  method CheckCompleted(jobs: seq<Job>) returns (ok: bool)
    ensures ok <==> AllCompleted(jobs)
  {
    for i := 0 to |jobs|
      invariant forall j :: 0 <= j < i ==> jobs[j].status == "completed"
    {
      if jobs[i].status != "completed" {
        return false;
      }
    }
    ok := true;
  }

  lemma CompletedAnyOrder(jobs: seq<Job>)
    ensures AllCompleted(Sort(jobs, ById)) <==> AllCompleted(jobs)
  {
    ByIdOrders([]);
    SortSorts(jobs, ById);
  }

  ghost predicate MembershipDiffers(before: int -> JobPage, n: nat, after: int -> JobPage, m: nat, maxJobs: nat) {
    && Complete(before, n, maxJobs) && Complete(after, m, maxJobs)
    && !SameMembership(Sort(JobsOn(before, n), ById), Sort(JobsOn(after, m), ById))
  }

  ghost predicate SelectionFails(request: Request, before: int -> JobPage, n: nat, maxJobs: nat,
                                 logs: int -> seq<string>, reason: LogError)
  {
    && Complete(before, n, maxJobs) && AllCompleted(JobsOn(before, n))
    && Select(request, JoinLogs(NonSkipped(Sort(JobsOn(before, n), ById)), logs)) == Err(reason)
  }

  /** Why a read of run logs fails, by what was found wrong first. */
  ghost predicate RunFails(
    request: Request, start: Snapshot, end: Snapshot, before: int -> JobPage, after: int -> JobPage,
    maxJobs: nat, logs: int -> seq<string>, error: RunLogError)
  {
    match error
    case RunNotCompleted => start.status != "completed"
    case JobNotCompleted => exists n: nat :: Complete(before, n, maxJobs) && !AllCompleted(JobsOn(before, n))
    case Listing(reason) =>
      (exists n: nat :: FailsAt(before, n, maxJobs, reason)) || (exists m: nat :: FailsAt(after, m, maxJobs, reason))
    case IdentityChanged => !SameRun(start, end)
    case MembershipChanged => exists n: nat, m: nat :: MembershipDiffers(before, n, after, m, maxJobs)
    case Selection(reason) => exists n: nat :: SelectionFails(request, before, n, maxJobs, logs, reason)
  }

  method GetRunLogs(
    request: Request, start: Snapshot, end: Snapshot, before: int -> JobPage, after: int -> JobPage,
    maxJobs: nat, logs: int -> seq<string>)
    returns (r: Result<BoundedTextEvidence, RunLogError>)
    ensures r.Ok? <==> (start.status == "completed" && SameRun(start, end) &&
                        exists e :: RunEvidence(request, before, after, maxJobs, logs, e))
    ensures r.Ok? ==> RunEvidence(request, before, after, maxJobs, logs, r.value)
    ensures r.Err? ==> RunFails(request, start, end, before, after, maxJobs, logs, r.error)
  {
    if start.status != "completed" {
      return Err(RunNotCompleted);
    }
    var listed, n := ListAttemptJobs(before, maxJobs);
    if listed.Err? {
      return Err(Listing(listed.error));
    }
    var jobs := listed.value;
    CompletedAnyOrder(JobsOn(before, n));
    var completed := CheckCompleted(jobs);
    if !completed {
      IncompleteJobEndsIt(request, before, n, after, maxJobs, logs);
      return Err(JobNotCompleted);
    }
    if !request.Valid() {
      assert SelectionFails(request, before, n, maxJobs, logs, InvalidRequest);
      return Err(Selection(InvalidRequest));
    }
    var accumulator := new ActionLogEvidenceAccumulator(request);
    StreamJobs(jobs, logs, accumulator);
    if end.Identity() != start.Identity() {
      return Err(IdentityChanged);
    }
    var relisted, m := ListAttemptJobs(after, maxJobs);
    if relisted.Err? {
      return Err(Listing(relisted.error));
    }
    EvidenceIsFrom(request, before, n, after, m, maxJobs, logs);
    var same := CheckMembership(jobs, relisted.value);
    if !same {
      assert MembershipDiffers(before, n, after, m, maxJobs);
      return Err(MembershipChanged);
    }
    var evidence := accumulator.Finish();
    if evidence.Err? {
      assert SelectionFails(request, before, n, maxJobs, logs, evidence.error);
      return Err(Selection(evidence.error));
    }
    r := Ok(evidence.value);
    assert EvidenceFrom(request, JobsOn(before, n), JobsOn(after, m), logs, evidence.value);
  }

  /** Every job has the same log text, however it is cut into chunks. */
  ghost predicate SameText(logs: int -> seq<string>, logs': int -> seq<string>) {
    forall id :: Concat(logs(id)) == Concat(logs'(id))
  }

  lemma {:induction false} JoinDependsOnText(jobs: seq<Job>, logs: int -> seq<string>, logs': int -> seq<string>)
    requires SameText(logs, logs')
    ensures JoinLogs(jobs, logs) == JoinLogs(jobs, logs')
  {
    if |jobs| > 1 {
      JoinDependsOnText(jobs[..|jobs| - 1], logs, logs');
    }
  }

  // ----- Which logs, in which order -----

  /** A listing that succeeds is in ascending order of job ids, each once, and holds the jobs that were listed. */
  lemma ListedJobsAscend(pages: int -> JobPage, n: nat, maxJobs: nat)
    requires Complete(pages, n, maxJobs)
    ensures var jobs := Sort(JobsOn(pages, n), ById);
            && (forall i, j :: 0 <= i < j < |jobs| ==> jobs[i].jobId < jobs[j].jobId)
            && multiset(jobs) == multiset(JobsOn(pages, n))
  {
    var listed := JobsOn(pages, n);
    var jobs := Sort(listed, ById);
    ByIdOrders(listed);
    SortSorts(listed, ById);
    var differ := (a: Job, b: Job) => a.jobId != b.jobId;
    assert Pairwise(listed, differ);
    PairwiseForgetsOrder(listed, jobs, differ);
    forall i, j | 0 <= i < j < |jobs| ensures jobs[i].jobId < jobs[j].jobId {
      assert ById(jobs[i], jobs[j]) && differ(jobs[i], jobs[j]);
    }
  }

  /** The jobs whose logs are read: all but those GitHub reports as skipped, in the same order. */
  lemma {:induction false} SkippedJobsAreLeftOut(jobs: seq<Job>, job: Job)
    ensures job in NonSkipped(jobs) <==> job in jobs && job.conclusion != Some("skipped")
    ensures (forall i, j :: 0 <= i < j < |jobs| ==> jobs[i].jobId < jobs[j].jobId) ==>
              forall i, j :: 0 <= i < j < |NonSkipped(jobs)| ==> NonSkipped(jobs)[i].jobId < NonSkipped(jobs)[j].jobId
  {
    FilterMembers(Ran, jobs, job);
    var ascending := (a: Job, b: Job) => a.jobId < b.jobId;
    if forall i, j :: 0 <= i < j < |jobs| ==> jobs[i].jobId < jobs[j].jobId {
      assert Pairwise(jobs, ascending);
      FilterKeepsPairwise(Ran, jobs, ascending);
      forall i, j | 0 <= i < j < |NonSkipped(jobs)| ensures NonSkipped(jobs)[i].jobId < NonSkipped(jobs)[j].jobId {
        assert ascending(NonSkipped(jobs)[i], NonSkipped(jobs)[j]);
      }
    }
  }

  lemma JoinLast(jobs: seq<Job>, last: Job, logs: int -> seq<string>)
    requires jobs != []
    ensures JoinLogs(jobs + [last], logs) == JoinLogs(jobs, logs) + ("\n" + Concat(logs(last.jobId)))
  {
    JoinAppend(jobs, last, logs);
    Assoc(JoinLogs(jobs, logs), "\n", Concat(logs(last.jobId)));
  }

  /** The joined logs can be cut between any two jobs: there is one newline there. */
  lemma {:induction false} JoinedByNewlines(jobs: seq<Job>, more: seq<Job>, logs: int -> seq<string>)
    requires jobs != [] && more != []
    ensures JoinLogs(jobs[..1], logs) == Concat(logs(jobs[0].jobId))
    ensures JoinLogs(jobs + more, logs) == JoinLogs(jobs, logs) + "\n" + JoinLogs(more, logs)
  {
    var init, last := more[..|more| - 1], more[|more| - 1];
    if init == [] {
      assert more == [last];
      JoinAppend(jobs, last, logs);
    } else {
      JoinedByNewlines(jobs, init, logs);
      assert jobs + more == (jobs + init) + [last] && more == init + [last];
      JoinLast(jobs + init, last, logs);
      JoinLast(init, last, logs);
      Assoc(JoinLogs(jobs, logs) + "\n", JoinLogs(init, logs), "\n" + Concat(logs(last.jobId)));
    }
  }

  /** Two listings enumerate the same jobs, however ordered and paged. */
  ghost predicate SameJobs(pages: int -> JobPage, pages': int -> JobPage, maxJobs: nat) {
    forall n: nat, n': nat :: Complete(pages, n, maxJobs) && Complete(pages', n', maxJobs) ==>
      multiset(JobsOn(pages, n)) == multiset(JobsOn(pages', n'))
  }

  /** Reordering and re-paging both listings and re-chunking the logs keeps the evidence a read gives. */
  lemma EvidenceSurvives(
    request: Request, maxJobs: nat,
    before: int -> JobPage, after: int -> JobPage, logs: int -> seq<string>, e: BoundedTextEvidence,
    before': int -> JobPage, n': nat, after': int -> JobPage, m': nat, logs': int -> seq<string>)
    requires SameJobs(before, before', maxJobs) && SameJobs(after, after', maxJobs) && SameText(logs, logs')
    requires Complete(before', n', maxJobs) && Complete(after', m', maxJobs)
    requires RunEvidence(request, before, after, maxJobs, logs, e)
    ensures RunEvidence(request, before', after', maxJobs, logs', e)
  {
    var n: nat, m: nat :| Complete(before, n, maxJobs) && Complete(after, m, maxJobs)
                       && EvidenceFrom(request, JobsOn(before, n), JobsOn(after, m), logs, e);
    ListingForgetsOrder(before, n, before', n', maxJobs);
    ListingForgetsOrder(after, m, after', m', maxJobs);
    CompletedAnyOrder(JobsOn(before, n));
    CompletedAnyOrder(JobsOn(before', n'));
    JoinDependsOnText(NonSkipped(Sort(JobsOn(before, n), ById)), logs, logs');
    assert EvidenceFrom(request, JobsOn(before', n'), JobsOn(after', m'), logs', e);
  }

  ghost predicate Enumerable(pages: int -> JobPage, maxJobs: nat) {
    exists n: nat :: Complete(pages, n, maxJobs)
  }

  /** Listing order, job paging and log chunking are invisible: reads of the same jobs with the same
      logs give the same evidence, or none of them gives any. */
  lemma RunEvidenceIsCanonical(
    request: Request, maxJobs: nat,
    before: int -> JobPage, after: int -> JobPage, logs: int -> seq<string>,
    before': int -> JobPage, after': int -> JobPage, logs': int -> seq<string>, e: BoundedTextEvidence)
    requires SameJobs(before, before', maxJobs) && SameJobs(after, after', maxJobs) && SameText(logs, logs')
    ensures (&& Enumerable(before, maxJobs) && Enumerable(before', maxJobs)
             && Enumerable(after, maxJobs) && Enumerable(after', maxJobs)) ==>
              (RunEvidence(request, before, after, maxJobs, logs, e) <==>
               RunEvidence(request, before', after', maxJobs, logs', e))
  {
    if Enumerable(before, maxJobs) && Enumerable(before', maxJobs)
       && Enumerable(after, maxJobs) && Enumerable(after', maxJobs)
    {
      var n: nat, m: nat :| Complete(before, n, maxJobs) && Complete(after, m, maxJobs);
      var n': nat, m': nat :| Complete(before', n', maxJobs) && Complete(after', m', maxJobs);
      if RunEvidence(request, before, after, maxJobs, logs, e) {
        EvidenceSurvives(request, maxJobs, before, after, logs, e, before', n', after', m', logs');
      }
      if RunEvidence(request, before', after', maxJobs, logs', e) {
        EvidenceSurvives(request, maxJobs, before', after', logs', e, before, n, after, m, logs);
      }
    }
  }

  /** Whatever the second listings are: if two reads of the same jobs and logs both give evidence, it is the same. */
  lemma EvidenceAgrees(
    request: Request, maxJobs: nat,
    before: int -> JobPage, after: int -> JobPage, logs: int -> seq<string>, e: BoundedTextEvidence,
    before': int -> JobPage, after': int -> JobPage, logs': int -> seq<string>, e': BoundedTextEvidence)
    requires SameJobs(before, before', maxJobs) && SameText(logs, logs')
    ensures (&& RunEvidence(request, before, after, maxJobs, logs, e)
             && RunEvidence(request, before', after', maxJobs, logs', e')) ==> e == e'
  {
    if RunEvidence(request, before, after, maxJobs, logs, e)
       && RunEvidence(request, before', after', maxJobs, logs', e')
    {
      var n: nat, m: nat :| Complete(before, n, maxJobs) && Complete(after, m, maxJobs)
                         && EvidenceFrom(request, JobsOn(before, n), JobsOn(after, m), logs, e);
      var n': nat, m': nat :| Complete(before', n', maxJobs) && Complete(after', m', maxJobs)
                           && EvidenceFrom(request, JobsOn(before', n'), JobsOn(after', m'), logs', e');
      ListingForgetsOrder(before, n, before', n', maxJobs);
      JoinDependsOnText(NonSkipped(Sort(JobsOn(before, n), ById)), logs, logs');
    }
  }
}
