/**
 * Guarded workflow dispatch: a server-local reservation for each (repository, workflow, commit),
 * kept under one lock, so that GitHub is never asked twice for the same run while the fate of
 * an earlier request is open.
 *
 * The server is a transition system. Callers interleave only where the code awaits; at each
 * of those points the environment chooses any reply, an error, or a cancellation.
 */
module WorkflowDispatch {

  import opened Prelude
  import opened WriteContracts

  type RunId = nat
  type CallerId = nat

  /** Owner, repository and commit are already case-folded. */
  datatype Key = Key(owner: string, repo: string, workflowId: nat, sha: string)

  datatype RunInfo = RunInfo(workflowId: nat, sha: string, event: string, status: string) {
    predicate Exact(key: Key) {
      workflowId == key.workflowId && sha == key.sha && event == "workflow_dispatch"
    }
  }

  datatype Reservation = Reservation(runId: Option<RunId>, outcomeUnknown: bool)

  // ----- Listing the matching runs -----

  const FILTERED_RUNS_MAX: nat := 1000

  datatype Refusal = Duplicate | Uncertain | RefMismatch | AmbiguousName | WrongWorkflow | RequestFailed

  datatype ListingVerdict = ReadMore | Rejected(refusal: Refusal) | Passed(runs: nat)

  /**
   * What the counts read so far decide: completed runs, all runs, and completed runs again,
   * each for the exact workflow, commit and event.
   */
  function Listing(counts: seq<nat>): ListingVerdict {
    if |counts| < 2 then
      ReadMore
    else
      var completed, runs := counts[0], counts[1];
      if completed >= FILTERED_RUNS_MAX || runs >= FILTERED_RUNS_MAX then Rejected(Uncertain)
      else if runs == 0 then
        if completed > 0 then Rejected(Uncertain) else Passed(0)
      else if completed > runs then Rejected(Uncertain)
      else if runs - completed != 0 then Rejected(Duplicate)
      else if |counts| == 2 then ReadMore
      else if counts[2] >= FILTERED_RUNS_MAX then Rejected(Uncertain)
      else if counts[2] != completed then Rejected(Uncertain)
      else Passed(runs)
  }

  /** The matching runs on GitHub at one moment. */
  datatype Snapshot = Snapshot(runs: set<RunId>, completed: set<RunId>) {
    predicate Valid() {
      completed <= runs
    }
  }

  function Counts(first: Snapshot, second: Snapshot, third: Snapshot): seq<nat> {
    [|first.completed|, |second.runs|, |third.completed|]
  }

  lemma SameSize(a: set<RunId>, b: set<RunId>)
    requires a <= b && |a| == |b|
    ensures a == b
  {
    assert |b - a| == 0;
    assert b == a + (b - a);
  }

  lemma SmallerSubset(a: set<RunId>, b: set<RunId>)
    requires a <= b
    ensures |a| <= |b|
  {
    assert |b - a| == |b| - |a|;
  }

  /** Two sets divided by what they have in common. */
  lemma CommonPart(a: set<RunId>, b: set<RunId>)
    ensures |a| == |a * b| + |a - b| && |b| == |a * b| + |b - a|
  {
    assert a == (a * b) + (a - b) && (a * b) !! (a - b);
    assert b == (a * b) + (b - a) && (a * b) !! (b - a);
  }

  /**
   * A listing that passes counted the runs of its second read. It is right that all of them were
   * complete exactly when, between its first two reads, as many completed runs left as arrived;
   * otherwise more of them left.
   */
  lemma ListingExactly(first: Snapshot, second: Snapshot, third: Snapshot)
    requires first.Valid() && second.Valid() && third.Valid()
    requires Listing(Counts(first, second, third)).Passed?
    ensures Listing(Counts(first, second, third)) == Passed(|second.runs|)
    ensures |first.completed - second.completed| >= |second.completed - first.completed|
    ensures second.completed == second.runs <==>
            |first.completed - second.completed| == |second.completed - first.completed|
  {
    CommonPart(first.completed, second.completed);
    SmallerSubset(second.completed, second.runs);
    assert |first.completed| == |second.runs|;
    if |second.completed| == |second.runs| {
      SameSize(second.completed, second.runs);
    }
  }

  /** It is right in particular if completed runs stay on GitHub between the first two reads, or if no
      run completes between the last two. */
  lemma ListingIsSound(first: Snapshot, second: Snapshot, third: Snapshot)
    requires first.Valid() && second.Valid() && third.Valid()
    requires first.completed <= second.completed || third.completed <= second.completed
    requires Listing(Counts(first, second, third)).Passed?
    ensures second.completed == second.runs
  {
    ListingExactly(first, second, third);
    if first.completed <= second.completed {
      assert first.completed - second.completed == {};
    } else if second.runs != {} {
      SmallerSubset(third.completed, second.completed);
      CommonPart(first.completed, second.completed);
    }
  }

  /** Without either assumption a run that is deleted and one that finishes can cancel out. */
  lemma ListingCanBeFooled()
    ensures var first, second, third := Snapshot({1}, {1}), Snapshot({2}, {}), Snapshot({2}, {2});
            && first.Valid() && second.Valid() && third.Valid()
            && Listing(Counts(first, second, third)) == Passed(1)
            && second.completed != second.runs
  {
    assert |{1}| == 1 && |{2}| == 1;
  }

  /** On a GitHub that does not change, below the search limit, the listing decides exactly. */
  lemma ListingDecides(now: Snapshot)
    requires now.Valid() && |now.runs| < FILTERED_RUNS_MAX
    ensures Listing(Counts(now, now, now)) ==
            if now.completed == now.runs then Passed(|now.runs|) else Rejected(Duplicate)
  {
    SmallerSubset(now.completed, now.runs);
    if |now.completed| == |now.runs| {
      SameSize(now.completed, now.runs);
    }
  }

  // ----- The server -----

  /** Where a call is waiting for the environment. */
  datatype Stage =
    | Waiting                                             // for the lock
    | RereadingRun(runId: RunId)                          // the reserved run
    | ListingAfter404(runId: RunId, counts: seq<nat>)     // the reserved run is gone
    | ListingUnidentified(counts: seq<nat>)               // the reservation has no run
    | FirstRefRead
    | ListingRuns(counts: seq<nat>)
    | CounterpartRead(baseline: nat)
    | SecondRefRead(baseline: nat)
    | WorkflowRead(baseline: nat)
    | Posting(baseline: nat, post: nat)
    | ReadingBack(post: nat, written: Written)
    | Finished(ending: Ending)

  /** A reply to the request that the handlers see. */
  type Written = written: WriteReply<Option<RunId>> | !written.WriteRaised? witness WriteFailed(RuntimeFailure)

  datatype Ending = Refused(refusal: Refusal) | Interrupted | Executed(outcome: Outcome)

  datatype Caller = Caller(key: Key, stage: Stage)

  datatype Readback = Readback(count: nat, run: Option<RunInfo>)

  /** What the environment may answer; `Interrupt` is a cancellation or an unhandled exception. */
  datatype Reply =
    | Interrupt
    | Failed
    | NotFound
    | FoundRun(run: RunInfo)
    | Count(runs: nat)
    | RefSha(sha: string)
    | Counterpart(found: bool)
    | Workflow(exactAndActive: bool)
    | Post(reply: WriteReply<Option<RunId>>)
    | Matching(readback: Readback)

  datatype Event =
    | Call(caller: CallerId, key: Key)
    | Acquire(caller: CallerId)
    | Answer(caller: CallerId, reply: Reply)

  /** What was sent to GitHub and learnt about it, oldest first. A post is named by its place here. */
  datatype Entry =
    | Sent(key: Key)
    | Answered(post: nat, reply: WriteReply<Option<RunId>>)
    | Reread(key: Key, runId: RunId, found: Option<RunInfo>)
    | Listed(key: Key, counts: seq<nat>)
    | Preflight(key: Key, answer: Reply)  // an answer to the checks made before the request

  datatype Server = Server(
    callers: map<CallerId, Caller>,
    holder: Option<CallerId>,
    reservations: map<Key, Reservation>,
    log: seq<Entry>)
  {
    function At(c: CallerId, stage: Stage): Server
      requires c in callers
    {
      this.(callers := callers[c := callers[c].(stage := stage)])
    }

    /** The call ends and gives the lock back. */
    function Leave(c: CallerId, ending: Ending): Server
      requires c in callers
    {
      At(c, Finished(ending)).(holder := None)
    }

    function Note(entry: Entry): Server {
      this.(log := log + [entry])
    }

    function Reserve(key: Key, reservation: Reservation): Server {
      this.(reservations := reservations[key := reservation])
    }

    function Release(key: Key): Server {
      this.(reservations := reservations - {key})
    }
  }

  const IDLE := Server(map[], None, map[], [])

  /** What a call does as soon as it has the lock. */
  function Enter(s: Server, c: CallerId): Server
    requires c in s.callers
  {
    var key := s.callers[c].key;
    var s := s.(holder := Some(c));
    if key !in s.reservations then
      s.At(c, FirstRefRead)
    else
      match s.reservations[key].runId
      case Some(runId) => s.At(c, RereadingRun(runId))
      case None => s.At(c, ListingUnidentified([]))
  }

  function RereadRun(s: Server, c: CallerId, runId: RunId, reply: Reply): Server
    requires c in s.callers
  {
    var key := s.callers[c].key;
    match reply
    case NotFound =>
      s.Note(Reread(key, runId, None)).At(c, ListingAfter404(runId, []))
    case FoundRun(run) =>
      var s := s.Note(Reread(key, runId, Some(run)));
      if !run.Exact(key) then s.Leave(c, Refused(Uncertain))
      else if run.status == "completed" then s.Release(key).At(c, FirstRefRead)
      else s.Leave(c, Refused(Duplicate))
    case _ =>
      s.Leave(c, Refused(RequestFailed))
  }

  function ListAfter404(s: Server, c: CallerId, runId: RunId, counts: seq<nat>, reply: Reply): Server
    requires c in s.callers
  {
    if !reply.Count? then
      s.Leave(c, Refused(RequestFailed))
    else
      var key, counts := s.callers[c].key, counts + [reply.runs];
      match Listing(counts)
      case ReadMore => s.At(c, ListingAfter404(runId, counts))
      case Rejected(refusal) => s.Leave(c, Refused(refusal))
      case Passed(_) => s.Note(Listed(key, counts)).Release(key).At(c, FirstRefRead)
  }

  function ListUnidentified(s: Server, c: CallerId, counts: seq<nat>, reply: Reply): Server
    requires c in s.callers
  {
    if !reply.Count? then
      s.Leave(c, Refused(RequestFailed))
    else
      var counts := counts + [reply.runs];
      match Listing(counts)
      case ReadMore => s.At(c, ListingUnidentified(counts))
      case Rejected(refusal) => s.Leave(c, Refused(refusal))
      case Passed(_) => s.Leave(c, Refused(Uncertain))
  }

  datatype Decision = GoOn(stage: Stage) | Stop(refusal: Refusal) | SendRequest(baseline: nat)

  /** The checks made immediately before the request. */
  function Decide(key: Key, stage: Stage, reply: Reply): Decision {
    match (stage, reply)
    case (FirstRefRead, RefSha(sha)) =>
      if sha == key.sha then GoOn(ListingRuns([])) else Stop(RefMismatch)
    case (ListingRuns(counts), Count(runs)) =>
      (match Listing(counts + [runs])
       case ReadMore => GoOn(ListingRuns(counts + [runs]))
       case Rejected(refusal) => Stop(refusal)
       case Passed(baseline) => GoOn(CounterpartRead(baseline)))
    case (CounterpartRead(baseline), Counterpart(found)) =>
      if found then Stop(AmbiguousName) else GoOn(SecondRefRead(baseline))
    case (SecondRefRead(baseline), RefSha(sha)) =>
      if sha == key.sha then GoOn(WorkflowRead(baseline)) else Stop(RefMismatch)
    case (WorkflowRead(baseline), Workflow(exactAndActive)) =>
      if exactAndActive then SendRequest(baseline) else Stop(WrongWorkflow)
    case _ =>
      Stop(RequestFailed)
  }

  function CheckPrecondition(s: Server, c: CallerId, reply: Reply): Server
    requires c in s.callers
  {
    var key := s.callers[c].key;
    var noted := s.Note(Preflight(key, reply));
    match Decide(key, s.callers[c].stage, reply)
    case GoOn(stage) => noted.At(c, stage)
    case Stop(refusal) => noted.Leave(c, Refused(refusal))
    case SendRequest(baseline) =>
      noted.Reserve(key, Reservation(None, true)).Note(Sent(key)).At(c, Posting(baseline, |noted.log|))
  }

  /** The reply to the request reaches the caller, which records it. */
  function Record(s: Server, c: CallerId, post: nat, written: Written): Server
    requires c in s.callers
  {
    var noted := s.Note(Answered(post, written));
    var reserved := if written.Wrote? then
                      noted.Reserve(s.callers[c].key, Reservation(written.value, false))
                    else
                      noted;
    reserved.At(c, ReadingBack(post, written))
  }

  function ReceiptOf(written: Written): Option<RunId> {
    match written
    case Wrote(receipt, _) => receipt
    case WriteFailed(_) => None
  }

  /** The end of a call that made its request. */
  function Conclusion(s: Server, c: CallerId, written: Written, readback: ReadReply<Readback>): Server
    requires c in s.callers && !readback.ReadRaised?
  {
    var key := s.callers[c].key;
    var matches := (r: Readback) => r.count == 1 && r.run.Some? && r.run.value.Exact(key);
    var outcome := Conclude(true, written, readback, matches).outcome;
    var s := if outcome.writeCompleted == Some(false) then
               s.Release(key)
             else
               s.Reserve(key, Reservation(ReceiptOf(written), outcome.writeCompleted == None));
    s.Leave(c, Executed(outcome))
  }

  /** The readback is skipped where it could not tell the new run from others. */
  function PostAnswered(s: Server, c: CallerId, baseline: nat, post: nat, written: WriteReply<Option<RunId>>): Server
    requires c in s.callers
  {
    if written.WriteRaised? then
      s.Leave(c, Interrupted)
    else
      var recorded := Record(s, c, post, written);
      if (if written.Wrote? then written.value.None? else baseline > 0) then
        Conclusion(recorded, c, written, ReadFailed)
      else
        recorded
  }

  function ReadBackAnswered(s: Server, c: CallerId, written: Written, reply: Reply): Server
    requires c in s.callers
  {
    match reply
    case FoundRun(run) =>
      Conclusion(s, c, written, if ReceiptOf(written).Some? then ReadBack(Readback.Readback(1, Some(run))) else ReadFailed)
    case Matching(readback) =>
      Conclusion(s, c, written, if ReceiptOf(written).None? then ReadBack(readback) else ReadFailed)
    case _ =>
      Conclusion(s, c, written, ReadFailed)
  }

  /** The holder of the lock goes on from where it awaits. */
  function Resume(s: Server, c: CallerId, reply: Reply): Server
    requires c in s.callers
  {
    if reply.Interrupt? then
      s.Leave(c, Interrupted)
    else
      match s.callers[c].stage
      case RereadingRun(runId) => RereadRun(s, c, runId, reply)
      case ListingAfter404(runId, counts) => ListAfter404(s, c, runId, counts, reply)
      case ListingUnidentified(counts) => ListUnidentified(s, c, counts, reply)
      case Posting(baseline, post) =>
        PostAnswered(s, c, baseline, post, if reply.Post? then reply.reply else WriteFailed(RuntimeFailure))
      case ReadingBack(_, written) => ReadBackAnswered(s, c, written, reply)
      case _ => CheckPrecondition(s, c, reply)
  }

  function Step(s: Server, event: Event): Server {
    match event
    case Call(c, key) =>
      if c in s.callers && !s.callers[c].stage.Finished? then s
      else s.(callers := s.callers[c := Caller(key, Waiting)])
    case Acquire(c) =>
      if s.holder.None? && c in s.callers && s.callers[c].stage.Waiting? then Enter(s, c) else s
    case Answer(c, reply) =>
      if c in s.callers && s.holder == Some(c) then
        Resume(s, c, reply)
      else if c in s.callers && s.callers[c].stage.Waiting? && reply.Interrupt? then
        s.At(c, Finished(Interrupted))
      else
        s
  }

  function Run(s: Server, events: seq<Event>): Server {
    if events == [] then s else Step(Run(s, events[..|events| - 1]), events[|events| - 1])
  }

  // ----- When a post is settled -----

  predicate FailureOf(entry: Entry, post: nat) {
    entry.Answered? && entry.post == post && entry.reply.WriteFailed? && !entry.reply.failure.Ambiguous()
  }

  predicate ReceiptFor(entry: Entry, post: nat, runId: RunId) {
    entry.Answered? && entry.post == post && entry.reply.Wrote? && entry.reply.value == Some(runId)
  }

  predicate CompletionOf(entry: Entry, key: Key, runId: RunId) {
    && entry.Reread? && entry.key == key && entry.runId == runId
    && entry.found.Some? && entry.found.value.Exact(key) && entry.found.value.status == "completed"
  }

  predicate PassingList(entry: Entry, key: Key) {
    entry.Listed? && entry.key == key && Listing(entry.counts).Passed?
  }

  /** The re-read at `b` found the run completed, or gone and absent from the listing made next. */
  predicate Ended(log: seq<Entry>, b: nat, key: Key, runId: RunId)
    requires b < |log|
  {
    || CompletionOf(log[b], key, runId)
    || (log[b] == Reread(key, runId, None) && b + 1 < |log| && PassingList(log[b + 1], key))
  }

  ghost predicate HasReceipt(log: seq<Entry>, post: nat, runId: RunId) {
    exists a :: post < a < |log| && ReceiptFor(log[a], post, runId)
  }

  /** The request was reported failed, or the run it returned was later found to have ended. */
  ghost predicate Settled(log: seq<Entry>, post: nat)
    requires post < |log| && log[post].Sent?
  {
    || (exists a :: post < a < |log| && FailureOf(log[a], post))
    || (exists runId, a, b :: post < a < b < |log| && ReceiptFor(log[a], post, runId)
                              && Ended(log, b, log[post].key, runId))
  }

  ghost predicate IsPost(log: seq<Entry>, post: nat, key: Key) {
    post < |log| && log[post] == Sent(key)
  }

  /** Whenever a request is sent, every earlier one for its key is settled by then. */
  ghost predicate Safe(log: seq<Entry>) {
    forall i: nat, j: nat :: i < j && j < |log| && log[i].Sent? && log[j] == log[i] ==> Settled(log[..j], i)
  }

  /** Every request for the key but `except` is settled. */
  ghost predicate Clear(log: seq<Entry>, key: Key, except: Option<nat>) {
    forall i: nat :: IsPost(log, i, key) && except != Some(i) ==> Settled(log, i)
  }

  /** Every open request for the key is covered by a reservation that knows its run, if there is one. */
  ghost predicate Covered(log: seq<Entry>, key: Key, reservations: map<Key, Reservation>) {
    forall i: nat :: IsPost(log, i, key) && !Settled(log, i) ==>
      && key in reservations
      && forall runId :: reservations[key].runId == Some(runId) ==> HasReceipt(log, i, runId)
  }

  /** What the holder of the lock knows at each await. */
  ghost predicate Knows(s: Server, key: Key, stage: Stage) {
    match stage
    case RereadingRun(runId) => key in s.reservations && s.reservations[key].runId == Some(runId)
    case ListingAfter404(runId, _) =>
      && key in s.reservations && s.reservations[key].runId == Some(runId)
      && |s.log| > 0 && s.log[|s.log| - 1] == Reread(key, runId, None)
      && (forall i: nat :: IsPost(s.log, i, key) && !Settled(s.log, i) ==>
           HasReceipt(s.log[..|s.log| - 1], i, runId))
    case ListingUnidentified(_) => true
    case Posting(_, post) =>
      && IsPost(s.log, post, key) && Clear(s.log, key, Some(post))
      && key in s.reservations && s.reservations[key].runId == None
    case ReadingBack(post, written) =>
      && IsPost(s.log, post, key) && Clear(s.log, key, Some(post))
      && key in s.reservations && s.reservations[key].runId == ReceiptOf(written)
      && |s.log| - 1 > post && s.log[|s.log| - 1] == Answered(post, written)
    case Waiting => false
    case Finished(_) => false
    case _ => Clear(s.log, key, None)
  }

  ghost predicate Inv(s: Server) {
    && Safe(s.log)
    && (forall key :: Covered(s.log, key, s.reservations))
    && (forall c :: c in s.callers && s.holder != Some(c) ==> s.callers[c].stage.Waiting? || s.callers[c].stage.Finished?)
    && (s.holder.Some? ==> s.holder.value in s.callers
                           && Knows(s, s.callers[s.holder.value].key, s.callers[s.holder.value].stage))
  }

  // ----- Every step keeps the invariant -----

  lemma SettledStays(log: seq<Entry>, longer: seq<Entry>, post: nat)
    requires log <= longer && post < |log| && log[post].Sent? && Settled(log, post)
    ensures Settled(longer, post)
  {
    if a :| post < a < |log| && FailureOf(log[a], post) {
      assert FailureOf(longer[a], post);
    } else {
      var runId, a, b :| post < a < b < |log| && ReceiptFor(log[a], post, runId)
                         && Ended(log, b, log[post].key, runId);
      assert ReceiptFor(longer[a], post, runId) && Ended(longer, b, longer[post].key, runId);
    }
  }

  lemma ReceiptStays(log: seq<Entry>, longer: seq<Entry>, post: nat, runId: RunId)
    requires log <= longer && HasReceipt(log, post, runId)
    ensures HasReceipt(longer, post, runId)
  {
    var a :| post < a < |log| && ReceiptFor(log[a], post, runId);
    assert ReceiptFor(longer[a], post, runId);
  }

  lemma ClearStays(log: seq<Entry>, entry: Entry, key: Key, except: Option<nat>)
    requires Clear(log, key, except) && entry != Sent(key)
    ensures Clear(log + [entry], key, except)
  {
    forall i: nat | IsPost(log + [entry], i, key) && except != Some(i) ensures Settled(log + [entry], i) {
      assert IsPost(log, i, key);
      SettledStays(log, log + [entry], i);
    }
  }

  lemma CoveredStays(log: seq<Entry>, entry: Entry, key: Key, reservations: map<Key, Reservation>)
    requires Covered(log, key, reservations) && entry != Sent(key)
    ensures Covered(log + [entry], key, reservations)
  {
    var longer := log + [entry];
    forall i: nat | IsPost(longer, i, key) && !Settled(longer, i)
      ensures key in reservations
      ensures forall runId :: reservations[key].runId == Some(runId) ==> HasReceipt(longer, i, runId)
    {
      assert IsPost(log, i, key);
      if Settled(log, i) {
        SettledStays(log, longer, i);
      }
      forall runId | reservations[key].runId == Some(runId) ensures HasReceipt(longer, i, runId) {
        ReceiptStays(log, longer, i, runId);
      }
    }
  }

  lemma SafeStays(log: seq<Entry>, entry: Entry)
    requires Safe(log) && (entry.Sent? ==> Clear(log, entry.key, None))
    ensures Safe(log + [entry])
  {
    var longer := log + [entry];
    forall i: nat, j: nat | i < j && j < |longer| && longer[i].Sent? && longer[j] == longer[i]
      ensures Settled(longer[..j], i)
    {
      if j == |log| {
        assert longer[..j] == log && IsPost(log, i, entry.key);
      } else {
        assert longer[..j] == log[..j];
      }
    }
  }

  lemma NoteKeeps(s: Server, entry: Entry)
    requires Safe(s.log) && (forall key :: Covered(s.log, key, s.reservations)) && !entry.Sent?
    ensures Safe(s.Note(entry).log) && forall key :: Covered(s.Note(entry).log, key, s.reservations)
  {
    SafeStays(s.log, entry);
    forall key ensures Covered(s.Note(entry).log, key, s.reservations) {
      CoveredStays(s.log, entry, key, s.reservations);
    }
  }

  /** A reservation may be dropped once every request for its key is settled. */
  lemma ReleaseKeeps(s: Server, key: Key)
    requires (forall other :: Covered(s.log, other, s.reservations)) && Clear(s.log, key, None)
    ensures forall other :: Covered(s.log, other, s.Release(key).reservations)
  {
    forall other ensures Covered(s.log, other, s.Release(key).reservations) {
      assert Covered(s.log, other, s.reservations);
    }
  }

  lemma EndSettles(log: seq<Entry>, post: nat, runId: RunId, before: nat)
    requires post < before < |log| && log[post].Sent? && Ended(log, before, log[post].key, runId)
    requires HasReceipt(log[..before], post, runId)
    ensures Settled(log, post)
  {
    var a :| post < a < before && ReceiptFor(log[..before][a], post, runId);
    assert ReceiptFor(log[a], post, runId);
  }

  /** Posts covered by a reservation for a run that has ended are settled. */
  lemma RunEnded(log: seq<Entry>, key: Key, runId: RunId, before: nat)
    requires before < |log| && Ended(log, before, key, runId)
    requires forall i: nat :: IsPost(log, i, key) && !Settled(log, i) ==> HasReceipt(log[..before], i, runId)
    ensures Clear(log, key, None)
  {
    forall i: nat | IsPost(log, i, key) ensures Settled(log, i) {
      if !Settled(log, i) {
        EndSettles(log, i, runId, before);
      }
    }
  }

  /** What changes when only the holder of the lock moves on, or leaves. */
  lemma Moved(s: Server, next: Server, c: CallerId)
    requires Inv(s) && c in s.callers && s.holder == Some(c)
    requires Safe(next.log) && forall key :: Covered(next.log, key, next.reservations)
    requires c in next.callers && next.callers == s.callers[c := next.callers[c]]
    requires || (next.holder.None? && next.callers[c].stage.Finished?)
             || (next.holder == Some(c) && Knows(next, next.callers[c].key, next.callers[c].stage))
    ensures Inv(next)
  {
  }

  lemma RereadKeeps(s: Server, c: CallerId, runId: RunId, reply: Reply)
    requires Inv(s) && c in s.callers && s.holder == Some(c) && s.callers[c].stage == RereadingRun(runId)
    ensures Inv(RereadRun(s, c, runId, reply))
  {
    var key := s.callers[c].key;
    var next := RereadRun(s, c, runId, reply);
    assert Covered(s.log, key, s.reservations);
    if reply.NotFound? || reply.FoundRun? {
      var entry := Reread(key, runId, if reply.NotFound? then None else Some(reply.run));
      var noted := s.Note(entry);
      NoteKeeps(s, entry);
      assert noted.log[..|s.log|] == s.log;
      forall i: nat | IsPost(noted.log, i, key) && !Settled(noted.log, i)
        ensures HasReceipt(noted.log[..|s.log|], i, runId)
      {
        assert IsPost(s.log, i, key);
        if Settled(s.log, i) {
          SettledStays(s.log, noted.log, i);
        }
      }
      if CompletionOf(entry, key, runId) {
        RunEnded(noted.log, key, runId, |s.log|);
        ReleaseKeeps(noted, key);
      }
    }
    Moved(s, next, c);
  }

  lemma ListAfter404Keeps(s: Server, c: CallerId, runId: RunId, counts: seq<nat>, reply: Reply)
    requires Inv(s) && c in s.callers && s.holder == Some(c)
    requires s.callers[c].stage == ListingAfter404(runId, counts)
    ensures Inv(ListAfter404(s, c, runId, counts, reply))
  {
    var key := s.callers[c].key;
    var next := ListAfter404(s, c, runId, counts, reply);
    if reply.Count? && Listing(counts + [reply.runs]).Passed? {
      var entry := Listed(key, counts + [reply.runs]);
      var noted := s.Note(entry);
      var b := |s.log| - 1;
      NoteKeeps(s, entry);
      assert noted.log[..b] == s.log[..b] && noted.log[b] == s.log[b];
      forall i: nat | IsPost(noted.log, i, key) && !Settled(noted.log, i)
        ensures HasReceipt(noted.log[..b], i, runId)
      {
        assert IsPost(s.log, i, key);
        if Settled(s.log, i) {
          SettledStays(s.log, noted.log, i);
        }
      }
      RunEnded(noted.log, key, runId, b);
      ReleaseKeeps(noted, key);
    }
    Moved(s, next, c);
  }

  /** The only place where a request is sent: everything sent before for the key is settled. */
  lemma PostKeeps(s: Server, key: Key)
    requires Safe(s.log) && (forall other :: Covered(s.log, other, s.reservations)) && Clear(s.log, key, None)
    ensures var next := s.Reserve(key, Reservation(None, true)).Note(Sent(key));
            && Safe(next.log) && (forall other :: Covered(next.log, other, next.reservations))
            && IsPost(next.log, |s.log|, key) && Clear(next.log, key, Some(|s.log|))
  {
    var reserved := s.Reserve(key, Reservation(None, true));
    var next := reserved.Note(Sent(key));
    SafeStays(s.log, Sent(key));
    forall other ensures Covered(next.log, other, next.reservations) {
      assert Covered(s.log, other, s.reservations);
      if other != key {
        CoveredStays(s.log, Sent(key), other, reserved.reservations);
      }
    }
    forall i: nat | IsPost(next.log, i, key) && i != |s.log| ensures Settled(next.log, i) {
      assert IsPost(s.log, i, key);
      SettledStays(s.log, next.log, i);
    }
  }

  lemma PreconditionKeeps(s: Server, c: CallerId, reply: Reply)
    requires Inv(s) && c in s.callers && s.holder == Some(c) && Clear(s.log, s.callers[c].key, None)
    requires var stage := s.callers[c].stage;
             || stage.FirstRefRead? || stage.ListingRuns? || stage.CounterpartRead? || stage.SecondRefRead?
             || stage.WorkflowRead?
    ensures Inv(CheckPrecondition(s, c, reply))
  {
    var key := s.callers[c].key;
    var next := CheckPrecondition(s, c, reply);
    NoteKeeps(s, Preflight(key, reply));
    ClearStays(s.log, Preflight(key, reply), key, None);
    if Decide(key, s.callers[c].stage, reply).SendRequest? {
      PostKeeps(s.Note(Preflight(key, reply)), key);
    }
    Moved(s, next, c);
  }

  lemma ConclusionKeeps(s: Server, c: CallerId, post: nat, written: Written, readback: ReadReply<Readback>)
    requires Inv(s) && c in s.callers && s.holder == Some(c) && s.callers[c].stage == ReadingBack(post, written)
    requires !readback.ReadRaised?
    ensures Inv(Conclusion(s, c, written, readback))
  {
    var key := s.callers[c].key;
    var next := Conclusion(s, c, written, readback);
    var last := |s.log| - 1;
    if written.WriteFailed? && !written.failure.Ambiguous() {
      assert FailureOf(s.log[last], post);
      assert Settled(s.log, post);
      ReleaseKeeps(s, key);
    } else {
      forall other ensures Covered(s.log, other, next.reservations) {
        assert Covered(s.log, other, s.reservations);
      }
    }
    Moved(s, next, c);
  }

  lemma RecordKeeps(s: Server, c: CallerId, baseline: nat, post: nat, written: Written)
    requires Inv(s) && c in s.callers && s.holder == Some(c) && s.callers[c].stage == Posting(baseline, post)
    ensures Inv(Record(s, c, post, written))
  {
    var key := s.callers[c].key;
    var entry := Answered(post, written);
    var next := Record(s, c, post, written);
    NoteKeeps(s, entry);
    ClearStays(s.log, entry, key, Some(post));
    assert next.log[|s.log|] == entry;
    forall other ensures Covered(next.log, other, next.reservations) {
      assert Covered(next.log, other, s.reservations);
      if other == key && written.Wrote? && written.value.Some? {
        assert ReceiptFor(next.log[|s.log|], post, written.value.value);
      }
    }
    Moved(s, next, c);
  }

  lemma AnsweredKeeps(s: Server, c: CallerId, baseline: nat, post: nat, written: WriteReply<Option<RunId>>)
    requires Inv(s) && c in s.callers && s.holder == Some(c) && s.callers[c].stage == Posting(baseline, post)
    ensures Inv(PostAnswered(s, c, baseline, post, written))
  {
    if written.WriteRaised? {
      Moved(s, s.Leave(c, Interrupted), c);
    } else {
      RecordKeeps(s, c, baseline, post, written);
      ConclusionKeeps(Record(s, c, post, written), c, post, written, ReadFailed);
    }
  }

  lemma ReadBackKeeps(s: Server, c: CallerId, post: nat, written: Written, reply: Reply)
    requires Inv(s) && c in s.callers && s.holder == Some(c) && s.callers[c].stage == ReadingBack(post, written)
    ensures Inv(ReadBackAnswered(s, c, written, reply))
  {
    ConclusionKeeps(s, c, post, written, ReadFailed);
    if reply.FoundRun? {
      ConclusionKeeps(s, c, post, written, ReadBack(Readback.Readback(1, Some(reply.run))));
    }
    if reply.Matching? {
      ConclusionKeeps(s, c, post, written, ReadBack(reply.readback));
    }
  }

  lemma ResumeKeeps(s: Server, c: CallerId, reply: Reply)
    requires Inv(s) && c in s.callers && s.holder == Some(c)
    ensures Inv(Resume(s, c, reply))
  {
    if reply.Interrupt? {
      Moved(s, s.Leave(c, Interrupted), c);
    } else {
      match s.callers[c].stage
      case RereadingRun(runId) => RereadKeeps(s, c, runId, reply);
      case ListingAfter404(runId, counts) => ListAfter404Keeps(s, c, runId, counts, reply);
      case ListingUnidentified(counts) => Moved(s, ListUnidentified(s, c, counts, reply), c);
      case Posting(baseline, post) =>
        AnsweredKeeps(s, c, baseline, post, if reply.Post? then reply.reply else WriteFailed(RuntimeFailure));
      case ReadingBack(post, written) => ReadBackKeeps(s, c, post, written, reply);
      case _ => PreconditionKeeps(s, c, reply);
    }
  }

  lemma EnterKeeps(s: Server, c: CallerId)
    requires Inv(s) && s.holder.None? && c in s.callers && s.callers[c].stage.Waiting?
    ensures Inv(Enter(s, c))
  {
    assert Covered(s.log, s.callers[c].key, s.reservations);
  }

  lemma StepKeeps(s: Server, event: Event)
    requires Inv(s)
    ensures Inv(Step(s, event))
  {
    match event
    case Call(c, key) =>
    case Acquire(c) =>
      if s.holder.None? && c in s.callers && s.callers[c].stage.Waiting? {
        EnterKeeps(s, c);
      }
    case Answer(c, reply) =>
      if c in s.callers && s.holder == Some(c) {
        ResumeKeeps(s, c, reply);
      }
  }

  lemma {:induction false} RunKeeps(s: Server, events: seq<Event>)
    requires Inv(s)
    ensures Inv(Run(s, events))
  {
    if events != [] {
      RunKeeps(s, events[..|events| - 1]);
      StepKeeps(Run(s, events[..|events| - 1]), events[|events| - 1]);
    }
  }

  /**
   * In every run, with any callers, replies, failures and cancellations: whenever a request is
   * sent for a key, every earlier request for the key was reported failed, or the run it
   * returned was re-read as completed with its exact identity, or as gone while the listing
   * made next passed.
   */
  lemma OneOpenPostPerKey(events: seq<Event>)
    ensures Safe(Run(IDLE, events).log)
  {
    RunKeeps(IDLE, events);
  }

  /** A call that has the lock: anywhere between taking it and its end. */
  predicate Inside(s: Server, c: CallerId) {
    c in s.callers && !s.callers[c].stage.Waiting? && !s.callers[c].stage.Finished?
  }

  /** At most one call is past the lock, so at most one request is in flight. */
  lemma MutualExclusion(events: seq<Event>, c: CallerId, d: CallerId)
    ensures Inside(Run(IDLE, events), c) && Inside(Run(IDLE, events), d) ==> c == d
  {
    RunKeeps(IDLE, events);
  }

  // ----- Requests that leave no trace -----

  /** A reply that reports the request failed or returns its run. */
  predicate Identifies(entry: Entry, post: nat) {
    FailureOf(entry, post) || (entry.Answered? && entry.post == post && entry.reply.Wrote? && entry.reply.value.Some?)
  }

  /** A request whose caller is gone, which returned no run and was not reported failed. */
  ghost predicate Orphaned(s: Server, post: nat) {
    && post < |s.log| && s.log[post].Sent?
    && (forall c :: c in s.callers && s.callers[c].stage.Posting? ==> s.callers[c].stage.post != post)
    && (forall a :: post < a < |s.log| ==> !Identifies(s.log[a], post))
  }

  predicate PostingAt(s: Server, c: CallerId, post: nat) {
    c in s.callers && s.callers[c].stage.Posting? && s.callers[c].stage.post == post
  }

  /** A step only adds to the log; a reply is that of the request its caller waits for. */
  ghost predicate Grows(s: Server, next: Server) {
    && s.log <= next.log
    && (forall k :: |s.log| <= k < |next.log| && next.log[k].Answered? ==>
          exists c :: PostingAt(s, c, next.log[k].post))
    && (forall c: CallerId, post: nat :: PostingAt(next, c, post) ==> PostingAt(s, c, post) || post >= |s.log|)
  }

  lemma PostGrows(s: Server, c: CallerId, baseline: nat, post: nat, written: WriteReply<Option<RunId>>)
    requires c in s.callers && s.callers[c].stage == Posting(baseline, post)
    ensures Grows(s, PostAnswered(s, c, baseline, post, written))
  {
    assert PostingAt(s, c, post);
  }

  lemma PreconditionGrows(s: Server, c: CallerId, reply: Reply)
    requires c in s.callers
    ensures Grows(s, CheckPrecondition(s, c, reply))
  {
  }

  lemma RereadGrows(s: Server, c: CallerId, runId: RunId, reply: Reply)
    requires c in s.callers
    ensures Grows(s, RereadRun(s, c, runId, reply))
  {
  }

  lemma ListAfter404Grows(s: Server, c: CallerId, runId: RunId, counts: seq<nat>, reply: Reply)
    requires c in s.callers
    ensures Grows(s, ListAfter404(s, c, runId, counts, reply))
  {
  }

  lemma ReadBackGrows(s: Server, c: CallerId, written: Written, reply: Reply)
    requires c in s.callers
    ensures Grows(s, ReadBackAnswered(s, c, written, reply))
  {
  }

  lemma ResumeGrows(s: Server, c: CallerId, reply: Reply)
    requires c in s.callers
    ensures Grows(s, Resume(s, c, reply))
  {
    if !reply.Interrupt? {
      match s.callers[c].stage
      case Posting(baseline, post) =>
        PostGrows(s, c, baseline, post, if reply.Post? then reply.reply else WriteFailed(RuntimeFailure));
      case RereadingRun(runId) => RereadGrows(s, c, runId, reply);
      case ListingAfter404(runId, counts) => ListAfter404Grows(s, c, runId, counts, reply);
      case ListingUnidentified(_) =>
      case ReadingBack(_, written) => ReadBackGrows(s, c, written, reply);
      case _ => PreconditionGrows(s, c, reply);
    }
  }

  lemma StepGrows(s: Server, event: Event)
    ensures Grows(s, Step(s, event))
  {
    if event.Answer? && event.caller in s.callers {
      ResumeGrows(s, event.caller, event.reply);
    }
  }

  lemma OrphansStay(s: Server, next: Server, post: nat)
    requires Orphaned(s, post) && Grows(s, next)
    ensures Orphaned(next, post) && s.log <= next.log
  {
    forall c | c in next.callers && next.callers[c].stage.Posting? ensures next.callers[c].stage.post != post {
      assert PostingAt(next, c, next.callers[c].stage.post);
    }
    forall a | post < a < |next.log| ensures !Identifies(next.log[a], post) {
      if a < |s.log| {
        assert next.log[a] == s.log[a];
      }
    }
  }

  lemma {:induction false} OrphansStayForever(s: Server, events: seq<Event>, post: nat)
    requires Orphaned(s, post)
    ensures Orphaned(Run(s, events), post) && s.log <= Run(s, events).log
  {
    if events != [] {
      OrphansStayForever(s, events[..|events| - 1], post);
      StepGrows(Run(s, events[..|events| - 1]), events[|events| - 1]);
      OrphansStay(Run(s, events[..|events| - 1]), Run(s, events), post);
    }
  }

  lemma UnidentifiedIsOpen(log: seq<Entry>, post: nat)
    requires post < |log| && log[post].Sent? && forall a :: post < a < |log| ==> !Identifies(log[a], post)
    ensures !Settled(log, post)
  {
  }

  /** Its key is blocked for as long as the server lives. */
  lemma OrphanBlocksItsKey(before: seq<Event>, after: seq<Event>, post: nat, j: nat)
    requires Orphaned(Run(IDLE, before), post)
    requires post < j < |Run(Run(IDLE, before), after).log|
    ensures Run(Run(IDLE, before), after).log[j] != Run(IDLE, before).log[post]
  {
    var start := Run(IDLE, before);
    RunKeeps(IDLE, before);
    RunKeeps(start, after);
    OrphansStayForever(start, after, post);
    UnidentifiedIsOpen(Run(start, after).log[..j], post);
  }

  // ----- What is checked before a request -----

  function CountReplies(counts: seq<nat>): seq<Reply> {
    seq(|counts|, i requires 0 <= i < |counts| => Count(counts[i]))
  }

  function LastAnswers(key: Key): seq<Reply> {
    [Counterpart(false), RefSha(key.sha), Workflow(true)]
  }

  /** The answers to all the checks, in order: the ref, the listing, its namesake, the ref again, the workflow. */
  function GoodAnswers(key: Key, counts: seq<nat>): seq<Reply> {
    [RefSha(key.sha)] + CountReplies(counts) + LastAnswers(key)
  }

  /** The log ends with these answers, uninterrupted. */
  ghost predicate EndsWith(log: seq<Entry>, key: Key, answers: seq<Reply>) {
    && |answers| <= |log|
    && forall i :: 0 <= i < |answers| ==> log[|log| - |answers| + i] == Preflight(key, answers[i])
  }

  ghost predicate CheckedUpTo(log: seq<Entry>, key: Key, counts: seq<nat>, done: nat) {
    1 + |counts| + done <= |counts| + 4 && EndsWith(log, key, GoodAnswers(key, counts)[..1 + |counts| + done])
  }

  /** The log ends with a complete and successful preflight for the key. */
  ghost predicate Prepared(log: seq<Entry>, key: Key) {
    exists counts :: Listing(counts).Passed? && EndsWith(log, key, GoodAnswers(key, counts))
  }

  /** The listing passed, and so did `done` of the checks after it. */
  ghost predicate Reached(log: seq<Entry>, key: Key, baseline: nat, done: nat) {
    exists counts :: Listing(counts) == Passed(baseline) && CheckedUpTo(log, key, counts, done)
  }

  ghost predicate OnTrail(log: seq<Entry>, key: Key, stage: Stage) {
    match stage
    case ListingRuns(counts) => CheckedUpTo(log, key, counts, 0)
    case CounterpartRead(baseline) => Reached(log, key, baseline, 0)
    case SecondRefRead(baseline) => Reached(log, key, baseline, 1)
    case WorkflowRead(baseline) => Reached(log, key, baseline, 2)
    case _ => true
  }

  ghost predicate AllPrepared(log: seq<Entry>) {
    forall i: nat :: i < |log| && log[i].Sent? ==> Prepared(log[..i], log[i].key)
  }

  ghost predicate InOrder(s: Server) {
    && AllPrepared(s.log)
    && (s.holder.Some? && s.holder.value in s.callers ==>
          OnTrail(s.log, s.callers[s.holder.value].key, s.callers[s.holder.value].stage))
  }

  lemma OneMoreAnswer(log: seq<Entry>, key: Key, baseline: nat, done: nat)
    requires done < 3 && Reached(log, key, baseline, done)
    ensures var longer := log + [Preflight(key, LastAnswers(key)[done])];
            Reached(longer, key, baseline, done + 1) && (done == 2 ==> Prepared(longer, key))
  {
    var counts :| Listing(counts) == Passed(baseline) && CheckedUpTo(log, key, counts, done);
    var good := GoodAnswers(key, counts);
    assert good[..1 + |counts| + done + 1] == good[..1 + |counts| + done] + [LastAnswers(key)[done]];
    assert good[..|counts| + 4] == good;
    assert CheckedUpTo(log + [Preflight(key, LastAnswers(key)[done])], key, counts, done + 1);
  }

  lemma OneMoreCount(log: seq<Entry>, key: Key, counts: seq<nat>, runs: nat)
    requires CheckedUpTo(log, key, counts, 0)
    ensures var longer, verdict := log + [Preflight(key, Count(runs))], Listing(counts + [runs]);
            && CheckedUpTo(longer, key, counts + [runs], 0)
            && (verdict.Passed? ==> Reached(longer, key, verdict.runs, 0))
  {
    var before, after := GoodAnswers(key, counts)[..1 + |counts|], GoodAnswers(key, counts + [runs])[..2 + |counts|];
    assert after == before + [Count(runs)];
  }

  lemma EntryKeepsPrepared(log: seq<Entry>, entry: Entry)
    requires AllPrepared(log) && (entry.Sent? ==> Prepared(log, entry.key))
    ensures AllPrepared(log + [entry])
  {
    forall i: nat | i < |log + [entry]| && (log + [entry])[i].Sent?
      ensures Prepared((log + [entry])[..i], (log + [entry])[i].key)
    {
      if i == |log| {
        assert (log + [entry])[..i] == log;
      } else {
        assert (log + [entry])[..i] == log[..i];
      }
    }
  }

  /** Each decision rests on good answers to all the checks so far. */
  lemma DecisionInOrder(log: seq<Entry>, key: Key, stage: Stage, reply: Reply)
    requires OnTrail(log, key, stage)
    ensures var decision := Decide(key, stage, reply);
            && (decision.GoOn? ==> OnTrail(log + [Preflight(key, reply)], key, decision.stage))
            && (decision.SendRequest? ==> Prepared(log + [Preflight(key, reply)], key))
  {
    match stage
    case ListingRuns(counts) => OneMoreCount(log, key, counts, if reply.Count? then reply.runs else 0);
    case CounterpartRead(baseline) => OneMoreAnswer(log, key, baseline, 0);
    case SecondRefRead(baseline) => OneMoreAnswer(log, key, baseline, 1);
    case WorkflowRead(baseline) => OneMoreAnswer(log, key, baseline, 2);
    case _ =>
  }

  lemma PreconditionInOrder(s: Server, c: CallerId, reply: Reply)
    requires InOrder(s) && c in s.callers && s.holder == Some(c)
    ensures InOrder(CheckPrecondition(s, c, reply))
  {
    var key := s.callers[c].key;
    DecisionInOrder(s.log, key, s.callers[c].stage, reply);
    EntryKeepsPrepared(s.log, Preflight(key, reply));
    if Decide(key, s.callers[c].stage, reply).SendRequest? {
      EntryKeepsPrepared(s.log + [Preflight(key, reply)], Sent(key));
    }
  }

  lemma RereadInOrder(s: Server, c: CallerId, runId: RunId, reply: Reply)
    requires InOrder(s) && c in s.callers && s.holder == Some(c)
    ensures InOrder(RereadRun(s, c, runId, reply))
  {
    EntryKeepsPrepared(s.log, Reread(s.callers[c].key, runId, if reply.FoundRun? then Some(reply.run) else None));
  }

  lemma ListAfter404InOrder(s: Server, c: CallerId, runId: RunId, counts: seq<nat>, reply: Reply)
    requires InOrder(s) && c in s.callers && s.holder == Some(c)
    ensures InOrder(ListAfter404(s, c, runId, counts, reply))
  {
    if reply.Count? {
      EntryKeepsPrepared(s.log, Listed(s.callers[c].key, counts + [reply.runs]));
    }
  }

  lemma AnsweredInOrder(s: Server, c: CallerId, baseline: nat, post: nat, written: WriteReply<Option<RunId>>)
    requires InOrder(s) && c in s.callers && s.holder == Some(c)
    ensures InOrder(PostAnswered(s, c, baseline, post, written))
  {
    EntryKeepsPrepared(s.log, Answered(post, written));
  }

  lemma ReadBackInOrder(s: Server, c: CallerId, written: Written, reply: Reply)
    requires InOrder(s) && c in s.callers && s.holder == Some(c)
    ensures InOrder(ReadBackAnswered(s, c, written, reply))
  {
  }

  lemma ResumeInOrder(s: Server, c: CallerId, reply: Reply)
    requires InOrder(s) && c in s.callers && s.holder == Some(c)
    ensures InOrder(Resume(s, c, reply))
  {
    if !reply.Interrupt? {
      match s.callers[c].stage
      case RereadingRun(runId) => RereadInOrder(s, c, runId, reply);
      case ListingAfter404(runId, counts) => ListAfter404InOrder(s, c, runId, counts, reply);
      case ListingUnidentified(_) =>
      case Posting(baseline, post) =>
        AnsweredInOrder(s, c, baseline, post, if reply.Post? then reply.reply else WriteFailed(RuntimeFailure));
      case ReadingBack(_, written) => ReadBackInOrder(s, c, written, reply);
      case _ => PreconditionInOrder(s, c, reply);
    }
  }

  lemma StepInOrder(s: Server, event: Event)
    requires Inv(s) && InOrder(s)
    ensures InOrder(Step(s, event))
  {
    if event.Answer? && event.caller in s.callers && s.holder == Some(event.caller) {
      ResumeInOrder(s, event.caller, event.reply);
    }
  }

  lemma {:induction false} RunInOrder(events: seq<Event>)
    ensures InOrder(Run(IDLE, events))
  {
    if events != [] {
      RunInOrder(events[..|events| - 1]);
      RunKeeps(IDLE, events[..|events| - 1]);
      StepInOrder(Run(IDLE, events[..|events| - 1]), events[|events| - 1]);
    }
  }

  /**
   * Every request comes right after a complete preflight for its own key: the ref had the
   * expected commit, the listing passed, the name was unambiguous, the ref still had the commit,
   * and the workflow was the expected one and active.
   */
  lemma {:induction false} EveryPostIsPrepared(events: seq<Event>)
    ensures AllPrepared(Run(IDLE, events).log)
  {
    RunInOrder(events);
  }

  // ----- The guards let good calls through -----

  lemma RunLast(s: Server, events: seq<Event>, event: Event)
    ensures Run(s, events + [event]) == Step(Run(s, events), event)
  {
    assert (events + [event])[..|events|] == events;
  }

  /** One caller receives some answers, one after the other. */
  function Answers(c: CallerId, replies: seq<Reply>): seq<Event> {
    seq(|replies|, i requires 0 <= i < |replies| => Answer(c, replies[i]))
  }

  lemma OneMoreReply(s: Server, c: CallerId, replies: seq<Reply>)
    requires replies != []
    ensures Run(s, Answers(c, replies)) ==
            Step(Run(s, Answers(c, replies[..|replies| - 1])), Answer(c, replies[|replies| - 1]))
  {
    var init, last := replies[..|replies| - 1], replies[|replies| - 1];
    assert Answers(c, replies) == Answers(c, init) + [Answer(c, last)];
    RunLast(s, Answers(c, init), Answer(c, last));
  }

  predicate Stands(s: Server, c: CallerId, caller: Caller) {
    s.holder == Some(c) && c in s.callers && s.callers[c] == caller
  }

  /** The counts of a listing that passes with its last read, and not before. */
  predicate Completes(counts: seq<nat>) {
    |counts| > 0 && Listing(counts).Passed? && Listing(counts[..|counts| - 1]).ReadMore?
  }

  // ----- What a call reports -----

  /** What the readback of a finished request read: the run that the request returned, by its id, or,
      for a failed request, the matching runs. */
  ghost predicate WasRead(stage: Stage, reply: Reply, written: Written, read: Option<Readback>) {
    match stage
    case Posting(baseline, _) =>
      // skipped: no run to look up, or older runs that could be mistaken for it
      && read.None?
      && (if written.Wrote? then written.value.None? else baseline > 0)
    case ReadingBack(_, _) =>
      if written.Wrote? then
        && written.value.Some?
        && (if reply.FoundRun? then read == Some(Readback.Readback(1, Some(reply.run))) else read.None?)
      else
        if reply.Matching? then read == Some(reply.readback) else read.None?
    case _ => false
  }

  /** What the outcome says, in terms of the reply to the request and of what was read back. */
  ghost predicate Tells(outcome: Outcome, key: Key, written: Written, read: Option<Readback>) {
    && outcome.preconditionChecked
    && (outcome.writeCompleted == Some(true) <==> written.Wrote?)
    && (outcome.writeCompleted == None <==>
          written.WriteFailed? && written.failure.GitHubFailure? && written.failure.ambiguous)
    && outcome.readbackCompleted == read.Some? == outcome.stateMatches.Some?
    && (read.Some? ==>
          var one := read.value.count == 1 && read.value.run.Some?;
          outcome.stateMatches ==
            Some(one && read.value.run.value.workflowId == key.workflowId && read.value.run.value.sha == key.sha
                 && read.value.run.value.event == "workflow_dispatch"))
    && (forall notice :: notice in outcome.notices <==> DueNotice(notice, written, outcome.stateMatches))
    && outcome.requestId == (if MetadataOf(written).Some? then MetadataOf(written).value.requestId else None)
  }

  /** The reservation that a finished request leaves: none after a reported failure, otherwise its run
      if it returned one. */
  ghost predicate Leaves(reservations: map<Key, Reservation>, key: Key, written: Written) {
    if written.WriteFailed? && !(written.failure.GitHubFailure? && written.failure.ambiguous) then
      key !in reservations
    else
      key in reservations
      && reservations[key] == Reservation(if written.Wrote? then written.value else None, written.WriteFailed?)
  }

  lemma ConclusionTells(s: Server, c: CallerId, written: Written, readback: ReadReply<Readback>)
    requires c in s.callers && !readback.ReadRaised?
    ensures var next, key := Conclusion(s, c, written, readback), s.callers[c].key;
            && next.callers[c].stage.Finished? && next.callers[c].stage.ending.Executed?
            && next.log == s.log && next.callers[c].key == key
            && Tells(next.callers[c].stage.ending.outcome, key, written,
                     if readback.ReadBack? then Some(readback.value) else None)
            && Leaves(next.reservations, key, written)
  {
    var key := s.callers[c].key;
    var matches := (r: Readback) => r.count == 1 && r.run.Some? && r.run.value.Exact(key);
    ConcludeIsVerdict(true, written, readback, matches);
  }

  /** How a call can come to report an outcome, and what the outcome then says. */
  ghost predicate Reported(s: Server, reply: Reply, next: Server, c: CallerId, post: nat, written: Written,
                           read: Option<Readback>)
    requires c in s.callers && c in next.callers
  {
    var key := s.callers[c].key;
    && IsPost(next.log, post, key) && |next.log| > 0 && next.log[|next.log| - 1] == Answered(post, written)
    && WasRead(s.callers[c].stage, reply, written, read)
    && next.callers[c].stage.Finished? && next.callers[c].stage.ending.Executed?
    && Tells(next.callers[c].stage.ending.outcome, key, written, read)
    && Leaves(next.reservations, key, written)
  }

  /** A request that ends with its reply. */
  lemma PostReports(s: Server, c: CallerId, baseline: nat, post: nat, written: Written)
    requires Inv(s) && c in s.callers && s.holder == Some(c) && s.callers[c].stage == Posting(baseline, post)
    ensures var next := PostAnswered(s, c, baseline, post, written);
            if (if written.Wrote? then written.value.None? else baseline > 0) then
              Reported(s, Post(written), next, c, post, written, None)
            else
              next.callers[c].stage == ReadingBack(post, written)
  {
    var recorded := Record(s, c, post, written);
    assert recorded.log[|s.log|] == Answered(post, written) && recorded.log[post] == s.log[post];
    ConclusionTells(recorded, c, written, ReadFailed);
  }

  /** After its request a call reads back exactly if the request returned a run, or failed with no older
      matching run to be mistaken for the new one. */
  lemma ReadbackIsMadeExactly(s: Server, c: CallerId, baseline: nat, post: nat, written: Written)
    requires c in s.callers
    ensures var stage := PostAnswered(s, c, baseline, post, written).callers[c].stage;
            && (stage == ReadingBack(post, written) <==>
                  (written.Wrote? && written.value.Some?) || (written.WriteFailed? && baseline == 0))
            && (stage != ReadingBack(post, written) ==> stage.Finished? && stage.ending.Executed?)
  {
  }

  predicate KnowsRun(stage: Stage) {
    stage.ReadingBack? && stage.written.Wrote? ==> stage.written.value.Some?
  }

  /** What a readback reply establishes. */
  function ReadOf(written: Written, reply: Reply): Option<Readback> {
    if ReceiptOf(written).Some? && reply.FoundRun? then Some(Readback.Readback(1, Some(reply.run)))
    else if ReceiptOf(written).None? && reply.Matching? then Some(reply.readback)
    else None
  }

  lemma ReadBackConcludes(s: Server, c: CallerId, written: Written, reply: Reply)
    requires c in s.callers
    ensures var read := ReadOf(written, reply);
            ReadBackAnswered(s, c, written, reply) ==
            Conclusion(s, c, written, if read.Some? then ReadBack(read.value) else ReadFailed)
  {
  }

  /** A request that ends with its readback. */
  lemma ReadBackReports(s: Server, c: CallerId, post: nat, written: Written, reply: Reply)
    requires Inv(s) && c in s.callers && s.holder == Some(c) && s.callers[c].stage == ReadingBack(post, written)
    requires KnowsRun(s.callers[c].stage)
    ensures Reported(s, reply, ReadBackAnswered(s, c, written, reply), c, post, written, ReadOf(written, reply))
  {
    var read := ReadOf(written, reply);
    ReadBackConcludes(s, c, written, reply);
    ConclusionTells(s, c, written, if read.Some? then ReadBack(read.value) else ReadFailed);
  }

  /** A call reads back after a success only if the request returned a run. */
  ghost predicate ReceiptsKnown(s: Server) {
    forall c :: c in s.callers ==> KnowsRun(s.callers[c].stage)
  }

  lemma PostKnowsReceipt(s: Server, c: CallerId, baseline: nat, post: nat, written: WriteReply<Option<RunId>>)
    requires c in s.callers
    ensures KnowsRun(PostAnswered(s, c, baseline, post, written).callers[c].stage)
  {
  }

  /** Nobody but `c` is affected. */
  ghost predicate SameOthers(s: Server, next: Server, c: CallerId) {
    && next.callers.Keys == s.callers.Keys
    && forall d :: d in s.callers && d != c ==> next.callers[d] == s.callers[d]
  }

  lemma RereadOthers(s: Server, c: CallerId, runId: RunId, reply: Reply)
    requires c in s.callers
    ensures SameOthers(s, RereadRun(s, c, runId, reply), c)
  {
  }

  lemma ListingOthers(s: Server, c: CallerId, runId: RunId, counts: seq<nat>, reply: Reply)
    requires c in s.callers
    ensures SameOthers(s, ListAfter404(s, c, runId, counts, reply), c)
    ensures SameOthers(s, ListUnidentified(s, c, counts, reply), c)
  {
  }

  lemma PreconditionOthers(s: Server, c: CallerId, reply: Reply)
    requires c in s.callers
    ensures SameOthers(s, CheckPrecondition(s, c, reply), c)
  {
  }

  lemma ConclusionOthers(s: Server, c: CallerId, written: Written, readback: ReadReply<Readback>)
    requires c in s.callers && !readback.ReadRaised?
    ensures SameOthers(s, Conclusion(s, c, written, readback), c)
  {
  }

  lemma PostOthers(s: Server, c: CallerId, baseline: nat, post: nat, written: WriteReply<Option<RunId>>)
    requires c in s.callers
    ensures SameOthers(s, PostAnswered(s, c, baseline, post, written), c)
  {
    if !written.WriteRaised? {
      ConclusionOthers(Record(s, c, post, written), c, written, ReadFailed);
    }
  }

  lemma ReadBackOthers(s: Server, c: CallerId, written: Written, reply: Reply)
    requires c in s.callers
    ensures SameOthers(s, ReadBackAnswered(s, c, written, reply), c)
  {
    ConclusionOthers(s, c, written, ReadFailed);
    if reply.FoundRun? {
      ConclusionOthers(s, c, written, ReadBack(Readback.Readback(1, Some(reply.run))));
    }
    if reply.Matching? {
      ConclusionOthers(s, c, written, ReadBack(reply.readback));
    }
  }

  lemma ResumeOthers(s: Server, c: CallerId, reply: Reply)
    requires c in s.callers
    ensures SameOthers(s, Resume(s, c, reply), c)
  {
    if !reply.Interrupt? {
      match s.callers[c].stage
      case RereadingRun(runId) => RereadOthers(s, c, runId, reply);
      case ListingAfter404(runId, counts) => ListingOthers(s, c, runId, counts, reply);
      case ListingUnidentified(counts) => ListingOthers(s, c, 0, counts, reply);
      case Posting(baseline, post) =>
        PostOthers(s, c, baseline, post, if reply.Post? then reply.reply else WriteFailed(RuntimeFailure));
      case ReadingBack(_, written) => ReadBackOthers(s, c, written, reply);
      case _ => PreconditionOthers(s, c, reply);
    }
  }

  lemma CheckingKnowsRun(s: Server, c: CallerId, runId: RunId, counts: seq<nat>, reply: Reply)
    requires c in s.callers
    ensures KnowsRun(RereadRun(s, c, runId, reply).callers[c].stage)
    ensures KnowsRun(ListAfter404(s, c, runId, counts, reply).callers[c].stage)
    ensures KnowsRun(ListUnidentified(s, c, counts, reply).callers[c].stage)
    ensures KnowsRun(CheckPrecondition(s, c, reply).callers[c].stage)
  {
  }

  lemma ReadBackFinishes(s: Server, c: CallerId, written: Written, reply: Reply)
    requires c in s.callers
    ensures ReadBackAnswered(s, c, written, reply).callers[c].stage.Finished?
  {
  }

  lemma RequestOwnStage(s: Server, c: CallerId, reply: Reply)
    requires c in s.callers && !reply.Interrupt? && (s.callers[c].stage.Posting? || s.callers[c].stage.ReadingBack?)
    ensures var next := Resume(s, c, reply); c in next.callers && KnowsRun(next.callers[c].stage)
  {
    match s.callers[c].stage
    case Posting(baseline, post) =>
      PostKnowsReceipt(s, c, baseline, post, if reply.Post? then reply.reply else WriteFailed(RuntimeFailure));
    case ReadingBack(_, written) =>
      ReadBackFinishes(s, c, written, reply);
  }

  lemma ReservedOwnStage(s: Server, c: CallerId, reply: Reply)
    requires c in s.callers && !reply.Interrupt?
    requires var stage := s.callers[c].stage; stage.RereadingRun? || stage.ListingAfter404? || stage.ListingUnidentified?
    ensures var next := Resume(s, c, reply); c in next.callers && KnowsRun(next.callers[c].stage)
  {
    match s.callers[c].stage
    case RereadingRun(runId) => CheckingKnowsRun(s, c, runId, [], reply);
    case ListingAfter404(runId, counts) => CheckingKnowsRun(s, c, runId, counts, reply);
    case ListingUnidentified(counts) => CheckingKnowsRun(s, c, 0, counts, reply);
  }

  lemma ResumeOwnStage(s: Server, c: CallerId, reply: Reply)
    requires c in s.callers
    ensures var next := Resume(s, c, reply); c in next.callers && KnowsRun(next.callers[c].stage)
  {
    if !reply.Interrupt? {
      var stage := s.callers[c].stage;
      if stage.RereadingRun? || stage.ListingAfter404? || stage.ListingUnidentified? {
        ReservedOwnStage(s, c, reply);
      } else if stage.Posting? || stage.ReadingBack? {
        RequestOwnStage(s, c, reply);
      } else {
        CheckingKnowsRun(s, c, 0, [], reply);
      }
    }
  }

  lemma ResumeKnowsReceipts(s: Server, c: CallerId, reply: Reply)
    requires c in s.callers && ReceiptsKnown(s)
    ensures ReceiptsKnown(Resume(s, c, reply))
  {
    ResumeOwnStage(s, c, reply);
    ResumeOthers(s, c, reply);
  }

  lemma {:induction false} RunKnowsReceipts(events: seq<Event>)
    ensures ReceiptsKnown(Run(IDLE, events))
  {
    if events != [] {
      var s, event := Run(IDLE, events[..|events| - 1]), events[|events| - 1];
      RunKnowsReceipts(events[..|events| - 1]);
      if event.Answer? && event.caller in s.callers {
        ResumeKnowsReceipts(s, event.caller, event.reply);
      }
    }
  }

  predicate Executing(s: Server, c: CallerId) {
    c in s.callers && s.callers[c].stage.Finished? && s.callers[c].stage.ending.Executed?
  }

  lemma CheckingNeverExecutes(s: Server, c: CallerId, runId: RunId, counts: seq<nat>, reply: Reply)
    requires c in s.callers
    ensures !Executing(RereadRun(s, c, runId, reply), c) && !Executing(ListAfter404(s, c, runId, counts, reply), c)
    ensures !Executing(ListUnidentified(s, c, counts, reply), c) && !Executing(CheckPrecondition(s, c, reply), c)
  {
  }

  lemma OnlyRequestsExecute(s: Server, c: CallerId, reply: Reply)
    requires c in s.callers && Executing(Resume(s, c, reply), c)
    ensures !reply.Interrupt? && (s.callers[c].stage.Posting? || s.callers[c].stage.ReadingBack?)
  {
    match s.callers[c].stage
    case RereadingRun(runId) => CheckingNeverExecutes(s, c, runId, [], reply);
    case ListingAfter404(runId, counts) => CheckingNeverExecutes(s, c, runId, counts, reply);
    case ListingUnidentified(counts) => CheckingNeverExecutes(s, c, 0, counts, reply);
    case Posting(_, _) =>
    case ReadingBack(_, _) =>
    case _ => CheckingNeverExecutes(s, c, 0, [], reply);
  }

  lemma ResumeReports(s: Server, c: CallerId, reply: Reply)
    requires Inv(s) && ReceiptsKnown(s) && c in s.callers && s.holder == Some(c)
    requires Executing(Resume(s, c, reply), c)
    ensures exists post, written: Written, read :: Reported(s, reply, Resume(s, c, reply), c, post, written, read)
  {
    OnlyRequestsExecute(s, c, reply);
    match s.callers[c].stage
    case Posting(baseline, post) =>
      var written := if reply.Post? then reply.reply else WriteFailed(RuntimeFailure);
      PostReports(s, c, baseline, post, written);
      assert Reported(s, reply, PostAnswered(s, c, baseline, post, written), c, post, written, None);
    case ReadingBack(post, written) =>
      ReadBackReports(s, c, post, written, reply);
  }

  /**
   * Whenever a call ends by reporting an outcome: its request was answered last of all, and the
   * outcome is that answer and what was read back. The state is confirmed exactly if one run was
   * read back, by its id if the request returned one and by the listing otherwise, with the
   * key's workflow, commit and event; it is contradicted exactly by another completed readback,
   * and open exactly if there was none.
   */
  lemma ExecutedReports(events: seq<Event>, event: Event, c: CallerId)
    requires var s := Run(IDLE, events); Inside(s, c) && Executing(Step(s, event), c)
    ensures var s := Run(IDLE, events);
            event.Answer? && event.caller == c && s.holder == Some(c)
            && exists post, written: Written, read ::
                 Reported(s, event.reply, Step(s, event), c, post, written, read)
  {
    RunKeeps(IDLE, events);
    RunKnowsReceipts(events);
    ResumeReports(Run(IDLE, events), c, event.reply);
  }

  // ----- Why calls are refused -----

  /** The verdict of a listing that has not ended before, count by count. */
  lemma ListingVerdicts(counts: seq<nat>)
    requires |counts| == 2 || (|counts| == 3 && Listing(counts[..2]).ReadMore?)
    ensures var completed, runs := counts[0], counts[1];
            && (Listing(counts) == Rejected(Duplicate) <==> completed < runs < 1000 && |counts| == 2)
            && (Listing(counts) == ReadMore <==> 0 < completed == runs < 1000 && |counts| == 2)
            && (Listing(counts).Passed? <==>
                  completed == runs < 1000 && (|counts| == 2 ==> runs == 0) && (|counts| == 3 ==> counts[2] == completed))
            && (Listing(counts).Rejected? ==> Listing(counts).refusal == Duplicate || Listing(counts).refusal == Uncertain)
  {
  }

  /** A reserved run that is found: still running, another run than the one reserved, or completed. */
  lemma ReservedRunRefusals(s: Server, c: CallerId, runId: RunId, run: RunInfo)
    requires c in s.callers
    ensures var key, stage := s.callers[c].key, RereadRun(s, c, runId, FoundRun(run)).callers[c].stage;
            var exact := run.workflowId == key.workflowId && run.sha == key.sha && run.event == "workflow_dispatch";
            && (stage == Finished(Refused(Uncertain)) <==> !exact)
            && (stage == Finished(Refused(Duplicate)) <==> exact && run.status != "completed")
            && (stage == FirstRefRead <==> exact && run.status == "completed")
  {
  }

  lemma ListingKinds(counts: seq<nat>)
    ensures Listing(counts).Rejected? ==> Listing(counts).refusal == Duplicate || Listing(counts).refusal == Uncertain
  {
  }

  /** Each check refuses for its own reason. */
  lemma CheckRefusals(key: Key, stage: Stage, reply: Reply)
    ensures var decision := Decide(key, stage, reply);
            && (decision == Stop(RefMismatch) <==>
                  (stage.FirstRefRead? || stage.SecondRefRead?) && reply.RefSha? && reply.sha != key.sha)
            && (decision == Stop(AmbiguousName) <==> stage.CounterpartRead? && reply == Counterpart(true))
            && (decision == Stop(WrongWorkflow) <==> stage.WorkflowRead? && reply == Workflow(false))
            && (decision == Stop(Duplicate) <==>
                  stage.ListingRuns? && reply.Count? && Listing(stage.counts + [reply.runs]) == Rejected(Duplicate))
            && (decision.SendRequest? <==> stage.WorkflowRead? && reply == Workflow(true))
            && (decision.SendRequest? ==> decision.baseline == stage.baseline)
  {
    ListingKinds(if stage.ListingRuns? && reply.Count? then stage.counts + [reply.runs] else []);
  }

  predicate Checking(stage: Stage) {
    || stage.FirstRefRead? || stage.ListingRuns? || stage.CounterpartRead? || stage.SecondRefRead?
    || stage.WorkflowRead?
  }

  /** A stage at which the matching runs are being counted. */
  predicate Lists(stage: Stage) {
    stage.ListingAfter404? || stage.ListingUnidentified? || stage.ListingRuns?
  }

  /** The reply is an answer to the question that was asked. */
  predicate Fitting(stage: Stage, reply: Reply) {
    || (stage.RereadingRun? && (reply.NotFound? || reply.FoundRun?))
    || (Lists(stage) && reply.Count?)
    || ((stage.FirstRefRead? || stage.SecondRefRead?) && reply.RefSha?)
    || (stage.CounterpartRead? && reply.Counterpart?)
    || (stage.WorkflowRead? && reply.Workflow?)
  }

  /** Why a call is refused at this stage after this reply. */
  predicate RefusedFor(key: Key, stage: Stage, reply: Reply, refusal: Refusal) {
    var exact := reply.FoundRun? && reply.run.workflowId == key.workflowId && reply.run.sha == key.sha
                 && reply.run.event == "workflow_dispatch";
    match refusal
    case RequestFailed => !Fitting(stage, reply)
    case RefMismatch => (stage.FirstRefRead? || stage.SecondRefRead?) && reply.RefSha? && reply.sha != key.sha
    case AmbiguousName => stage.CounterpartRead? && reply == Counterpart(true)
    case WrongWorkflow => stage.WorkflowRead? && reply == Workflow(false)
    case Duplicate =>
      || (stage.RereadingRun? && exact && reply.run.status != "completed")
      || (Lists(stage) && reply.Count? && Listing(stage.counts + [reply.runs]) == Rejected(Duplicate))
    case Uncertain =>
      || (stage.RereadingRun? && reply.FoundRun? && !exact)
      || (Lists(stage) && reply.Count? &&
            var verdict := Listing(stage.counts + [reply.runs]);
            verdict == Rejected(Uncertain) || (stage.ListingUnidentified? && verdict.Passed?))
  }

  lemma RereadEndsFor(s: Server, c: CallerId, runId: RunId, reply: Reply, refusal: Refusal)
    requires c in s.callers && s.callers[c].stage == RereadingRun(runId)
    ensures var next := RereadRun(s, c, runId, reply);
            && next.callers[c].stage != Finished(Interrupted)
            && (next.callers[c].stage == Finished(Refused(refusal)) <==>
                  RefusedFor(s.callers[c].key, RereadingRun(runId), reply, refusal))
  {
  }

  lemma ListingEndsFor(s: Server, c: CallerId, runId: RunId, counts: seq<nat>, reply: Reply, refusal: Refusal)
    requires c in s.callers
    ensures var key, after := s.callers[c].key, ListAfter404(s, c, runId, counts, reply);
            var unidentified := ListUnidentified(s, c, counts, reply);
            && after.callers[c].stage != Finished(Interrupted) && unidentified.callers[c].stage != Finished(Interrupted)
            && (after.callers[c].stage == Finished(Refused(refusal)) <==>
                  RefusedFor(key, ListingAfter404(runId, counts), reply, refusal))
            && (unidentified.callers[c].stage == Finished(Refused(refusal)) <==>
                  RefusedFor(key, ListingUnidentified(counts), reply, refusal))
  {
    if reply.Count? {
      ListingKinds(counts + [reply.runs]);
    }
  }

  lemma DecisionEndsFor(key: Key, stage: Stage, reply: Reply, refusal: Refusal)
    requires Checking(stage)
    ensures Decide(key, stage, reply) == Stop(refusal) <==> RefusedFor(key, stage, reply, refusal)
    ensures Decide(key, stage, reply).GoOn? ==> !Decide(key, stage, reply).stage.Finished?
  {
    if stage.ListingRuns? && reply.Count? {
      ListingKinds(stage.counts + [reply.runs]);
    }
  }

  lemma CheckEndsFor(s: Server, c: CallerId, reply: Reply, refusal: Refusal)
    requires c in s.callers && Checking(s.callers[c].stage)
    ensures var next := CheckPrecondition(s, c, reply);
            && next.callers[c].stage != Finished(Interrupted)
            && (next.callers[c].stage == Finished(Refused(refusal)) <==>
                  RefusedFor(s.callers[c].key, s.callers[c].stage, reply, refusal))
  {
    DecisionEndsFor(s.callers[c].key, s.callers[c].stage, reply, refusal);
  }

  lemma RequestEndsFor(s: Server, c: CallerId, reply: Reply)
    requires c in s.callers && !reply.Interrupt? && (s.callers[c].stage.Posting? || s.callers[c].stage.ReadingBack?)
    ensures var next := Resume(s, c, reply);
            && c in next.callers
            && !(next.callers[c].stage.Finished? && next.callers[c].stage.ending.Refused?)
            && (next.callers[c].stage == Finished(Interrupted) <==>
                  s.callers[c].stage.Posting? && reply == Post(WriteRaised))
  {
  }

  /**
   * How a call that has the lock ends before an outcome: it is interrupted exactly if it is
   * cancelled or its request raised, and refused exactly for the reason that its stage and the reply
   * give. A request that was sent is never refused.
   */
  lemma EndingsSayWhy(s: Server, c: CallerId, reply: Reply, refusal: Refusal)
    requires Inside(s, c) && s.holder == Some(c)
    ensures var stage, next := s.callers[c].stage, Step(s, Answer(c, reply));
            && c in next.callers
            && (next.callers[c].stage == Finished(Interrupted) <==>
                  reply.Interrupt? || (stage.Posting? && reply == Post(WriteRaised)))
            && (next.callers[c].stage == Finished(Refused(refusal)) <==>
                  && !reply.Interrupt? && !stage.Posting? && !stage.ReadingBack?
                  && RefusedFor(s.callers[c].key, stage, reply, refusal))
  {
    if !reply.Interrupt? {
      var stage := s.callers[c].stage;
      match stage
      case RereadingRun(runId) => RereadEndsFor(s, c, runId, reply, refusal);
      case ListingAfter404(runId, counts) => ListingEndsFor(s, c, runId, counts, reply, refusal);
      case ListingUnidentified(counts) => ListingEndsFor(s, c, 0, counts, reply, refusal);
      case Posting(_, _) => RequestEndsFor(s, c, reply);
      case ReadingBack(_, _) => RequestEndsFor(s, c, reply);
      case _ => CheckEndsFor(s, c, reply, refusal);
    }
  }

  /** A call that is cancelled while it waits for the lock ends, and nothing else changes. */
  lemma WaitingCallLeaves(s: Server, c: CallerId)
    requires c in s.callers && s.callers[c].stage.Waiting? && s.holder != Some(c)
    ensures var next := Step(s, Answer(c, Interrupt));
            && next.callers == s.callers[c := Caller(s.callers[c].key, Finished(Interrupted))]
            && next.holder == s.holder && next.reservations == s.reservations && next.log == s.log
  {
  }

  // ----- Which answers free a reserved key -----

  function NextStage(stage: Option<Stage>, key: Key, reply: Reply): Option<Stage> {
    match (stage, reply)
    case (Some(RereadingRun(_)), FoundRun(run)) =>
      if run.Exact(key) && run.status == "completed" then Some(FirstRefRead) else None
    case (Some(RereadingRun(runId)), NotFound) => Some(ListingAfter404(runId, []))
    case (Some(ListingAfter404(runId, counts)), Count(runs)) =>
      (match Listing(counts + [runs])
       case ReadMore => Some(ListingAfter404(runId, counts + [runs]))
       case Rejected(_) => None
       case Passed(_) => Some(FirstRefRead))
    case (Some(ListingUnidentified(counts)), Count(runs)) =>
      if Listing(counts + [runs]).ReadMore? then Some(ListingUnidentified(counts + [runs])) else None
    case _ => None
  }

  /** Where a call is after some answers, while its reservation is being checked and at the first
      check after that. */
  function StageBy(reserved: Option<Reservation>, key: Key, replies: seq<Reply>): Option<Stage> {
    if replies == [] then
      match reserved
      case None => Some(FirstRefRead)
      case Some(Reservation(None, _)) => Some(ListingUnidentified([]))
      case Some(Reservation(Some(runId), _)) => Some(RereadingRun(runId))
    else
      NextStage(StageBy(reserved, key, replies[..|replies| - 1]), key, replies[|replies| - 1])
  }

  /** The call has ended, or is past the first check. */
  predicate Beyond(s: Server, c: CallerId) {
    && c in s.callers
    && var stage := s.callers[c].stage;
       if stage.Finished? then s.holder != Some(c)
       else s.holder == Some(c) && (stage.ListingRuns? || stage.CounterpartRead? || stage.SecondRefRead?
                                    || stage.WorkflowRead? || stage.Posting? || stage.ReadingBack?)
  }

  predicate Follows(s: Server, c: CallerId, key: Key, stage: Option<Stage>) {
    match stage
    case Some(stage) => Stands(s, c, Caller(key, stage))
    case None => Beyond(s, c)
  }

  lemma BeyondStays(s: Server, c: CallerId, reply: Reply)
    requires Beyond(s, c)
    ensures Beyond(Step(s, Answer(c, reply)), c)
  {
  }

  lemma StageFollows(s: Server, c: CallerId, key: Key, stage: Stage, reply: Reply)
    requires Stands(s, c, Caller(key, stage))
    requires stage.RereadingRun? || stage.ListingAfter404? || stage.ListingUnidentified? || stage.FirstRefRead?
    ensures Follows(Step(s, Answer(c, reply)), c, key, NextStage(Some(stage), key, reply))
  {
  }

  lemma {:induction false} CallFollows(s: Server, c: CallerId, key: Key, replies: seq<Reply>)
    requires s.holder == None && c in s.callers && s.callers[c] == Caller(key, Waiting)
    ensures var reserved := if key in s.reservations then Some(s.reservations[key]) else None;
            var stage := StageBy(reserved, key, replies);
            && Follows(Run(Step(s, Acquire(c)), Answers(c, replies)), c, key, stage)
            && (stage.Some? ==> || stage.value.RereadingRun? || stage.value.ListingAfter404?
                                || stage.value.ListingUnidentified? || stage.value.FirstRefRead?)
  {
    var entered := Step(s, Acquire(c));
    if replies == [] {
      assert Answers(c, replies) == [];
    } else {
      var init := replies[..|replies| - 1];
      CallFollows(s, c, key, init);
      OneMoreReply(entered, c, replies);
      var reserved := if key in s.reservations then Some(s.reservations[key]) else None;
      match StageBy(reserved, key, init)
      case None => BeyondStays(Run(entered, Answers(c, init)), c, replies[|replies| - 1]);
      case Some(stage) => StageFollows(Run(entered, Answers(c, init)), c, key, stage, replies[|replies| - 1]);
    }
  }

  predicate FoundCompleted(key: Key, replies: seq<Reply>) {
    && |replies| == 1 && replies[0].FoundRun?
    && replies[0].run.Exact(key) && replies[0].run.status == "completed"
  }

  ghost predicate FoundGone(replies: seq<Reply>) {
    exists counts :: Completes(counts) && replies == [NotFound] + CountReplies(counts)
  }

  /** The answers that free a key: none for an unreserved one, the completed run with its exact
      identity, or its absence and a listing that passes. */
  ghost predicate Frees(reserved: Option<Reservation>, key: Key, replies: seq<Reply>) {
    match reserved
    case None => replies == []
    case Some(Reservation(None, _)) => false
    case Some(Reservation(Some(_), _)) =>
      FoundCompleted(key, replies) || FoundGone(replies)
  }

  /** When a call is in the listing after a 404. */
  ghost predicate InListing(reserved: Option<Reservation>, runId: RunId, counts: seq<nat>, replies: seq<Reply>) {
    && reserved.Some? && reserved.value.runId == Some(runId)
    && replies == [NotFound] + CountReplies(counts) && Listing(counts).ReadMore?
  }

  /** Dropping the last of some counts, in terms of replies. */
  lemma LastCountReply(counts: seq<nat>, replies: seq<Reply>)
    requires counts != [] && replies == [NotFound] + CountReplies(counts)
    ensures var init := counts[..|counts| - 1];
            && |replies| > 1 && replies[|replies| - 1] == Count(counts[|counts| - 1])
            && replies[..|replies| - 1] == [NotFound] + CountReplies(init)
            && counts == init + [counts[|counts| - 1]]
  {
    var init := counts[..|counts| - 1];
    assert CountReplies(counts) == CountReplies(init) + [Count(counts[|counts| - 1])];
  }

  lemma OneMoreCountReply(first: Reply, counts: seq<nat>, runs: nat)
    ensures [first] + CountReplies(counts + [runs]) == ([first] + CountReplies(counts)) + [Count(runs)]
  {
    assert CountReplies(counts + [runs]) == CountReplies(counts) + [Count(runs)];
  }

  /** Before its last read, a listing that goes on went on. */
  lemma ListingWentOn(counts: seq<nat>)
    requires counts != [] && Listing(counts).ReadMore?
    ensures Listing(counts[..|counts| - 1]).ReadMore?
  {
  }

  lemma {:induction false} RereadStage(reserved: Option<Reservation>, key: Key, replies: seq<Reply>, runId: RunId)
    ensures StageBy(reserved, key, replies) == Some(RereadingRun(runId)) <==>
            reserved.Some? && reserved.value.runId == Some(runId) && replies == []
  {
    if replies != [] {
      RereadStage(reserved, key, replies[..|replies| - 1], runId);
    }
  }

  lemma ListingBegins(stage: Option<Stage>, key: Key, reply: Reply, runId: RunId)
    ensures NextStage(stage, key, reply) == Some(ListingAfter404(runId, [])) <==>
            stage == Some(RereadingRun(runId)) && reply == NotFound
  {
  }

  lemma FirstListingStage(reserved: Option<Reservation>, key: Key, replies: seq<Reply>, runId: RunId)
    requires replies != []
    ensures StageBy(reserved, key, replies) == Some(ListingAfter404(runId, [])) <==>
            InListing(reserved, runId, [], replies)
  {
    var init, last := replies[..|replies| - 1], replies[|replies| - 1];
    RereadStage(reserved, key, init, runId);
    ListingBegins(StageBy(reserved, key, init), key, last, runId);
    assert [NotFound] + CountReplies([]) == [NotFound];
    assert replies == [NotFound] <==> init == [] && last == NotFound;
  }

  lemma {:induction false} ListingStage(reserved: Option<Reservation>, key: Key, replies: seq<Reply>, runId: RunId,
                                        counts: seq<nat>)
    ensures StageBy(reserved, key, replies) == Some(ListingAfter404(runId, counts)) <==>
            InListing(reserved, runId, counts, replies)
  {
    if replies != [] && counts == [] {
      FirstListingStage(reserved, key, replies, runId);
    } else if replies != [] {
      var init, last, fewer := replies[..|replies| - 1], replies[|replies| - 1], counts[..|counts| - 1];
      assert replies == init + [last];
      ListingStage(reserved, key, init, runId, fewer);
      if InListing(reserved, runId, counts, replies) {
        LastCountReply(counts, replies);
        ListingWentOn(counts);
      }
      if StageBy(reserved, key, replies) == Some(ListingAfter404(runId, counts)) {
        OneMoreCountReply(NotFound, fewer, counts[|counts| - 1]);
      }
    }
  }

  lemma FreedByListing(reserved: Option<Reservation>, key: Key, replies: seq<Reply>, counts: seq<nat>)
    requires reserved.Some? && reserved.value.runId.Some?
    requires Completes(counts) && replies == [NotFound] + CountReplies(counts)
    ensures StageBy(reserved, key, replies) == Some(FirstRefRead)
  {
    var init, fewer := replies[..|replies| - 1], counts[..|counts| - 1];
    LastCountReply(counts, replies);
    assert InListing(reserved, reserved.value.runId.value, fewer, init);
    ListingStage(reserved, key, init, reserved.value.runId.value, fewer);
  }

  /** The last answer that frees a key, by where the call was before. */
  lemma FreeingAnswer(reserved: Option<Reservation>, key: Key, replies: seq<Reply>)
    requires replies != [] && StageBy(reserved, key, replies) == Some(FirstRefRead)
    ensures reserved.Some? && reserved.value.runId.Some? && (FoundCompleted(key, replies) || FoundGone(replies))
  {
    var init, last := replies[..|replies| - 1], replies[|replies| - 1];
    assert replies == init + [last];
    var stage := StageBy(reserved, key, init).value;
    if stage.RereadingRun? {
      RereadStage(reserved, key, init, stage.runId);
    } else {
      ListingStage(reserved, key, init, stage.runId, stage.counts);
      OneMoreCountReply(NotFound, stage.counts, last.runs);
      assert (stage.counts + [last.runs])[..|stage.counts|] == stage.counts;
      assert Completes(stage.counts + [last.runs]);
    }
  }

  lemma FreeingAnswers(reserved: Option<Reservation>, key: Key, replies: seq<Reply>)
    ensures StageBy(reserved, key, replies) == Some(FirstRefRead) <==> Frees(reserved, key, replies)
  {
    if StageBy(reserved, key, replies) == Some(FirstRefRead) {
      if replies != [] {
        FreeingAnswer(reserved, key, replies);
      }
    } else if Frees(reserved, key, replies) && !FoundCompleted(key, replies) {
      var counts :| Completes(counts) && replies == [NotFound] + CountReplies(counts);
      FreedByListing(reserved, key, replies, counts);
    }
  }

  /**
   * A waiting call reaches the checks by exactly these answers: none if its key is unreserved; the
   * reserved run, completed and with its exact identity; or that run's absence followed by a
   * listing that passes. A reservation without a run is never freed.
   */
  lemma KeyIsFreedExactly(s: Server, c: CallerId, key: Key, replies: seq<Reply>)
    requires s.holder == None && c in s.callers && s.callers[c] == Caller(key, Waiting)
    ensures Stands(Run(Step(s, Acquire(c)), Answers(c, replies)), c, Caller(key, FirstRefRead)) <==>
            Frees(if key in s.reservations then Some(s.reservations[key]) else None, key, replies)
  {
    var reserved := if key in s.reservations then Some(s.reservations[key]) else None;
    CallFollows(s, c, key, replies);
    FreeingAnswers(reserved, key, replies);
  }

  // ----- Which answers send the request -----

  /** What the checks decide after some answers, from the first read of the ref on. */
  function DecideAll(key: Key, replies: seq<Reply>): Decision {
    if replies == [] then GoOn(FirstRefRead)
    else
      var before := DecideAll(key, replies[..|replies| - 1]);
      if before.GoOn? then Decide(key, before.stage, replies[|replies| - 1]) else before
  }

  lemma OneMoreDecision(key: Key, replies: seq<Reply>, last: Reply)
    ensures DecideAll(key, replies + [last]) ==
            var before := DecideAll(key, replies);
            if before.GoOn? then Decide(key, before.stage, last) else before
  {
    assert (replies + [last])[..|replies|] == replies;
  }

  lemma CheckFollows(s: Server, c: CallerId, key: Key, stage: Stage, reply: Reply)
    requires Stands(s, c, Caller(key, stage)) && Checking(stage) && !reply.Interrupt?
    ensures var decision, next := Decide(key, stage, reply), Step(s, Answer(c, reply));
            && (decision.GoOn? ==> Checking(decision.stage) && Stands(next, c, Caller(key, decision.stage)))
            && (decision.SendRequest? ==>
                  next.log != [] && next.log[|next.log| - 1] == Sent(key)
                  && Stands(next, c, Caller(key, Posting(decision.baseline, |next.log| - 1))))
  {
  }

  lemma {:induction false} ChecksFollow(s: Server, c: CallerId, key: Key, replies: seq<Reply>)
    requires Stands(s, c, Caller(key, FirstRefRead)) && Interrupt !in replies
    requires replies != [] ==> DecideAll(key, replies[..|replies| - 1]).GoOn?
    ensures var decision, next := DecideAll(key, replies), Run(s, Answers(c, replies));
            && (decision.GoOn? ==> Checking(decision.stage) && Stands(next, c, Caller(key, decision.stage)))
            && (decision.SendRequest? ==>
                  next.log != [] && next.log[|next.log| - 1] == Sent(key)
                  && Stands(next, c, Caller(key, Posting(decision.baseline, |next.log| - 1))))
  {
    if replies == [] {
      assert Answers(c, replies) == [];
    } else {
      var init := replies[..|replies| - 1];
      if init != [] {
        assert DecideAll(key, init[..|init| - 1]).GoOn?;
      }
      ChecksFollow(s, c, key, init);
      OneMoreReply(s, c, replies);
      CheckFollows(Run(s, Answers(c, init)), c, key, DecideAll(key, init).stage, replies[|replies| - 1]);
    }
  }

  /** A listing goes on until its last read. */
  lemma {:induction false} ListingGoesOn(key: Key, counts: seq<nat>)
    requires Listing(counts).ReadMore?
    ensures DecideAll(key, [RefSha(key.sha)] + CountReplies(counts)) == GoOn(ListingRuns(counts))
  {
    if counts == [] {
      OneMoreDecision(key, [], RefSha(key.sha));
      assert [] + [RefSha(key.sha)] == [RefSha(key.sha)] + CountReplies(counts);
    } else {
      var init, last := counts[..|counts| - 1], counts[|counts| - 1];
      ListingWentOn(counts);
      ListingGoesOn(key, init);
      OneMoreDecision(key, [RefSha(key.sha)] + CountReplies(init), Count(last));
      OneMoreCountReply(RefSha(key.sha), init, last);
      assert counts == init + [last];
    }
  }

  lemma ListingEnds(key: Key, counts: seq<nat>)
    requires Completes(counts)
    ensures DecideAll(key, [RefSha(key.sha)] + CountReplies(counts)) == GoOn(CounterpartRead(Listing(counts).runs))
  {
    var init, last := counts[..|counts| - 1], counts[|counts| - 1];
    ListingGoesOn(key, init);
    OneMoreDecision(key, [RefSha(key.sha)] + CountReplies(init), Count(last));
    OneMoreCountReply(RefSha(key.sha), init, last);
    assert counts == init + [last];
  }

  lemma GoodAnswersSend(key: Key, counts: seq<nat>)
    requires Completes(counts)
    ensures var good := GoodAnswers(key, counts);
            && DecideAll(key, good) == SendRequest(Listing(counts).runs)
            && DecideAll(key, good[..|good| - 1]).GoOn? && Interrupt !in good
  {
    var listed := [RefSha(key.sha)] + CountReplies(counts);
    var named := listed + [Counterpart(false)];
    var reread := named + [RefSha(key.sha)];
    ListingEnds(key, counts);
    OneMoreDecision(key, listed, Counterpart(false));
    OneMoreDecision(key, named, RefSha(key.sha));
    OneMoreDecision(key, reread, Workflow(true));
    assert GoodAnswers(key, counts) == reread + [Workflow(true)];
    assert (reread + [Workflow(true)])[..|reread|] == reread;
  }

  /** A call that finds its key free sends its request whenever all checks are good, whatever completed
      runs the listing counts. */
  lemma FreeKeyIsServed(s: Server, c: CallerId, key: Key, counts: seq<nat>)
    requires Stands(s, c, Caller(key, FirstRefRead)) && Completes(counts)
    ensures var next := Run(s, Answers(c, GoodAnswers(key, counts)));
            && next.log != [] && next.log[|next.log| - 1] == Sent(key)
            && Stands(next, c, Caller(key, Posting(Listing(counts).runs, |next.log| - 1)))
  {
    GoodAnswersSend(key, counts);
    ChecksFollow(s, c, key, GoodAnswers(key, counts));
  }
}
