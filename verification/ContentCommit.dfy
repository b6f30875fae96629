/**
 * Advancing a branch to a freshly created commit: one compare-and-swap of the ref, then at
 * most three reads of it to find out what happened.
 *
 * The branch lives on a remote that other writers share. They may move it before any of our
 * requests arrives, requests and responses may be lost, and a read may lag behind: it may be
 * answered with any head the branch has had so far.
 */
module ContentCommit {

  import opened Prelude
  import opened WriteContracts

  type Sha = string

  const MAX_ATTEMPTS: nat := 3

  // ----- The remote -----

  /** What becomes of the compare-and-swap request. */
  datatype CasFate =
    | Answered            // it arrives; the response says whether the ref was updated
    | AnsweredWithErrors  // it arrives; the response carries GraphQL errors either way
    | ResponseLost        // it arrives; the response does not
    | RequestLost
    | Refused(arrived: bool)  // the transport reports an unambiguous failure, as it also does when
                              // the response to a request that arrived is not JSON
    | NotSent             // a RuntimeError before anything was sent
    | Interrupted(arrived: bool)
  {
    predicate Arrives() {
      Answered? || AnsweredWithErrors? || ResponseLost? || ((Refused? || Interrupted?) && arrived)
    }

    predicate KnownFailed() {
      Refused? || NotSent?
    }
  }

  /** A read is answered with the head of `age` events ago. */
  datatype ReadFate = Delivered(age: nat) | Failed | Cancelled

  /** One turn of the environment: where others leave the branch, and the fate of our request. */
  datatype Turn = Turn(moveTo: Option<Sha>, cas: CasFate, read: ReadFate)

  datatype Event = Moved(to: Sha) | CasApplied(to: Sha) | CasIgnored | Saw(head: Sha) | Unseen

  /** Everything that happened to the branch. */
  datatype History = Start(head: Sha) | After(before: History, event: Event) {

    /** The branch head now. */
    function Head(): Sha {
      match this
      case Start(sha) => sha
      case After(before, Moved(sha)) => sha
      case After(before, CasApplied(sha)) => sha
      case After(before, _) => before.Head()
    }

    /** Our reads of the ref, oldest first. */
    function Reads(): seq<Event> {
      match this
      case Start(_) => []
      case After(before, event) =>
        if event.Saw? || event.Unseen? then before.Reads() + [event] else before.Reads()
    }

    /** Our mutations of the ref. */
    function Mutations(): seq<Event> {
      match this
      case Start(_) => []
      case After(before, event) =>
        if event.CasApplied? || event.CasIgnored? then before.Mutations() + [event] else before.Mutations()
    }

    /** The history up to `age` events ago. */
    function Past(age: nat): History {
      if age == 0 || Start? then this else before.Past(age - 1)
    }

    predicate EverHeld(sha: Sha) {
      Head() == sha || (After? && before.EverHeld(sha))
    }

    /** Every read that was answered saw a head that the branch had by then. */
    predicate Faithful() {
      match this
      case Start(_) => true
      case After(before, event) => before.Faithful() && (event.Saw? ==> before.EverHeld(event.head))
    }

    /** Some read saw the head of its own moment. */
    predicate SawFresh() {
      After? && ((event.Saw? && event.head == before.Head()) || before.SawFresh())
    }

    /** Every read that was answered saw the head of its own moment. */
    predicate AllFresh() {
      After? ==> before.AllFresh() && (event.Saw? ==> event.head == before.Head())
    }

    predicate Has(event: Event) {
      After? && (this.event == event || before.Has(event))
    }

    /** The branch head when observation began. */
    function Origin(): Sha {
      match this
      case Start(sha) => sha
      case After(before, _) => before.Origin()
    }

    /** No mutation of ours follows a read. */
    predicate ReadsLast() {
      match this
      case Start(_) => true
      case After(before, event) =>
        before.ReadsLast() && (event.CasApplied? || event.CasIgnored? ==> before.Reads() == [])
    }

    predicate Quiet() {
      After? ==> !event.Moved? && before.Quiet()
    }

    /** A turn begins: others write first. */
    function OthersMove(turn: Turn): History {
      match turn.moveTo
      case Some(sha) => After(this, Moved(sha))
      case None => this
    }

    /** The `updateRefs` mutation. */
    function CompareAndSwap(turn: Turn, expected: Sha, updated: Sha): History {
      var now := OthersMove(turn);
      After(now, if turn.cas.Arrives() && now.Head() == expected then CasApplied(updated) else CasIgnored)
    }

    function ReadRef(turn: Turn): History {
      var now := OthersMove(turn);
      After(now, if turn.read.Delivered? then Saw(now.Past(turn.read.age).Head()) else Unseen)
    }
  }

  lemma CasEffect(remote: History, turn: Turn, expected: Sha, updated: Sha)
    ensures var later := remote.CompareAndSwap(turn, expected, updated);
            && later.Faithful() == remote.Faithful()
            && later.Reads() == remote.Reads()
            && later.Mutations() == remote.Mutations() + [later.event]
            && (remote.ReadsLast() && remote.Reads() == [] ==> later.ReadsLast())
  {
  }

  lemma {:induction false} PastWasHeld(remote: History, age: nat)
    ensures remote.EverHeld(remote.Past(age).Head())
  {
    if age > 0 && remote.After? {
      PastWasHeld(remote.before, age - 1);
    }
  }

  function RefReply(fate: ReadFate, now: History): ReadReply<Sha> {
    match fate
    case Delivered(age) => ReadBack(now.Past(age).Head())
    case Failed => ReadFailed
    case Cancelled => ReadRaised
  }

  function Sighting(reply: ReadReply<Sha>): Event {
    match reply
    case ReadBack(sha) => Saw(sha)
    case _ => Unseen
  }

  lemma ReadEffect(remote: History, turn: Turn)
    ensures var later := remote.ReadRef(turn);
            && later.Faithful() == remote.Faithful()
            && later.Reads() == remote.Reads() + [Sighting(RefReply(turn.read, remote.OthersMove(turn)))]
            && later.Mutations() == remote.Mutations()
            && (remote.ReadsLast() ==> later.ReadsLast())
  {
    if turn.read.Delivered? {
      PastWasHeld(remote.OthersMove(turn), turn.read.age);
    }
  }

  function CasReply(fate: CasFate, applied: bool, metadata: Metadata): WriteReply<bool> {
    match fate
    case Answered => Wrote(!applied, metadata)
    case AnsweredWithErrors => Wrote(true, metadata)
    case ResponseLost => WriteFailed(GitHubFailure(true, metadata))
    case RequestLost => WriteFailed(GitHubFailure(true, metadata))
    case Refused(_) => WriteFailed(GitHubFailure(false, metadata))
    case NotSent => WriteFailed(RuntimeFailure)
    case Interrupted(_) => WriteRaised
  }

  // ----- What the reads establish -----

  /** The head seen by the last answered read. */
  function LastSeen(log: seq<Event>): Option<Sha> {
    if log == [] then None
    else
      match log[|log| - 1]
      case Saw(sha) => Some(sha)
      case _ => LastSeen(log[..|log| - 1])
  }

  /** Every read saw the old head. */
  predicate Stale(log: seq<Event>, previous: Sha) {
    log != [] ==> log[|log| - 1] == Saw(previous) && Stale(log[..|log| - 1], previous)
  }

  /**
   * A bounded reconciliation: it stops at the first failed read, at the first head other than
   * the old one, at once when the mutation is known to have failed, and otherwise after
   * `MAX_ATTEMPTS` sightings of the old head.
   */
  ghost predicate Reconciled(log: seq<Event>, previous: Sha, knownFailed: bool) {
    && 1 <= |log| <= MAX_ATTEMPTS
    && Stale(log[..|log| - 1], previous)
    && (|log| > 1 ==> !knownFailed)
    && (log[|log| - 1] == Saw(previous) ==> knownFailed || |log| == MAX_ATTEMPTS)
    && (log[|log| - 1].Saw? || log[|log| - 1].Unseen?)
  }

  lemma {:induction false} StaleAt(log: seq<Event>, previous: Sha, k: nat)
    requires Stale(log, previous) && k < |log|
    ensures log[k] == Saw(previous)
  {
    if k < |log| - 1 {
      StaleAt(log[..|log| - 1], previous, k);
    }
  }

  /** `count` reads so far have all seen the old head. */
  ghost predicate Unsettled(log: seq<Event>, previous: Sha, knownFailed: bool, count: nat) {
    |log| == count && (count > 0 ==> !knownFailed) && Stale(log, previous)
  }

  function Last(log: seq<Event>): Event
    requires log != []
  {
    log[|log| - 1]
  }

  ghost predicate IsReadback(log: seq<Event>, previous: Sha, knownFailed: bool, reply: ReadReply<Sha>) {
    && Reconciled(log, previous, knownFailed)
    && match reply
       case ReadBack(sha) => Last(log) == Saw(sha) && (sha != previous || knownFailed)
       case ReadFailed => Last(log).Unseen? || (Last(log) == Saw(previous) && !knownFailed)
       case ReadRaised => Last(log).Unseen?
  }

  /** The flags that the readback leaves for the warning. */
  ghost predicate LeftBehind(log: seq<Event>, reply: ReadReply<Sha>, attempts: nat, observed: Option<Sha>,
                             exhausted: bool, failed: bool)
    requires log != []
  {
    && attempts == |log| && observed == LastSeen(log)
    && exhausted == (reply.ReadFailed? && Last(log).Saw?)
    && failed == (reply.ReadFailed? && Last(log).Unseen?)
  }

  /** After one more answer the reconciliation has ended, or goes on. */
  lemma OneMoreRead(log: seq<Event>, answer: ReadReply<Sha>, previous: Sha, knownFailed: bool)
    requires Unsettled(log, previous, knownFailed, |log|) && |log| < MAX_ATTEMPTS
    ensures var longer := log + [Sighting(answer)];
            if answer != ReadBack(previous) || knownFailed then
              && IsReadback(longer, previous, knownFailed, answer)
              && LeftBehind(longer, answer, |log| + 1, if answer.ReadBack? then Some(answer.value) else LastSeen(log),
                            false, answer.ReadFailed?)
            else
              && Unsettled(longer, previous, knownFailed, |log| + 1)
              && LastSeen(longer) == Some(previous)
              && (|log| + 1 == MAX_ATTEMPTS ==>
                    && IsReadback(longer, previous, knownFailed, ReadFailed)
                    && LeftBehind(longer, ReadFailed, MAX_ATTEMPTS, Some(previous), true, false))
  {
    var longer := log + [Sighting(answer)];
    assert longer[..|log|] == log && longer[|log|] == Sighting(answer);
  }

  /** Whether the ref was updated: `None` if that is not known. */
  function Verdict(log: seq<Event>, previous: Sha, created: Sha, knownFailed: bool): Option<bool> {
    match LastSeen(log)
    case None => None
    case Some(sha) =>
      if log[|log| - 1].Unseen? || (sha == previous && !knownFailed) then None else Some(sha == created)
  }

  /** How the completion of the mutation is described. */
  datatype Completion = Unknown | Completed | NotConfirmed

  function Describe(writeCompleted: Option<bool>): Completion {
    match writeCompleted
    case None => Unknown
    case Some(true) => Completed
    case Some(false) => NotConfirmed
  }

  datatype Report =
    | Confirmed(completion: Completion)
    | UnchangedAfterFailure
    | DistinctHead(completion: Completion, head: Option<Sha>)
    | StillAtOldHead(completion: Completion, attempts: nat)
    | ReadbackBroken(completion: Completion, attempts: nat, lastSeen: Option<Sha>)
    | Fallback

  /** The reconciliation warning, chosen from the flags the callbacks left behind. */
  function ReconciliationWarning(previous: Sha, outcome: Outcome, observed: Option<Sha>, attempts: nat,
                                 exhausted: bool, failed: bool): Option<Report>
  {
    var completion := Describe(outcome.writeCompleted);
    if outcome.stateMatches == Some(true) then
      if completion == Completed then None else Some(Report.Confirmed(completion))
    else if outcome.readbackCompleted && outcome.stateMatches == Some(false) then
      if completion == NotConfirmed && observed == Some(previous) then
        Some(UnchangedAfterFailure)
      else
        Some(DistinctHead(completion, observed))
    else if exhausted && observed == Some(previous) then
      Some(StillAtOldHead(completion, attempts))
    else if failed then
      Some(ReadbackBroken(completion, attempts, observed))
    else
      Some(Fallback)
  }

  datatype CommitResult = CommitResult(
    refUpdated: Option<bool>,
    observed: Option<Sha>,
    attempts: nat,
    outcome: Outcome,
    warning: Option<Report>)

  /** How the fate of the one mutation and the reply to it are related. */
  ghost predicate SentOnce(fate: CasFate, event: Event, created: Sha, reply: WriteReply<()>) {
    && (event == CasApplied(created) || event == CasIgnored)
    && (event == CasApplied(created) ==> fate.Arrives())
    && (reply.Wrote? <==> fate.Answered? && event == CasApplied(created))
    && (reply.WriteRaised? <==> fate.Interrupted?)
    && (reply.WriteFailed? && !reply.failure.Ambiguous() <==> fate.KnownFailed())
  }

  /** `write_completed` says what was reported: a success only for a ref that was updated, and a
      failure for every unambiguous one. */
  ghost predicate Reports(fate: CasFate, event: Event, created: Sha, writeCompleted: Option<bool>) {
    && (event == CasApplied(created) || event == CasIgnored)
    && (writeCompleted == Some(true) <==> fate.Answered? && event == CasApplied(created))
    && (writeCompleted == Some(false) <==> fate.KnownFailed())
  }

  /** The warning that a verdict deserves, by what was seen. */
  function DueWarning(log: seq<Event>, previous: Sha, verdict: Option<bool>, completion: Completion): Option<Report>
    requires log != []
  {
    match verdict
    case Some(true) => if completion == Completed then None else Some(Report.Confirmed(completion))
    case Some(false) =>
      if Last(log) == Saw(previous) then Some(UnchangedAfterFailure)
      else Some(DistinctHead(completion, LastSeen(log)))
    case None =>
      if Last(log).Unseen? then Some(ReadbackBroken(completion, |log|, LastSeen(log)))
      else Some(StillAtOldHead(completion, MAX_ATTEMPTS))
  }

  ghost predicate IsResult(result: CommitResult, log: seq<Event>, previous: Sha, created: Sha)
    requires log != []
  {
    var completion := Describe(result.outcome.writeCompleted);
    && result.refUpdated == Verdict(log, previous, created, completion == NotConfirmed)
    && result.observed == LastSeen(log)
    && result.attempts == |log|
    && result.outcome.preconditionChecked
    && result.outcome.stateMatches == result.refUpdated
    && result.warning == DueWarning(log, previous, result.refUpdated, completion)
  }

  lemma {:induction false} NothingOfOurs(history: History)
    requires history.Reads() == history.Mutations() == []
    ensures history.Faithful() && history.ReadsLast()
  {
    if history.After? {
      NothingOfOurs(history.before);
    }
  }

  class CommitService {
    const turns: nat -> Turn
    const metadata: Metadata
    const previous: Sha
    const created: Sha
    var clock: nat
    var remote: History
    var casKnownFailed: bool
    var attempts: nat
    var observed: Option<Sha>
    var exhausted: bool
    var readbackFailed: bool

    /** The state when the mutation is about to be sent: nothing of ours is in the branch's past. */
    ghost predicate Initial()
      reads this
    {
      && remote.Faithful() && remote.ReadsLast() && remote.Reads() == remote.Mutations() == []
      && !casKnownFailed && attempts == 0 && observed == None && !exhausted && !readbackFailed
    }

    constructor (turns: nat -> Turn, metadata: Metadata, past: History, previous: Sha, created: Sha)
      requires past.Reads() == past.Mutations() == []
      ensures Initial() && remote == past
      ensures this.turns == turns && this.metadata == metadata && this.previous == previous && this.created == created
    {
      this.turns, this.metadata, this.previous, this.created := turns, metadata, previous, created;
      clock, remote, casKnownFailed, attempts := 0, past, false, 0;
      NothingOfOurs(past);
      observed, exhausted, readbackFailed := None, false, false;
    }

    /** The one mutation. It is known to have failed exactly when its reply is an unambiguous failure. */
    method WriteRef() returns (reply: WriteReply<()>)
      requires Initial()
      modifies this`clock, this`remote, this`casKnownFailed
      ensures remote.Faithful() && remote.ReadsLast() && remote.Reads() == []
      ensures casKnownFailed <==> reply.WriteFailed? && !reply.failure.Ambiguous()
      ensures clock == old(clock) + 1
      ensures remote == old(remote).CompareAndSwap(turns(old(clock)), previous, created)
      ensures remote.Mutations() == [remote.event] && SentOnce(turns(old(clock)).cas, remote.event, created, reply)
    {
      var turn := turns(clock);
      CasEffect(remote, turn, previous, created);
      clock, remote := clock + 1, remote.CompareAndSwap(turn, previous, created);
      match CasReply(turn.cas, remote.event == CasApplied(created), metadata) {
        case WriteFailed(failure) =>
          casKnownFailed := !failure.Ambiguous();
          reply := WriteFailed(failure);
        case Wrote(hasErrors, metadata) =>
          reply := if hasErrors then WriteFailed(GitHubFailure(true, metadata)) else Wrote((), metadata);
        case WriteRaised =>
          reply := WriteRaised;
      }
    }

    /** One read of the ref. */
    method FetchRef() returns (answer: ReadReply<Sha>)
      requires remote.Faithful() && remote.ReadsLast()
      modifies this`clock, this`remote
      ensures clock == old(clock) + 1
      ensures answer.ReadFailed? <==> turns(old(clock)).read.Failed?
      ensures answer.ReadRaised? <==> turns(old(clock)).read.Cancelled?
      ensures remote.Faithful() && remote.ReadsLast() && remote.Mutations() == old(remote.Mutations())
      ensures remote.Reads() == old(remote.Reads()) + [Sighting(answer)]
    {
      ReadEffect(remote, turns(clock));
      answer := RefReply(turns(clock).read, remote.OthersMove(turns(clock)));
      clock, remote := clock + 1, remote.ReadRef(turns(clock));
    }

    /** Reads the ref until the outcome is settled, at most `MAX_ATTEMPTS` times. */
    method ReadbackRef() returns (reply: ReadReply<Sha>)
      requires remote.Faithful() && remote.ReadsLast() && remote.Reads() == []
      requires observed == None && !exhausted && !readbackFailed
      modifies this`clock, this`remote, this`attempts, this`observed, this`exhausted, this`readbackFailed
      ensures remote.Faithful() && remote.ReadsLast() && remote.Mutations() == old(remote.Mutations())
      ensures IsReadback(remote.Reads(), previous, casKnownFailed, reply)
      ensures LeftBehind(remote.Reads(), reply, attempts, observed, exhausted, readbackFailed)
      ensures clock > old(clock) && (reply.ReadRaised? <==> turns(clock - 1).read.Cancelled?)
    {
      var attempt := 1;
      while true
        invariant 1 <= attempt <= MAX_ATTEMPTS && clock >= old(clock)
        invariant remote.Faithful() && remote.ReadsLast() && remote.Mutations() == old(remote.Mutations())
        invariant Unsettled(remote.Reads(), previous, casKnownFailed, attempt - 1)
        invariant observed == LastSeen(remote.Reads()) && !exhausted && !readbackFailed
        decreases MAX_ATTEMPTS - attempt
      {
        attempts := attempt;
        ghost var log := remote.Reads();
        var answer := FetchRef();
        OneMoreRead(log, answer, previous, casKnownFailed);
        match answer {
          case ReadFailed =>
            readbackFailed := true;
            return ReadFailed;
          case ReadRaised =>
            return ReadRaised;
          case ReadBack(sha) =>
            observed := Some(sha);
            if sha != previous || casKnownFailed {
              return ReadBack(sha);
            }
            if attempt == MAX_ATTEMPTS {
              exhausted := true;
              return ReadFailed;
            }
        }
        attempt := attempt + 1;
      }
    }

    /**
     * One mutation and at most three reads, then a verdict that is exactly what those reads
     * establish.
     */
    method Commit() returns (result: Result<CommitResult, Exception>)
      requires Initial()
      modifies this
      ensures remote.Faithful() && remote.ReadsLast() && |remote.Reads()| <= 3
      ensures clock > old(clock)
      ensures result.Err? <==> turns(old(clock)).cas.Interrupted? || turns(clock - 1).read.Cancelled?
      ensures remote.Mutations() == [old(remote).CompareAndSwap(turns(old(clock)), previous, created).event]
      ensures result.Ok? ==>
                && casKnownFailed == (result.value.outcome.writeCompleted == Some(false))
                && Reconciled(remote.Reads(), previous, casKnownFailed)
                && Reports(turns(old(clock)).cas, remote.Mutations()[0], created, result.value.outcome.writeCompleted)
                && IsResult(result.value, remote.Reads(), previous, created)
    {
      var written := WriteRef();
      if written.WriteRaised? {
        return Err(Uncaught);
      }
      var readback := ReadbackRef();
      if readback.ReadRaised? {
        return Err(Uncaught);
      }
      var outcome := Conclude(true, written, readback, sha => sha == created).outcome;
      var warning := ReconciliationWarning(previous, outcome, observed, attempts, exhausted, readbackFailed);
      var updated := if outcome.stateMatches == Some(true) then Some(true)
      else if outcome.readbackCompleted && outcome.stateMatches == Some(false) then Some(false)
      else None;
      result := Ok(CommitResult(updated, observed, attempts, outcome, warning));
    }
  }

  // ----- What the verdict says about the branch -----

  lemma {:induction false} HeadsComeFromSomewhere(history: History, sha: Sha)
    requires history.EverHeld(sha)
    ensures sha == history.Origin() || history.Has(Moved(sha)) || history.Has(CasApplied(sha))
  {
    if history.After? && history.before.EverHeld(sha) {
      HeadsComeFromSomewhere(history.before, sha);
    }
  }

  lemma {:induction false} SightingsComeFromSomewhere(history: History, sha: Sha)
    requires history.Faithful() && Saw(sha) in history.Reads()
    ensures sha == history.Origin() || history.Has(Moved(sha)) || history.Has(CasApplied(sha))
  {
    if history.event == Saw(sha) {
      HeadsComeFromSomewhere(history.before, sha);
    } else {
      SightingsComeFromSomewhere(history.before, sha);
    }
  }

  lemma {:induction false} MutationsAreRecorded(history: History, event: Event)
    requires event.CasApplied? || event.CasIgnored?
    ensures history.Has(event) <==> event in history.Mutations()
  {
    if history.After? {
      MutationsAreRecorded(history.before, event);
    }
  }

  /**
   * Success is sound: the created commit was really seen, and unless somebody else put it
   * there, our mutation did.
   */
  lemma SuccessIsSound(history: History, previous: Sha, created: Sha, knownFailed: bool)
    requires history.Faithful() && Reconciled(history.Reads(), previous, knownFailed)
    requires Verdict(history.Reads(), previous, created, knownFailed) == Some(true)
    ensures Last(history.Reads()) == Saw(created)
    ensures history.Origin() != created && !history.Has(Moved(created)) ==> CasApplied(created) in history.Mutations()
  {
    SightingsComeFromSomewhere(history, created);
    MutationsAreRecorded(history, CasApplied(created));
  }

  /**
   * A negative verdict is sound: it rests on a sighting of another commit. If the old head was
   * seen, the mutation was reported failed; otherwise the head seen is one that somebody else
   * gave the branch.
   */
  lemma FailureIsSound(history: History, previous: Sha, created: Sha, knownFailed: bool)
    requires history.Faithful() && Reconciled(history.Reads(), previous, knownFailed)
    requires history.Mutations() == [CasApplied(created)] || history.Mutations() == [CasIgnored]
    requires Verdict(history.Reads(), previous, created, knownFailed) == Some(false)
    ensures Last(history.Reads()).Saw? && Last(history.Reads()).head != created
    ensures Last(history.Reads()).head == previous ==> knownFailed
    ensures var head := Last(history.Reads()).head;
            head == previous || head == history.Origin() || history.Has(Moved(head))
  {
    var sha := Last(history.Reads()).head;
    SightingsComeFromSomewhere(history, sha);
    MutationsAreRecorded(history, CasApplied(sha));
  }

  /** Nothing is decided exactly when a read failed or three reads saw only the old head. */
  lemma UndecidedExactly(log: seq<Event>, previous: Sha, created: Sha, knownFailed: bool)
    requires Reconciled(log, previous, knownFailed)
    ensures Verdict(log, previous, created, knownFailed) == None <==>
            Last(log).Unseen? || (log == [Saw(previous), Saw(previous), Saw(previous)] && !knownFailed)
  {
    if Last(log) == Saw(previous) && !knownFailed {
      forall i | 0 <= i < |log| ensures log[i] == Saw(previous) {
        StaleAt(log, previous, i);
      }
      assert log == [Saw(previous), Saw(previous), Saw(previous)];
    }
  }

  /** What a reconciliation whose final read is answered comes to. */
  lemma AnsweredVerdict(log: seq<Event>, previous: Sha, created: Sha, knownFailed: bool)
    requires Reconciled(log, previous, knownFailed) && Last(log).Saw?
    ensures Last(log) in log && (|log| > 1 ==> Saw(previous) in log && !knownFailed)
    ensures Verdict(log, previous, created, knownFailed) ==
            if Last(log).head == previous && !knownFailed then None else Some(Last(log).head == created)
    ensures Last(log).head == previous && !knownFailed ==> |log| == MAX_ATTEMPTS
  {
    if |log| > 1 {
      StaleAt(log[..|log| - 1], previous, 0);
      assert log[0] == Saw(previous);
    }
  }

  predicate Applied(history: History, created: Sha) {
    history.Mutations() == [CasApplied(created)]
  }

  lemma AppliedBefore(history: History, created: Sha)
    requires Applied(history, created)
    ensures history.After?
    ensures if history.event.CasApplied? then history.event == CasApplied(created)
            else Applied(history.before, created)
  {
    assert history.Mutations()[|history.Mutations()| - 1] == CasApplied(created);
  }

  lemma {:induction false} NobodyMoved(history: History, sha: Sha)
    requires history.Quiet()
    ensures !history.Has(Moved(sha))
  {
    if history.After? {
      NobodyMoved(history.before, sha);
    }
  }

  /** On a quiet branch a read sees the old head, or after an applied mutation possibly the new one. */
  lemma QuietSightings(history: History, sha: Sha)
    requires history.Quiet() && history.Faithful() && Saw(sha) in history.Reads()
    ensures sha == history.Origin() || CasApplied(sha) in history.Mutations()
  {
    SightingsComeFromSomewhere(history, sha);
    MutationsAreRecorded(history, CasApplied(sha));
    NobodyMoved(history, sha);
  }

  lemma {:induction false} QuietHead(history: History, created: Sha)
    requires history.Quiet() && Applied(history, created)
    ensures history.Head() == created
  {
    AppliedBefore(history, created);
    if !history.event.CasApplied? {
      QuietHead(history.before, created);
    }
  }

  lemma {:induction false} NoReadsNothingSeen(history: History)
    requires history.Reads() == []
    ensures !history.SawFresh()
  {
    if history.After? {
      NoReadsNothingSeen(history.before);
    }
  }

  /** After an applied mutation on a quiet branch, the fresh reads are those that see its commit. */
  lemma {:induction false} QuietFresh(history: History, created: Sha)
    requires history.Quiet() && history.ReadsLast() && Applied(history, created) && history.Origin() != created
    ensures history.SawFresh() <==> Saw(created) in history.Reads()
    ensures history.AllFresh() ==> forall read :: read in history.Reads() && read.Saw? ==> read == Saw(created)
  {
    AppliedBefore(history, created);
    if history.event.CasApplied? {
      NoReadsNothingSeen(history.before);
    } else {
      QuietHead(history.before, created);
      QuietFresh(history.before, created);
    }
  }

  /** Every read but the last saw the old head. */
  lemma OnlyTheLast(log: seq<Event>, previous: Sha, created: Sha, knownFailed: bool)
    requires Reconciled(log, previous, knownFailed) && previous != created
    ensures Saw(created) in log <==> Last(log) == Saw(created)
  {
    if Saw(created) in log {
      var k :| 0 <= k < |log| && log[k] == Saw(created);
      if k < |log| - 1 {
        StaleAt(log[..|log| - 1], previous, k);
      }
    }
    assert Last(log) in log;
  }

  /**
   * When nobody else writes and the final read is answered, the verdict is exact: success if and
   * only if the mutation was applied and some read was fresh; otherwise failure if and only if
   * the mutation was reported failed; and otherwise nothing, after all the reads.
   */
  lemma QuietVerdict(history: History, previous: Sha, created: Sha, knownFailed: bool)
    requires history.Faithful() && history.ReadsLast() && history.Quiet()
    requires history.Origin() == previous != created
    requires Applied(history, created) || history.Mutations() == [CasIgnored]
    requires Reconciled(history.Reads(), previous, knownFailed) && !Last(history.Reads()).Unseen?
    ensures Verdict(history.Reads(), previous, created, knownFailed) ==
            if Applied(history, created) && history.SawFresh() then Some(true)
            else if knownFailed then Some(false)
            else None
    ensures knownFailed ==> |history.Reads()| == 1
    ensures Verdict(history.Reads(), previous, created, knownFailed) == None ==> |history.Reads()| == MAX_ATTEMPTS
  {
    var log := history.Reads();
    AnsweredVerdict(log, previous, created, knownFailed);
    QuietSightings(history, Last(log).head);
    if Applied(history, created) {
      QuietFresh(history, created);
      OnlyTheLast(log, previous, created, knownFailed);
    }
  }

  /** When moreover no read lags, an applied mutation is confirmed by the first one. */
  lemma FreshQuietVerdict(history: History, previous: Sha, created: Sha, knownFailed: bool)
    requires history.Faithful() && history.ReadsLast() && history.Quiet() && history.AllFresh()
    requires history.Origin() == previous != created
    requires Applied(history, created) || history.Mutations() == [CasIgnored]
    requires Reconciled(history.Reads(), previous, knownFailed) && !Last(history.Reads()).Unseen?
    ensures Verdict(history.Reads(), previous, created, knownFailed) ==
            if Applied(history, created) then Some(true) else if knownFailed then Some(false) else None
    ensures Applied(history, created) ==> |history.Reads()| == 1
  {
    var log := history.Reads();
    QuietVerdict(history, previous, created, knownFailed);
    AnsweredVerdict(log, previous, created, knownFailed);
    if Applied(history, created) {
      QuietFresh(history, created);
    }
  }

  // ----- What the warning says -----

  /** Each warning has its cause: how the mutation was answered, and what was seen last. */
  lemma WarningsMeanWhatTheySay(result: CommitResult, log: seq<Event>, previous: Sha, created: Sha)
    requires log != [] && IsResult(result, log, previous, created)
    requires Reconciled(log, previous, result.outcome.writeCompleted == Some(false))
    ensures result.warning == None <==>
            result.outcome.writeCompleted == Some(true) && Last(log) == Saw(created) && created != previous
    ensures result.warning == Some(UnchangedAfterFailure) <==>
            result.outcome.writeCompleted == Some(false) && Last(log) == Saw(previous) && created != previous
    ensures result.warning.Some? && (result.warning.value.Confirmed? || result.warning.value.DistinctHead?
                                     || result.warning.value.StillAtOldHead? || result.warning.value.ReadbackBroken?) ==>
              && (result.warning.value.completion == Unknown <==> result.outcome.writeCompleted == None)
              && (result.warning.value.completion == Completed <==> result.outcome.writeCompleted == Some(true))
              && (result.warning.value.completion == NotConfirmed <==> result.outcome.writeCompleted == Some(false))
    ensures result.warning.Some? && result.warning.value.DistinctHead? ==>
              Last(log).Saw? && result.warning.value.head == Some(Last(log).head) && Last(log).head !in {previous, created}
    ensures result.warning.Some? && result.warning.value.ReadbackBroken? <==> Last(log).Unseen?
    ensures result.warning.Some? && result.warning.value.StillAtOldHead? <==>
            Last(log) == Saw(previous) && result.outcome.writeCompleted != Some(false)
    ensures result.warning.Some? && result.warning.value.StillAtOldHead? ==> result.warning.value.attempts == |log| == 3
    ensures result.warning.Some? && result.warning.value.ReadbackBroken? ==>
              && result.warning.value.attempts == |log|
              && result.warning.value.lastSeen == if |log| == 1 then None else Some(previous)
    ensures result.warning != Some(Fallback)
  {
    var before := log[..|log| - 1];
    assert LastSeen(before) == if before == [] then None else Some(previous);
  }

  // ----- Reported failures -----

  /**
   * A mutation that is reported failed was applied all the same exactly when the request arrived,
   * the response could not be read, and the branch was at the old head.
   */
  lemma ReportedFailureExactly(past: History, turn: Turn, previous: Sha, created: Sha)
    requires turn.cas.KnownFailed()
    ensures past.CompareAndSwap(turn, previous, created).event.CasApplied? <==>
            turn.cas == Refused(true) && past.OthersMove(turn).Head() == previous
  {
  }

  /** Then one lagging read yields a negative verdict for a branch that is at the created commit. */
  lemma ReportedFailureCanBeWrong()
    ensures var turn := Turn(None, Refused(true), Delivered(1));
            var history := Start("old").CompareAndSwap(turn, "old", "new").ReadRef(turn);
            && history.Faithful() && Reconciled(history.Reads(), "old", turn.cas.KnownFailed())
            && Verdict(history.Reads(), "old", "new", turn.cas.KnownFailed()) == Some(false)
            && history.Head() == "new"
  {
    var turn := Turn(None, Refused(true), Delivered(1));
    var sent := Start("old").CompareAndSwap(turn, "old", "new");
    assert sent == After(Start("old"), CasApplied("new"));
    assert sent.Past(1) == Start("old");
    var history := sent.ReadRef(turn);
    assert history == After(sent, Saw("old"));
    assert history.Reads() == [Saw("old")];
    assert [Saw("old")][..0] == [];
  }
}
