/**
 * Exact-state writes: an optional precondition, one mutation, and an authoritative
 * readback that never replays the mutation.
 *
 * A callback is represented by the reply it gives. Failures come in three kinds: an
 * error of the governed transport, which says whether the mutation may have happened; any
 * other RuntimeError; and an exception of another class, such as a cancellation, which no
 * handler here catches.
 */
module WriteContracts {

  import opened Prelude

  datatype Metadata = Metadata(requestId: Option<string>, warning: Option<string>)

  datatype Failure = GitHubFailure(ambiguous: bool, metadata: Metadata) | RuntimeFailure {
    predicate Ambiguous() {
      GitHubFailure? && ambiguous
    }
  }

  datatype WriteReply<+V> = Wrote(value: V, metadata: Metadata) | WriteFailed(failure: Failure) | WriteRaised

  datatype ReadReply<+V> = ReadBack(value: V) | ReadFailed | ReadRaised

  datatype PreconditionReply = Checked(matches: bool) | Mismatched | CheckFailed

  /** What the readback established about the requested state. */
  datatype Verification = Unread | Confirmed | Contradicted

  /** The kinds of warning; transport warnings keep their text. */
  datatype Notice =
    | Transport(text: string)
    | WriteError(ambiguous: bool, verification: Verification)
    | ReadbackFailure
    | SemanticMismatch

  datatype Outcome = Outcome(
    preconditionChecked: bool,
    writeCompleted: Option<bool>,
    readbackCompleted: bool,
    stateMatches: Option<bool>,
    notices: seq<Notice>,
    requestId: Option<string>)

  datatype Execution<+W, +R> = Execution(
    outcome: Outcome, written: Option<W>, readback: Option<R>, error: Option<Failure>)

  datatype Exception = PreconditionMismatch | PreconditionFailed | Uncaught | InconsistentReadback

  /** The callbacks in the order they are made. */
  datatype Call = Check | Write | Readback

  function TransportNotices(warning: Option<string>): seq<Notice> {
    match warning
    case Some(text) => [Transport(text)]
    case None => []
  }

  function FailureNotices(failure: Failure): seq<Notice> {
    match failure
    case GitHubFailure(_, metadata) => TransportNotices(metadata.warning)
    case RuntimeFailure => []
  }

  function RequestIdOf(failure: Failure): Option<string> {
    match failure
    case GitHubFailure(_, metadata) => metadata.requestId
    case RuntimeFailure => None
  }

  function Verify(stateMatches: Option<bool>): Verification {
    match stateMatches
    case None => Unread
    case Some(true) => Confirmed
    case Some(false) => Contradicted
  }

  /** Outcome metadata, refused when its readback fields contradict each other. */
  function MakeOutcome(preconditionChecked: bool, writeCompleted: Option<bool>, readbackCompleted: bool,
                       stateMatches: Option<bool>, notices: seq<Notice>, requestId: Option<string>)
    : Result<Outcome, Exception>
  {
    if readbackCompleted != stateMatches.Some? then
      Err(InconsistentReadback)
    else
      var notices := if stateMatches == Some(false) then notices + [SemanticMismatch] else notices;
      Ok(Outcome(preconditionChecked, writeCompleted, readbackCompleted, stateMatches, notices, requestId))
  }

  /** How a tool classifies a failed mutation that it read back by itself. */
  function WriteErrorOutcome(preconditionChecked: bool, failure: Failure, readbackCompleted: bool,
                             stateMatches: Option<bool>): Result<Outcome, Exception>
  {
    var verification := if readbackCompleted then
                          (if stateMatches == Some(true) then Confirmed else Contradicted)
                        else Unread;
    MakeOutcome(preconditionChecked, if failure.Ambiguous() then None else Some(false), readbackCompleted,
                stateMatches, FailureNotices(failure) + [WriteError(failure.Ambiguous(), verification)],
                RequestIdOf(failure))
  }

  predicate Accepts<T(==)>(actual: T, expected: T, matches: Option<(T, T) -> bool>) {
    if matches.None? then actual == expected else matches.value(actual, expected)
  }

  /** A precondition built from one authoritative read of the current state, compared by equality
      unless the caller gives another comparison. */
  function RequireWritePrecondition<T(==)>(current: ReadReply<T>, expected: T, matches: Option<(T, T) -> bool>)
    : PreconditionReply
  {
    match current
    case ReadBack(actual) => if Accepts(actual, expected, matches) then Checked(true) else Mismatched
    case _ => CheckFailed
  }

  /** The part of `execute_write_readback` after both callbacks returned or raised a RuntimeError. */
  function Conclude<W, R>(checked: bool, write: WriteReply<W>, readback: ReadReply<R>, matches: R -> bool)
    : Execution<W, R>
    requires !write.WriteRaised? && !readback.ReadRaised?
  {
    var value := if readback.ReadBack? then Some(readback.value) else None;
    var stateMatches := if readback.ReadBack? then Some(matches(readback.value)) else None;
    match write
    case Wrote(written, metadata) =>
      var notices := TransportNotices(metadata.warning)
                     + (match Verify(stateMatches)
                        case Unread => [ReadbackFailure]
                        case Contradicted => [SemanticMismatch]
                        case Confirmed => []);
      Execution(Outcome(checked, Some(true), readback.ReadBack?, stateMatches, notices, metadata.requestId),
                Some(written), value, None)
    case WriteFailed(failure) =>
      var notices := FailureNotices(failure) + [WriteError(failure.Ambiguous(), Verify(stateMatches))];
      Execution(Outcome(checked, if failure.Ambiguous() then None else Some(false), readback.ReadBack?,
                        stateMatches, notices, RequestIdOf(failure)),
                None, value, Some(failure))
  }

  /** What the environment answers when it is called, and the calls made so far. */
  class Callbacks<W, R> {
    const precondition: Option<PreconditionReply>
    const write: WriteReply<W>
    const readback: ReadReply<R>
    ghost var calls: seq<Call>

    constructor (precondition: Option<PreconditionReply>, write: WriteReply<W>, readback: ReadReply<R>)
      ensures this.precondition == precondition && this.write == write && this.readback == readback
      ensures calls == []
    {
      this.precondition, this.write, this.readback, calls := precondition, write, readback, [];
    }

    method CheckPrecondition() returns (reply: PreconditionReply)
      requires precondition.Some?
      modifies this
      ensures calls == old(calls) + [Check] && reply == precondition.value
    {
      calls := calls + [Check];
      reply := precondition.value;
    }

    method SendWrite() returns (reply: WriteReply<W>)
      modifies this
      ensures calls == old(calls) + [Write] && reply == write
    {
      calls := calls + [Write];
      reply := write;
    }

    method ReadAgain() returns (reply: ReadReply<R>)
      modifies this
      ensures calls == old(calls) + [Readback] && reply == readback
    {
      calls := calls + [Readback];
      reply := readback;
    }
  }

  predicate Cleared(precondition: Option<PreconditionReply>) {
    precondition.Some? ==> precondition.value == Checked(true)
  }

  /** The calls that are due: the mutation once, only after a check that passed, and the readback right
      after it unless the mutation raised past the handlers. */
  function DueCalls<W>(precondition: Option<PreconditionReply>, write: WriteReply<W>): seq<Call> {
    (if precondition.Some? then [Check] else [])
    + (if !Cleared(precondition) then [] else if write.WriteRaised? then [Write] else [Write, Readback])
  }

  /** The transport metadata that came with the reply, if any. */
  function MetadataOf<W>(write: WriteReply<W>): Option<Metadata> {
    match write
    case Wrote(_, metadata) => Some(metadata)
    case WriteFailed(GitHubFailure(_, metadata)) => Some(metadata)
    case _ => None
  }

  /** Which notice of its own the protocol adds, by the reply and what the readback established. */
  predicate DueNotice<W>(notice: Notice, write: WriteReply<W>, stateMatches: Option<bool>) {
    match notice
    case Transport(text) => MetadataOf(write).Some? && MetadataOf(write).value.warning == Some(text)
    case ReadbackFailure => write.Wrote? && stateMatches == None
    case SemanticMismatch => write.Wrote? && stateMatches == Some(false)
    case WriteError(ambiguous, verification) =>
      && write.WriteFailed?
      && ambiguous == (write.failure.GitHubFailure? && write.failure.ambiguous)
      && (verification == Unread <==> stateMatches == None)
      && (verification == Confirmed <==> stateMatches == Some(true))
      && (verification == Contradicted <==> stateMatches == Some(false))
  }

  /**
   * The tri-state verdicts mean what they say: completion is unknown exactly for an ambiguous
   * failure, the state is judged exactly when the readback completed, every notice has its
   * cause, and silence about the write means a confirmed one.
   */
  ghost predicate IsVerdict<W, R>(e: Execution<W, R>, checked: bool, write: WriteReply<W>,
                                  readback: ReadReply<R>, matches: R -> bool)
  {
    var outcome := e.outcome;
    && outcome.preconditionChecked == checked
    && (outcome.writeCompleted == Some(true) <==> write.Wrote?)
    && (outcome.writeCompleted == None <==>
          write.WriteFailed? && write.failure.GitHubFailure? && write.failure.ambiguous)
    && outcome.readbackCompleted == readback.ReadBack? == outcome.stateMatches.Some?
    && (outcome.stateMatches == Some(true) <==> readback.ReadBack? && matches(readback.value))
    && (forall notice :: notice in outcome.notices <==> DueNotice(notice, write, outcome.stateMatches))
    && outcome.requestId == (if MetadataOf(write).Some? then MetadataOf(write).value.requestId else None)
    && (outcome.notices == [] ==> write.Wrote? && outcome.stateMatches == Some(true))
    && (write.Wrote? ==> e.written == Some(write.value) && e.error == None)
    && (write.WriteFailed? ==> e.written == None && e.error == Some(write.failure))
    && (if readback.ReadBack? then e.readback == Some(readback.value) else e.readback == None)
  }

  lemma ConcludeIsVerdict<W, R>(checked: bool, write: WriteReply<W>, readback: ReadReply<R>, matches: R -> bool)
    requires !write.WriteRaised? && !readback.ReadRaised?
    ensures IsVerdict(Conclude(checked, write, readback, matches), checked, write, readback, matches)
  {
  }

  /** The whole protocol. */
  method ExecuteWriteReadback<W, R>(callbacks: Callbacks<W, R>, matches: R -> bool)
    returns (r: Result<Execution<W, R>, Exception>)
    requires callbacks.calls == []
    modifies callbacks
    ensures callbacks.calls == DueCalls(callbacks.precondition, callbacks.write)
    ensures r.Ok? <==> Cleared(callbacks.precondition) && !callbacks.write.WriteRaised? && !callbacks.readback.ReadRaised?
    ensures r.Ok? ==>
              && r.value == Conclude(callbacks.precondition.Some?, callbacks.write, callbacks.readback, matches)
              && IsVerdict(r.value, callbacks.precondition.Some?, callbacks.write, callbacks.readback, matches)
    ensures r == Err(PreconditionMismatch) <==>
              callbacks.precondition == Some(Mismatched) || callbacks.precondition == Some(Checked(false))
    ensures r == Err(PreconditionFailed) <==> callbacks.precondition == Some(CheckFailed)
  {
    if callbacks.precondition.Some? {
      var check := callbacks.CheckPrecondition();
      if check.CheckFailed? {
        return Err(PreconditionFailed);
      }
      if check != Checked(true) {
        return Err(PreconditionMismatch);
      }
    }
    var written := callbacks.SendWrite();
    if written.WriteRaised? {
      return Err(Uncaught);
    }
    var readback := callbacks.ReadAgain();
    if readback.ReadRaised? {
      return Err(Uncaught);
    }
    ConcludeIsVerdict(callbacks.precondition.Some?, written, readback, matches);
    r := Ok(Conclude(callbacks.precondition.Some?, written, readback, matches));
  }

  /** A precondition read with the public helper is never refused a second time by the protocol. */
  lemma DefensiveCheckIsRedundant<T, W>(current: ReadReply<T>, expected: T, matches: Option<(T, T) -> bool>,
                                        write: WriteReply<W>)
    ensures var precondition := RequireWritePrecondition(current, expected, matches);
            && precondition != Checked(false)
            && (Write in DueCalls(Some(precondition), write) <==>
                  current.ReadBack?
                  && if matches.Some? then matches.value(current.value, expected) else current.value == expected)
  {
  }

  /**
   * The two classifiers of a failed write accept the same evidence, and give the same outcome
   * unless the readback contradicts the request: then the standalone one adds a second warning.
   */
  lemma ClassifiersAgree<W, R>(checked: bool, failure: Failure, readback: ReadReply<R>, matches: R -> bool)
    requires !readback.ReadRaised?
    ensures var outcome := Conclude<W, R>(checked, WriteFailed(failure), readback, matches).outcome;
            var standalone := WriteErrorOutcome(checked, failure, outcome.readbackCompleted, outcome.stateMatches);
            && standalone.Ok?
            && (standalone.value == outcome <==> outcome.stateMatches != Some(false))
            && standalone.value.(notices := outcome.notices) == outcome
            && (outcome.stateMatches == Some(false) ==>
                  standalone.value.notices == outcome.notices + [SemanticMismatch])
  {
    var outcome := Conclude<W, R>(checked, WriteFailed(failure), readback, matches).outcome;
    assert |outcome.notices + [SemanticMismatch]| != |outcome.notices|;
  }
}
