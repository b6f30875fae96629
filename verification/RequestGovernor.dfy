/**
 * The request governor: one request at a time, bounded retries of reads, spaced writes, and
 * a cooldown after rate limiting.
 *
 * Two clocks are read, a wall clock and a monotonic one; neither runs backwards, and a sleep
 * lasts at least as long as asked. The environment decides how much time passes, what each
 * operation replies, when a call is cancelled, and how often the status is asked for while a
 * call awaits. Calls are serialized by the governor's lock, so only status queries interleave.
 */
module RequestGovernor {

  import opened Prelude

  type Duration = d: real | d >= 0.0

  datatype Instant = Instant(wall: real, mono: real) {
    predicate NoLaterThan(other: Instant) {
      wall <= other.wall && mono <= other.mono
    }
  }

  datatype Kind = Read | Write

  datatype Metadata = Metadata(
    requestId: Option<string>,
    retryAfter: Option<real>,
    resetEpoch: Option<int>,
    remaining: Option<int>)

  datatype Reason = RetryAfter | PrimaryReset | Fallback

  datatype Error = Error(retryable: bool, rateLimited: bool, metadata: Metadata)

  datatype Reply = Success(metadata: Metadata) | Failure(error: Error) | Raise

  datatype Config = Config(
    writeSpacing: real,
    maxReadAttempts: int,
    backoffBase: real,
    backoffMax: real,
    rateLimitFallback: real)
  {
    predicate Valid() {
      && writeSpacing >= 1.0 && maxReadAttempts >= 1
      && 0.0 <= backoffBase <= backoffMax && rateLimitFallback > 0.0
    }
  }

  // ----- State and what changes it -----

  datatype Block = Block(until: real, reason: Reason, requestId: Option<string>)

  datatype RateEvent = RateEvent(at: real, requestId: Option<string>, reason: Reason)

  datatype State = State(lastWriteFinished: Option<real>, block: Option<Block>, lastRateEvent: Option<RateEvent>)

  const FRESH := State(None, None, None)

  function Max(a: real, b: real): real {
    if a >= b then a else b
  }

  function Min(a: real, b: real): real {
    if a <= b then a else b
  }

  /** The deadline that a rate-limit response sets, and why. */
  function Deadline(config: Config, metadata: Metadata, wall: real): (real, Reason) {
    if metadata.retryAfter.Some? then
      (wall + Max(metadata.retryAfter.value, 0.0), RetryAfter)
    else if metadata.remaining == Some(0) && metadata.resetEpoch.Some? then
      (metadata.resetEpoch.value as real, PrimaryReset)
    else
      (wall + config.rateLimitFallback, Fallback)
  }

  /** Deadlines only ever move forward. */
  function RecordRateLimit(config: Config, s: State, metadata: Metadata, computed: Instant, noted: Instant): State {
    var (deadline, reason) := Deadline(config, metadata, computed.wall);
    var block := Block(deadline, reason, metadata.requestId);
    s.(lastRateEvent := Some(RateEvent(noted.wall, metadata.requestId, reason)),
       block := if s.block.None? || deadline > s.block.value.until then Some(block) else s.block)
  }

  /** Whether a successful response reports that the primary limit is exhausted for now. */
  predicate Exhausted(metadata: Metadata, wall: real) {
    metadata.remaining == Some(0) && metadata.resetEpoch.Some? && metadata.resetEpoch.value as real > wall
  }

  function Expire(s: State, now: real): State {
    if s.block.None? || now < s.block.value.until then s else s.(block := None)
  }

  function PacingDelay(config: Config, s: State, mono: real): Duration {
    match s.lastWriteFinished
    case None => 0.0
    case Some(finished) => Max(config.writeSpacing - (mono - finished), 0.0)
  }

  function Power(n: nat): real {
    if n == 0 then 1.0 else 2.0 * Power(n - 1)
  }

  function BackoffDelay(config: Config, attempts: nat): real
    requires attempts >= 1
  {
    Min(config.backoffBase * Power(attempts - 1), config.backoffMax)
  }

  /** Why the governor sleeps: to space writes, or before it repeats a failed read. */
  datatype Pause = Pacing | Backoff(attempts: nat, error: Error)

  /** What happens to one governor. */
  datatype Event =
    | Enforced(at: Instant)                                        // the cooldown is checked
    | Started(kind: Kind, at: Instant)                             // an operation is sent
    | WriteFinished(at: Instant)
    | RateLimited(metadata: Metadata, computed: Instant, at: Instant)
    | Succeeded(metadata: Metadata, checked: Instant, computed: Instant, at: Instant)
    | Slept(why: Pause, delay: real, at: Instant)
    | Asked(at: Instant)                                           // rate_status

  function Apply(config: Config, s: State, event: Event): State {
    match event
    case Enforced(at) => Expire(s, at.wall)
    case Asked(at) => Expire(s, at.wall)
    case WriteFinished(at) => s.(lastWriteFinished := Some(at.mono))
    case RateLimited(metadata, computed, at) => RecordRateLimit(config, s, metadata, computed, at)
    case Succeeded(metadata, checked, computed, at) =>
      if Exhausted(metadata, checked.wall) then RecordRateLimit(config, s, metadata, computed, at) else s
    case _ => s
  }

  function First(event: Event): Instant {
    match event
    case RateLimited(_, computed, _) => computed
    case Succeeded(_, checked, _, _) => checked
    case _ => event.at
  }

  predicate SetsDeadline(event: Event) {
    event.RateLimited? || (event.Succeeded? && Exhausted(event.metadata, event.checked.wall))
  }

  function NewDeadline(config: Config, event: Event): real
    requires event.RateLimited? || event.Succeeded?
  {
    Deadline(config, event.metadata, event.computed.wall).0
  }

  /** Everything that happened, latest last. */
  datatype Trace = Empty | Then(before: Trace, event: Event) {

    function State(config: Config): State {
      match this
      case Empty => FRESH
      case Then(before, event) => Apply(config, before.State(config), event)
    }

    /** Time does not run backwards. */
    predicate Ordered() {
      match this
      case Empty => true
      case Then(before, event) =>
        && before.Ordered()
        && before.EndsBy(First(event))
        && First(event).NoLaterThan(event.at)
        && (event.Succeeded? ==> event.checked.NoLaterThan(event.computed))
        && (event.Succeeded? ==> event.computed.NoLaterThan(event.at))
    }

    predicate EndsBy(now: Instant) {
      Then? ==> event.at.NoLaterThan(now)
    }

    /** The deadlines recorded so far have all passed. */
    predicate DeadlinesPassed(config: Config, wall: real) {
      match this
      case Empty => true
      case Then(before, event) =>
        before.DeadlinesPassed(config, wall) && (SetsDeadline(event) ==> NewDeadline(config, event) <= wall)
    }

    /** No operation starts before a deadline recorded earlier. */
    predicate RespectsCooldown(config: Config) {
      match this
      case Empty => true
      case Then(before, event) =>
        before.RespectsCooldown(config) && (event.Started? ==> before.DeadlinesPassed(config, event.at.wall))
    }

    /** Rate-limit information is only taken in while nothing is blocked. */
    predicate TakesInFree(config: Config) {
      match this
      case Empty => true
      case Then(before, event) =>
        && before.TakesInFree(config)
        && (event.RateLimited? || event.Succeeded? ==> before.State(config).block.None?)
    }

    /** Each sleep has a cause and the length that is due for it; only transient failures are retried. */
    predicate PausesAreDue(config: Config) {
      match this
      case Empty => true
      case Then(before, event) =>
        && before.PausesAreDue(config)
        && (event.Slept? ==>
              match event.why
              case Pacing => event.delay == PacingDelay(config, before.State(config), event.at.mono)
              case Backoff(attempts, error) =>
                && attempts >= 1 && event.delay == BackoffDelay(config, attempts)
                && error.retryable && !error.rateLimited)
    }

    /** Writes alternate with their ends, and each waits out the spacing since the last end. */
    predicate Spaced(config: Config) {
      match this
      case Empty => true
      case Then(before, event) =>
        && before.Spaced(config)
        && (event.WriteFinished? ==> before.Open())
        && (event.Started? ==> !before.Open())
        && (event.Started? && event.kind.Write? && before.State(config).lastWriteFinished.Some? ==>
              event.at.mono >= before.State(config).lastWriteFinished.value + config.writeSpacing)
    }

    /** A write has started and not finished. */
    predicate Open() {
      match this
      case Empty => false
      case Then(before, event) => (event.Started? && event.kind.Write?) || (before.Open() && !event.WriteFinished?)
    }

    /** When writes started and finished, on the monotonic clock. */
    function WriteStarts(): seq<real> {
      match this
      case Empty => []
      case Then(before, event) =>
        before.WriteStarts() + (if event.Started? && event.kind.Write? then [event.at.mono] else [])
    }

    function WriteFinishes(): seq<real> {
      match this
      case Empty => []
      case Then(before, event) =>
        before.WriteFinishes() + (if event.WriteFinished? then [event.at.mono] else [])
    }

    /** Operations sent so far. */
    function Starts(): nat {
      match this
      case Empty => 0
      case Then(before, event) => before.Starts() + (if event.Started? then 1 else 0)
    }

    /** Time asked for in backoffs so far. */
    function Backoff(): real {
      match this
      case Empty => 0.0
      case Then(before, event) => before.Backoff() + (if event.Slept? && event.why.Backoff? then event.delay else 0.0)
    }

    /** The same history without the status queries. */
    function WithoutStatus(): Trace {
      match this
      case Empty => Empty
      case Then(before, event) =>
        if event.Asked? then before.WithoutStatus() else Then(before.WithoutStatus(), event)
    }
  }

  // ----- Status queries are invisible -----

  /** The block in force at a time, if any: what decides whether a request is let through. */
  function Decision(s: State, now: real): Option<Block> {
    if s.block.Some? && now < s.block.value.until then s.block else None
  }

  /** Two states that agree on everything from now on. */
  predicate Alike(s: State, t: State, now: real) {
    && s.lastWriteFinished == t.lastWriteFinished && s.lastRateEvent == t.lastRateEvent
    && (s.block == t.block || (Decision(s, now) == None && Decision(t, now) == None))
  }

  lemma AlikeAfter(config: Config, s: State, t: State, event: Event, now: real)
    requires Alike(s, t, now) && now <= First(event).wall && First(event).wall <= event.at.wall
    ensures Alike(Apply(config, s, event), Apply(config, t, event), event.at.wall)
    ensures event.Asked? ==> Alike(Apply(config, s, event), t, event.at.wall)
  {
  }

  lemma {:induction false} AlikeWithoutStatus(config: Config, trace: Trace)
    requires trace.Ordered() && trace.Then?
    ensures Alike(trace.State(config), trace.WithoutStatus().State(config), trace.event.at.wall)
  {
    var first := First(trace.event).wall;
    if trace.before.Then? {
      AlikeWithoutStatus(config, trace.before);
    }
    AlikeAfter(config, trace.before.State(config), trace.before.WithoutStatus().State(config), trace.event, first);
  }

  /**
   * Two histories that differ only in status queries let the same requests through, block the
   * others for the same reason and time, and delay writes alike.
   */
  lemma {:induction false} StatusIsTransparent(config: Config, trace: Trace, other: Trace, now: Instant)
    requires trace.Ordered() && other.Ordered() && trace.EndsBy(now) && other.EndsBy(now)
    requires trace.WithoutStatus() == other.WithoutStatus()
    ensures Decision(trace.State(config), now.wall) == Decision(other.State(config), now.wall)
    ensures PacingDelay(config, trace.State(config), now.mono) == PacingDelay(config, other.State(config), now.mono)
    ensures trace.State(config).lastRateEvent == other.State(config).lastRateEvent
  {
    if trace.Then? {
      AlikeWithoutStatus(config, trace);
    }
    if other.Then? {
      AlikeWithoutStatus(config, other);
    }
  }

  // ----- The cooldown -----

  lemma {:induction false} PassedStaysPassed(config: Config, trace: Trace, wall: real, later: real)
    requires trace.DeadlinesPassed(config, wall) && wall <= later
    ensures trace.DeadlinesPassed(config, later)
  {
    if trace.Then? {
      PassedStaysPassed(config, trace.before, wall, later);
    }
  }

  /** Requests are blocked exactly while some deadline recorded so far lies ahead. */
  lemma {:induction false} BlockedExactly(config: Config, trace: Trace, now: real)
    requires trace.Ordered() && (trace.Then? ==> trace.event.at.wall <= now)
    ensures Decision(trace.State(config), now) == None <==> trace.DeadlinesPassed(config, now)
  {
    if trace.Then? {
      BlockedExactly(config, trace.before, now);
    }
  }

  /** One history is a beginning of another. */
  predicate Begins(part: Trace, whole: Trace) {
    part == whole || (whole.Then? && Begins(part, whole.before))
  }

  lemma {:induction false} RespectedSoFar(config: Config, part: Trace, whole: Trace)
    requires whole.RespectsCooldown(config) && Begins(part, whole)
    ensures part.RespectsCooldown(config)
  {
    if part != whole {
      RespectedSoFar(config, part, whole.before);
    }
  }

  lemma {:induction false} PassedSoFar(config: Config, part: Trace, whole: Trace, wall: real)
    requires whole.DeadlinesPassed(config, wall) && Begins(part, whole)
    ensures part.DeadlinesPassed(config, wall)
  {
    if part != whole {
      PassedSoFar(config, part, whole.before, wall);
    }
  }

  /** Of a deadline and a later start anywhere in a history that keeps the rules, the start is not too early. */
  lemma CooldownHolds(config: Config, whole: Trace, recorded: Trace, started: Trace)
    requires whole.RespectsCooldown(config) && Begins(started, whole)
    requires started.Then? && started.event.Started? && Begins(recorded, started.before)
    requires recorded.Then? && SetsDeadline(recorded.event)
    ensures NewDeadline(config, recorded.event) <= started.event.at.wall
  {
    RespectedSoFar(config, started, whole);
    PassedSoFar(config, recorded, started.before, started.event.at.wall);
  }

  /**
   * A success that reports an exhausted limit blocks requests until the reported reset, unless
   * it carries a Retry-After as well: then that deadline counts, even when the reset is later.
   */
  lemma ResetHonoured(config: Config, s: State, metadata: Metadata, checked: Instant, computed: Instant, at: Instant)
    requires s.block.None? && Exhausted(metadata, checked.wall)
    ensures var next := Apply(config, s, Succeeded(metadata, checked, computed, at));
            (forall t :: computed.wall <= t < metadata.resetEpoch.value as real ==> Decision(next, t).Some?)
            <==> metadata.retryAfter.None?
                 || computed.wall + Max(metadata.retryAfter.value, 0.0) >= metadata.resetEpoch.value as real
  {
    var next := Apply(config, s, Succeeded(metadata, checked, computed, at));
    assert Decision(next, next.block.value.until) == None;
  }

  /**
   * The cooldown after a rate-limited failure when nothing is blocked: for the Retry-After if there
   * is one, else until the reset if the primary limit is exhausted, else for the fallback time.
   */
  lemma CooldownAfterFailure(config: Config, s: State, metadata: Metadata, computed: Instant, at: Instant, t: real)
    requires s.block.None?
    ensures var next := Apply(config, s, RateLimited(metadata, computed, at));
            var pause := metadata.retryAfter;
            var exhausted := metadata.remaining == Some(0) && metadata.resetEpoch.Some?;
            && (pause.Some? && pause.value >= 0.0 ==> (Decision(next, t).Some? <==> t < computed.wall + pause.value))
            && (pause.Some? && pause.value < 0.0 ==> (Decision(next, t).Some? <==> t < computed.wall))
            && (pause.None? && exhausted ==> (Decision(next, t).Some? <==> t < metadata.resetEpoch.value as real))
            && (pause.None? && !exhausted ==>
                  (Decision(next, t).Some? <==> t < computed.wall + config.rateLimitFallback))
            && next.block.Some? && next.block.value.requestId == metadata.requestId
            && (next.block.value.reason == RetryAfter <==> pause.Some?)
            && (next.block.value.reason == PrimaryReset <==> pause.None? && exhausted)
            && next.lastRateEvent == Some(RateEvent(at.wall, metadata.requestId, next.block.value.reason))
            && next.lastWriteFinished == s.lastWriteFinished
  {
  }

  /** A success sets a cooldown exactly if it reports the limit exhausted until a later reset. */
  lemma CooldownAfterSuccess(config: Config, s: State, metadata: Metadata, checked: Instant, computed: Instant,
                             at: Instant, t: real)
    requires s.block.None?
    ensures var next := Apply(config, s, Succeeded(metadata, checked, computed, at));
            if metadata.remaining == Some(0) && metadata.resetEpoch.Some?
               && metadata.resetEpoch.value as real > checked.wall then
              next == Apply(config, s, RateLimited(metadata, computed, at))
            else
              next == s
  {
  }

  /** A deadline in force is only ever replaced by a later one. */
  lemma DeadlinesOnlyAdvance(config: Config, s: State, metadata: Metadata, computed: Instant, at: Instant)
    requires s.block.Some?
    ensures var next := Apply(config, s, RateLimited(metadata, computed, at));
            var alone := Apply(config, s.(block := None), RateLimited(metadata, computed, at));
            next.block == (if alone.block.value.until > s.block.value.until then alone.block else s.block)
  {
  }

  /** A response that allows requests again long before the limit resets: after one second of a hundred. */
  lemma ResetCanBePassed(config: Config)
    ensures var start := Instant(0.0, 0.0);
            var metadata := Metadata(None, Some(1.0), Some(100), Some(0));
            var next := Apply(config, FRESH, Succeeded(metadata, start, start, start));
            Exhausted(metadata, 0.0) && Decision(next, 0.5).Some? && Decision(next, 1.0).None? && 1.0 < 100.0
  {
    assert (100 as int) as real == 100.0;
  }

  /** The block in force is the one that the event set. */
  predicate BlockedBy(config: Config, block: Option<Block>, event: Event) {
    SetsDeadline(event) && block.Some? && block.value.until == NewDeadline(config, event)
  }

  /** In a history the governor can have, every deadline that a response sets comes into force. */
  lemma DeadlineComesIntoForce(config: Config, trace: Trace)
    requires trace.TakesInFree(config) && trace.Then? && SetsDeadline(trace.event)
    ensures BlockedBy(config, trace.State(config).block, trace.event)
  {
  }

  // ----- Write spacing -----

  function Times(n: int, unit: real): real {
    if n <= 0 then 0.0 else Times(n - 1, unit) + unit
  }

  lemma {:induction false} TimesMultiplies(n: nat, unit: real)
    ensures Times(n, unit) == n as real * unit
  {
    if n > 0 {
      TimesMultiplies(n - 1, unit);
      assert (n - 1) as real * unit + unit == n as real * unit;
    }
  }

  /** What the trace invariant says about the times of writes. */
  lemma {:induction false} WriteTimes(config: Config, trace: Trace)
    requires trace.Ordered() && trace.Spaced(config)
    ensures var starts, finishes := trace.WriteStarts(), trace.WriteFinishes();
            && |starts| == |finishes| + (if trace.Open() then 1 else 0)
            && trace.State(config).lastWriteFinished ==
                 (if finishes == [] then None else Some(finishes[|finishes| - 1]))
            && (starts != [] ==> trace.Then? && starts[|starts| - 1] <= trace.event.at.mono)
            && (finishes != [] ==> finishes[|finishes| - 1] >= finishes[0] + Times(|finishes| - 1, config.writeSpacing))
            && (trace.Open() && |starts| > 1 ==>
                  starts[|starts| - 1] >= finishes[0] + Times(|starts| - 1, config.writeSpacing))
  {
    if trace.Then? {
      WriteTimes(config, trace.before);
      assert trace.event.WriteFinished? && trace.before.WriteFinishes() == [] ==> Times(0, config.writeSpacing) == 0.0;
    }
  }

  /** The n-th write, counting from one, starts at least n - 1 spacings after the first one finished. */
  lemma {:induction false} NthWrite(config: Config, trace: Trace, n: nat)
    requires trace.Ordered() && trace.Spaced(config)
    requires 2 <= n <= |trace.WriteStarts()|
    ensures trace.WriteFinishes() != []
    ensures trace.WriteStarts()[n - 1] >= trace.WriteFinishes()[0] + (n - 1) as real * config.writeSpacing
  {
    WriteTimes(config, trace);
    if n <= |trace.before.WriteStarts()| {
      NthWrite(config, trace.before, n);
    } else {
      TimesMultiplies(n - 1, config.writeSpacing);
    }
  }

  /** The pacing delay is the time still missing to the spacing, and zero if none is. */
  lemma PacingDelayMeaning(config: Config, s: State, mono: real)
    ensures var delay := PacingDelay(config, s, mono);
            if s.lastWriteFinished.None? || mono >= s.lastWriteFinished.value + config.writeSpacing then delay == 0.0
            else mono + delay == s.lastWriteFinished.value + config.writeSpacing
  {
  }

  // ----- The governor -----

  /** One choice of the environment at an await or a clock read. */
  datatype Turn = Turn(wall: Duration, mono: Duration, reply: Reply, queries: nat, cancelled: bool)

  datatype Outcome =
    | PolicyRejected
    | Blocked(block: Block, remaining: real)
    | Returned(metadata: Metadata, attempts: nat, exhausted: bool)
    | Raised(error: Error)
    | Cancelled  // or ended by an exception that is not a request error

  datatype Snapshot = Snapshot(block: Option<Block>, retryAfter: Option<real>, writeDelay: real)

  lemma {:induction false} StatusCountsForNothing(config: Config, trace: Trace, wall: real)
    ensures var bare := trace.WithoutStatus();
            && trace.Starts() == bare.Starts() && trace.Backoff() == bare.Backoff() && trace.Open() == bare.Open()
            && trace.State(config).lastWriteFinished == bare.State(config).lastWriteFinished
            && trace.DeadlinesPassed(config, wall) == bare.DeadlinesPassed(config, wall)
  {
    if trace.Then? {
      StatusCountsForNothing(config, trace.before, wall);
    }
  }

  /** What a call can rely on after an await: only status queries came in between. */
  lemma Undisturbed(config: Config, before: Trace, after: Trace, wall: real)
    requires after.WithoutStatus() == before.WithoutStatus()
    ensures after.Starts() == before.Starts() && after.Backoff() == before.Backoff()
    ensures after.Open() == before.Open()
    ensures after.State(config).lastWriteFinished == before.State(config).lastWriteFinished
    ensures after.DeadlinesPassed(config, wall) == before.DeadlinesPassed(config, wall)
  {
    StatusCountsForNothing(config, before, wall);
    StatusCountsForNothing(config, after, wall);
  }

  /** How the history ends when a request has returned or raised. */
  ghost predicate Concluded(config: Config, trace: Trace, block: Option<Block>, outcome: Outcome, attempts: int) {
    && (outcome.Returned? ==>
          && outcome.attempts == attempts >= 1
          && trace.Then? && trace.event.Succeeded? && trace.event.metadata == outcome.metadata
          && outcome.exhausted == SetsDeadline(trace.event)
          && (if outcome.exhausted then BlockedBy(config, block, trace.event) else block.None?))
    && (outcome.Raised? ==>
          && attempts >= 1
          && (outcome.error.rateLimited ==>
                && trace.Then? && trace.event.RateLimited? && trace.event.metadata == outcome.error.metadata
                && BlockedBy(config, block, trace.event)))
  }

  lemma {:induction false} TimesGrows(n: int, more: int, unit: real)
    requires unit >= 0.0 && n <= more
    ensures Times(n, unit) <= Times(more, unit)
  {
    if more > 0 && n < more {
      TimesGrows(n, more - 1, unit);
    }
  }

  lemma {:induction false} PowerPositive(n: nat)
    ensures Power(n) > 0.0
  {
    if n > 0 {
      PowerPositive(n - 1);
    }
  }

  /** Backoffs start at the base and double from one to the next, up to the maximum. */
  lemma BackoffBounds(config: Config, attempts: nat)
    requires config.Valid() && attempts >= 1
    ensures 0.0 <= config.backoffBase == BackoffDelay(config, 1)
    ensures BackoffDelay(config, attempts) <= BackoffDelay(config, attempts + 1) <= config.backoffMax
    ensures 0.0 <= BackoffDelay(config, attempts)
    ensures BackoffDelay(config, attempts + 1) ==
            if 2.0 * BackoffDelay(config, attempts) <= config.backoffMax then 2.0 * BackoffDelay(config, attempts)
            else config.backoffMax
  {
    PowerPositive(attempts - 1);
    var power := Power(attempts - 1);
    assert config.backoffBase * power >= 0.0;
    assert config.backoffBase * (2.0 * power) == config.backoffBase * power + config.backoffBase * power;
  }

  class GitHubRequestGovernor {
    const config: Config
    const turns: nat -> Turn
    var clock: nat
    var now: Instant
    var lastWriteFinished: Option<real>
    var block: Option<Block>
    var lastRateEvent: Option<RateEvent>
    ghost var trace: Trace

    function View(): State
      reads this
    {
      State(lastWriteFinished, block, lastRateEvent)
    }

    /** The fields are what the history makes them, and the history keeps the rules. */
    ghost predicate Valid()
      reads this
    {
      && config.Valid() && View() == trace.State(config)
      && trace.Ordered() && trace.EndsBy(now)
      && trace.RespectsCooldown(config) && trace.Spaced(config) && trace.TakesInFree(config)
      && trace.PausesAreDue(config)
    }

    /** Some operation or sleep did not end by itself. */
    ghost predicate Interrupted(from: nat, to: nat) {
      exists k :: from <= k < to && (turns(k).cancelled || turns(k).reply.Raise?)
    }

    /** Some operation was answered so. */
    ghost predicate Replied(from: nat, to: nat, reply: Reply) {
      exists k :: from <= k < to && !turns(k).cancelled && turns(k).reply == reply
    }

    constructor (config: Config, turns: nat -> Turn, now: Instant)
      requires config.Valid()
      ensures Valid() && this.config == config && this.turns == turns && trace == Empty
    {
      this.config, this.turns, this.now, clock := config, turns, now, 0;
      lastWriteFinished, block, lastRateEvent, trace := None, None, None, Empty;
    }

    /** Reads the clocks. */
    method Tick()
      requires Valid()
      modifies this`clock, this`now
      ensures Valid() && old(now).NoLaterThan(now) && clock == old(clock) + 1
      ensures now.wall == old(now).wall + turns(old(clock)).wall && now.mono == old(now).mono + turns(old(clock)).mono
    {
      var turn := turns(clock);
      clock, now := clock + 1, Instant(now.wall + turn.wall, now.mono + turn.mono);
    }

    /** The status of the governor, from its own memory. */
    method RateStatus() returns (snapshot: Snapshot)
      requires Valid()
      modifies this`clock, this`now, this`block, this`trace
      ensures Valid() && old(now).NoLaterThan(now) && clock > old(clock)
      ensures trace.WithoutStatus() == old(trace.WithoutStatus())
      ensures exists at :: trace == Then(old(trace), Asked(at))
                           && snapshot.block == Decision(old(View()), at.wall)
                           && snapshot.retryAfter ==
                                (if snapshot.block.None? then None else Some(snapshot.block.value.until - at.wall))
      ensures block == Expire(old(View()), trace.event.at.wall).block
      ensures snapshot.writeDelay == PacingDelay(config, old(View()), now.mono)
    {
      Tick();
      var at := now;
      block := Expire(View(), at.wall).block;
      trace := Then(trace, Asked(at));
      Tick();
      snapshot := Snapshot(block, if block.Some? then Some(Max(block.value.until - at.wall, 0.0)) else None,
                           PacingDelay(config, View(), now.mono));
    }

    /** An await: time passes, and the status may be asked for any number of times. */
    method Await(least: Duration) returns (cancelled: bool)
      requires Valid()
      modifies this`clock, this`now, this`block, this`trace
      ensures Valid() && old(now).NoLaterThan(now)
      ensures trace.WithoutStatus() == old(trace.WithoutStatus())
      ensures !cancelled ==> now.mono >= old(now).mono + least
      ensures clock > old(clock) && cancelled == turns(old(clock)).cancelled
      ensures old(block).None? ==> block.None?
    {
      var wake, queries := now.mono + least, turns(clock).queries;
      cancelled := turns(clock).cancelled;
      while queries > 0
        invariant Valid() && old(now).NoLaterThan(now)
        invariant trace.WithoutStatus() == old(trace.WithoutStatus()) && clock >= old(clock)
        invariant old(block).None? ==> block.None?
      {
        var _ := RateStatus();
        queries := queries - 1;
      }
      Tick();
      if !cancelled {
        now := now.(mono := Max(now.mono, wake));
      }
    }

    /** Appends an event that has just happened and leaves the fields as they are. */
    ghost method Log(event: Event)
      requires Valid() && (event.Started? || event.Slept?) && event.at == now
      requires Then(trace, event).PausesAreDue(config)
      requires event.Started? ==> trace.DeadlinesPassed(config, now.wall) && !trace.Open()
      requires event.Started? && event.kind.Write? && lastWriteFinished.Some? ==>
                 now.mono >= lastWriteFinished.value + config.writeSpacing
      modifies this`trace
      ensures Valid() && trace == Then(old(trace), event)
    {
      trace := Then(trace, event);
    }

    /** Checks the cooldown. */
    method EnforcePause() returns (blocked: Option<Block>)
      requires Valid()
      modifies this`clock, this`now, this`block, this`trace
      ensures Valid() && trace == Then(old(trace), Enforced(now)) && clock >= old(clock) && old(now).NoLaterThan(now)
      ensures blocked == Decision(old(View()), now.wall)
      ensures blocked.None? <==> old(trace).DeadlinesPassed(config, now.wall)
      ensures blocked == block && now.wall == old(now).wall + turns(old(clock)).wall
    {
      Tick();
      BlockedExactly(config, trace, now.wall);
      block := Expire(View(), now.wall).block;
      trace := Then(trace, Enforced(now));
      blocked := block;
    }

    /** Sleeps for a reason that is due. */
    method Sleep(why: Pause, delay: Duration) returns (cancelled: bool)
      requires Valid() && Then(trace, Slept(why, delay, now)).PausesAreDue(config)
      modifies this`clock, this`now, this`block, this`trace
      ensures Valid() && old(now).NoLaterThan(now)
      ensures trace.Starts() == old(trace.Starts()) && trace.Open() == old(trace.Open())
      ensures trace.Backoff() == old(trace.Backoff()) + (if why.Backoff? then delay else 0.0)
      ensures old(trace).DeadlinesPassed(config, old(now).wall) ==> trace.DeadlinesPassed(config, now.wall)
      ensures !cancelled ==> now.mono >= old(now).mono + delay
      ensures clock > old(clock) && (cancelled ==> Interrupted(old(clock), clock))
      ensures old(block).None? ==> block.None?
    {
      Log(Slept(why, delay, now));
      ghost var before := trace;
      cancelled := Await(delay);
      Undisturbed(config, before, trace, now.wall);
      if old(trace).DeadlinesPassed(config, old(now).wall) {
        PassedStaysPassed(config, old(trace), old(now).wall, now.wall);
      }
    }

    method PaceWrite() returns (cancelled: bool)
      requires Valid()
      modifies this`clock, this`now, this`block, this`trace
      ensures Valid() && old(now).NoLaterThan(now)
      ensures trace.Starts() == old(trace.Starts()) && trace.Backoff() == old(trace.Backoff())
      ensures trace.Open() == old(trace.Open())
      ensures old(trace).DeadlinesPassed(config, old(now).wall) ==> trace.DeadlinesPassed(config, now.wall)
      ensures clock >= old(clock) && (cancelled ==> Interrupted(old(clock), clock))
      ensures old(block).None? ==> block.None?
      ensures !cancelled && lastWriteFinished.Some? ==> now.mono >= lastWriteFinished.value + config.writeSpacing
    {
      Tick();
      if trace.DeadlinesPassed(config, old(now).wall) {
        PassedStaysPassed(config, trace, old(now).wall, now.wall);
      }
      var delay := PacingDelay(config, View(), now.mono);
      cancelled := false;
      if delay > 0.0 {
        cancelled := Sleep(Pacing, delay);
      }
    }

    /** Sends the operation and records when a write is over, however it ends. */
    method Operate(kind: Kind) returns (reply: Reply)
      requires Valid() && trace.DeadlinesPassed(config, now.wall) && !trace.Open()
      requires kind.Write? && lastWriteFinished.Some? ==> now.mono >= lastWriteFinished.value + config.writeSpacing
      modifies this`clock, this`now, this`block, this`trace, this`lastWriteFinished
      ensures Valid() && old(now).NoLaterThan(now)
      ensures trace.Starts() == old(trace.Starts()) + 1 && trace.Backoff() == old(trace.Backoff())
      ensures !trace.Open() && trace.DeadlinesPassed(config, now.wall)
      ensures clock >= old(clock) && (reply.Raise? ==> Interrupted(old(clock), clock))
      ensures old(block).None? ==> block.None?
      ensures clock > old(clock) && reply == (if turns(old(clock)).cancelled then Raise else turns(old(clock)).reply)
    {
      reply := turns(clock).reply;
      Log(Started(kind, now));
      ghost var sent := trace;
      var cancelled := Await(0.0);
      if cancelled {
        reply := Raise;
      }
      Tick();
      Undisturbed(config, sent, trace, now.wall);
      PassedStaysPassed(config, old(trace), old(now).wall, now.wall);
      if kind.Write? {
        lastWriteFinished := Some(now.mono);
        trace := Then(trace, WriteFinished(now));
      }
    }

    /** Takes in a rate-limited failure, or the rate-limit part of a success. */
    method TakeIn(metadata: Metadata, success: bool) returns (exhausted: bool)
      requires Valid() && block.None?
      modifies this`clock, this`now, this`block, this`trace, this`lastRateEvent
      ensures Valid() && old(now).NoLaterThan(now)
      ensures trace.Starts() == old(trace.Starts()) && trace.Backoff() == old(trace.Backoff())
      ensures trace.Open() == old(trace.Open())
      ensures trace.Then? && trace.before == old(trace) && clock >= old(clock)
      ensures if success then trace.event.Succeeded? else trace.event.RateLimited?
      ensures trace.event.metadata == metadata && (exhausted <==> SetsDeadline(trace.event))
      ensures if exhausted then BlockedBy(config, block, trace.event) else block.None?
    {
      Tick();
      var checked := now;
      Tick();
      var computed := now;
      Tick();
      exhausted := !success || Exhausted(metadata, checked.wall);
      if exhausted {
        var next := RecordRateLimit(config, View(), metadata, computed, now);
        block, lastRateEvent := next.block, next.lastRateEvent;
      }
      trace := Then(trace, if success then Succeeded(metadata, checked, computed, now)
                           else RateLimited(metadata, computed, now));
    }

    predicate ShouldRetry(kind: Kind, retrySafe: bool, error: Error, attempts: int)
    {
      kind.Read? && retrySafe && error.retryable && !error.rateLimited && attempts < config.maxReadAttempts
    }

    /** A failure that is not retried: rate-limited, permanent, of a write or an unsafe read, or the last allowed. */
    predicate Final(kind: Kind, retrySafe: bool, error: Error, attempts: int) {
      error.rateLimited || !error.retryable || kind.Write? || !retrySafe || attempts >= config.maxReadAttempts
    }

    /** One attempt of a request that the cooldown let through; no outcome if it is to be retried. */
    method Attempt(kind: Kind, retrySafe: bool, attempts: nat) returns (outcome: Option<Outcome>)
      requires Valid() && !trace.Open() && attempts >= 1 && trace.DeadlinesPassed(config, now.wall) && block.None?
      modifies this`clock, this`now, this`block, this`trace, this`lastWriteFinished, this`lastRateEvent
      ensures Valid() && !trace.Open() && old(now).NoLaterThan(now)
      ensures outcome.None? ==> trace.DeadlinesPassed(config, now.wall) && block.None?
      ensures clock >= old(clock) && (outcome == Some(Cancelled) ==> Interrupted(old(clock), clock))
      ensures outcome.None? ==> kind.Read? && retrySafe && attempts < config.maxReadAttempts
      ensures outcome.None? || outcome == Some(Cancelled) || Concluded(config, trace, block, outcome.value, attempts)
      ensures outcome.Some? && outcome.value.Raised? ==> Final(kind, retrySafe, outcome.value.error, attempts)
      ensures outcome.Some? && outcome.value.Raised? ==> Replied(old(clock), clock, Failure(outcome.value.error))
      ensures outcome.Some? && outcome.value.Returned? ==> Replied(old(clock), clock, Success(outcome.value.metadata))
      ensures outcome.None? || outcome == Some(Cancelled) || outcome.value.Returned? || outcome.value.Raised?
      ensures old(trace.Starts()) <= trace.Starts() <= old(trace.Starts()) + 1
      ensures outcome != Some(Cancelled) ==> trace.Starts() == old(trace.Starts()) + 1
      ensures trace.Backoff() <= old(trace.Backoff()) + config.backoffMax
      ensures outcome.Some? && outcome != Some(Cancelled) ==> trace.Backoff() == old(trace.Backoff())
      ensures trace.Backoff() == old(trace.Backoff()) || (kind.Read? && attempts < config.maxReadAttempts)
    {
      if kind.Write? {
        var cancelled := PaceWrite();
        if cancelled {
          return Some(Cancelled);
        }
      }
      var reply := Operate(kind);
      match reply {
        case Raise =>
          outcome := Some(Cancelled);
        case Success(metadata) =>
          var exhausted := TakeIn(metadata, true);
          outcome := Some(Returned(metadata, attempts, exhausted));
        case Failure(error) =>
          if error.rateLimited {
            var _ := TakeIn(error.metadata, false);
            outcome := Some(Raised(error));
          } else if !ShouldRetry(kind, retrySafe, error, attempts) {
            outcome := Some(Raised(error));
          } else {
            BackoffBounds(config, attempts);
            var cancelled := BackOff(attempts, error);
            outcome := if cancelled then Some(Cancelled) else None;
          }
      }
    }

    /** The attempts of a request that the cooldown let through. */
    method RunAttempts(kind: Kind, retrySafe: bool) returns (outcome: Outcome)
      requires Valid() && !trace.Open() && trace.DeadlinesPassed(config, now.wall) && block.None?
      requires !(kind.Write? && retrySafe)
      modifies this`clock, this`now, this`block, this`trace, this`lastWriteFinished, this`lastRateEvent
      ensures Valid() && !trace.Open() && old(now).NoLaterThan(now)
      ensures outcome.Returned? || outcome.Raised? || outcome.Cancelled?
      ensures clock >= old(clock) && (outcome.Cancelled? ==> Interrupted(old(clock), clock))
      ensures Sent(old(trace), trace, kind, retrySafe, outcome)
      ensures outcome.Raised? ==> Replied(old(clock), clock, Failure(outcome.error))
      ensures outcome.Returned? ==> Replied(old(clock), clock, Success(outcome.metadata))
    {
      TimesGrows(0, config.maxReadAttempts - 1, config.backoffMax);
      var attempts: nat := 0;
      while true
        invariant Valid() && !trace.Open() && old(now).NoLaterThan(now) && clock >= old(clock)
        invariant attempts == 0 || (kind.Read? && retrySafe && attempts < config.maxReadAttempts)
        invariant trace.Starts() == old(trace.Starts()) + attempts
        invariant trace.Backoff() <= old(trace.Backoff()) + Times(attempts, config.backoffMax)
        invariant trace.DeadlinesPassed(config, now.wall) && block.None?
        decreases config.maxReadAttempts - attempts
      {
        attempts := attempts + 1;
        TimesGrows(attempts - 1, config.maxReadAttempts - 1, config.backoffMax);
        if attempts < config.maxReadAttempts {
          TimesGrows(attempts, config.maxReadAttempts - 1, config.backoffMax);
        }
        var ended := Attempt(kind, retrySafe, attempts);
        if ended.Some? {
          return ended.value;
        }
      }
    }

    /** What a request sent, by how it ended. */
    ghost predicate Sent(before: Trace, after: Trace, kind: Kind, retrySafe: bool, outcome: Outcome)
      reads this`block
    {
      var sent := after.Starts() - before.Starts();
      && 0 <= sent <= Limit(kind, retrySafe)
      && after.Backoff() <= before.Backoff() + Times(config.maxReadAttempts - 1, config.backoffMax)
      && (outcome.Returned? || outcome.Raised? ==>
            && Concluded(config, after, block, outcome, sent)
            && after.Backoff() <= before.Backoff() + Times(sent - 1, config.backoffMax))
      && (outcome.Raised? ==> Final(kind, retrySafe, outcome.error, sent))
    }

    /**
     * One request under the governor's lock. It is sent only when no recorded deadline lies
     * ahead; a write is sent at most once, a retry-safe read at most `maxReadAttempts` times,
     * and the backoffs between attempts add up to at most their maximum each.
     */
    method Execute(kind: Kind, retrySafe: bool) returns (outcome: Outcome)
      requires Valid() && !trace.Open()
      modifies this`clock, this`now, this`block, this`trace, this`lastWriteFinished, this`lastRateEvent
      ensures Valid() && !trace.Open() && old(now).NoLaterThan(now)
      ensures outcome.PolicyRejected? <==> kind.Write? && retrySafe
      ensures outcome.PolicyRejected? ==> trace == old(trace)
      ensures outcome.Cancelled? ==> Interrupted(old(clock), clock)
      ensures outcome.Blocked? <==>
                && !outcome.PolicyRejected?
                && !old(trace).DeadlinesPassed(config, old(now).wall + turns(old(clock)).wall)
      ensures outcome.Blocked? ==> trace == Then(old(trace), Enforced(now))
      ensures outcome.Blocked? ==> Decision(old(View()), now.wall) == Some(outcome.block)
      ensures outcome.Blocked? ==> outcome.remaining == outcome.block.until - now.wall > 0.0
      ensures Sent(old(trace), trace, kind, retrySafe, outcome)
      ensures outcome.Raised? ==> Replied(old(clock), clock, Failure(outcome.error))
      ensures outcome.Returned? ==> Replied(old(clock), clock, Success(outcome.metadata))
    {
      TimesGrows(0, config.maxReadAttempts - 1, config.backoffMax);
      if kind.Write? && retrySafe {
        return PolicyRejected;
      }
      var blocked := EnforcePause();
      if blocked.Some? {
        return Blocked(blocked.value, blocked.value.until - now.wall);
      }
      outcome := RunAttempts(kind, retrySafe);
    }

    /** How often one request may be sent. */
    function Limit(kind: Kind, retrySafe: bool): int {
      if kind.Read? && retrySafe then config.maxReadAttempts else 1
    }

    method BackOff(attempts: nat, error: Error) returns (cancelled: bool)
      requires Valid() && attempts >= 1 && !trace.Open() && trace.DeadlinesPassed(config, now.wall)
      requires error.retryable && !error.rateLimited
      modifies this`clock, this`now, this`block, this`trace
      ensures Valid() && !trace.Open() && old(now).NoLaterThan(now)
      ensures clock >= old(clock) && (cancelled ==> Interrupted(old(clock), clock))
      ensures trace.Starts() == old(trace.Starts())
      ensures trace.Backoff() == old(trace.Backoff()) + BackoffDelay(config, attempts)
      ensures trace.DeadlinesPassed(config, now.wall)
      ensures old(block).None? ==> block.None?
      ensures !cancelled ==> now.mono >= old(now).mono + BackoffDelay(config, attempts)
    {
      BackoffBounds(config, attempts);
      cancelled := Sleep(Backoff(attempts, error), BackoffDelay(config, attempts));
    }
  }
}
