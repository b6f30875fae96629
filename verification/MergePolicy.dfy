/**
 * The effective merge policy of a branch: ruleset rules and classic protection layered
 * conservatively, each source only ever adding requirements.
 */
module MergePolicy {

  import opened Prelude
  import opened Sorting
  import opened Evidence

  // ----- What GitHub sends -----

  /** A JSON field: absent, of the wrong type or value, or usable. */
  datatype Raw<+T> = Missing | Bad | Is(value: T)

  datatype RawCheck = RawCheck(context: Raw<string>, id: Raw<int>)

  datatype StatusParameters = StatusParameters(strict: Raw<bool>, checks: Raw<seq<RawCheck>>)

  datatype PullParameters = PullParameters(
    methods: Raw<seq<string>>,
    approvals: Raw<int>,
    dismissStale: Raw<bool>,
    codeOwner: Raw<bool>,
    lastPush: Raw<bool>,
    conversation: Raw<bool>,
    reviewers: Raw<nat>)  // how many are listed

  datatype Rule =
    | BadRule
    | LinearHistory
    | StatusChecks(status: Raw<StatusParameters>)
    | PullRequest(pull: Raw<PullParameters>)
    | OtherRule(name: string)

  datatype ClassicChecks = ClassicChecks(strict: Raw<bool>, checks: Raw<seq<RawCheck>>, contexts: Raw<seq<Raw<string>>>)

  datatype ClassicReviews = ClassicReviews(
    approvals: Raw<int>, dismissStale: Raw<bool>, codeOwner: Raw<bool>, lastPush: Raw<bool>)

  datatype Classic = Classic(
    statusChecks: Raw<ClassicChecks>,
    reviews: Raw<ClassicReviews>,
    conversation: Raw<bool>,
    linearHistory: Raw<bool>)

  datatype Malformed = Malformed

  // ----- Policies form a join semilattice -----

  datatype RequiredStatusCheck = RequiredStatusCheck(context: string, integrationId: Option<int>)

  const ALL_METHODS: set<string> := {"merge", "squash", "rebase"}

  datatype Policy = Policy(
    checks: set<RequiredStatusCheck>,
    approvals: nat,
    dismissStale: bool,
    codeOwner: bool,
    lastPush: bool,
    conversation: bool,
    upToDate: bool,
    methods: set<string>,
    linearHistory: bool,
    unmodeled: set<string>)

  /** No requirement at all. */
  const UNRESTRICTED := Policy({}, 0, false, false, false, false, false, ALL_METHODS, false, {})

  function Join(a: Policy, b: Policy): Policy {
    Policy(a.checks + b.checks, Max(a.approvals, b.approvals), a.dismissStale || b.dismissStale,
           a.codeOwner || b.codeOwner, a.lastPush || b.lastPush, a.conversation || b.conversation,
           a.upToDate || b.upToDate, a.methods * b.methods, a.linearHistory || b.linearHistory,
           a.unmodeled + b.unmodeled)
  }

  /** `b` demands everything that `a` demands. */
  predicate AtMost(a: Policy, b: Policy) {
    && a.checks <= b.checks && a.approvals <= b.approvals
    && (a.dismissStale ==> b.dismissStale) && (a.codeOwner ==> b.codeOwner)
    && (a.lastPush ==> b.lastPush) && (a.conversation ==> b.conversation)
    && (a.upToDate ==> b.upToDate) && b.methods <= a.methods
    && (a.linearHistory ==> b.linearHistory) && a.unmodeled <= b.unmodeled
  }

  lemma JoinIsLeast(a: Policy, b: Policy, c: Policy)
    ensures AtMost(a, Join(a, b)) && AtMost(b, Join(a, b))
    ensures AtMost(a, c) && AtMost(b, c) ==> AtMost(Join(a, b), c)
  {
  }

  lemma JoinCommutes(a: Policy, b: Policy)
    ensures Join(a, b) == Join(b, a)
  {
    assert a.checks + b.checks == b.checks + a.checks;
    assert a.methods * b.methods == b.methods * a.methods;
    assert a.unmodeled + b.unmodeled == b.unmodeled + a.unmodeled;
  }

  lemma JoinAssociates(a: Policy, b: Policy, c: Policy)
    ensures Join(Join(a, b), c) == Join(a, Join(b, c))
  {
    assert (a.checks + b.checks) + c.checks == a.checks + (b.checks + c.checks);
    assert (a.methods * b.methods) * c.methods == a.methods * (b.methods * c.methods);
    assert (a.unmodeled + b.unmodeled) + c.unmodeled == a.unmodeled + (b.unmodeled + c.unmodeled);
  }

  lemma JoinAbsorbs(a: Policy, b: Policy)
    requires AtMost(b, a)
    ensures Join(a, b) == a
  {
    assert a.checks + b.checks == a.checks && a.methods * b.methods == a.methods;
    assert a.unmodeled + b.unmodeled == a.unmodeled;
  }

  lemma JoinNothing(a: Policy)
    requires a.methods <= ALL_METHODS
    ensures Join(a, UNRESTRICTED) == a
  {
    JoinAbsorbs(a, UNRESTRICTED);
  }

  lemma MutualDemands(a: Policy, b: Policy)
    requires AtMost(a, b) && AtMost(b, a)
    ensures a == b
  {
  }

  // ----- What one source demands -----

  function ParseCheck(raw: RawCheck): Option<RequiredStatusCheck> {
    if !raw.context.Is? || raw.context.value == "" || raw.id.Bad? then None
    else Some(RequiredStatusCheck(raw.context.value, if raw.id.Is? then Some(raw.id.value) else None))
  }

  predicate WellFormedChecks(raws: seq<RawCheck>) {
    forall raw :: raw in raws ==> ParseCheck(raw).Some?
  }

  /** The checks among some raw ones that are well-formed. */
  function ParsedChecks(raws: seq<RawCheck>): set<RequiredStatusCheck> {
    set raw | raw in raws && ParseCheck(raw).Some? :: ParseCheck(raw).value
  }

  function StatusDemand(p: StatusParameters): Option<Policy> {
    if p.strict.Is? && p.checks.Is? && WellFormedChecks(p.checks.value) then
      Some(UNRESTRICTED.(checks := ParsedChecks(p.checks.value),
                         upToDate := p.strict.value && p.checks.value != []))
    else None
  }

  function MethodSet(names: seq<string>): set<string> {
    set m | m in names
  }

  predicate KnownMethods(names: seq<string>) {
    forall m :: m in names ==> m in ALL_METHODS
  }

  predicate WellFormedPull(p: PullParameters) {
    && p.methods.Is? && p.methods.value != []
    && KnownMethods(p.methods.value)
    && p.approvals.Is? && p.approvals.value >= 0
    && p.dismissStale.Is? && p.codeOwner.Is? && p.lastPush.Is? && p.conversation.Is? && !p.reviewers.Bad?
  }

  function PullDemand(p: PullParameters): Option<Policy> {
    if WellFormedPull(p) then
      Some(Policy({}, p.approvals.value, p.dismissStale.value, p.codeOwner.value, p.lastPush.value,
                  p.conversation.value, false, MethodSet(p.methods.value), false,
                  if p.reviewers.Is? && p.reviewers.value > 0 then {"pull_request.required_reviewers"} else {}))
    else None
  }

  lemma JoinPull(a: Policy, p: PullParameters)
    requires WellFormedPull(p)
    ensures Join(a, PullDemand(p).value) ==
            Policy(a.checks, Max(a.approvals, p.approvals.value), a.dismissStale || p.dismissStale.value,
                   a.codeOwner || p.codeOwner.value, a.lastPush || p.lastPush.value,
                   a.conversation || p.conversation.value, a.upToDate, a.methods * MethodSet(p.methods.value),
                   a.linearHistory,
                   if p.reviewers.Is? && p.reviewers.value > 0 then a.unmodeled + {"pull_request.required_reviewers"}
                   else a.unmodeled)
  {
    assert a.checks + {} == a.checks && a.unmodeled + {} == a.unmodeled;
  }

  /** The policy that one ruleset rule demands by itself; `None` for a malformed rule. */
  function RuleDemand(rule: Rule): Option<Policy> {
    match rule
    case BadRule => None
    case LinearHistory => Some(UNRESTRICTED.(linearHistory := true))
    case StatusChecks(status) => if status.Is? then StatusDemand(status.value) else None
    case PullRequest(pull) => if pull.Is? then PullDemand(pull.value) else None
    case OtherRule(name) =>
      if name == "" then None else Some(UNRESTRICTED.(unmodeled := {"ruleset:" + name}))
  }

  ghost predicate WellFormed(rules: seq<Rule>) {
    forall rule :: rule in rules ==> RuleDemand(rule).Some?
  }

  /** What all the rules together demand; malformed ones do not count. */
  function Layered(rules: seq<Rule>): Policy {
    if rules == [] then UNRESTRICTED
    else Join(Layered(rules[..|rules| - 1]), RuleDemand(rules[|rules| - 1]).GetOr(UNRESTRICTED))
  }

  /** The contexts named by the well-formed classic checks. */
  function ContextsOf(raws: seq<RawCheck>): set<string> {
    set raw | raw in raws && raw.context.Is? :: raw.context.value
  }

  predicate GoodContext(raw: Raw<string>) {
    raw.Is? && raw.value != ""
  }

  /** Classic checks write "any app" as -1. */
  function ClassicId(raw: RawCheck): RawCheck {
    if raw.id == Is(-1) then raw.(id := Missing) else raw
  }

  function OtherContexts(raws: seq<Raw<string>>, named: set<string>): set<RequiredStatusCheck> {
    set raw | raw in raws && raw.Is? && raw.value !in named :: RequiredStatusCheck(raw.value, None)
  }

  function ListOf<T>(raw: Raw<seq<T>>): seq<T> {
    if raw.Is? then raw.value else []
  }

  /**
   * Legacy contexts mirror the precise checks of the same source; only a context that none of
   * those checks names is a requirement of its own, for any app.
   */
  function ClassicChecksDemand(p: ClassicChecks): Option<Policy> {
    var checks, contexts := ListOf(p.checks), ListOf(p.contexts);
    if p.strict.Is? && !p.checks.Bad? && !p.contexts.Bad?
       && WellFormedChecks(Apply(ClassicId, checks)) && (forall raw :: raw in contexts ==> GoodContext(raw)) then
      Some(UNRESTRICTED.(
        upToDate := p.strict.value,
        checks := ParsedChecks(Apply(ClassicId, checks))
                  + OtherContexts(contexts, ContextsOf(checks))))
    else None
  }

  function ClassicReviewsDemand(p: ClassicReviews): Option<Policy> {
    if p.approvals.Is? && p.approvals.value >= 0 && p.dismissStale.Is? && p.codeOwner.Is? && p.lastPush.Is? then
      Some(UNRESTRICTED.(approvals := p.approvals.value, dismissStale := p.dismissStale.value,
                         codeOwner := p.codeOwner.value, lastPush := p.lastPush.value))
    else None
  }

  function SwitchesDemand(conversation: Raw<bool>, linearHistory: Raw<bool>): Option<Policy> {
    if conversation.Bad? || linearHistory.Bad? then None
    else Some(UNRESTRICTED.(conversation := conversation == Is(true), linearHistory := linearHistory == Is(true)))
  }

  /** A part of the classic protection that may be absent. */
  function Part<T>(raw: Raw<T>, demand: T -> Option<Policy>): Option<Policy> {
    match raw
    case Missing => Some(UNRESTRICTED)
    case Bad => None
    case Is(value) => demand(value)
  }

  function JoinParts(a: Option<Policy>, b: Option<Policy>): Option<Policy> {
    if a.Some? && b.Some? then Some(Join(a.value, b.value)) else None
  }

  /** The policy that classic protection demands by itself. */
  function ClassicDemand(c: Classic): Option<Policy> {
    JoinParts(JoinParts(Part(c.statusChecks, ClassicChecksDemand), Part(c.reviews, ClassicReviewsDemand)),
              SwitchesDemand(c.conversation, c.linearHistory))
  }

  // ----- Layering in place -----

  lemma ParsedChecksMore(raws: seq<RawCheck>, raw: RawCheck)
    ensures ParseCheck(raw).Some? ==> ParsedChecks(raws + [raw]) == ParsedChecks(raws) + {ParseCheck(raw).value}
    ensures WellFormedChecks(raws + [raw]) <==> WellFormedChecks(raws) && ParseCheck(raw).Some?
  {
    assert (raws + [raw])[|raws|] == raw;
    assert forall r :: r in raws + [raw] <==> r in raws || r == raw;
  }

  lemma OtherContextsMore(raws: seq<Raw<string>>, raw: Raw<string>, contexts: set<string>)
    requires raw.Is?
    ensures OtherContexts(raws + [raw], contexts) ==
            OtherContexts(raws, contexts)
            + (if raw.value in contexts then {} else {RequiredStatusCheck(raw.value, None)})
  {
    assert forall r :: r in raws + [raw] <==> r in raws || r == raw;
  }

  lemma ClassicIdAt(raws: seq<RawCheck>, i: nat)
    requires i < |raws|
    ensures Apply(ClassicId, raws[..i + 1]) == Apply(ClassicId, raws[..i]) + [ClassicId(raws[i])]
    ensures ClassicId(raws[i]) in Apply(ClassicId, raws)
    ensures ClassicId(raws[i]).context == raws[i].context
  {
    assert Apply(ClassicId, raws)[i] == ClassicId(raws[i]);
  }

  class MergePolicy {
    var requiredStatusChecks: set<RequiredStatusCheck>
    var requiredApprovals: nat
    var dismissStaleReviewsOnPush: bool
    var codeOwnerReviewRequired: bool
    var lastPushApprovalRequired: bool
    var conversationResolutionRequired: bool
    var upToDateRequired: bool
    var allowedMergeMethods: set<string>
    var linearHistoryRequired: bool
    var unmodeledPolicyRequirements: set<string>

    function View(): Policy
      reads this
    {
      Policy(requiredStatusChecks, requiredApprovals, dismissStaleReviewsOnPush, codeOwnerReviewRequired,
             lastPushApprovalRequired, conversationResolutionRequired, upToDateRequired, allowedMergeMethods,
             linearHistoryRequired, unmodeledPolicyRequirements)
    }

    predicate Valid()
      reads this
    {
      allowedMergeMethods <= ALL_METHODS
    }

    constructor ()
      ensures Valid() && View() == UNRESTRICTED
    {
      requiredStatusChecks, requiredApprovals, dismissStaleReviewsOnPush := {}, 0, false;
      codeOwnerReviewRequired, lastPushApprovalRequired, conversationResolutionRequired := false, false, false;
      upToDateRequired, allowedMergeMethods, linearHistoryRequired := false, ALL_METHODS, false;
      unmodeledPolicyRequirements := {};
    }

    method AddRequiredCheck(raw: RawCheck) returns (ok: bool)
      modifies this`requiredStatusChecks
      ensures ok <==> ParseCheck(raw).Some?
      ensures ok ==> requiredStatusChecks == old(requiredStatusChecks) + {ParseCheck(raw).value}
    {
      var check := ParseCheck(raw);
      if check.Some? {
        requiredStatusChecks := requiredStatusChecks + {check.value};
      }
      ok := check.Some?;
    }

    /** Layers a list of raw checks; stops at the first malformed one. */
    method AddRequiredChecks(raws: seq<RawCheck>) returns (ok: bool)
      modifies this`requiredStatusChecks
      ensures ok <==> WellFormedChecks(raws)
      ensures ok ==> requiredStatusChecks == old(requiredStatusChecks) + ParsedChecks(raws)
    {
      for i := 0 to |raws|
        invariant WellFormedChecks(raws[..i])
        invariant requiredStatusChecks == old(requiredStatusChecks) + ParsedChecks(raws[..i])
      {
        assert raws[..i + 1] == raws[..i] + [raws[i]];
        ParsedChecksMore(raws[..i], raws[i]);
        var good := AddRequiredCheck(raws[i]);
        if !good {
          return false;
        }
      }
      assert raws[..|raws|] == raws;
      ok := true;
    }

    method ApplyStatusChecks(p: StatusParameters) returns (ok: bool)
      requires Valid()
      modifies this`requiredStatusChecks, this`upToDateRequired
      ensures ok <==> StatusDemand(p).Some?
      ensures ok ==> View() == Join(old(View()), StatusDemand(p).value)
    {
      if !p.strict.Is? || !p.checks.Is? {
        return false;
      }
      if p.strict.value && p.checks.value != [] {
        upToDateRequired := true;
      }
      ok := AddRequiredChecks(p.checks.value);
      JoinNothing(old(View()));
    }

    /** Narrows the merge methods; stops at the first unknown one. */
    method NarrowMethods(methods: Raw<seq<string>>) returns (ok: bool)
      requires Valid()
      modifies this`allowedMergeMethods
      ensures Valid()
      ensures ok <==> methods.Is? && methods.value != [] && KnownMethods(methods.value)
      ensures ok ==> allowedMergeMethods == old(allowedMergeMethods) * MethodSet(methods.value)
    {
      if !methods.Is? || methods.value == [] {
        return false;
      }
      var names, normalized: set<string> := methods.value, {};
      for i := 0 to |names|
        invariant KnownMethods(names[..i]) && normalized == MethodSet(names[..i])
      {
        assert names[..i + 1] == names[..i] + [names[i]];
        if names[i] !in ALL_METHODS {
          return false;
        }
        normalized := normalized + {names[i]};
      }
      assert names[..|names|] == names;
      allowedMergeMethods := allowedMergeMethods * normalized;
      ok := true;
    }

    /** Raises the approvals and sets the flags of one kind of review requirement. */
    method RequireReviews(approvals: nat, dismissStale: bool, codeOwner: bool, lastPush: bool)
      modifies this`requiredApprovals, this`dismissStaleReviewsOnPush, this`codeOwnerReviewRequired,
        this`lastPushApprovalRequired
      ensures requiredApprovals == Max(old(requiredApprovals), approvals)
      ensures dismissStaleReviewsOnPush == (old(dismissStaleReviewsOnPush) || dismissStale)
      ensures codeOwnerReviewRequired == (old(codeOwnerReviewRequired) || codeOwner)
      ensures lastPushApprovalRequired == (old(lastPushApprovalRequired) || lastPush)
    {
      requiredApprovals := Max(requiredApprovals, approvals);
      dismissStaleReviewsOnPush := dismissStaleReviewsOnPush || dismissStale;
      codeOwnerReviewRequired := codeOwnerReviewRequired || codeOwner;
      lastPushApprovalRequired := lastPushApprovalRequired || lastPush;
    }

    method ApplyPullRequest(p: PullParameters) returns (ok: bool)
      requires Valid()
      modifies this
      ensures Valid()
      ensures ok <==> PullDemand(p).Some?
      ensures ok ==> View() == Join(old(View()), PullDemand(p).value)
    {
      ok := NarrowMethods(p.methods);
      if !ok || !p.approvals.Is? || p.approvals.value < 0 || !p.dismissStale.Is? || !p.codeOwner.Is? || !p.lastPush.Is? {
        return false;
      }
      RequireReviews(p.approvals.value, p.dismissStale.value, p.codeOwner.value, p.lastPush.value);
      ok := RequireConversation(p.conversation, p.reviewers);
      if ok {
        JoinPull(old(View()), p);
      }
    }

    method RequireConversation(conversation: Raw<bool>, reviewers: Raw<nat>) returns (ok: bool)
      modifies this`conversationResolutionRequired, this`unmodeledPolicyRequirements
      ensures ok <==> conversation.Is? && !reviewers.Bad?
      ensures ok ==> conversationResolutionRequired == (old(conversationResolutionRequired) || conversation.value)
      ensures ok ==> unmodeledPolicyRequirements ==
                     (if reviewers.Is? && reviewers.value > 0 then
                        old(unmodeledPolicyRequirements) + {"pull_request.required_reviewers"}
                      else old(unmodeledPolicyRequirements))
    {
      if !conversation.Is? || reviewers.Bad? {
        return false;
      }
      conversationResolutionRequired := conversationResolutionRequired || conversation.value;
      if reviewers.Is? && reviewers.value > 0 {
        unmodeledPolicyRequirements := unmodeledPolicyRequirements + {"pull_request.required_reviewers"};
      }
      ok := true;
    }

    method ApplyRule(rule: Rule) returns (ok: bool)
      requires Valid()
      modifies this
      ensures Valid()
      ensures ok <==> RuleDemand(rule).Some?
      ensures ok ==> View() == Join(old(View()), RuleDemand(rule).value)
    {
      match rule {
        case BadRule =>
          ok := false;
        case LinearHistory =>
          JoinNothing(View());
          linearHistoryRequired := true;
          ok := true;
        case StatusChecks(status) =>
          ok := false;
          if status.Is? {
            ok := ApplyStatusChecks(status.value);
          }
        case PullRequest(pull) =>
          ok := false;
          if pull.Is? {
            ok := ApplyPullRequest(pull.value);
          }
        case OtherRule(name) =>
          ok := name != "";
          JoinNothing(View());
          if ok {
            unmodeledPolicyRequirements := unmodeledPolicyRequirements + {"ruleset:" + name};
          }
      }
    }

    /** Layers the active rules one by one; stops at the first malformed one. */
    method ApplyRulesetRules(rules: seq<Rule>) returns (ok: bool)
      requires Valid()
      modifies this
      ensures Valid()
      ensures ok <==> WellFormed(rules)
      ensures ok ==> View() == Join(old(View()), Layered(rules))
    {
      JoinNothing(View());
      for i := 0 to |rules|
        invariant Valid() && WellFormed(rules[..i]) && View() == Join(old(View()), Layered(rules[..i]))
      {
        var good := ApplyRule(rules[i]);
        if !good {
          return false;
        }
        assert rules[..i + 1][..i] == rules[..i];
        JoinAssociates(old(View()), Layered(rules[..i]), RuleDemand(rules[i]).value);
      }
      assert rules[..|rules|] == rules;
      ok := true;
    }

    /** The precise checks of classic protection, with the contexts they name. */
    method AddClassicChecks(raws: seq<RawCheck>) returns (ok: bool, contexts: set<string>)
      modifies this`requiredStatusChecks
      ensures ok <==> WellFormedChecks(Apply(ClassicId, raws))
      ensures ok ==> contexts == ContextsOf(raws)
      ensures ok ==> requiredStatusChecks == old(requiredStatusChecks) + ParsedChecks(Apply(ClassicId, raws))
    {
      contexts := {};
      for i := 0 to |raws|
        invariant contexts == ContextsOf(raws[..i]) && WellFormedChecks(Apply(ClassicId, raws[..i]))
        invariant requiredStatusChecks == old(requiredStatusChecks) + ParsedChecks(Apply(ClassicId, raws[..i]))
      {
        ClassicIdAt(raws, i);
        ParsedChecksMore(Apply(ClassicId, raws[..i]), ClassicId(raws[i]));
        assert raws[..i + 1] == raws[..i] + [raws[i]];
        if !GoodContext(raws[i].context) {
          return false, contexts;
        }
        contexts := contexts + {raws[i].context.value};
        var good := AddRequiredCheck(ClassicId(raws[i]));
        if !good {
          return false, contexts;
        }
      }
      assert raws[..|raws|] == raws;
      ok := true;
    }

    /** The legacy contexts that no precise check names. */
    method AddClassicContexts(raws: seq<Raw<string>>, contexts: set<string>) returns (ok: bool)
      modifies this`requiredStatusChecks
      ensures ok <==> forall raw :: raw in raws ==> GoodContext(raw)
      ensures ok ==> requiredStatusChecks == old(requiredStatusChecks) + OtherContexts(raws, contexts)
    {
      for i := 0 to |raws|
        invariant forall raw :: raw in raws[..i] ==> GoodContext(raw)
        invariant requiredStatusChecks == old(requiredStatusChecks) + OtherContexts(raws[..i], contexts)
      {
        assert raws[..i + 1] == raws[..i] + [raws[i]];
        if !GoodContext(raws[i]) {
          return false;
        }
        OtherContextsMore(raws[..i], raws[i], contexts);
        if raws[i].value !in contexts {
          var _ := AddRequiredCheck(RawCheck(raws[i], Missing));
        }
      }
      assert raws[..|raws|] == raws;
      ok := true;
    }

    method ApplyClassicChecks(p: ClassicChecks) returns (ok: bool)
      requires Valid()
      modifies this`requiredStatusChecks, this`upToDateRequired
      ensures ok <==> ClassicChecksDemand(p).Some?
      ensures ok ==> View() == Join(old(View()), ClassicChecksDemand(p).value)
    {
      JoinNothing(View());
      if !p.strict.Is? || p.checks.Bad? {
        return false;
      }
      upToDateRequired := upToDateRequired || p.strict.value;
      var contexts: set<string>;
      ok, contexts := AddClassicChecks(ListOf(p.checks));
      if !ok || p.contexts.Bad? {
        return false;
      }
      ok := AddClassicContexts(ListOf(p.contexts), contexts);
    }

    method ApplyClassicReviews(p: ClassicReviews) returns (ok: bool)
      requires Valid()
      modifies this`requiredApprovals, this`dismissStaleReviewsOnPush, this`codeOwnerReviewRequired,
        this`lastPushApprovalRequired
      ensures ok <==> ClassicReviewsDemand(p).Some?
      ensures ok ==> View() == Join(old(View()), ClassicReviewsDemand(p).value)
    {
      JoinNothing(View());
      ok := p.approvals.Is? && p.approvals.value >= 0 && p.dismissStale.Is? && p.codeOwner.Is? && p.lastPush.Is?;
      if ok {
        RequireReviews(p.approvals.value, p.dismissStale.value, p.codeOwner.value, p.lastPush.value);
      }
    }

    /** The two switches of classic protection. */
    method ApplyClassicSwitches(conversation: Raw<bool>, linearHistory: Raw<bool>) returns (ok: bool)
      requires Valid()
      modifies this`conversationResolutionRequired, this`linearHistoryRequired
      ensures ok <==> SwitchesDemand(conversation, linearHistory).Some?
      ensures ok ==> View() == Join(old(View()), SwitchesDemand(conversation, linearHistory).value)
    {
      JoinNothing(View());
      if conversation.Bad? {
        return false;
      }
      conversationResolutionRequired := conversationResolutionRequired || conversation == Is(true);
      if linearHistory.Bad? {
        return false;
      }
      linearHistoryRequired := linearHistoryRequired || linearHistory == Is(true);
      ok := true;
    }

    /** Layers the one effective classic rule. */
    method ApplyClassicProtection(c: Classic) returns (ok: bool)
      requires Valid()
      modifies this
      ensures Valid()
      ensures ok <==> ClassicDemand(c).Some?
      ensures ok ==> View() == Join(old(View()), ClassicDemand(c).value)
    {
      ok := c.statusChecks.Missing?;
      JoinNothing(View());
      if c.statusChecks.Is? {
        ok := ApplyClassicChecks(c.statusChecks.value);
      }
      if !ok {
        return;
      }
      ghost var checks := Part(c.statusChecks, ClassicChecksDemand).value;
      assert View() == Join(old(View()), checks);
      ok := c.reviews.Missing?;
      JoinNothing(View());
      if c.reviews.Is? {
        ok := ApplyClassicReviews(c.reviews.value);
      }
      if !ok {
        return;
      }
      ghost var reviews := Part(c.reviews, ClassicReviewsDemand).value;
      JoinAssociates(old(View()), checks, reviews);
      ok := ApplyClassicSwitches(c.conversation, c.linearHistory);
      if ok {
        JoinAssociates(old(View()), Join(checks, reviews), SwitchesDemand(c.conversation, c.linearHistory).value);
      }
    }
  }

  // ----- What the layers mean -----

  lemma {:induction false} LayeredIsLeast(rules: seq<Rule>, bound: Policy)
    requires AtMost(UNRESTRICTED, bound)
    requires forall rule :: rule in rules ==> AtMost(RuleDemand(rule).GetOr(UNRESTRICTED), bound)
    ensures AtMost(Layered(rules), bound)
  {
    if rules != [] {
      LayeredIsLeast(rules[..|rules| - 1], bound);
    }
  }

  lemma {:induction false} LayeredCovers(rules: seq<Rule>, rule: Rule)
    requires rule in rules
    ensures AtMost(RuleDemand(rule).GetOr(UNRESTRICTED), Layered(rules))
  {
    var init, last := rules[..|rules| - 1], rules[|rules| - 1];
    JoinIsLeast(Layered(init), RuleDemand(last).GetOr(UNRESTRICTED), UNRESTRICTED);
    if rule != last {
      assert rules == init + [last];
      LayeredCovers(init, rule);
    }
  }

  lemma {:induction false} LayeredStartsUnrestricted(rules: seq<Rule>)
    ensures AtMost(UNRESTRICTED, Layered(rules))
  {
    if rules != [] {
      LayeredStartsUnrestricted(rules[..|rules| - 1]);
    }
  }

  /** More rules never demand less: no check is dropped, no flag cleared, no method added. */
  lemma LayersAreMonotone(rules: seq<Rule>, more: seq<Rule>)
    requires forall rule :: rule in rules ==> rule in more
    ensures WellFormed(more) ==> WellFormed(rules)
    ensures AtMost(Layered(rules), Layered(more))
  {
    forall rule | rule in rules ensures AtMost(RuleDemand(rule).GetOr(UNRESTRICTED), Layered(more)) {
      LayeredCovers(more, rule);
    }
    LayeredStartsUnrestricted(more);
    LayeredIsLeast(rules, Layered(more));
  }

  /** Neither the order of the rules nor repetitions matter, for the policy and for rejection. */
  lemma LayersForgetOrderAndRepetition(rules: seq<Rule>, rules': seq<Rule>)
    requires forall rule :: rule in rules <==> rule in rules'
    ensures WellFormed(rules) <==> WellFormed(rules')
    ensures Layered(rules) == Layered(rules')
  {
    LayersAreMonotone(rules, rules');
    LayersAreMonotone(rules', rules);
    MutualDemands(Layered(rules), Layered(rules'));
  }

  /** Applying rules a second time changes nothing, and either layer may be applied first. */
  lemma LayersCommute(p: Policy, rules: seq<Rule>, classic: Policy)
    ensures Join(Join(p, Layered(rules)), Layered(rules)) == Join(p, Layered(rules))
    ensures Join(Join(p, Layered(rules)), classic) == Join(Join(p, classic), Layered(rules))
  {
    JoinIsLeast(p, Layered(rules), p);
    JoinAbsorbs(Join(p, Layered(rules)), Layered(rules));
    JoinAssociates(p, Layered(rules), classic);
    JoinCommutes(Layered(rules), classic);
    JoinAssociates(p, classic, Layered(rules));
  }

  // ----- The effective policy -----

  /** The sources of policy that were read completely: the active rules, and classic protection if there is any. */
  function Demands(rules: seq<Rule>, classic: Option<Classic>): Option<Policy> {
    if exists rule :: rule in rules && RuleDemand(rule).None? then None
    else
      match classic
      case None => Some(Layered(rules))
      case Some(c) => JoinParts(Some(Layered(rules)), ClassicDemand(c))
  }

  function WithLinearHistory(p: Policy): Policy {
    if p.linearHistory then p.(methods := p.methods - {"merge"}) else p
  }

  /** An unreadable source or an unmodeled requirement leaves no policy at all. */
  method ReadEffectiveMergePolicy(rules: Option<seq<Rule>>, classic: Option<Option<Classic>>)
    returns (r: Result<Option<Policy>, Malformed>)
    ensures rules.None? || classic.None? ==> r == Ok(None)
    ensures rules.Some? && classic.Some? ==>
              match Demands(rules.value, classic.value) {
                case None => r == Err(Malformed)
                case Some(p) => r == Ok(if p.unmodeled == {} then Some(WithLinearHistory(p)) else None)
              }
  {
    if rules.None? || classic.None? {
      return Ok(None);
    }
    var policy := new MergePolicy();
    var ok := policy.ApplyRulesetRules(rules.value);
    if !ok {
      return Err(Malformed);
    }
    LayeredStartsUnrestricted(rules.value);
    JoinCommutes(UNRESTRICTED, Layered(rules.value));
    JoinNothing(Layered(rules.value));
    if classic.value.Some? {
      ok := policy.ApplyClassicProtection(classic.value.value);
      if !ok {
        return Err(Malformed);
      }
    }
    if policy.unmodeledPolicyRequirements != {} {
      return Ok(None);
    }
    if policy.linearHistoryRequired {
      policy.allowedMergeMethods := policy.allowedMergeMethods - {"merge"};
    }
    r := Ok(Some(policy.View()));
  }

  /**
   * A classic source demands a context from any app exactly when a precise check of it does, or
   * when the legacy list names the context and no precise check does; "-1" never survives.
   */
  lemma AnyAppContexts(p: ClassicChecks, context: string)
    requires ClassicChecksDemand(p).Some?
    ensures RequiredStatusCheck(context, None) in ClassicChecksDemand(p).value.checks <==>
            || RawCheck(Is(context), Missing) in ListOf(p.checks) || RawCheck(Is(context), Is(-1)) in ListOf(p.checks)
            || (Is(context) in ListOf(p.contexts) && forall raw :: raw in ListOf(p.checks) ==> raw.context != Is(context))
    ensures RequiredStatusCheck(context, Some(-1)) !in ClassicChecksDemand(p).value.checks
  {
    var raws := ListOf(p.checks);
    var normalized := Apply(ClassicId, raws);
    forall raw ensures raw in normalized <==> exists r :: r in raws && ClassicId(r) == raw {
      if r :| r in raws && ClassicId(r) == raw {
        var i :| 0 <= i < |raws| && raws[i] == r;
        ClassicIdAt(raws, i);
      }
    }
    var any, minusOne := RawCheck(Is(context), Missing), RawCheck(Is(context), Is(-1));
    assert ClassicId(any) == any && ClassicId(minusOne) == any;
    if RequiredStatusCheck(context, None) in ParsedChecks(normalized) {
      var raw :| raw in normalized && ParseCheck(raw) == Some(RequiredStatusCheck(context, None));
      assert raw == any;
    }
    if any in normalized {
      assert ParseCheck(any) == Some(RequiredStatusCheck(context, None));
    }
    assert RequiredStatusCheck(context, None) in ParsedChecks(normalized) <==> any in raws || minusOne in raws;
    assert RequiredStatusCheck(context, None) in OtherContexts(ListOf(p.contexts), ContextsOf(raws)) <==>
           Is(context) in ListOf(p.contexts) && context !in ContextsOf(raws);
  }

  const RULES_PER_PAGE_MAX: int := 100

  /** One bounded page of active rules, and a probe for the rule after it when the page is full. */
  function ReadActiveRules(listing: seq<Rule>, hardMax: int, readable: bool, probeReadable: bool): Option<seq<Rule>> {
    var limit := Max(1, Min(hardMax, RULES_PER_PAGE_MAX));
    var first := PageOf(listing, 1, limit);
    if !readable then None
    else if |first| < limit then Some(first)
    else if !probeReadable || PageOf(listing, limit + 1, 1) != [] then None
    else Some(first)
  }

  /** The rules are used only if they are all of them. */
  lemma ActiveRulesAreComplete(listing: seq<Rule>, hardMax: int, readable: bool, probeReadable: bool)
    ensures var limit := if hardMax < 1 then 1 else if hardMax > 100 then 100 else hardMax;
            ReadActiveRules(listing, hardMax, readable, probeReadable) ==
            if readable && (|listing| < limit || (|listing| == limit && probeReadable)) then Some(listing) else None
  {
    assert listing[..|listing|] == listing;
  }

  // ----- The effective policy in terms of what GitHub sent -----

  datatype Flag = DismissStale | CodeOwner | LastPush | Conversation | UpToDate | Linear

  function FlagOf(p: Policy, flag: Flag): bool {
    match flag
    case DismissStale => p.dismissStale
    case CodeOwner => p.codeOwner
    case LastPush => p.lastPush
    case Conversation => p.conversation
    case UpToDate => p.upToDate
    case Linear => p.linearHistory
  }

  /** The rule itself asks for the flag. Being up to date is asked for only along with some check. */
  predicate Asks(rule: Rule, flag: Flag) {
    match flag
    case DismissStale => rule.PullRequest? && rule.pull.Is? && rule.pull.value.dismissStale == Is(true)
    case CodeOwner => rule.PullRequest? && rule.pull.Is? && rule.pull.value.codeOwner == Is(true)
    case LastPush => rule.PullRequest? && rule.pull.Is? && rule.pull.value.lastPush == Is(true)
    case Conversation => rule.PullRequest? && rule.pull.Is? && rule.pull.value.conversation == Is(true)
    case UpToDate =>
      && rule.StatusChecks? && rule.status.Is? && rule.status.value.strict == Is(true)
      && rule.status.value.checks.Is? && rule.status.value.checks.value != []
    case Linear => rule == LinearHistory
  }

  /** Classic protection asks for the flag. */
  predicate ClassicAsks(c: Classic, flag: Flag) {
    match flag
    case DismissStale => c.reviews.Is? && c.reviews.value.dismissStale == Is(true)
    case CodeOwner => c.reviews.Is? && c.reviews.value.codeOwner == Is(true)
    case LastPush => c.reviews.Is? && c.reviews.value.lastPush == Is(true)
    case Conversation => c.conversation == Is(true)
    case UpToDate => c.statusChecks.Is? && c.statusChecks.value.strict == Is(true)
    case Linear => c.linearHistory == Is(true)
  }

  /** A raw check names this context and app. */
  ghost predicate Names(raws: seq<RawCheck>, check: RequiredStatusCheck) {
    && check.context != ""
    && (if check.integrationId.Some? then RawCheck(Is(check.context), Is(check.integrationId.value)) in raws
        else RawCheck(Is(check.context), Missing) in raws)
  }

  /** The rule asks for this check. */
  ghost predicate AsksCheck(rule: Rule, check: RequiredStatusCheck) {
    && rule.StatusChecks? && rule.status.Is? && rule.status.value.checks.Is?
    && Names(rule.status.value.checks.value, check)
  }

  /** The rule lets this merge method through. */
  predicate Lets(rule: Rule, m: string) {
    rule.PullRequest? ==> rule.pull.Is? && rule.pull.value.methods.Is? && m in rule.pull.value.methods.value
  }

  /** The number of approvals that the rule asks for. */
  function ApprovalsAsked(rule: Rule): int {
    if rule.PullRequest? && rule.pull.Is? && rule.pull.value.approvals.Is? then rule.pull.value.approvals.value else 0
  }

  function ClassicApprovalsAsked(c: Classic): int {
    if c.reviews.Is? && c.reviews.value.approvals.Is? then c.reviews.value.approvals.value else 0
  }

  /** The rule contains something that the policy does not model. */
  predicate Unmodeled(rule: Rule) {
    || rule.OtherRule?
    || (rule.PullRequest? && rule.pull.Is? && rule.pull.value.reviewers.Is? && rule.pull.value.reviewers.value > 0)
  }

  lemma ParsedChecksExactly(raws: seq<RawCheck>, check: RequiredStatusCheck)
    ensures check in ParsedChecks(raws) <==> Names(raws, check)
  {
    if check in ParsedChecks(raws) {
      var raw :| raw in raws && ParseCheck(raw) == Some(check);
      assert raw == RawCheck(Is(check.context),
                             if check.integrationId.Some? then Is(check.integrationId.value) else Missing);
    }
    if Names(raws, check) {
      var raw := RawCheck(Is(check.context), if check.integrationId.Some? then Is(check.integrationId.value) else Missing);
      assert raw in raws && ParseCheck(raw) == Some(check);
    }
  }

  /** What one well-formed rule demands, field by field. */
  lemma RuleDemandsExactly(rule: Rule, flag: Flag, check: RequiredStatusCheck, m: string)
    requires RuleDemand(rule).Some?
    ensures var p := RuleDemand(rule).value;
            && (FlagOf(p, flag) <==> Asks(rule, flag))
            && (check in p.checks <==> AsksCheck(rule, check))
            && (m in p.methods <==> m in {"merge", "squash", "rebase"} && Lets(rule, m))
            && p.approvals == ApprovalsAsked(rule)
            && (p.unmodeled == {} <==> !Unmodeled(rule))
            && (rule.OtherRule? ==> p.unmodeled == {"ruleset:" + rule.name})
            && (rule.PullRequest? ==> p.unmodeled <= {"pull_request.required_reviewers"})
  {
    if rule.StatusChecks? {
      ParsedChecksExactly(rule.status.value.checks.value, check);
    }
  }

  /** Which rules are malformed. */
  lemma MalformedRules(rule: Rule)
    ensures RuleDemand(rule).None? <==>
            match rule {
              case BadRule => true
              case LinearHistory => false
              case OtherRule(name) => name == ""
              case StatusChecks(status) =>
                !status.Is? || !status.value.strict.Is? || !status.value.checks.Is?
                || exists raw :: raw in status.value.checks.value
                                 && (!raw.context.Is? || raw.context.value == "" || raw.id.Bad?)
              case PullRequest(pull) =>
                || !pull.Is? || !pull.value.methods.Is? || pull.value.methods.value == []
                || (exists m :: m in pull.value.methods.value && m != "merge" && m != "squash" && m != "rebase")
                || !pull.value.approvals.Is? || pull.value.approvals.value < 0
                || !pull.value.dismissStale.Is? || !pull.value.codeOwner.Is? || !pull.value.lastPush.Is?
                || !pull.value.conversation.Is? || pull.value.reviewers.Bad?
            }
  {
    if rule.StatusChecks? && rule.status.Is? && rule.status.value.checks.Is? {
      assert forall raw :: raw in rule.status.value.checks.value ==>
               (ParseCheck(raw).None? <==> !raw.context.Is? || raw.context.value == "" || raw.id.Bad?);
    }
  }

  lemma {:induction false} LayersDemandExactly(rules: seq<Rule>, flag: Flag, check: RequiredStatusCheck, m: string)
    requires WellFormed(rules)
    ensures var p := Layered(rules);
            && (FlagOf(p, flag) <==> exists rule :: rule in rules && Asks(rule, flag))
            && (check in p.checks <==> exists rule :: rule in rules && AsksCheck(rule, check))
            && (m in p.methods <==> m in {"merge", "squash", "rebase"} && forall rule :: rule in rules ==> Lets(rule, m))
  {
    if rules != [] {
      var init, last := rules[..|rules| - 1], rules[|rules| - 1];
      assert rules == init + [last];
      LayersDemandExactly(init, flag, check, m);
      RuleDemandsExactly(last, flag, check, m);
    }
  }

  lemma {:induction false} LayersCountExactly(rules: seq<Rule>)
    requires WellFormed(rules)
    ensures var p := Layered(rules);
            && (forall rule :: rule in rules ==> ApprovalsAsked(rule) <= p.approvals)
            && (p.approvals == 0 || exists rule :: rule in rules && ApprovalsAsked(rule) == p.approvals)
            && (p.unmodeled == {} <==> forall rule :: rule in rules ==> !Unmodeled(rule))
  {
    if rules != [] {
      var init, last := rules[..|rules| - 1], rules[|rules| - 1];
      assert rules == init + [last];
      LayersCountExactly(init);
      RuleDemandsExactly(last, Linear, RequiredStatusCheck("", None), "");
    }
  }

  /** Classic protection asks for this check: a precise check names it, with -1 for any app, or the
      legacy list alone names its context. */
  ghost predicate ClassicAsksCheck(c: Classic, check: RequiredStatusCheck) {
    && c.statusChecks.Is? && check.context != ""
    && var raws, contexts := ListOf(c.statusChecks.value.checks), ListOf(c.statusChecks.value.contexts);
       match check.integrationId
       case Some(id) => id != -1 && RawCheck(Is(check.context), Is(id)) in raws
       case None =>
         || RawCheck(Is(check.context), Missing) in raws || RawCheck(Is(check.context), Is(-1)) in raws
         || (Is(check.context) in contexts && forall raw :: raw in raws ==> raw.context != Is(check.context))
  }

  lemma ClassicIdMembers(raws: seq<RawCheck>, raw: RawCheck)
    ensures raw in Apply(ClassicId, raws) <==> exists r :: r in raws && ClassicId(r) == raw
  {
    if r :| r in raws && ClassicId(r) == raw {
      var i :| 0 <= i < |raws| && raws[i] == r;
      ClassicIdAt(raws, i);
    }
  }

  lemma NoEmptyContext(p: ClassicChecks)
    requires ClassicChecksDemand(p).Some?
    ensures RequiredStatusCheck("", None) !in ClassicChecksDemand(p).value.checks
  {
    ParsedChecksExactly(Apply(ClassicId, ListOf(p.checks)), RequiredStatusCheck("", None));
  }

  lemma ClassicCheckExactly(c: Classic, check: RequiredStatusCheck)
    requires c.statusChecks.Is? && ClassicChecksDemand(c.statusChecks.value).Some?
    ensures check in ClassicChecksDemand(c.statusChecks.value).value.checks <==> ClassicAsksCheck(c, check)
  {
    var p := c.statusChecks.value;
    var raws := ListOf(p.checks);
    match check.integrationId
    case None =>
      AnyAppContexts(p, check.context);
      if Is("") in ListOf(p.contexts) {
        assert !GoodContext(Is(""));
      }
      if check.context == "" {
        NoEmptyContext(p);
      }
    case Some(id) =>
      var raw := RawCheck(Is(check.context), Is(id));
      ParsedChecksExactly(Apply(ClassicId, raws), check);
      ClassicIdMembers(raws, raw);
      if raw in raws && id != -1 {
        assert ClassicId(raw) == raw;
      }
  }

  /** What well-formed classic protection demands, field by field. */
  lemma ClassicDemandsExactly(c: Classic, flag: Flag, check: RequiredStatusCheck)
    requires ClassicDemand(c).Some?
    ensures var p := ClassicDemand(c).value;
            && (FlagOf(p, flag) <==> ClassicAsks(c, flag))
            && (check in p.checks <==> ClassicAsksCheck(c, check))
            && p.methods == {"merge", "squash", "rebase"} && p.unmodeled == {}
            && p.approvals == ClassicApprovalsAsked(c)
  {
    if c.statusChecks.Is? {
      ClassicCheckExactly(c, check);
    }
  }

  /** Which classic protection is malformed. */
  lemma MalformedClassic(c: Classic)
    ensures ClassicDemand(c).None? <==>
            || c.statusChecks.Bad? || c.reviews.Bad? || c.conversation.Bad? || c.linearHistory.Bad?
            || (c.reviews.Is? &&
                  var r := c.reviews.value;
                  !r.approvals.Is? || r.approvals.value < 0 || !r.dismissStale.Is? || !r.codeOwner.Is? || !r.lastPush.Is?)
            || (c.statusChecks.Is? && ClassicChecksDemand(c.statusChecks.value).None?)
  {
  }

  /** Which classic check lists are malformed. */
  lemma MalformedClassicChecks(p: ClassicChecks)
    ensures ClassicChecksDemand(p).None? <==>
            || !p.strict.Is? || p.checks.Bad? || p.contexts.Bad?
            || (exists raw :: raw in ListOf(p.checks) && (!raw.context.Is? || raw.context.value == "" || raw.id.Bad?))
            || (exists raw :: raw in ListOf(p.contexts) && (!raw.Is? || raw.value == ""))
  {
    var raws := ListOf(p.checks);
    forall raw ensures raw in Apply(ClassicId, raws) <==> exists r :: r in raws && ClassicId(r) == raw {
      ClassicIdMembers(raws, raw);
    }
    forall r | r in raws
      ensures ClassicId(r) in Apply(ClassicId, raws)
      ensures ParseCheck(ClassicId(r)).None? <==> !r.context.Is? || r.context.value == "" || r.id.Bad?
    {
    }
    assert (exists raw :: raw in ListOf(p.contexts) && (!raw.Is? || raw.value == "")) <==>
           !(forall raw :: raw in ListOf(p.contexts) ==> GoodContext(raw));
  }

  /**
   * The effective policy is exact, in terms of what GitHub sent. A flag is set if and only if a rule
   * or classic protection asks for it; a check is required if and only if one of them asks for
   * it; and a merge method is left if and only if every rule lets it through and linear history
   * does not exclude it.
   */
  lemma EffectivePolicyIsExact(rules: seq<Rule>, classic: Option<Classic>, flag: Flag, check: RequiredStatusCheck,
                               m: string)
    requires Demands(rules, classic).Some?
    ensures var p := WithLinearHistory(Demands(rules, classic).value);
            && (FlagOf(p, flag) <==>
                  (exists rule :: rule in rules && Asks(rule, flag)) || (classic.Some? && ClassicAsks(classic.value, flag)))
            && (check in p.checks <==>
                  || (exists rule :: rule in rules && AsksCheck(rule, check))
                  || (classic.Some? && ClassicAsksCheck(classic.value, check)))
            && (m in p.methods <==>
                  && m in {"merge", "squash", "rebase"} && (forall rule :: rule in rules ==> Lets(rule, m))
                  && !(m == "merge" && p.linearHistory))
  {
    LayersDemandExactly(rules, flag, check, m);
    if classic.Some? {
      ClassicDemandsExactly(classic.value, flag, check);
    }
  }

  /** The approvals required are the most that any source asks for, and nothing is unmodeled exactly if
      every rule can be modeled. */
  lemma EffectiveApprovalsAreMaximal(rules: seq<Rule>, classic: Option<Classic>)
    requires Demands(rules, classic).Some?
    ensures var approvals := WithLinearHistory(Demands(rules, classic).value).approvals;
            && (forall rule :: rule in rules ==> ApprovalsAsked(rule) <= approvals)
            && (classic.Some? ==> ClassicApprovalsAsked(classic.value) <= approvals)
            && (|| approvals == 0 || (exists rule :: rule in rules && ApprovalsAsked(rule) == approvals)
                || (classic.Some? && ClassicApprovalsAsked(classic.value) == approvals))
    ensures Demands(rules, classic).value.unmodeled == {} <==> forall rule :: rule in rules ==> !Unmodeled(rule)
  {
    LayersCountExactly(rules);
    if classic.Some? {
      ClassicDemandsExactly(classic.value, Linear, RequiredStatusCheck("", None));
    }
  }
}
