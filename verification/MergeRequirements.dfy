/** Putting merge-requirement evidence together: approvals that count, and required checks. */
module MergeRequirements {

  import opened Prelude
  import opened Text
  import opened Sorting
  import opened LatestRows
  import Policies = MergePolicy
  import Pinned = RequiredChecks

  // ----- Approvals -----

  datatype Review = Review(id: int, reviewer: Option<string>, submittedAt: Option<string>, approved: bool)

  datatype ReviewState = ReviewState(
    currentApprovals: seq<Review>,
    currentChangeRequests: seq<Review>,
    staleApprovals: seq<Review>,
    staleChangeRequests: seq<Review>)

  /** The decisive reviews that count: stale ones only if a push does not dismiss them. */
  function Considered(state: ReviewState, dismissStale: bool): seq<Review> {
    state.currentApprovals + state.currentChangeRequests
    + (if dismissStale then [] else state.staleApprovals + state.staleChangeRequests)
  }

  /** Later by time stamp, then by id. */
  predicate LaterReview(a: Review, b: Review) {
    var x, y := a.submittedAt.GetOr(""), b.submittedAt.GetOr("");
    !StringLeq(x, y) || (x == y && a.id > b.id)
  }

  predicate ById(a: Review, b: Review) {
    a.id <= b.id
  }

  predicate Named(review: Review) {
    review.reviewer.Some?
  }

  predicate Approved(review: Review) {
    review.approved
  }

  /** The folded login of a review; of interest for named reviews only. */
  function LoginOf(casefold: string -> string, review: Review): string {
    match review.reviewer
    case Some(login) => casefold(login)
    case None => casefold("")
  }

  function ReviewerKey(casefold: string -> string): Review -> string {
    (review: Review) => LoginOf(casefold, review)
  }

  predicate SameReviewer(casefold: string -> string, a: Review, b: Review) {
    ReviewerKey(casefold)(a) == ReviewerKey(casefold)(b)
  }

  /** The latest review of each named reviewer. */
  function LatestReviews(reviews: seq<Review>, casefold: string -> string): seq<Review> {
    Keep(Filter(Named, reviews), ReviewerKey(casefold), LaterReview)
  }

  lemma OneMoreReview(reviews: seq<Review>, i: nat, casefold: string -> string)
    requires i < |reviews|
    ensures LatestReviews(reviews[..i + 1], casefold) ==
            if Named(reviews[i]) then
              Upsert(LatestReviews(reviews[..i], casefold), reviews[i], ReviewerKey(casefold), LaterReview)
            else
              LatestReviews(reviews[..i], casefold)
  {
    assert reviews[..i + 1] == reviews[..i] + [reviews[i]];
    FilterOneMore(Named, reviews[..i], reviews[i]);
    if Named(reviews[i]) {
      KeepAppend(Filter(Named, reviews[..i]), reviews[i], ReviewerKey(casefold), LaterReview);
    }
  }

  method CurrentValidApprovals(state: ReviewState, dismissStale: bool, casefold: string -> string)
    returns (approvals: seq<Review>)
    ensures approvals == Sort(Filter(Approved, LatestReviews(Considered(state, dismissStale), casefold)), ById)
  {
    var decisive := state.currentApprovals + state.currentChangeRequests;
    if !dismissStale {
      decisive := decisive + state.staleApprovals + state.staleChangeRequests;
    }
    assert decisive == Considered(state, dismissStale);
    var latest: seq<Review> := [];
    for i := 0 to |decisive|
      invariant latest == LatestReviews(decisive[..i], casefold)
    {
      OneMoreReview(decisive, i, casefold);
      if decisive[i].reviewer.Some? {
        latest := Upsert(latest, decisive[i], ReviewerKey(casefold), LaterReview);
      }
    }
    assert decisive[..|decisive|] == decisive;
    approvals := Sort(Filter(Approved, latest), ById);
  }

  /** A review id stands for one review. */
  ghost predicate IdsIdentify(reviews: seq<Review>) {
    forall x, y :: x in reviews && y in reviews && x.id == y.id ==> x == y
  }

  lemma ReviewOrder()
    ensures StrictOrder(LaterReview)
  {
    forall a: Review, b: Review, c: Review
      ensures LaterReview(a, b) ==> !LaterReview(b, a)
      ensures !LaterReview(a, b) && !LaterReview(b, c) ==> !LaterReview(a, c)
    {
      var x, y, z := a.submittedAt.GetOr(""), b.submittedAt.GetOr(""), c.submittedAt.GetOr("");
      StringOrder(x, y, z);
      StringOrder(y, z, x);
      StringOrder(z, y, x);
    }
  }

  /** A review that no later one by the same person replaces. */
  ghost predicate Decides(reviews: seq<Review>, casefold: string -> string, review: Review) {
    && review in reviews && Named(review)
    && forall other :: other in reviews && Named(other) && SameReviewer(casefold, other, review) ==>
         other == review || LaterReview(review, other)
  }

  lemma Trichotomy(reviews: seq<Review>, a: Review, b: Review)
    requires IdsIdentify(reviews) && a in reviews && b in reviews
    ensures a == b || LaterReview(a, b) || LaterReview(b, a)
  {
    StringOrder(a.submittedAt.GetOr(""), b.submittedAt.GetOr(""), "");
  }

  lemma LatestReviewsDecide(reviews: seq<Review>, casefold: string -> string, review: Review)
    requires IdsIdentify(reviews)
    ensures OneRowPerKey(LatestReviews(reviews, casefold), ReviewerKey(casefold))
    ensures review in LatestReviews(reviews, casefold) <==> Decides(reviews, casefold, review)
  {
    var xs, key := Filter(Named, reviews), ReviewerKey(casefold);
    var rows := Keep(xs, key, LaterReview);
    ReviewOrder();
    FilterMembers(Named, reviews, review);
    var i := KeepsTheLatest(xs, key, LaterReview, key(review));
    RowForIsMembership(rows, key, review);
    if review in rows {
      assert review == xs[i] && review in xs;
      forall other | other in reviews && Named(other) && SameReviewer(casefold, other, review)
        ensures other == review || LaterReview(review, other)
      {
        FilterMembers(Named, reviews, other);
        var j :| 0 <= j < |xs| && xs[j] == other;
        Trichotomy(reviews, other, review);
      }
    } else if Decides(reviews, casefold, review) {
      var j :| 0 <= j < |xs| && xs[j] == review;
      FilterMembers(Named, reviews, xs[i]);
      assert SameReviewer(casefold, xs[i], review);
    }
  }

  function CountedApprovals(reviews: seq<Review>, casefold: string -> string): seq<Review> {
    Sort(Filter(Approved, LatestReviews(reviews, casefold)), ById)
  }

  function DifferentReviewers(casefold: string -> string): (Review, Review) -> bool {
    (a: Review, b: Review) => !SameReviewer(casefold, a, b)
  }

  /**
   * An approval counts exactly when it is the latest decisive review by its author; nobody
   * counts twice, and the approvals come in order of their ids.
   */
  lemma ApprovalsExactly(reviews: seq<Review>, casefold: string -> string, review: Review)
    requires IdsIdentify(reviews)
    ensures var counted := CountedApprovals(reviews, casefold);
            && (review in counted <==> Approved(review) && Decides(reviews, casefold, review))
            && Pairwise(counted, DifferentReviewers(casefold))
            && SortedBy(counted, ById)
  {
    var rows := LatestReviews(reviews, casefold);
    var approved := Filter(Approved, rows);
    LatestReviewsDecide(reviews, casefold, review);
    FilterMembers(Approved, rows, review);
    SortSorts(approved, ById);
    FilterKeepsPairwise(Approved, rows, DifferentReviewers(casefold));
    PairwiseForgetsOrder(approved, Sort(approved, ById), DifferentReviewers(casefold));
  }

  /** Neither the order in which reviews are listed nor repetitions change what counts. */
  lemma ApprovalsForgetOrder(reviews: seq<Review>, reviews': seq<Review>, casefold: string -> string)
    requires IdsIdentify(reviews) && forall review :: review in reviews <==> review in reviews'
    ensures CountedApprovals(reviews, casefold) == CountedApprovals(reviews', casefold)
  {
    var a, b := CountedApprovals(reviews, casefold), CountedApprovals(reviews', casefold);
    forall review ensures review in a <==> review in b {
      ApprovalsExactly(reviews, casefold, review);
      ApprovalsExactly(reviews', casefold, review);
      assert Decides(reviews, casefold, review) <==> Decides(reviews', casefold, review);
    }
    forall review | review in a ensures review in reviews {
      ApprovalsExactly(reviews, casefold, review);
    }
    ApprovalsExactly(reviews, casefold, Review(0, None, None, false));
    ApprovalsExactly(reviews', casefold, Review(0, None, None, false));
    SameMembers(a, b, DifferentReviewers(casefold));
    SortedUnique(a, b, ById);
  }

  // ----- Approvals in terms of time stamps -----

  /** One review came before another: by its time stamp, and by its id if the stamps are equal. */
  ghost predicate Before(a: Review, b: Review) {
    var x, y := a.submittedAt.GetOr(""), b.submittedAt.GetOr("");
    (x != y && NoLater(x, y)) || (x == y && a.id < b.id)
  }

  lemma LaterMeaning(a: Review, b: Review)
    ensures LaterReview(a, b) <==> Before(b, a)
  {
    var x, y := a.submittedAt.GetOr(""), b.submittedAt.GetOr("");
    StringOrder(x, y, "");
    StringOrderMeaning(x, y);
    StringOrderMeaning(y, x);
  }

  /** Two named reviews by one person, whatever the case of the login. */
  predicate OnePerson(casefold: string -> string, a: Review, b: Review) {
    a.reviewer.Some? && b.reviewer.Some? && casefold(a.reviewer.value) == casefold(b.reviewer.value)
  }

  lemma SameReviewerMeaning(casefold: string -> string, a: Review, b: Review)
    requires Named(a) && Named(b)
    ensures SameReviewer(casefold, a, b) <==> OnePerson(casefold, a, b)
  {
    assert ReviewerKey(casefold)(a) == LoginOf(casefold, a);
    assert ReviewerKey(casefold)(b) == LoginOf(casefold, b);
  }

  /** The decisive reviews that are considered: those of the current head, and stale ones unless a push
      dismisses them. */
  predicate IsConsidered(state: ReviewState, dismissStale: bool, review: Review) {
    || review in state.currentApprovals || review in state.currentChangeRequests
    || (!dismissStale && (review in state.staleApprovals || review in state.staleChangeRequests))
  }

  /**
   * An approval is counted exactly if it is considered and every other considered review by the
   * same person came before it. The counted ones come in ascending order of ids, one a person.
   */
  lemma ApprovalsByTime(state: ReviewState, dismissStale: bool, casefold: string -> string, review: Review)
    requires IdsIdentify(Considered(state, dismissStale))
    ensures var counted := CountedApprovals(Considered(state, dismissStale), casefold);
            && (review in counted <==>
                  && review.approved && review.reviewer.Some? && IsConsidered(state, dismissStale, review)
                  && forall other | IsConsidered(state, dismissStale, other) && OnePerson(casefold, other, review) ::
                       other == review || Before(other, review))
            && (forall i, j :: 0 <= i < j < |counted| ==>
                  counted[i].id < counted[j].id && !OnePerson(casefold, counted[i], counted[j]))
  {
    var reviews := Considered(state, dismissStale);
    var counted := CountedApprovals(reviews, casefold);
    ApprovalsExactly(reviews, casefold, review);
    forall other ensures other in reviews <==> IsConsidered(state, dismissStale, other) {
    }
    forall other ensures LaterReview(review, other) <==> Before(other, review) {
      LaterMeaning(review, other);
    }
    forall other | Named(other) && Named(review)
      ensures SameReviewer(casefold, other, review) <==> OnePerson(casefold, other, review)
    {
      SameReviewerMeaning(casefold, other, review);
    }
    forall i, j | 0 <= i < j < |counted|
      ensures counted[i].id < counted[j].id && !OnePerson(casefold, counted[i], counted[j])
    {
      var a, b := counted[i], counted[j];
      assert a in counted && b in counted && ById(a, b) && DifferentReviewers(casefold)(a, b);
      ApprovalsExactly(reviews, casefold, a);
      ApprovalsExactly(reviews, casefold, b);
      SameReviewerMeaning(casefold, a, b);
    }
  }

  /** A newer change request by the same person removes an approval. */
  lemma ChangeRequestRemovesApproval(state: ReviewState, dismissStale: bool, casefold: string -> string,
                                     approval: Review, request: Review)
    requires IdsIdentify(Considered(state, dismissStale))
    requires IsConsidered(state, dismissStale, request) && !request.approved
    requires OnePerson(casefold, request, approval) && Before(approval, request)
    ensures approval !in CountedApprovals(Considered(state, dismissStale), casefold)
  {
    ApprovalsByTime(state, dismissStale, casefold, approval);
    LaterMeaning(request, approval);
    LaterMeaning(approval, request);
    ReviewOrder();
  }

  // ----- Required checks -----

  type Requirement = Policies.RequiredStatusCheck
  type Observation = Pinned.Observation

  /** A check as the pull request lists it, without any app. */
  datatype Check = Check(name: string, state: string)

  datatype Row = ContextRow(check: Check) | RunRow(run: Observation) | MissingRow(required: Requirement)

  /** The requirement that a row belongs to. */
  function Identity(row: Row): Requirement {
    match row
    case ContextRow(check) => Policies.RequiredStatusCheck(check.name, None)
    case RunRow(run) => Policies.RequiredStatusCheck(run.name, run.integrationId)
    case MissingRow(required) => required
  }

  /** The sentinel -1 stands for any app. */
  function WithoutSentinel(required: Requirement): Requirement {
    if required.integrationId == Some(-1) then required.(integrationId := None) else required
  }

  function Same(required: Requirement): Requirement {
    required
  }

  predicate Never(a: Requirement, b: Requirement) {
    false
  }

  method EffectiveRequiredChecks(checks: seq<Requirement>) returns (normalized: seq<Requirement>)
    ensures normalized == Keep(Apply(WithoutSentinel, checks), Same, Never)
  {
    normalized := [];
    for i := 0 to |checks|
      invariant normalized == Keep(Apply(WithoutSentinel, checks[..i]), Same, Never)
    {
      var required := WithoutSentinel(checks[i]);
      assert Apply(WithoutSentinel, checks[..i + 1]) == Apply(WithoutSentinel, checks[..i]) + [required];
      KeepAppend(Apply(WithoutSentinel, checks[..i]), required, Same, Never);
      normalized := Upsert(normalized, required, Same, Never);
    }
    assert checks[..|checks|] == checks;
  }

  ghost predicate Distinct(requirements: seq<Requirement>) {
    OneRowPerKey(requirements, Same)
  }

  /** Every identity once, the sentinel gone, nothing else added or lost. */
  lemma EffectiveExactly(checks: seq<Requirement>, required: Requirement)
    ensures var normalized := Keep(Apply(WithoutSentinel, checks), Same, Never);
            && Distinct(normalized)
            && (required in normalized <==> exists c :: c in checks && WithoutSentinel(c) == required)
            && (required in normalized ==> required.integrationId != Some(-1))
            && (required.integrationId.Some? && required.integrationId.value != -1 ==>
                  (required in normalized <==> required in checks))
            && (required.integrationId.None? ==>
                  (required in normalized <==>
                     required in checks || required.(integrationId := Some(-1)) in checks))
  {
    var all := Apply(WithoutSentinel, checks);
    var i := KeepsTheLatest(all, Same, Never, required);
    RowForIsMembership(Keep(all, Same, Never), Same, required);
    assert |all| == |checks| && forall j :: 0 <= j < |checks| ==> all[j] == WithoutSentinel(checks[j]);
    if c :| c in checks && WithoutSentinel(c) == required {
      var j :| 0 <= j < |checks| && checks[j] == c;
      assert Same(all[j]) == required;
    }
    if required in Keep(all, Same, Never) {
      assert checks[i] in checks && WithoutSentinel(checks[i]) == required;
    }
    assert forall c :: WithoutSentinel(c) == required <==>
             required.integrationId != Some(-1)
             && (c == required || (required.integrationId.None? && c == required.(integrationId := Some(-1))));
  }

  // ----- Reconciliation -----

  /** The listed checks whose context is required from any app. */
  function ContextRows(requirements: seq<Requirement>, checks: seq<Check>): seq<Row> {
    if checks == [] then []
    else
      var rows, check := ContextRows(requirements, checks[..|checks| - 1]), checks[|checks| - 1];
      if Identity(ContextRow(check)) in requirements then rows + [ContextRow(check)] else rows
  }

  /** The pinned runs of one identity. */
  function RunRows(required: Requirement, runs: seq<Observation>): seq<Row> {
    if runs == [] then []
    else
      var rows, run := RunRows(required, runs[..|runs| - 1]), runs[|runs| - 1];
      if Identity(RunRow(run)) == required then rows + [RunRow(run)] else rows
  }

  function MissingRows(required: Requirement, authoritative: bool): seq<Row> {
    if authoritative then [MissingRow(required)] else []
  }

  predicate Listed(required: Requirement, checks: seq<Check>) {
    exists check :: check in checks && check.name == required.context
  }

  function RowsFor(required: Requirement, checks: seq<Check>, runs: seq<Observation>, authoritative: bool): seq<Row> {
    if required.integrationId.None? then
      (if Listed(required, checks) then [] else MissingRows(required, authoritative))
    else if RunRows(required, runs) != [] then
      RunRows(required, runs)
    else
      MissingRows(required, authoritative)
  }

  function RequirementRows(requirements: seq<Requirement>, checks: seq<Check>, runs: seq<Observation>,
                           authoritative: bool): seq<Row>
  {
    if requirements == [] then []
    else
      RequirementRows(requirements[..|requirements| - 1], checks, runs, authoritative)
      + RowsFor(requirements[|requirements| - 1], checks, runs, authoritative)
  }

  function Reconciled(requirements: seq<Requirement>, checks: seq<Check>, runs: seq<Observation>,
                      authoritative: bool): seq<Row>
  {
    ContextRows(requirements, checks) + RequirementRows(requirements, checks, runs, authoritative)
  }

  lemma {:induction false} ContextRowCount(requirements: seq<Requirement>, checks: seq<Check>, row: Row)
    ensures multiset(ContextRows(requirements, checks))[row] ==
            if row.ContextRow? && Identity(row) in requirements then multiset(checks)[row.check] else 0
  {
    if checks != [] {
      ContextRowCount(requirements, checks[..|checks| - 1], row);
      assert checks == checks[..|checks| - 1] + [checks[|checks| - 1]];
    }
  }

  lemma {:induction false} RunRowCount(required: Requirement, runs: seq<Observation>, row: Row)
    ensures multiset(RunRows(required, runs))[row] ==
            if row.RunRow? && Identity(row) == required then multiset(runs)[row.run] else 0
  {
    if runs != [] {
      RunRowCount(required, runs[..|runs| - 1], row);
      assert runs == runs[..|runs| - 1] + [runs[|runs| - 1]];
    }
  }

  /** Whether anything was observed for a requirement. */
  predicate Observed(required: Requirement, checks: seq<Check>, runs: seq<Observation>) {
    if required.integrationId.None? then Listed(required, checks)
    else exists run :: run in runs && run.name == required.context && run.integrationId == required.integrationId
  }

  /** How often a row belongs into the result. */
  function Due(requirements: seq<Requirement>, checks: seq<Check>, runs: seq<Observation>, authoritative: bool,
               row: Row): nat
  {
    match row
    case ContextRow(check) =>
      if Policies.RequiredStatusCheck(check.name, None) in requirements then multiset(checks)[check] else 0
    case RunRow(run) =>
      if run.integrationId.Some? && Policies.RequiredStatusCheck(run.name, run.integrationId) in requirements then
        multiset(runs)[run]
      else
        0
    case MissingRow(required) =>
      if required in requirements && authoritative && !Observed(required, checks, runs) then 1 else 0
  }

  lemma {:induction false} OnlyRunRows(required: Requirement, runs: seq<Observation>)
    ensures forall row :: row in RunRows(required, runs) ==> row.RunRow?
  {
    if runs != [] {
      OnlyRunRows(required, runs[..|runs| - 1]);
    }
  }

  lemma RowsForCount(required: Requirement, checks: seq<Check>, runs: seq<Observation>, authoritative: bool, row: Row)
    ensures multiset(RowsFor(required, checks, runs, authoritative))[row] ==
            if row.ContextRow? || Identity(row) != required then 0
            else Due([required], checks, runs, authoritative, row)
  {
    RunRowCount(required, runs, row);
    SomeMember(RunRows(required, runs));
    forall run ensures RunRow(run) in RunRows(required, runs) <==> run in runs && Identity(RunRow(run)) == required {
      RunRowCount(required, runs, RunRow(run));
      assert RunRow(run) in RunRows(required, runs) <==> RunRow(run) in multiset(RunRows(required, runs));
      assert run in runs <==> run in multiset(runs);
    }
    OnlyRunRows(required, runs);
    assert Observed(required, checks, runs) <==>
           if required.integrationId.None? then Listed(required, checks) else RunRows(required, runs) != [];
  }

  lemma {:induction false} RequirementRowCount(requirements: seq<Requirement>, checks: seq<Check>,
                                               runs: seq<Observation>, authoritative: bool, row: Row)
    requires Distinct(requirements)
    ensures multiset(RequirementRows(requirements, checks, runs, authoritative))[row] ==
            if row.ContextRow? then 0 else Due(requirements, checks, runs, authoritative, row)
  {
    if requirements != [] {
      var n := |requirements| - 1;
      var init, last := requirements[..n], requirements[n];
      assert requirements == init + [last];
      assert forall i :: 0 <= i < n ==> Same(requirements[i]) != Same(last);
      RequirementRowCount(init, checks, runs, authoritative, row);
      RowsForCount(last, checks, runs, authoritative, row);
    }
  }

  /**
   * Reconciliation is exact. Every listed check of an any-app requirement and every pinned run
   * of a pinned requirement is kept, as often as it was observed; a requirement without
   * observations gets one placeholder if absence is authoritative; and there is nothing else.
   */
  lemma ReconciledExactly(requirements: seq<Requirement>, checks: seq<Check>, runs: seq<Observation>,
                          authoritative: bool, row: Row)
    requires Distinct(requirements)
    ensures multiset(Reconciled(requirements, checks, runs, authoritative))[row] ==
            Due(requirements, checks, runs, authoritative, row)
  {
    ContextRowCount(requirements, checks, row);
    RequirementRowCount(requirements, checks, runs, authoritative, row);
  }

  /** Every row belongs to a requirement, and with authoritative absence every requirement has a row. */
  lemma RequirementsAreCovered(requirements: seq<Requirement>, checks: seq<Check>, runs: seq<Observation>,
                               authoritative: bool, required: Requirement)
    requires Distinct(requirements)
    ensures var rows := Reconciled(requirements, checks, runs, authoritative);
            && (forall row :: row in rows ==> Identity(row) in requirements)
            && ((exists row :: row in rows && Identity(row) == required) <==>
                  required in requirements && (authoritative || Observed(required, checks, runs)))
  {
    var rows := Reconciled(requirements, checks, runs, authoritative);
    forall row ensures row in rows <==> Due(requirements, checks, runs, authoritative, row) > 0 {
      ReconciledExactly(requirements, checks, runs, authoritative, row);
      assert row in rows <==> row in multiset(rows);
    }
    if required in requirements {
      if !Observed(required, checks, runs) {
        assert Identity(MissingRow(required)) == required;
      } else if required.integrationId.None? {
        var check :| check in checks && check.name == required.context;
        assert check in multiset(checks) && Identity(ContextRow(check)) == required;
      } else {
        var run :| run in runs && run.name == required.context && run.integrationId == required.integrationId;
        assert run in multiset(runs) && Identity(RunRow(run)) == required;
      }
    }
  }

  // ----- The loops -----

  /** The listed checks that belong to an any-app requirement, and the names seen among them. */
  method TakeContexts(requirements: seq<Requirement>, checks: seq<Check>) returns (rows: seq<Row>, names: set<string>)
    ensures rows == ContextRows(requirements, checks)
    ensures forall required :: required in requirements && required.integrationId.None? ==>
              (required.context in names <==> Listed(required, checks))
  {
    rows, names := [], {};
    for i := 0 to |checks|
      invariant rows == ContextRows(requirements, checks[..i])
      invariant forall name :: name in names <==>
                  Policies.RequiredStatusCheck(name, None) in requirements && exists c :: c in checks[..i] && c.name == name
    {
      var check := checks[i];
      assert checks[..i + 1] == checks[..i] + [check];
      if Identity(ContextRow(check)) in requirements {
        rows, names := rows + [ContextRow(check)], names + {check.name};
      }
    }
    assert checks[..|checks|] == checks;
  }

  function GroupOf(groups: map<Requirement, seq<Row>>, required: Requirement): seq<Row> {
    if required in groups then groups[required] else []
  }

  /** The pinned runs by the identity they belong to. */
  method GroupRuns(requirements: seq<Requirement>, runs: seq<Observation>) returns (groups: map<Requirement, seq<Row>>)
    ensures forall required :: required in requirements && required.integrationId.Some? ==>
              GroupOf(groups, required) == RunRows(required, runs)
  {
    groups := map[];
    for i := 0 to |runs|
      invariant forall required :: required in requirements && required.integrationId.Some? ==>
                  GroupOf(groups, required) == RunRows(required, runs[..i])
    {
      var run := runs[i];
      var identity := Identity(RunRow(run));
      assert runs[..i + 1][..i] == runs[..i];
      if run.integrationId.Some? && identity in requirements {
        groups := groups[identity := GroupOf(groups, identity) + [RunRow(run)]];
      }
    }
    assert runs[..|runs|] == runs;
  }

  lemma {:induction false} NoRequirementNoRow(checks: seq<Check>)
    ensures ContextRows([], checks) == []
  {
    if checks != [] {
      NoRequirementNoRow(checks[..|checks| - 1]);
    }
  }

  lemma OneMoreRequirement(front: seq<Row>, requirements: seq<Requirement>, i: nat, checks: seq<Check>,
                           runs: seq<Observation>, authoritative: bool)
    requires i < |requirements|
    ensures front + RequirementRows(requirements[..i + 1], checks, runs, authoritative) ==
            front + RequirementRows(requirements[..i], checks, runs, authoritative)
            + RowsFor(requirements[i], checks, runs, authoritative)
  {
    assert requirements[..i + 1][..i] == requirements[..i];
    Assoc(front, RequirementRows(requirements[..i], checks, runs, authoritative),
          RowsFor(requirements[i], checks, runs, authoritative));
  }

  function RowsOf(required: Requirement, names: set<string>, groups: map<Requirement, seq<Row>>,
                  authoritative: bool): seq<Row>
  {
    if required.integrationId.None? then
      (if required.context !in names then MissingRows(required, authoritative) else [])
    else
      var observed := GroupOf(groups, required);
      if observed != [] then observed else MissingRows(required, authoritative)
  }

  method ReconcileRequiredChecks(requirements: seq<Requirement>, checks: seq<Check>, runs: seq<Observation>,
                                 authoritative: bool) returns (rows: seq<Row>)
    ensures rows == Reconciled(requirements, checks, runs, authoritative)
  {
    if requirements == [] {
      NoRequirementNoRow(checks);
      return [];
    }
    var names: set<string>;
    rows, names := TakeContexts(requirements, checks);
    var groups := GroupRuns(requirements, runs);
    ghost var contexts := rows;
    for i := 0 to |requirements|
      invariant rows == contexts + RequirementRows(requirements[..i], checks, runs, authoritative)
    {
      var required := requirements[i];
      var more := RowsOf(required, names, groups, authoritative);
      OneMoreRequirement(contexts, requirements, i, checks, runs, authoritative);
      rows := rows + more;
    }
    assert requirements[..|requirements|] == requirements;
  }
}
