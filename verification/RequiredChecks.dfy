/** Exact-head evidence for required checks that are pinned to an app, read page by page. */
module RequiredChecks {

  import opened Prelude
  import opened Text
  import opened Evidence
  import opened LatestRows

  datatype Identity = Identity(context: string, integrationId: Option<int>)

  datatype Observation = Observation(
    name: string,
    integrationId: Option<int>,
    workflow: Option<string>,
    event: Option<string>,
    state: string,
    startedAt: Option<string>)

  /** One reported context: unreadable, not required, a legacy status, or a check run. */
  datatype Node = BadNode | NotRequired | RequiredStatus(context: string) | RequiredRun(run: Observation)

  datatype PageReply = BadPage | Page(nodes: seq<Node>, hasNext: bool, identityMatches: bool)

  datatype Warning =
    | StatusWithoutApp(context: string)
    | RunWithoutApp(context: string)
    | UnexpectedApp(context: string, integrationId: int)
    | ExceedsBound

  datatype ReadError = MalformedPage | OverfullPage | MalformedNode

  datatype PinnedRead = PinnedRead(
    checks: seq<Observation>,
    complete: bool,
    truncated: bool,
    identityMatches: bool,
    warnings: seq<Warning>)

  const PAGE_MAX: int := 100
  const HARD_BOUND: int := 1_000

  /** Runs of the same check by different workflows or events are different rows. */
  datatype Key = Key(name: string, integrationId: Option<int>, workflow: Option<string>, event: Option<string>)

  function KeyOf(o: Observation): Key {
    Key(o.name, o.integrationId, o.workflow, o.event)
  }

  /** Whether one observation started strictly later than another, by its time stamp. */
  predicate Later(o: Observation, than: Observation) {
    !StringLeq(o.startedAt.GetOr(""), than.startedAt.GetOr(""))
  }

  // ----- What the requirements say about one node -----

  predicate Pinned(required: set<Identity>, context: string) {
    exists i :: i in required && i.context == context && i.integrationId.Some?
  }

  predicate ContextOnly(required: set<Identity>, context: string) {
    Identity(context, None) in required
  }

  /** A run by an app that a requirement pins. */
  predicate Relevant(required: set<Identity>, node: Node) {
    node.RequiredRun? && node.run.integrationId.Some? && Identity(node.run.name, node.run.integrationId) in required
  }

  function WarningsOf(required: set<Identity>, node: Node): seq<Warning> {
    match node
    case RequiredStatus(context) =>
      if Pinned(required, context) && !ContextOnly(required, context) then [StatusWithoutApp(context)] else []
    case RequiredRun(run) =>
      if !Pinned(required, run.name) || ContextOnly(required, run.name) || Relevant(required, node) then []
      else if run.integrationId.None? then [RunWithoutApp(run.name)]
      else [UnexpectedApp(run.name, run.integrationId.value)]
    case _ => []
  }

  datatype Collected = Collected(rows: seq<Observation>, warnings: seq<Warning>)

  function With(c: Collected, required: set<Identity>, node: Node): Collected {
    Collected(if Relevant(required, node) then Upsert(c.rows, node.run, KeyOf, Later) else c.rows,
              c.warnings + WarningsOf(required, node))
  }

  function Fold(c: Collected, required: set<Identity>, nodes: seq<Node>): Collected
    decreases nodes
  {
    if nodes == [] then c else Fold(With(c, required, nodes[0]), required, nodes[1..])
  }

  /** The rows and warnings of all the nodes, however they were paged. */
  function Collect(required: set<Identity>, nodes: seq<Node>): Collected {
    Fold(Collected([], []), required, nodes)
  }

  lemma {:induction false} FoldAppend(c: Collected, required: set<Identity>, nodes: seq<Node>, more: seq<Node>)
    ensures Fold(c, required, nodes + more) == Fold(Fold(c, required, nodes), required, more)
    decreases nodes
  {
    if nodes == [] {
      assert nodes + more == more;
    } else {
      var both := nodes + more;
      assert both[1..] == nodes[1..] + more && both[0] == nodes[0];
      FoldAppend(With(c, required, nodes[0]), required, nodes[1..], more);
    }
  }

  // ----- Reading -----

  /** The nodes of the first pages. */
  function NodesOf(pages: nat -> PageReply, n: nat): seq<Node> {
    if n == 0 then []
    else NodesOf(pages, n - 1) + (if pages(n - 1).Page? then pages(n - 1).nodes else [])
  }

  predicate AllMatch(pages: nat -> PageReply, n: nat) {
    n > 0 ==> AllMatch(pages, n - 1) && pages(n - 1).Page? && pages(n - 1).identityMatches
  }

  function Bound(limit: int): int {
    Max(1, Min(limit, HARD_BOUND))
  }

  method TakeInNode(required: set<Identity>, node: Node, c: Collected) returns (c': Collected)
    requires !node.BadNode?
    ensures c' == With(c, required, node)
  {
    c' := c;
    match node
    case NotRequired =>
    case RequiredStatus(context) =>
      if Pinned(required, context) && !ContextOnly(required, context) {
        c' := c.(warnings := c.warnings + [StatusWithoutApp(context)]);
      }
    case RequiredRun(run) =>
      if Pinned(required, run.name) {
        match run.integrationId
        case None =>
          if !ContextOnly(required, run.name) {
            c' := c.(warnings := c.warnings + [RunWithoutApp(run.name)]);
          }
        case Some(id) =>
          if Identity(run.name, Some(id)) in required {
            c' := c.(rows := Upsert(c.rows, run, KeyOf, Later));
          } else if !ContextOnly(required, run.name) {
            c' := c.(warnings := c.warnings + [UnexpectedApp(run.name, id)]);
          }
      }
  }

  /** A page that ends the read with an error: malformed, or longer than was asked for. */
  predicate Unusable(page: PageReply, room: int) {
    page.BadPage? || |page.nodes| > Min(PAGE_MAX, room) || BadNode in page.nodes
  }

  /** What is wrong with an unusable page. */
  predicate UnusableFor(page: PageReply, room: int, error: ReadError) {
    match error
    case MalformedPage => page.BadPage?
    case OverfullPage => page.Page? && (|page.nodes| > 100 || |page.nodes| > room)
    case MalformedNode => page.Page? && |page.nodes| <= 100 && |page.nodes| <= room && BadNode in page.nodes
  }

  /** Takes in one page, unless it is unusable. */
  method TakeIn(required: set<Identity>, page: PageReply, room: int, c: Collected)
    returns (r: Result<Collected, ReadError>)
    ensures r.Err? <==> Unusable(page, room)
    ensures r.Ok? ==> r.value == Fold(c, required, page.nodes)
    ensures r.Err? ==> UnusableFor(page, room, r.error)
  {
    if page.BadPage? {
      return Err(MalformedPage);
    }
    var nodes := page.nodes;
    if |nodes| > Min(PAGE_MAX, room) {
      return Err(OverfullPage);
    }
    var c' := c;
    for i := 0 to |nodes|
      invariant BadNode !in nodes[..i]
      invariant Fold(c', required, nodes[i..]) == Fold(c, required, nodes)
    {
      if nodes[i].BadNode? {
        return Err(MalformedNode);
      }
      assert nodes[i..][1..] == nodes[i + 1..];
      c' := TakeInNode(required, nodes[i], c');
    }
    r := Ok(c');
  }

  /** The first `n` pages are usable, and after each of them the read goes on. */
  ghost predicate GoesOn(pages: nat -> PageReply, n: nat, bound: int) {
    n > 0 ==>
      && GoesOn(pages, n - 1, bound)
      && !Unusable(pages(n - 1), bound - |NodesOf(pages, n - 1)|)
      && pages(n - 1).hasNext && |NodesOf(pages, n)| < bound
  }

  /** A read that consumed exactly the first `n` pages. */
  ghost predicate IsRead(r: PinnedRead, required: set<Identity>, pages: nat -> PageReply, n: nat, bound: int) {
    && n > 0 && GoesOn(pages, n - 1, bound) && !Unusable(pages(n - 1), bound - |NodesOf(pages, n - 1)|)
    && var nodes := NodesOf(pages, n);
       var last := pages(n - 1);
       && |nodes| <= bound
       && r.checks == Collect(required, nodes).rows
       && r.identityMatches == AllMatch(pages, n)
       && r.truncated == last.hasNext
       && (last.hasNext ==> |nodes| == bound)
       && r.warnings == Collect(required, nodes).warnings + (if last.hasNext then [ExceedsBound] else [])
       && r.complete == (!last.hasNext && AllMatch(pages, n) && r.warnings == [])
  }

  /** The read goes on for `n` pages, and the next one is unusable for this reason. */
  ghost predicate EndsBadly(pages: nat -> PageReply, n: nat, bound: int, error: ReadError) {
    GoesOn(pages, n, bound) && UnusableFor(pages(n), bound - |NodesOf(pages, n)|, error)
  }

  /** However many pages are read, the read goes on. */
  ghost predicate NeverEnds(pages: nat -> PageReply, bound: int) {
    forall n: nat :: GoesOn(pages, n, bound)
  }

  lemma {:induction false} WentOn(pages: nat -> PageReply, m: nat, n: nat, bound: int)
    requires m <= n && GoesOn(pages, n, bound)
    ensures GoesOn(pages, m, bound)
  {
    if m < n {
      WentOn(pages, m, n - 1, bound);
    }
  }

  predicate AnyPinned(required: set<Identity>) {
    exists i :: i in required && i.integrationId.Some?
  }

  /** Reads pages until the last one or the bound. `pages(k)` is the reply to the k-th request. */
  method ReadPinnedEvidence(required: set<Identity>, limit: int, pages: nat -> PageReply)
    returns (r: Result<PinnedRead, ReadError>)
    requires AnyPinned(required) ==> !NeverEnds(pages, Bound(limit))
    ensures !AnyPinned(required) ==> r == Ok(PinnedRead([], true, false, true, []))
    ensures AnyPinned(required) && r.Ok? ==> exists n :: IsRead(r.value, required, pages, n, Bound(limit))
    ensures r.Err? ==> exists k: nat :: EndsBadly(pages, k, Bound(limit), r.error)
  {
    if !AnyPinned(required) {
      return Ok(PinnedRead([], true, false, true, []));
    }
    var bound := Bound(limit);
    var c, seen, matches, n := Collected([], []), 0, true, 0;
    ghost var done: seq<Node> := [];
    ghost var end: nat :| !GoesOn(pages, end, bound);
    while true
      invariant n >= 0 && done == NodesOf(pages, n) && seen == |done| < bound
      invariant GoesOn(pages, n, bound)
      invariant c == Collect(required, done) && matches == AllMatch(pages, n)
      decreases end - n
    {
      if n >= end {
        WentOn(pages, end, n, bound);
      }
      var page := pages(n);
      var taken := TakeIn(required, page, bound - seen, c);
      if taken.Err? {
        assert EndsBadly(pages, n, bound, taken.error);
        return Err(taken.error);
      }
      FoldAppend(Collected([], []), required, done, page.nodes);
      c := taken.value;
      matches, seen := matches && page.identityMatches, seen + |page.nodes|;
      n, done := n + 1, done + page.nodes;
      if !page.hasNext || seen >= bound {
        break;
      }
    }
    var full := pages(n - 1).hasNext;
    var warnings := c.warnings + (if full then [ExceedsBound] else []);
    r := Ok(PinnedRead(c.rows, !full && matches && warnings == [], full, matches, warnings));
    assert IsRead(r.value, required, pages, n, bound);
  }

  /** Which pages end a read with an error, in numbers. */
  lemma UnusableExactly(page: PageReply, room: int)
    ensures Unusable(page, room) <==>
            page.BadPage? || |page.nodes| > 100 || |page.nodes| > room || exists node :: node in page.nodes && node.BadNode?
    ensures Unusable(page, room) <==> exists error :: UnusableFor(page, room, error)
  {
    if Unusable(page, room) {
      var error := if page.BadPage? then MalformedPage
                   else if |page.nodes| > 100 || |page.nodes| > room then OverfullPage else MalformedNode;
      assert UnusableFor(page, room, error);
    }
  }

  /** A read takes in no more nodes than were asked for, and never more than a thousand; it is
      truncated only at exactly that many. */
  lemma ReadIsBounded(r: PinnedRead, required: set<Identity>, limit: int, pages: nat -> PageReply, n: nat)
    requires IsRead(r, required, pages, n, Bound(limit))
    ensures |NodesOf(pages, n)| <= 1000 && (1 <= limit ==> |NodesOf(pages, n)| <= limit)
    ensures r.truncated ==> |NodesOf(pages, n)| == if limit < 1 then 1 else if limit > 1000 then 1000 else limit
    ensures forall k :: 0 <= k < n ==> pages(k).Page? && |pages(k).nodes| <= 100 && (pages(k).hasNext || k == n - 1)
  {
    forall k | 0 <= k < n
      ensures pages(k).Page? && |pages(k).nodes| <= 100 && (pages(k).hasNext || k == n - 1)
    {
      if k < n - 1 {
        WentOn(pages, k + 1, n - 1, Bound(limit));
      }
    }
  }

  // ----- Page boundaries do not matter -----

  /** The first `n` replies are consecutive pages of one listing, and say truthfully whether more follows. */
  ghost predicate PagesOf(all: seq<Node>, pages: nat -> PageReply, n: nat) {
    && n > 0 && NodesOf(pages, n) <= all && pages(n - 1).Page?
    && (pages(n - 1).hasNext <==> |NodesOf(pages, n)| < |all|)
  }

  /**
   * Whatever the pages were cut to, the checks and warnings are those of the listing itself, up
   * to the bound, and the read is truncated exactly when the listing is longer than the bound.
   */
  lemma PagingDoesNotMatter(all: seq<Node>, r: PinnedRead, required: set<Identity>, pages: nat -> PageReply,
                            n: nat, bound: int)
    requires bound >= 1 && PagesOf(all, pages, n) && IsRead(r, required, pages, n, bound)
    ensures var read := all[..Min(bound, |all|)];
            && r.checks == Collect(required, read).rows
            && r.truncated == (|all| > bound)
            && r.warnings == Collect(required, read).warnings + (if |all| > bound then [ExceedsBound] else [])
            && (r.complete <==> |all| <= bound && r.identityMatches && Collect(required, all).warnings == [])
  {
    assert NodesOf(pages, n) == all[..Min(bound, |all|)];
    assert all[..|all|] == all;
  }

  // ----- Which pages end a read -----

  /** A page without nodes that claims a successor. */
  predicate Idles(page: PageReply) {
    page.Page? && page.hasNext && page.nodes == []
  }

  ghost predicate IdlesFrom(pages: nat -> PageReply, from: nat) {
    forall k: nat :: k >= from ==> Idles(pages(k))
  }

  lemma {:induction false} IdlingGoesOn(pages: nat -> PageReply, from: nat, n: nat, bound: int)
    requires from <= n && |NodesOf(pages, from)| < bound
    requires GoesOn(pages, from, bound) && IdlesFrom(pages, from)
    ensures GoesOn(pages, n, bound) && NodesOf(pages, n) == NodesOf(pages, from)
  {
    if from < n {
      IdlingGoesOn(pages, from, n - 1, bound);
    }
  }

  lemma {:induction false} NodesGrow(pages: nat -> PageReply, m: nat, n: nat)
    requires m <= n
    ensures |NodesOf(pages, m)| <= |NodesOf(pages, n)|
  {
    if m < n {
      NodesGrow(pages, m, n - 1);
    }
  }

  /** A read that never ends runs out of nodes. */
  lemma {:induction false} RunsDry(pages: nat -> PageReply, n: nat, bound: int) returns (from: nat)
    requires NeverEnds(pages, bound) && bound >= 1
    ensures IdlesFrom(pages, from)
    decreases bound - |NodesOf(pages, n)|
  {
    assert GoesOn(pages, n, bound);
    if k: nat :| k >= n && !Idles(pages(k)) {
      assert GoesOn(pages, k + 1, bound);
      NodesGrow(pages, n, k);
      from := RunsDry(pages, k + 1, bound);
    } else {
      from := n;
    }
  }

  /**
   * The read never ends exactly when, having gone on so far, it meets pages without nodes that
   * claim a successor for ever.
   */
  lemma NeverEndsExactly(pages: nat -> PageReply, bound: int)
    requires bound >= 1
    ensures NeverEnds(pages, bound) <==> exists from: nat :: GoesOn(pages, from, bound) && IdlesFrom(pages, from)
  {
    if NeverEnds(pages, bound) {
      var from := RunsDry(pages, 0, bound);
      assert GoesOn(pages, from, bound);
    }
    if from: nat :| GoesOn(pages, from, bound) && IdlesFrom(pages, from) {
      forall n: nat ensures GoesOn(pages, n, bound) {
        if n <= from {
          WentOn(pages, n, from, bound);
        } else {
          IdlingGoesOn(pages, from, n, bound);
        }
      }
    }
  }

  /** It ends if after every point some page has nodes or claims no successor. */
  lemma AdvancingPagesEnd(pages: nat -> PageReply, bound: int)
    requires bound >= 1 && forall from: nat :: !IdlesFrom(pages, from)
    ensures !NeverEnds(pages, bound)
  {
    NeverEndsExactly(pages, bound);
  }

  /** A concrete case: every page is empty and claims a successor; then there is no result. */
  lemma EmptyPagesNeverEnd(r: PinnedRead, required: set<Identity>, pages: nat -> PageReply, n: nat, bound: int)
    requires bound >= 1 && IdlesFrom(pages, 0)
    ensures NeverEnds(pages, bound) && !IsRead(r, required, pages, n, bound)
  {
    assert GoesOn(pages, 0, bound);
    NeverEndsExactly(pages, bound);
    assert GoesOn(pages, n, bound);
  }

  // ----- Which observation a row keeps -----

  /** The runs among some nodes that belong to a pinned requirement. */
  function Runs(required: set<Identity>, nodes: seq<Node>): seq<Observation> {
    if nodes == [] then []
    else
      var last := nodes[|nodes| - 1];
      Runs(required, nodes[..|nodes| - 1]) + (if Relevant(required, last) then [last.run] else [])
  }

  lemma StartOrder()
    ensures StrictOrder(Later)
  {
    forall a: Observation, b: Observation, c: Observation
      ensures Later(a, b) ==> !Later(b, a)
      ensures !Later(a, b) && !Later(b, c) ==> !Later(a, c)
    {
      StringOrder(a.startedAt.GetOr(""), b.startedAt.GetOr(""), c.startedAt.GetOr(""));
    }
  }

  lemma {:induction false} RowsAreKept(required: set<Identity>, nodes: seq<Node>)
    ensures Collect(required, nodes).rows == Keep(Runs(required, nodes), KeyOf, Later)
  {
    if nodes != [] {
      var init, last := nodes[..|nodes| - 1], nodes[|nodes| - 1];
      assert nodes == init + [last];
      RowsAreKept(required, init);
      FoldAppend(Collected([], []), required, init, [last]);
      assert Collect(required, nodes) == With(Collect(required, init), required, last);
      var runs := Runs(required, nodes);
      if Relevant(required, last) {
        assert runs[..|runs| - 1] == Runs(required, init) && runs[|runs| - 1] == last.run;
      } else {
        assert runs == Runs(required, init);
      }
    }
  }

  /** There is one row for each logical check, and it holds the first of the runs that started last. */
  lemma RowsKeepTheLatest(required: set<Identity>, nodes: seq<Node>, key: Key) returns (i: nat)
    ensures var rows, runs := Collect(required, nodes).rows, Runs(required, nodes);
            && OneRowPerKey(rows, KeyOf)
            && if forall j :: 0 <= j < |runs| ==> KeyOf(runs[j]) != key then
                 RowFor(rows, KeyOf, key) == []
               else
                 IsLatest(runs, KeyOf, Later, key, i) && RowFor(rows, KeyOf, key) == [runs[i]]
  {
    StartOrder();
    RowsAreKept(required, nodes);
    i := KeepsTheLatest(Runs(required, nodes), KeyOf, Later, key);
  }

  /** One run started before another, by their time stamps; a run without one started first. */
  ghost predicate StartedBefore(o: Observation, than: Observation) {
    var x, y := o.startedAt.GetOr(""), than.startedAt.GetOr("");
    NoLater(x, y) && x != y
  }

  /** Runs of one logical check: the same name, app, workflow and event. */
  predicate SameCheck(o: Observation, other: Observation) {
    && o.name == other.name && o.integrationId == other.integrationId
    && o.workflow == other.workflow && o.event == other.event
  }

  lemma StartMeaning(o: Observation, than: Observation)
    ensures Later(o, than) <==> StartedBefore(than, o)
  {
    var x, y := o.startedAt.GetOr(""), than.startedAt.GetOr("");
    StringOrder(x, y, "");
    StringOrderMeaning(x, y);
    StringOrderMeaning(y, x);
  }

  /** The runs that matter, in order: those of a required name and app. */
  lemma {:induction false} RunsExactly(required: set<Identity>, nodes: seq<Node>, run: Observation)
    ensures run in Runs(required, nodes) <==>
            && RequiredRun(run) in nodes && run.integrationId.Some?
            && Identity(run.name, run.integrationId) in required
  {
    if nodes != [] {
      RunsExactly(required, nodes[..|nodes| - 1], run);
      assert nodes == nodes[..|nodes| - 1] + [nodes[|nodes| - 1]];
    }
  }

  /** The run at `i` started last among the runs of its check, and was the first to do so. */
  ghost predicate StartedLast(runs: seq<Observation>, i: nat) {
    && i < |runs|
    && forall j :: 0 <= j < |runs| && SameCheck(runs[j], runs[i]) ==>
         !StartedBefore(runs[i], runs[j]) && (j < i ==> StartedBefore(runs[j], runs[i]))
  }

  lemma LatestMeaning(runs: seq<Observation>, i: nat)
    requires i < |runs|
    ensures IsLatest(runs, KeyOf, Later, KeyOf(runs[i]), i) <==> StartedLast(runs, i)
  {
    forall j | 0 <= j < |runs|
      ensures KeyOf(runs[j]) == KeyOf(runs[i]) <==> SameCheck(runs[j], runs[i])
      ensures Later(runs[j], runs[i]) <==> StartedBefore(runs[i], runs[j])
      ensures Later(runs[i], runs[j]) <==> StartedBefore(runs[j], runs[i])
    {
      StartMeaning(runs[j], runs[i]);
      StartMeaning(runs[i], runs[j]);
    }
  }

  lemma OnlyLatest(runs: seq<Observation>, i: nat, k: nat)
    requires i < |runs| && k < |runs| && KeyOf(runs[i]) == KeyOf(runs[k])
    requires IsLatest(runs, KeyOf, Later, KeyOf(runs[i]), i) && IsLatest(runs, KeyOf, Later, KeyOf(runs[k]), k)
    ensures i == k
  {
  }

  /** In terms of time stamps: the rows are, for each logical check, the first of the runs that started
      last; and no check has two rows. */
  lemma RowsAreExact(required: set<Identity>, nodes: seq<Node>, row: Observation)
    ensures var rows, runs := Collect(required, nodes).rows, Runs(required, nodes);
            && (row in rows <==> exists i: nat :: StartedLast(runs, i) && runs[i] == row)
            && forall i, j :: 0 <= i < j < |rows| ==> !SameCheck(rows[i], rows[j])
  {
    var rows, runs := Collect(required, nodes).rows, Runs(required, nodes);
    var i := RowsKeepTheLatest(required, nodes, KeyOf(row));
    RowForIsMembership(rows, KeyOf, row);
    if exists j :: 0 <= j < |runs| && KeyOf(runs[j]) == KeyOf(row) {
      LatestMeaning(runs, i);
    }
    if k: nat :| StartedLast(runs, k) && runs[k] == row {
      LatestMeaning(runs, k);
      OnlyLatest(runs, i, k);
    }
    assert forall i, j :: 0 <= i < j < |rows| ==> KeyOf(rows[i]) != KeyOf(rows[j]);
  }

  /** Some app is required for the context, and no requirement accepts any app. */
  ghost predicate OnlyPinned(required: set<Identity>, context: string) {
    (exists id :: Identity(context, Some(id)) in required) && Identity(context, None) !in required
  }

  /** What gives rise to a warning. */
  ghost predicate Causes(required: set<Identity>, node: Node, warning: Warning) {
    match warning
    case StatusWithoutApp(context) => node == RequiredStatus(context) && OnlyPinned(required, context)
    case RunWithoutApp(context) =>
      && node.RequiredRun? && node.run.name == context && node.run.integrationId == None
      && OnlyPinned(required, context)
    case UnexpectedApp(context, id) =>
      && node.RequiredRun? && node.run.name == context && node.run.integrationId == Some(id)
      && OnlyPinned(required, context) && Identity(context, Some(id)) !in required
    case ExceedsBound => false
  }

  lemma SomeAppIsPinned(required: set<Identity>, context: string, id: int)
    requires Identity(context, Some(id)) in required
    ensures Pinned(required, context)
  {
    var i := Identity(context, Some(id));
    assert i in required && i.context == context && i.integrationId.Some?;
  }

  lemma PinnedMeaning(required: set<Identity>, context: string)
    ensures Pinned(required, context) && !ContextOnly(required, context) <==> OnlyPinned(required, context)
  {
    if Pinned(required, context) {
      var i :| i in required && i.context == context && i.integrationId.Some?;
      var id := i.integrationId.value;
      assert i == Identity(context, Some(id));
      assert Identity(context, Some(id)) in required;
    }
    if id :| Identity(context, Some(id)) in required {
      SomeAppIsPinned(required, context, id);
    }
  }

  lemma NodeWarnings(required: set<Identity>, node: Node, warning: Warning)
    ensures warning in WarningsOf(required, node) <==> Causes(required, node, warning)
  {
    if node.RequiredStatus? {
      PinnedMeaning(required, node.context);
    }
    if node.RequiredRun? {
      PinnedMeaning(required, node.run.name);
    }
  }

  /** A warning is given exactly if some node causes it. */
  lemma {:induction false} WarningsAreExact(required: set<Identity>, nodes: seq<Node>, warning: Warning)
    ensures warning in Collect(required, nodes).warnings <==> exists node :: node in nodes && Causes(required, node, warning)
  {
    if nodes != [] {
      var init, last := nodes[..|nodes| - 1], nodes[|nodes| - 1];
      assert nodes == init + [last];
      WarningsAreExact(required, init, warning);
      FoldAppend(Collected([], []), required, init, [last]);
      assert Collect(required, nodes) == With(Collect(required, init), required, last);
      NodeWarnings(required, last, warning);
    }
  }
}
