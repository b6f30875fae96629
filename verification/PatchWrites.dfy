/** Exact-context patching: every edit is located in the original file, all are applied at once. */
module PatchWrites {
  import opened Prelude
  import opened Text
  import opened Sorting

  datatype Edit = Edit(oldText: string, newText: string)

  datatype Span = Span(start: nat, end: nat, replacement: string)

  datatype PatchError = NotFound | Ambiguous | Overlap

  // ----- Locating edits -----

  /** All occurrences, overlapping ones included, in increasing order. */
  method FindAllOccurrences(content: string, needle: string) returns (starts: seq<nat>)
    ensures forall i: nat :: i in starts <==> OccursAt(content, needle, i)
    ensures forall i, j :: 0 <= i < j < |starts| ==> starts[i] < starts[j]
  {
    starts := [];
    var cursor := 0;
    while true
      invariant cursor <= |content| + 1
      invariant forall i: nat :: i in starts <==> i < cursor && OccursAt(content, needle, i)
      invariant forall i, j :: 0 <= i < j < |starts| ==> starts[i] < starts[j]
      decreases |content| + 1 - cursor
    {
      FindMeaning(content, needle, cursor);
      var index := Find(content, needle, cursor);
      if index.None? {
        return;
      }
      assert forall i :: 0 <= i < |starts| ==> starts[i] in starts;
      starts := starts + [index.value];
      cursor := index.value + 1;
    }
  }

  /** The one place where `needle` occurs, overlapping occurrences counted. */
  ghost predicate OnlyAt(s: string, needle: string, i: nat) {
    OccursAt(s, needle, i) && forall j: nat :: OccursAt(s, needle, j) ==> j == i
  }

  ghost predicate OccursOnce(s: string, needle: string) {
    exists i: nat :: OnlyAt(s, needle, i)
  }

  function SpanOf(original: string, edit: Edit): Span {
    var start := Find(original, edit.oldText).GetOr(0);
    Span(start, start + |edit.oldText|, edit.newText)
  }

  lemma SpanOfOnly(original: string, edit: Edit, i: nat)
    requires OnlyAt(original, edit.oldText, i)
    ensures SpanOf(original, edit) == Span(i, i + |edit.oldText|, edit.newText)
    ensures i + |edit.oldText| <= |original|
  {
    FindFirst(original, edit.oldText, 0, i);
  }

  predicate Disjoint(a: Span, b: Span) {
    a.end <= b.start || b.end <= a.start
  }

  ghost predicate Fits(original: string, span: Span) {
    span.start < span.end <= |original|
  }

  function SpansOf(original: string, edits: seq<Edit>): seq<Span> {
    seq(|edits|, i requires 0 <= i < |edits| => SpanOf(original, edits[i]))
  }

  /** When a patch is well formed against `original`: each context occurs exactly once, and no two
      edits touch the same character. */
  ghost predicate Applicable(original: string, edits: seq<Edit>) {
    && (forall e :: e in edits ==> OccursOnce(original, e.oldText))
    && Pairwise(SpansOf(original, edits), Disjoint)
  }

  // ----- Simultaneous replacement -----

  /** The meaning of a set of spans: walking the original from `from`, a span that starts here gives
      its replacement and skips its text, anything else is copied. */
  ghost function Rewrite(s: string, spans: set<Span>, from: nat): string
    requires forall sp :: sp in spans ==> Fits(s, sp)
    decreases |s| - from
  {
    if from >= |s| then []
    else if span :| span in spans && span.start == from then
      span.replacement + Rewrite(s, spans, span.end)
    else [s[from]] + Rewrite(s, spans, from + 1)
  }

  ghost predicate AllFit(s: string, spans: seq<Span>) {
    forall sp :: sp in spans ==> Fits(s, sp)
  }

  ghost function SetOf(spans: seq<Span>): set<Span> {
    set sp | sp in spans
  }

  predicate ByStart(a: Span, b: Span) {
    a.start < b.start || (a.start == b.start && a.end <= b.end)
  }

  /** Sorted spans whose neighbours do not overlap. */
  ghost predicate Chain(spans: seq<Span>) {
    forall i :: 0 < i < |spans| ==> spans[i - 1].end <= spans[i].start
  }

  lemma {:induction false} ChainOrders(s: string, spans: seq<Span>, i: nat, j: nat)
    requires AllFit(s, spans) && Chain(spans) && i < j < |spans|
    ensures spans[i].end <= spans[j].start
    decreases j
  {
    if i + 1 < j {
      ChainOrders(s, spans, i, j - 1);
      assert Fits(s, spans[j - 1]);
    }
  }

  /** Comparing only neighbours in start order is enough: they are then disjoint in pairs. */
  lemma ChainIsPairwise(s: string, spans: seq<Span>)
    requires AllFit(s, spans) && SortedBy(spans, ByStart)
    ensures Chain(spans) <==> Pairwise(spans, Disjoint)
  {
    if Chain(spans) {
      forall i, j | 0 <= i < j < |spans| ensures spans[i].end <= spans[j].start {
        ChainOrders(s, spans, i, j);
      }
    }
    if Pairwise(spans, Disjoint) {
      forall i | 0 < i < |spans| ensures spans[i - 1].end <= spans[i].start {
        assert Disjoint(spans[i - 1], spans[i]) && ByStart(spans[i - 1], spans[i]);
        assert Fits(s, spans[i - 1]) && Fits(s, spans[i]);
      }
    }
  }

  lemma RewriteCopy(s: string, spans: set<Span>, from: nat)
    requires forall sp :: sp in spans ==> Fits(s, sp) && sp.start != from
    requires from < |s|
    ensures Rewrite(s, spans, from) == [s[from]] + Rewrite(s, spans, from + 1)
  {
  }

  /** No span starts in the gap before `to`, so that text is copied. */
  lemma {:induction false} RewriteGap(s: string, spans: set<Span>, from: nat, to: nat)
    requires forall sp :: sp in spans ==> Fits(s, sp)
    requires from <= to <= |s|
    requires forall sp :: sp in spans ==> sp.start < from || to <= sp.start
    ensures Rewrite(s, spans, from) == s[from..to] + Rewrite(s, spans, to)
    decreases |s| - from
  {
    if from < to {
      RewriteGap(s, spans, from + 1, to);
      RewriteCopy(s, spans, from);
      assert s[from..to] == [s[from]] + s[from + 1..to];
      Assoc([s[from]], s[from + 1..to], Rewrite(s, spans, to));
    }
  }

  lemma StartsOutside(s: string, spans: seq<Span>, i: nat, sp: Span)
    requires AllFit(s, spans) && Chain(spans) && i < |spans| && sp in spans
    ensures sp == spans[i] || spans[i].end <= sp.start || (i > 0 && sp.start < spans[i - 1].end <= spans[i].start)
  {
    var j :| 0 <= j < |spans| && spans[j] == sp;
    assert Fits(s, sp);
    if i < j {
      ChainOrders(s, spans, i, j);
    } else if j < i - 1 {
      ChainOrders(s, spans, j, i - 1);
      assert Fits(s, spans[i - 1]);
    }
  }

  /** One step of the left-to-right pass over a chain: the text before the next span, then its replacement. */
  lemma RewriteStep(s: string, spans: seq<Span>, i: nat, cursor: nat)
    requires AllFit(s, spans) && Chain(spans) && i < |spans|
    requires cursor == if i == 0 then 0 else spans[i - 1].end
    ensures cursor <= spans[i].start <= |s|
    ensures Rewrite(s, SetOf(spans), cursor) ==
            s[cursor..spans[i].start] + (spans[i].replacement + Rewrite(s, SetOf(spans), spans[i].end))
  {
    assert Fits(s, spans[i]) && spans[i] in SetOf(spans);
    forall sp | sp in spans ensures sp.start < cursor || spans[i].start <= sp.start {
      StartsOutside(s, spans, i, sp);
    }
    forall sp | sp in spans && sp.start == spans[i].start ensures sp == spans[i] {
      StartsOutside(s, spans, i, sp);
    }
    RewriteGap(s, SetOf(spans), cursor, spans[i].start);
  }

  lemma RewriteEnd(s: string, spans: seq<Span>)
    requires AllFit(s, spans) && Chain(spans)
    ensures var cursor := if spans == [] then 0 else spans[|spans| - 1].end;
            cursor <= |s| && Rewrite(s, SetOf(spans), cursor) == s[cursor..]
  {
    var cursor := if spans == [] then 0 else spans[|spans| - 1].end;
    if spans != [] {
      assert Fits(s, spans[|spans| - 1]);
    }
    forall sp | sp in spans ensures sp.start < cursor {
      var j :| 0 <= j < |spans| && spans[j] == sp;
      assert Fits(s, sp);
      if j < |spans| - 1 {
        ChainOrders(s, spans, j, |spans| - 1);
      }
    }
    RewriteGap(s, SetOf(spans), cursor, |s|);
    assert s[cursor..|s|] == s[cursor..];
  }

  // ----- Materializing a patch -----

  /** Locate one edit, or say why not. */
  method LocateEdit(original: string, edit: Edit) returns (r: Result<Span, PatchError>)
    ensures r.Ok? <==> OccursOnce(original, edit.oldText)
    ensures r.Ok? ==> r.value == SpanOf(original, edit) && r.value.end <= |original|
    ensures r == Err(NotFound) <==> forall i: nat :: !OccursAt(original, edit.oldText, i)
    ensures r == Err(Ambiguous) <==>
            exists i: nat, j: nat :: i < j && OccursAt(original, edit.oldText, i) && OccursAt(original, edit.oldText, j)
    ensures r != Err(Overlap)
  {
    var starts := FindAllOccurrences(original, edit.oldText);
    if starts == [] {
      return Err(NotFound);
    }
    assert starts[0] in starts;
    if |starts| != 1 {
      assert starts[1] in starts;
      return Err(Ambiguous);
    }
    var start := starts[0];
    assert OnlyAt(original, edit.oldText, start);
    SpanOfOnly(original, edit, start);
    r := Ok(Span(start, start + |edit.oldText|, edit.newText));
  }

  /** The first edit whose context does not occur exactly once. */
  ghost predicate FirstFault(original: string, edits: seq<Edit>, k: nat) {
    && k < |edits| && !OccursOnce(original, edits[k].oldText)
    && forall j :: 0 <= j < k ==> OccursOnce(original, edits[j].oldText)
  }

  ghost predicate Nowhere(original: string, needle: string) {
    forall i: nat :: !OccursAt(original, needle, i)
  }

  /** What is wrong with the first faulty edit, if any. */
  ghost predicate FaultIs(original: string, edits: seq<Edit>, error: PatchError) {
    exists k: nat :: FirstFault(original, edits, k) &&
                (if Nowhere(original, edits[k].oldText) then error == NotFound else error == Ambiguous)
  }

  /** Why a patch is refused: a context that does not occur once, or two edits that overlap. */
  ghost predicate FailsToPatch(original: string, edits: seq<Edit>, error: PatchError) {
    if error == Overlap then
      (forall e :: e in edits ==> OccursOnce(original, e.oldText)) && !Pairwise(SpansOf(original, edits), Disjoint)
    else
      FaultIs(original, edits, error)
  }

  method LocateAll(original: string, edits: seq<Edit>) returns (r: Result<seq<Span>, PatchError>)
    requires forall e :: e in edits ==> e.oldText != []
    ensures r.Ok? <==> forall e :: e in edits ==> OccursOnce(original, e.oldText)
    ensures r.Ok? ==> r.value == SpansOf(original, edits) && AllFit(original, r.value)
    ensures r.Err? ==> FaultIs(original, edits, r.error) && r.error != Overlap
  {
    var spans: seq<Span> := [];
    for i := 0 to |edits|
      invariant spans == SpansOf(original, edits)[..i] && AllFit(original, spans)
      invariant forall j :: 0 <= j < i ==> OccursOnce(original, edits[j].oldText)
    {
      var located := LocateEdit(original, edits[i]);
      assert edits[i] in edits;
      if located.Err? {
        assert FirstFault(original, edits, i);
        return Err(located.error);
      }
      spans := spans + [located.value];
    }
    r := Ok(spans);
  }

  method CheckNeighbours(ordered: seq<Span>) returns (ok: bool)
    ensures ok <==> Chain(ordered)
  {
    var i := 1;
    while i < |ordered|
      invariant i >= 1
      invariant forall j :: 0 < j < i && j < |ordered| ==> ordered[j - 1].end <= ordered[j].start
    {
      if ordered[i].start < ordered[i - 1].end {
        return false;
      }
      i := i + 1;
    }
    ok := true;
  }

  lemma SortedSpans(s: string, spans: seq<Span>)
    requires AllFit(s, spans)
    ensures var ordered := Sort(spans, ByStart);
            && AllFit(s, ordered) && SetOf(ordered) == SetOf(spans)
            && (Chain(ordered) <==> Pairwise(spans, Disjoint))
  {
    var ordered := Sort(spans, ByStart);
    SortSorts(spans, ByStart);
    PairwiseForgetsOrder(spans, ordered, Disjoint);
    ChainIsPairwise(s, ordered);
  }

  method AssemblePieces(original: string, ordered: seq<Span>) returns (pieces: seq<string>)
    requires AllFit(original, ordered) && Chain(ordered)
    ensures Concat(pieces) == Rewrite(original, SetOf(ordered), 0)
  {
    pieces := [];
    var cursor := 0;
    for i := 0 to |ordered|
      invariant cursor == if i == 0 then 0 else ordered[i - 1].end
      invariant cursor <= |original|
      invariant Rewrite(original, SetOf(ordered), 0) == Concat(pieces) + Rewrite(original, SetOf(ordered), cursor)
    {
      RewriteStep(original, ordered, i, cursor);
      var span := ordered[i];
      assert Fits(original, span);
      var gap := original[cursor..span.start];
      ConcatAppend(pieces, gap);
      ConcatAppend(pieces + [gap], span.replacement);
      Assoc(Concat(pieces), gap, span.replacement + Rewrite(original, SetOf(ordered), span.end));
      Assoc(Concat(pieces) + gap, span.replacement, Rewrite(original, SetOf(ordered), span.end));
      pieces := pieces + [gap];
      pieces := pieces + [span.replacement];
      cursor := span.end;
    }
    RewriteEnd(original, ordered);
    ConcatAppend(pieces, original[cursor..]);
    pieces := pieces + [original[cursor..]];
  }

  /** Accepts exactly the applicable patches, and then replaces every located context simultaneously. */
  method MaterializeEdits(original: string, edits: seq<Edit>) returns (r: Result<(string, nat), PatchError>)
    requires forall e :: e in edits ==> e.oldText != []
    ensures r.Ok? <==> Applicable(original, edits)
    ensures r.Ok? ==> AllFit(original, SpansOf(original, edits))
    ensures r.Ok? ==> r.value == (Rewrite(original, SetOf(SpansOf(original, edits)), 0), |edits|)
    ensures r.Err? ==> FailsToPatch(original, edits, r.error)
  {
    var located := LocateAll(original, edits);
    if located.Err? {
      return Err(located.error);
    }
    var spans := located.value;
    var ordered := Sort(spans, ByStart);
    SortedSpans(original, spans);
    var ok := CheckNeighbours(ordered);
    if !ok {
      return Err(Overlap);
    }
    var pieces := AssemblePieces(original, ordered);
    r := Ok((Concat(pieces), |spans|));
  }

  // ----- Order of the edits -----

  lemma SpansPairwise(original: string, edits: seq<Edit>)
    ensures var rel := (a: Edit, b: Edit) => Disjoint(SpanOf(original, a), SpanOf(original, b));
            Pairwise(SpansOf(original, edits), Disjoint) <==> Pairwise(edits, rel)
  {
    var rel := (a: Edit, b: Edit) => Disjoint(SpanOf(original, a), SpanOf(original, b));
    var spans := SpansOf(original, edits);
    assert forall i, j :: 0 <= i < j < |edits| ==> rel(edits[i], edits[j]) == Disjoint(spans[i], spans[j]);
  }

  lemma SpanMembers(original: string, edits: seq<Edit>)
    ensures SetOf(SpansOf(original, edits)) == set e | e in edits :: SpanOf(original, e)
  {
    var spans := SpansOf(original, edits);
    forall sp | sp in spans ensures exists e :: e in edits && SpanOf(original, e) == sp {
      var i :| 0 <= i < |spans| && spans[i] == sp;
      assert edits[i] in edits;
    }
    forall e | e in edits ensures SpanOf(original, e) in spans {
      var i :| 0 <= i < |edits| && edits[i] == e;
      assert spans[i] == SpanOf(original, e);
    }
  }

  /** Listing the edits in another order changes neither acceptance nor the result. */
  lemma PatchForgetsOrder(original: string, edits: seq<Edit>, edits': seq<Edit>)
    requires multiset(edits) == multiset(edits')
    ensures Applicable(original, edits) <==> Applicable(original, edits')
    ensures SetOf(SpansOf(original, edits)) == SetOf(SpansOf(original, edits'))
  {
    var rel := (a: Edit, b: Edit) => Disjoint(SpanOf(original, a), SpanOf(original, b));
    PairwiseForgetsOrder(edits, edits', rel);
    SpansPairwise(original, edits);
    SpansPairwise(original, edits');
    assert forall e :: e in edits <==> e in multiset(edits);
    assert forall e :: e in edits' <==> e in multiset(edits');
    SpanMembers(original, edits);
    SpanMembers(original, edits');
  }

  // ----- One splice at a time, from the right -----

  function Splice(s: string, sp: Span): string
    requires sp.start <= sp.end <= |s|
  {
    s[..sp.start] + (sp.replacement + s[sp.end..])
  }

  lemma PrefixFits(s: string, spans: seq<Span>)
    requires AllFit(s, spans) && Chain(spans) && spans != []
    ensures var last := spans[|spans| - 1];
            && Fits(s, last) && Chain(spans[..|spans| - 1])
            && AllFit(Splice(s, last), spans[..|spans| - 1]) && AllFit(s, spans[..|spans| - 1])
            && forall sp :: sp in spans[..|spans| - 1] ==> sp.end <= last.start
  {
    var n := |spans| - 1;
    assert Fits(s, spans[n]);
    forall sp | sp in spans[..n] ensures Fits(s, sp) && sp.end <= spans[n].start {
      var j :| 0 <= j < n && spans[j] == sp;
      ChainOrders(s, spans, j, n);
      assert Fits(s, spans[j]);
    }
  }

  /** Apply the last span first, so that earlier offsets stay valid. */
  ghost function SpliceAll(s: string, spans: seq<Span>): string
    requires AllFit(s, spans) && Chain(spans)
    decreases |spans|
  {
    if spans == [] then s
    else
      PrefixFits(s, spans);
      SpliceAll(Splice(s, spans[|spans| - 1]), spans[..|spans| - 1])
  }

  lemma UniqueStart(s: string, spans: seq<Span>, sp: Span)
    requires AllFit(s, spans) && Chain(spans) && sp in spans
    ensures Rewrite(s, SetOf(spans), sp.start) == sp.replacement + Rewrite(s, SetOf(spans), sp.end)
  {
    assert Fits(s, sp);
    var i :| 0 <= i < |spans| && spans[i] == sp;
    forall other | other in spans && other.start == sp.start ensures other == sp {
      StartsOutside(s, spans, i, other);
    }
  }

  lemma LockstepMeets(s: string, spans: seq<Span>)
    requires AllFit(s, spans) && Chain(spans) && spans != []
    ensures var last := spans[|spans| - 1];
            && Fits(s, last) && AllFit(Splice(s, last), spans[..|spans| - 1])
            && Rewrite(s, SetOf(spans), last.start) == last.replacement + s[last.end..]
            && Rewrite(Splice(s, last), SetOf(spans[..|spans| - 1]), last.start) == last.replacement + s[last.end..]
  {
    PrefixFits(s, spans);
    var last := spans[|spans| - 1];
    var spliced := Splice(s, last);
    RewriteEnd(s, spans);
    UniqueStart(s, spans, last);
    RewriteGap(spliced, SetOf(spans[..|spans| - 1]), last.start, |spliced|);
    CutShifted(s[..last.start], last.replacement + s[last.end..], 0);
    assert spliced[last.start..|spliced|] == spliced[last.start..];
  }

  /** Walking the original with the last span pending and walking the text where it was already
      spliced in give the same rewriting, up to where that span starts. */
  lemma {:induction false} Lockstep(s: string, spans: seq<Span>, from: nat)
    requires AllFit(s, spans) && Chain(spans) && spans != [] && from <= spans[|spans| - 1].start
    ensures Fits(s, spans[|spans| - 1]) && AllFit(Splice(s, spans[|spans| - 1]), spans[..|spans| - 1])
    ensures Rewrite(Splice(s, spans[|spans| - 1]), SetOf(spans[..|spans| - 1]), from) == Rewrite(s, SetOf(spans), from)
    decreases spans[|spans| - 1].start - from
  {
    PrefixFits(s, spans);
    var n := |spans| - 1;
    var last, before := spans[n], spans[..n];
    var spliced := Splice(s, last);
    assert forall sp :: sp in spans <==> sp in before || sp == last by {
      assert spans == before + [last];
    }
    if from == last.start {
      LockstepMeets(s, spans);
    } else if sp :| sp in before && sp.start == from {
      UniqueStart(s, spans, sp);
      UniqueStart(spliced, before, sp);
      Lockstep(s, spans, sp.end);
    } else {
      RewriteCopy(s, SetOf(spans), from);
      RewriteCopy(spliced, SetOf(before), from);
      Lockstep(s, spans, from + 1);
    }
  }

  /** Simultaneous replacement is what one gets by splicing the spans in one at a time, from the right. */
  lemma {:induction false} RewriteIsRightToLeft(s: string, spans: seq<Span>)
    requires AllFit(s, spans) && Chain(spans)
    ensures SpliceAll(s, spans) == Rewrite(s, SetOf(spans), 0)
    decreases |spans|
  {
    if spans == [] {
      RewriteGap(s, SetOf(spans), 0, |s|);
      assert s[0..|s|] == s;
    } else {
      PrefixFits(s, spans);
      RewriteIsRightToLeft(Splice(s, spans[|spans| - 1]), spans[..|spans| - 1]);
      Lockstep(s, spans, 0);
    }
  }

  // ----- Length -----

  function Growth(edits: seq<Edit>): int {
    if edits == [] then 0 else |edits[0].newText| - |edits[0].oldText| + Growth(edits[1..])
  }

  function SpanGrowth(spans: seq<Span>): int {
    if spans == [] then 0
    else |spans[0].replacement| - (spans[0].end - spans[0].start) + SpanGrowth(spans[1..])
  }

  lemma {:induction false} GrowthOfSpans(original: string, edits: seq<Edit>)
    ensures SpanGrowth(SpansOf(original, edits)) == Growth(edits)
  {
    if edits != [] {
      GrowthOfSpans(original, edits[1..]);
      assert SpansOf(original, edits)[1..] == SpansOf(original, edits[1..]);
    }
  }

  lemma {:induction false} GrowthOfInsert(x: Span, spans: seq<Span>)
    ensures SpanGrowth(Insert(x, spans, ByStart)) == SpanGrowth([x]) + SpanGrowth(spans)
  {
    if spans == [] || ByStart(x, spans[0]) {
      assert ([x] + spans)[1..] == spans;
    } else {
      GrowthOfInsert(x, spans[1..]);
      var r := Insert(x, spans, ByStart);
      assert r[1..] == Insert(x, spans[1..], ByStart);
    }
  }

  lemma {:induction false} GrowthOfSort(spans: seq<Span>)
    ensures SpanGrowth(Sort(spans, ByStart)) == SpanGrowth(spans)
  {
    if spans != [] {
      GrowthOfSort(spans[1..]);
      GrowthOfInsert(spans[0], Sort(spans[1..], ByStart));
    }
  }

  lemma {:induction false} GrowthOfAppend(spans: seq<Span>, last: Span)
    ensures SpanGrowth(spans + [last]) == SpanGrowth(spans) + SpanGrowth([last])
  {
    if spans == [] {
      assert spans + [last] == [last];
    } else {
      GrowthOfAppend(spans[1..], last);
      assert (spans + [last])[1..] == spans[1..] + [last];
    }
  }

  lemma {:induction false} SpliceAllLength(s: string, spans: seq<Span>)
    requires AllFit(s, spans) && Chain(spans)
    ensures |SpliceAll(s, spans)| == |s| + SpanGrowth(spans)
    decreases |spans|
  {
    if spans != [] {
      PrefixFits(s, spans);
      SpliceAllLength(Splice(s, spans[|spans| - 1]), spans[..|spans| - 1]);
      GrowthOfAppend(spans[..|spans| - 1], spans[|spans| - 1]);
      assert spans == spans[..|spans| - 1] + [spans[|spans| - 1]];
    }
  }

  /** Conservation: an applied patch changes the length by exactly what its edits add and remove. */
  lemma PatchLength(original: string, edits: seq<Edit>)
    requires Applicable(original, edits) && AllFit(original, SpansOf(original, edits))
    ensures |Rewrite(original, SetOf(SpansOf(original, edits)), 0)| == |original| + Growth(edits)
  {
    var spans := SpansOf(original, edits);
    var ordered := Sort(spans, ByStart);
    SortedSpans(original, spans);
    RewriteIsRightToLeft(original, ordered);
    SpliceAllLength(original, ordered);
    GrowthOfSort(spans);
    GrowthOfSpans(original, edits);
  }

  /** The whole patch as a sequence of single splices. */
  lemma PatchIsRightToLeft(original: string, edits: seq<Edit>)
    requires Applicable(original, edits) && AllFit(original, SpansOf(original, edits))
    ensures var spans := SpansOf(original, edits);
            var ordered := Sort(spans, ByStart);
            && multiset(ordered) == multiset(spans)
            && AllFit(original, ordered) && Chain(ordered)
            && SpliceAll(original, ordered) == Rewrite(original, SetOf(spans), 0)
  {
    var spans := SpansOf(original, edits);
    SortSorts(spans, ByStart);
    SortedSpans(original, spans);
    RewriteIsRightToLeft(original, Sort(spans, ByStart));
  }
}
