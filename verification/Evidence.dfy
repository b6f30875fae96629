/** Bounded text evidence and pagination completeness contracts. */
module Evidence {
  import opened Prelude
  import opened Text
  import opened Utf8

  function Min(a: int, b: int): int { if a < b then a else b }

  function Max(a: int, b: int): int { if a > b then a else b }

  // ----- Bounded text -----

  /** Why evidence carries a warning; the model keeps the kind, not the wording. */
  datatype TextWarning = Capped | TailLimited | SuffixSelected | StartApplied | EndApplied | Incomplete

  /** `fingerprinted` is the byte stream whose SHA-256 the evidence reports. */
  datatype BoundedTextEvidence = BoundedTextEvidence(
    content: string,
    bytesReturned: nat,
    totalBytes: nat,
    truncated: bool,
    fingerprinted: seq<Byte>,
    warnings: seq<TextWarning>)
  {
    /** The completeness validator: construction fails unless this holds. */
    predicate Validates() {
      && bytesReturned == |Encode(content)|
      && bytesReturned <= totalBytes
      && truncated == (bytesReturned < totalBytes)
      && (truncated ==> warnings != [])
    }
  }

  /** What a bounded prefix of `text` must report. */
  function BoundedReport(text: string, requested: int, hardMax: int): BoundedTextEvidence
    requires requested >= 1 && hardMax >= 1
  {
    var content := FitPrefix(text, Min(requested, hardMax));
    var truncated := |Encode(content)| < |Encode(text)|;
    BoundedTextEvidence(
      content, |Encode(content)|, |Encode(text)|, truncated, Encode(text),
      (if requested > hardMax then [Capped] else []) + (if truncated then [Incomplete] else []))
  }

  lemma BoundedReportValidates(text: string, requested: int, hardMax: int)
    requires requested >= 1 && hardMax >= 1
    ensures BoundedReport(text, requested, hardMax).Validates()
    ensures var e := BoundedReport(text, requested, hardMax);
            && e.content <= text && e.bytesReturned <= requested && e.bytesReturned <= hardMax
            && (e.truncated ==> e.bytesReturned >= Min(requested, hardMax) - 3)
            && (!e.truncated ==> e.content == text)
            && forall other :: other <= text && |Encode(other)| <= Min(requested, hardMax) ==> other <= e.content
  {
    var limit := Min(requested, hardMax);
    var content := FitPrefix(text, limit);
    FitPrefixIsLongest(text, limit, []);
    forall other | other <= text && |Encode(other)| <= limit ensures other <= content {
      FitPrefixIsLongest(text, limit, other);
    }
    assert text == content + text[|content|..];
    EncodeConcat(content, text[|content|..]);
    if content != text {
      EncodeHead(text[|content|..]);
    }
  }

  class BoundedTextAccumulator {
    const requested: int
    const hardMax: int
    const limit: int
    var parts: seq<string>
    var bytesReturned: nat
    var totalBytes: nat
    var hashed: seq<Byte>
    var prefixClosed: bool
    ghost var fed: string

    ghost predicate Valid()
      reads this
    {
      && requested >= 1 && hardMax >= 1
      && limit == Min(requested, hardMax)
      && hashed == Encode(fed) && totalBytes == |hashed|
      && Concat(parts) == FitPrefix(fed, limit)
      && bytesReturned == |Encode(Concat(parts))|
      && bytesReturned <= limit
      && (prefixClosed <==> |Encode(fed)| > limit)
      && (!prefixClosed ==> Concat(parts) == fed)
    }

    constructor (requestedMaxBytes: Option<int>, hardMaxBytes: int)
      requires hardMaxBytes >= 1 && requestedMaxBytes.GetOr(1) >= 1
      ensures Valid() && fed == []
      ensures requested == requestedMaxBytes.GetOr(hardMaxBytes) && hardMax == hardMaxBytes
    {
      requested := requestedMaxBytes.GetOr(hardMaxBytes);
      hardMax := hardMaxBytes;
      limit := Min(requestedMaxBytes.GetOr(hardMaxBytes), hardMaxBytes);
      parts, bytesReturned, totalBytes, hashed, prefixClosed := [], 0, 0, [], false;
      fed := [];
    }

    /** Keeps more text; what is dropped is the caller's business. */
    method Keep(text: string)
      modifies this`parts, this`bytesReturned
      ensures Concat(parts) == old(Concat(parts)) + text
      ensures bytesReturned == old(bytesReturned) + |Encode(text)|
    {
      ConcatAppend(parts, text);
      parts := parts + [text];
      bytesReturned := bytesReturned + |Encode(text)|;
    }

    method AddText(chunk: string)
      requires Valid()
      modifies this
      ensures Valid() && fed == old(fed) + chunk
    {
      var encoded := Encode(chunk);
      EncodeConcat(fed, chunk);
      hashed := hashed + encoded;
      totalBytes := totalBytes + |encoded|;
      fed := fed + chunk;
      if prefixClosed {
        FitPrefixClosed(old(fed), chunk, limit);
        return;
      }
      if encoded == [] {
        assert chunk == [];
        assert fed == old(fed);
        return;
      }
      var remaining := limit - bytesReturned;
      if |encoded| <= remaining {
        WholeFits(old(fed), chunk, limit);
        Keep(chunk);
        return;
      }
      PartFits(old(fed), chunk, limit);
      var prefix := DecodeIgnore(encoded[..remaining]);
      assert prefix == [] ==> old(fed) + prefix == old(fed);
      if prefix != [] {
        Keep(prefix);
      }
      prefixClosed := true;
    }

    method Finish() returns (e: BoundedTextEvidence)
      requires Valid()
      ensures e == BoundedReport(fed, requested, hardMax)
    {
      var truncated := bytesReturned < totalBytes;
      var warnings := [];
      if requested > hardMax { warnings := warnings + [Capped]; }
      if truncated { warnings := warnings + [Incomplete]; }
      e := BoundedTextEvidence(Concat(parts), bytesReturned, totalBytes, truncated, hashed, warnings);
    }
  }

  /** Any way of cutting text into chunks gives the report of the whole text. */
  method BoundChunks(chunks: seq<string>, requestedMaxBytes: Option<int>, hardMaxBytes: int)
    returns (e: BoundedTextEvidence)
    requires hardMaxBytes >= 1 && requestedMaxBytes.GetOr(1) >= 1
    ensures e == BoundedReport(Concat(chunks), requestedMaxBytes.GetOr(hardMaxBytes), hardMaxBytes)
    ensures e.Validates()
  {
    var accumulator := new BoundedTextAccumulator(requestedMaxBytes, hardMaxBytes);
    for i := 0 to |chunks|
      invariant accumulator.Valid() && accumulator.fed == Concat(chunks[..i])
      invariant fresh(accumulator)
    {
      ConcatTake(chunks, i);
      accumulator.AddText(chunks[i]);
    }
    assert chunks[..|chunks|] == chunks;
    e := accumulator.Finish();
    BoundedReportValidates(Concat(chunks), accumulator.requested, accumulator.hardMax);
  }

  /** The warnings of a bounded report, each with its own cause. */
  lemma BoundedWarnings(text: string, requested: int, hardMax: int)
    requires requested >= 1 && hardMax >= 1
    ensures var e := BoundedReport(text, requested, hardMax);
            && (Capped in e.warnings <==> requested > hardMax)
            && (Incomplete in e.warnings <==> |Encode(e.content)| < |Encode(text)|)
            && e.fingerprinted == Encode(text) && e.totalBytes == |Encode(text)|
  {
  }

  // ----- Pagination -----

  datatype PageWarning = PageCapped | ShortPage | MoreBeyondCap

  /** How many of `total` results belong on the page that starts at `offset`. */
  function ExpectedCount(total: int, offset: int, perPage: int): int {
    Min(perPage, Max(total - offset, 0))
  }

  datatype PaginationEvidence = PaginationEvidence(
    totalCount: Option<int>,
    page: int,
    perPage: int,
    returnedCount: int,
    hasMore: bool,
    truncated: bool,
    warnings: seq<PageWarning>)
  {
    predicate Validates() {
      && page >= 1 && perPage >= 1 && 0 <= returnedCount <= perPage
      && (totalCount.Some? ==>
            var offset := (page - 1) * perPage;
            var expected := ExpectedCount(totalCount.value, offset, perPage);
            && totalCount.value >= 0
            && returnedCount <= expected
            && hasMore == (offset + expected < totalCount.value)
            && (returnedCount < expected ==> truncated))
      && (truncated ==> warnings != [])
    }
  }

  datatype PageError = BadArgument | TooMany | ExceedsTotal | HasMoreConflict | HasMoreUnknown

  function Build(
    page: int, perPage: int, requested: int, hardMax: int, returnedCount: int,
    totalCount: Option<int>, hasMore: bool, short: bool): PaginationEvidence
  {
    var capHit := requested > hardMax;
    PaginationEvidence(
      totalCount, page, perPage, returnedCount, hasMore, short || (capHit && hasMore),
      (if capHit then [PageCapped] else []) +
      (if short then [ShortPage] else []) +
      (if capHit && hasMore then [MoreBeyondCap] else []))
  }

  function ResolvePagination(
    page: int, requestedPerPage: Option<int>, defaultPerPage: int, hardMaxResults: int,
    returnedCount: int, totalCount: Option<int>, hasMore: Option<bool>)
    : (r: Result<PaginationEvidence, PageError>)
    ensures r.Ok? ==> r.value.Validates()
  {
    var requested := requestedPerPage.GetOr(defaultPerPage);
    if page < 1 || defaultPerPage < 1 || hardMaxResults < 1 || requested < 1 || returnedCount < 0 then
      Err(BadArgument)
    else
      var perPage := Min(requested, hardMaxResults);
      if returnedCount > perPage then Err(TooMany)
      else if totalCount.None? && hasMore.None? then Err(HasMoreUnknown)
      else if totalCount.None? then
        Ok(Build(page, perPage, requested, hardMaxResults, returnedCount, None, hasMore.value, false))
      else
        var total := totalCount.value;
        var offset := (page - 1) * perPage;
        var expected := ExpectedCount(total, offset, perPage);
        var computed := offset + expected < total;
        if total < 0 then Err(BadArgument)
        else if returnedCount > expected then Err(ExceedsTotal)
        else if hasMore.Some? && hasMore.value != computed then Err(HasMoreConflict)
        else
          Ok(Build(page, perPage, requested, hardMaxResults, returnedCount, totalCount, computed,
                   returnedCount < expected))
  }

  /** How many of `total` results lie on the given page. */
  ghost predicate Holds(total: int, page: int, perPage: int, count: int) {
    var before := (page - 1) * perPage;
    if total <= before then count == 0
    else if total - before <= perPage then count == total - before
    else count == perPage
  }

  /**
   * What pagination evidence reports, field by field. Without a total the caller's `has_more` is
   * taken over; with one, it is whether results follow this page. The page is incomplete if it is
   * shorter than the total says or if the cap hides further results, and each warning has its own
   * cause.
   */
  lemma PaginationReports(page: int, requestedPerPage: Option<int>, defaultPerPage: int, hardMaxResults: int,
                          returnedCount: int, totalCount: Option<int>, hasMore: Option<bool>, onPage: int)
    requires ResolvePagination(page, requestedPerPage, defaultPerPage, hardMaxResults,
                               returnedCount, totalCount, hasMore).Ok?
    requires totalCount.Some? ==>
               Holds(totalCount.value, page, Min(requestedPerPage.GetOr(defaultPerPage), hardMaxResults), onPage)
    ensures var e := ResolvePagination(page, requestedPerPage, defaultPerPage, hardMaxResults,
                                       returnedCount, totalCount, hasMore).value;
            var capped := requestedPerPage.GetOr(defaultPerPage) > hardMaxResults;
            && e.page == page && e.totalCount == totalCount && e.returnedCount == returnedCount
            && e.perPage == (if capped then hardMaxResults else requestedPerPage.GetOr(defaultPerPage))
            && (totalCount.None? ==> hasMore == Some(e.hasMore))
            && (totalCount.Some? ==> e.hasMore == ((page - 1) * e.perPage + onPage < totalCount.value))
            && (e.truncated <==> (totalCount.Some? && returnedCount < onPage) || (capped && e.hasMore))
            && (PageCapped in e.warnings <==> capped)
            && (ShortPage in e.warnings <==> totalCount.Some? && returnedCount < onPage)
            && (MoreBeyondCap in e.warnings <==> capped && e.hasMore)
  {
  }

  /** Which arguments are refused. */
  lemma PaginationRefuses(page: int, requestedPerPage: Option<int>, defaultPerPage: int, hardMaxResults: int,
                          returnedCount: int, totalCount: Option<int>, hasMore: Option<bool>, onPage: int)
    requires totalCount.Some? ==>
               Holds(totalCount.value, page, Min(requestedPerPage.GetOr(defaultPerPage), hardMaxResults), onPage)
    ensures var requested := requestedPerPage.GetOr(defaultPerPage);
            var more := totalCount.Some? && (page - 1) * Min(requested, hardMaxResults) + onPage < totalCount.value;
            ResolvePagination(page, requestedPerPage, defaultPerPage, hardMaxResults,
                              returnedCount, totalCount, hasMore).Err? <==>
            || page <= 0 || defaultPerPage <= 0 || hardMaxResults <= 0 || requested <= 0 || returnedCount < 0
            || returnedCount > requested || returnedCount > hardMaxResults
            || (totalCount.None? && hasMore.None?)
            || (totalCount.Some? && (totalCount.value < 0 || returnedCount > onPage || hasMore == Some(!more)))
  {
  }

  /** Each refusal names what is wrong. */
  lemma PaginationErrors(page: int, requestedPerPage: Option<int>, defaultPerPage: int, hardMaxResults: int,
                         returnedCount: int, totalCount: Option<int>, hasMore: Option<bool>, onPage: int)
    requires totalCount.Some? ==>
               Holds(totalCount.value, page, Min(requestedPerPage.GetOr(defaultPerPage), hardMaxResults), onPage)
    requires ResolvePagination(page, requestedPerPage, defaultPerPage, hardMaxResults,
                               returnedCount, totalCount, hasMore).Err?
    ensures var requested := requestedPerPage.GetOr(defaultPerPage);
            match ResolvePagination(page, requestedPerPage, defaultPerPage, hardMaxResults,
                                    returnedCount, totalCount, hasMore).error {
              case BadArgument =>
                || page <= 0 || defaultPerPage <= 0 || hardMaxResults <= 0 || requested <= 0 || returnedCount < 0
                || (totalCount.Some? && totalCount.value < 0)
              case TooMany => returnedCount > requested || returnedCount > hardMaxResults
              case HasMoreUnknown => totalCount.None? && hasMore.None?
              case ExceedsTotal => totalCount.Some? && returnedCount > onPage
              case HasMoreConflict =>
                && totalCount.Some?
                && hasMore == Some(!((page - 1) * Min(requested, hardMaxResults) + onPage < totalCount.value))
            }
  {
  }

  /** Nothing the validator would accept is refused, and `has_more` is never a guess: it is the only
      value any valid evidence for these counts can carry. */
  lemma PaginationComplete(
    e: PaginationEvidence, requestedPerPage: Option<int>, defaultPerPage: int, hardMaxResults: int)
    requires e.Validates() && e.totalCount.Some?
    requires defaultPerPage >= 1 && hardMaxResults >= 1 && requestedPerPage.GetOr(1) >= 1
    requires e.perPage == Min(requestedPerPage.GetOr(defaultPerPage), hardMaxResults)
    ensures var r := ResolvePagination(e.page, requestedPerPage, defaultPerPage, hardMaxResults,
                                       e.returnedCount, e.totalCount, None);
            && r.Ok? && r.value.hasMore == e.hasMore && r.value.perPage == e.perPage
            && (r.value.truncated && !e.truncated ==> requestedPerPage.GetOr(defaultPerPage) > hardMaxResults)
    ensures ResolvePagination(e.page, requestedPerPage, defaultPerPage, hardMaxResults,
                              e.returnedCount, e.totalCount, Some(!e.hasMore)) == Err(HasMoreConflict)
  {
  }

  /** `items[start : start + per_page]` for the one-based page; Python slices clamp at the end. */
  function PageOf<T>(items: seq<T>, page: int, perPage: int): seq<T>
    requires page >= 1 && perPage >= 1
    requires 0 <= (page - 1) * perPage
  {
    var start := Min((page - 1) * perPage, |items|);
    items[start..Min(start + perPage, |items|)]
  }

  lemma OffsetOf(page: int, perPage: int)
    requires page >= 1 && perPage >= 1
    ensures 0 <= (page - 1) * perPage
    ensures page * perPage == (page - 1) * perPage + perPage
  {
  }

  function FirstPages<T>(items: seq<T>, pages: nat, perPage: int): seq<T>
    requires perPage >= 1
  {
    if pages == 0 then []
    else
      OffsetOf(pages, perPage);
      FirstPages(items, pages - 1, perPage) + PageOf(items, pages, perPage)
  }

  /** The first pages laid end to end are the first items: nothing repeats, nothing is skipped. */
  lemma {:induction false} PagesReassemble<T>(items: seq<T>, pages: nat, perPage: int)
    requires perPage >= 1
    ensures 0 <= pages * perPage
    ensures FirstPages(items, pages, perPage) == items[..Min(pages * perPage, |items|)]
  {
    if pages > 0 {
      PagesReassemble(items, pages - 1, perPage);
      OffsetOf(pages, perPage);
      var start := Min((pages - 1) * perPage, |items|);
      var end := Min(start + perPage, |items|);
      assert items[..start] + items[start..end] == items[..end];
    }
  }

  /** The evidence a page listing reports for its own slice is always accepted, has the exact
      `has_more`, and is truncated only when the hard cap cut an honest request short. */
  lemma PageListingIsHonest<T>(items: seq<T>, page: int, requestedPerPage: Option<int>, defaultPerPage: int, hardMax: int)
    requires page >= 1 && defaultPerPage >= 1 && hardMax >= 1 && requestedPerPage.GetOr(1) >= 1
    ensures var perPage := Min(requestedPerPage.GetOr(defaultPerPage), hardMax);
            && 0 <= (page - 1) * perPage
            && var selected := PageOf(items, page, perPage);
               var r := ResolvePagination(page, requestedPerPage, defaultPerPage, hardMax, |selected|, Some(|items|), None);
            && r.Ok?
            && r.value.Validates()
            && (r.value.hasMore <==> page * perPage < |items|)
            && (r.value.truncated <==> r.value.hasMore && requestedPerPage.GetOr(defaultPerPage) > hardMax)
            && (!r.value.hasMore ==> FirstPages(items, page, perPage) == items)
  {
    var perPage := Min(requestedPerPage.GetOr(defaultPerPage), hardMax);
    OffsetOf(page, perPage);
    PagesReassemble(items, page, perPage);
  }
}
