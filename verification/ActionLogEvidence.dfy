/** Streaming selection of Actions log evidence: an online machine with bounded memory, proved to
    refine a batch definition over the whole normalized text, however the log is cut into chunks. */
module ActionLogEvidence {
  import opened Prelude
  import opened Text
  import opened Utf8
  import opened Evidence

  // ----- Normalization of terminal controls -----

  /** C0 controls except tab, line feed and carriage return; DEL; C1 controls. */
  predicate IsControl(c: char) {
    var u := c as int;
    (u < 0x20 && u != 0x09 && u != 0x0A && u != 0x0D) || u == 0x7F || 0x80 <= u < 0xA0
  }

  function HexDigit(d: int): char
    requires 0 <= d < 16
  {
    if d < 10 then (48 + d) as char else (87 + d) as char
  }

  function NormalizeChar(c: char): (r: string)
    ensures r != []
  {
    if IsControl(c) then ['\\', 'x', HexDigit(c as int / 16), HexDigit(c as int % 16)] else [c]
  }

  function Normalize(s: string): (r: string)
    ensures s == [] <==> r == []
  {
    FlatMap(NormalizeChar, s)
  }

  lemma NormalizeConcat(s: string, t: string)
    ensures Normalize(s + t) == Normalize(s) + Normalize(t)
  {
    FlatMapConcat(NormalizeChar, s, t);
  }

  lemma {:induction false} InertIsFixed(s: string)
    requires forall c :: c in s ==> !IsControl(c)
    ensures Normalize(s) == s
  {
    if s != [] {
      assert s[0] in s;
      InertIsFixed(s[1..]);
    }
  }

  /** Normalized text is inert, and normalizing it again changes nothing. */
  lemma {:induction false} NormalizeInert(s: string)
    ensures forall c :: c in Normalize(s) ==> !IsControl(c)
    ensures Normalize(Normalize(s)) == Normalize(s)
  {
    if s != [] {
      NormalizeInert(s[1..]);
      assert forall c :: c in NormalizeChar(s[0]) ==> !IsControl(c);
    }
    InertIsFixed(Normalize(s));
  }

  // ----- What normalization does, in code points -----

  /** The value of a lowercase hexadecimal digit. */
  function HexValue(c: char): Option<int> {
    if '0' <= c <= '9' then Some(c as int - '0' as int)
    else if 'a' <= c <= 'f' then Some(c as int - 'a' as int + 10)
    else None
  }

  /** The text a character turns into: four characters that spell the code of a terminal control,
      and the character itself otherwise. */
  predicate StandsFor(piece: string, c: char) {
    var u := c as int;
    if u <= 0x08 || 0x0B <= u <= 0x0C || 0x0E <= u <= 0x1F || 0x7F <= u <= 0x9F then
      && |piece| == 4 && piece[0] == '\\' && piece[1] == 'x'
      && HexValue(piece[2]).Some? && HexValue(piece[3]).Some?
      && 16 * HexValue(piece[2]).value + HexValue(piece[3]).value == u
    else
      piece == [c]
  }

  lemma EscapeIsExact(c: char, piece: string)
    ensures StandsFor(piece, c) <==> piece == NormalizeChar(c)
  {
    if StandsFor(piece, c) && IsControl(c) {
      var h, l := HexValue(piece[2]).value, HexValue(piece[3]).value;
      assert (16 * h + l) / 16 == h && (16 * h + l) % 16 == l;
      assert piece[2] == HexDigit(h) && piece[3] == HexDigit(l);
    }
  }

  /** One piece for each character, in order. */
  ghost predicate Spells(pieces: seq<string>, s: string) {
    |pieces| == |s| && forall i :: 0 <= i < |s| ==> StandsFor(pieces[i], s[i])
  }

  lemma {:induction false} PiecesOf(s: string) returns (pieces: seq<string>)
    ensures Spells(pieces, s) && Concat(pieces) == Normalize(s)
  {
    pieces := [];
    if s != [] {
      var rest := PiecesOf(s[1..]);
      EscapeIsExact(s[0], NormalizeChar(s[0]));
      pieces := [NormalizeChar(s[0])] + rest;
    }
  }

  lemma {:induction false} SpelledOnce(s: string, pieces: seq<string>)
    requires Spells(pieces, s)
    ensures Concat(pieces) == Normalize(s)
  {
    if s != [] {
      EscapeIsExact(s[0], pieces[0]);
      SpelledOnce(s[1..], pieces[1..]);
    }
  }

  /** Normalized text is exactly the text that spells every character in order. */
  lemma NormalizeExactly(s: string, text: string)
    ensures text == Normalize(s) <==> exists pieces :: Spells(pieces, s) && Concat(pieces) == text
  {
    var pieces := PiecesOf(s);
    if other :| Spells(other, s) && Concat(other) == text {
      SpelledOnce(s, other);
    }
  }

  lemma NormalizedStream(s: string, t: string)
    ensures Normalize(s + t) == Normalize(s) + Normalize(t)
    ensures Encode(Normalize(s + t)) == Encode(Normalize(s)) + Encode(Normalize(t))
  {
    NormalizeConcat(s, t);
    EncodeConcat(Normalize(s), Normalize(t));
  }

  // ----- Requests and the batch definition -----

  datatype LogError = InvalidRequest | StartNotFound | EndNotFound

  datatype Request = Request(
    requestedMaxBytes: Option<int>,
    hardMaxBytes: int,
    tailBytes: Option<int>,
    startMarker: Option<string>,
    endMarker: Option<string>)
  {
    predicate Valid() {
      && hardMaxBytes >= 1
      && requestedMaxBytes.GetOr(1) >= 1
      && tailBytes.GetOr(1) >= 1
      && (tailBytes.Some? ==> startMarker.None? && endMarker.None?)
      && startMarker != Some([]) && endMarker != Some([])
    }

    function Requested(): int { requestedMaxBytes.GetOr(hardMaxBytes) }

    function Limit(): int { Min(Requested(), hardMaxBytes) }

    function TailLimit(): int { Min(tailBytes.GetOr(Limit()), Limit()) }
  }

  function NormalizedMarker(marker: Option<string>): (m: Option<string>)
    ensures m.Some? <==> marker.Some?
    ensures marker.Some? && marker.value != [] ==> m.value != []
  {
    match marker case Some(text) => Some(Normalize(text)) case None => None
  }

  /** From the first start marker, inclusive; the whole text when there is none. */
  function FromStart(text: string, start: Option<string>): Option<string> {
    if start.None? then Some(text)
    else match Find(text, start.value) case Some(i) => Some(text[i..]) case None => None
  }

  /** Through the first end marker, inclusive; the whole text when there is none. */
  function ThroughEnd(text: string, end: Option<string>): Option<string> {
    if end.None? then Some(text)
    else match Find(text, end.value) case Some(i) => Some(text[..i + |end.value|]) case None => None
  }

  function Notes(request: Request, returned: nat, total: nat): seq<TextWarning> {
    if request.tailBytes.Some? then
      (if request.tailBytes.value > request.Limit() then [TailLimited] else []) +
      (if returned < total then [SuffixSelected] else [])
    else
      (if request.startMarker.Some? then [StartApplied] else []) +
      (if request.endMarker.Some? then [EndApplied] else [])
  }

  function Report(request: Request, text: string, content: string): BoundedTextEvidence
    requires request.Valid()
  {
    var returned, total := |Encode(content)|, |Encode(text)|;
    BoundedTextEvidence(
      content, returned, total, returned < total, Encode(text),
      (if request.Requested() > request.hardMaxBytes then [Capped] else []) +
      Notes(request, returned, total) +
      (if returned < total then [Incomplete] else []))
  }

  /** The batch definition: what evidence for one whole log is. */
  function Select(request: Request, log: string): Result<BoundedTextEvidence, LogError> {
    if !request.Valid() then Err(InvalidRequest)
    else
      var text := Normalize(log);
      if request.tailBytes.Some? then
        Ok(Report(request, text, FitSuffix(text, request.TailLimit())))
      else
        var rest := FromStart(text, NormalizedMarker(request.startMarker));
        if rest.None? then Err(StartNotFound)
        else
          var selected := ThroughEnd(rest.value, NormalizedMarker(request.endMarker));
          if selected.None? then Err(EndNotFound)
          else Ok(Report(request, text, FitPrefix(selected.value, request.Limit())))
  }

  // ----- The streaming machine -----

  /** `held` is the last `keep` characters of `gone + held`, or all of it if it is shorter. */
  predicate KeptBack(gone: string, held: string, keep: nat) {
    |held| <= keep && (gone != [] ==> |held| == keep)
  }

  /** Where the end-marker search stands after `rest`, the text at or after the start: either nothing
      was found and all but a held-back suffix was collected, or exactly the selection was. */
  ghost predicate SelectedView(
    end: Option<string>, ended: bool, found: bool, held: string, collected: string, rest: string)
    requires end.Some? ==> end.value != []
  {
    match ThroughEnd(rest, end)
    case None => !ended && !found && rest == collected + held && KeptBack(collected, held, |end.value| - 1)
    case Some(selected) => found && held == [] && (ended <==> end.Some?) && collected == selected
  }

  class Utf8PrefixCollector {
    const limit: nat
    var parts: seq<string>
    var bytesReturned: nat
    var closed: bool
    ghost var fed: string

    ghost predicate Valid()
      reads this
    {
      && Concat(parts) == FitPrefix(fed, limit)
      && bytesReturned == |Encode(Concat(parts))| <= limit
      && (closed <==> |Encode(fed)| > limit)
      && (!closed ==> Concat(parts) == fed)
    }

    constructor (limit: nat)
      ensures Valid() && fed == [] && this.limit == limit
    {
      this.limit := limit;
      parts, bytesReturned, closed, fed := [], 0, false, [];
    }

    method Keep(text: string)
      modifies this`parts, this`bytesReturned
      ensures Concat(parts) == old(Concat(parts)) + text
      ensures bytesReturned == old(bytesReturned) + |Encode(text)|
    {
      ConcatAppend(parts, text);
      parts := parts + [text];
      bytesReturned := bytesReturned + |Encode(text)|;
    }

    method AddText(chunk: string)
      requires Valid()
      modifies this
      ensures Valid() && fed == old(fed) + chunk
    {
      fed := fed + chunk;
      EncodeConcat(old(fed), chunk);
      if closed {
        FitPrefixClosed(old(fed), chunk, limit);
        return;
      }
      if chunk == [] {
        assert fed == old(fed);
        return;
      }
      var encoded := Encode(chunk);
      var remaining := limit - bytesReturned;
      if remaining <= 0 {
        FitPrefixConcat(old(fed), chunk, limit);
        FitPrefixIsLongest(chunk, 0, []);
        EncodeHead(chunk);
        assert FitPrefix(chunk, 0) == [];
        closed := true;
        return;
      }
      if |encoded| <= remaining {
        WholeFits(old(fed), chunk, limit);
        Keep(chunk);
        return;
      }
      PartFits(old(fed), chunk, limit);
      var prefix := DecodeIgnore(encoded[..remaining]);
      assert prefix == [] ==> old(fed) + prefix == old(fed);
      if prefix != [] {
        Keep(prefix);
      }
      closed := true;
    }
  }

  lemma ActiveGrows(text: string, chunk: string, start: Option<string>)
    requires FromStart(text, start).Some?
    ensures FromStart(text + chunk, start) == Some(FromStart(text, start).value + chunk)
  {
    if start.Some? {
      FindStable(text, chunk, start.value);
      var i := Find(text, start.value).value;
      assert (text + chunk)[i..] == text[i..] + chunk;
    }
  }

  lemma EndStable(rest: string, chunk: string, end: Option<string>)
    requires end.Some? && ThroughEnd(rest, end).Some?
    ensures ThroughEnd(rest + chunk, end) == ThroughEnd(rest, end)
  {
    FindStable(rest, chunk, end.value);
    var n := Find(rest, end.value).value + |end.value|;
    assert (rest + chunk)[..n] == rest[..n];
  }

  /** Looking for a marker in the held-back text and the chunk is looking in everything so far. */
  lemma HeldStep(gone: string, held: string, chunk: string, marker: string)
    requires marker != [] && Find(gone + held, marker).None?
    requires KeptBack(gone, held, |marker| - 1)
    ensures Find(gone + (held + chunk), marker) == Shifted(Find(held + chunk, marker), |gone|)
  {
    FindAcross(gone, held, chunk, marker);
  }

  lemma TailDecodes(text: string, limit: nat)
    ensures DecodeIgnore(Suffix(Encode(text), limit)) == FitSuffix(text, limit)
  {
    if |Encode(text)| <= limit {
      DecodeIgnoreRoundTrip(text);
    } else {
      DecodeSuffix(text, limit);
    }
  }

  class ActionLogEvidenceAccumulator {
    const request: Request
    const startMarker: Option<string>
    const endMarker: Option<string>
    const collector: Utf8PrefixCollector
    var hashed: seq<Byte>
    var totalBytes: nat
    var tail: seq<Byte>
    var selectionActive: bool
    var selectionEnded: bool
    var startFound: bool
    var endFound: bool
    var startTail: string
    var endTail: string
    ghost var skipped: string
    ghost var fed: string

    ghost predicate Valid()
      reads this, collector
    {
      && request.Valid()
      && startMarker == NormalizedMarker(request.startMarker)
      && endMarker == NormalizedMarker(request.endMarker)
      && collector.Valid() && collector.limit == request.Limit()
      && hashed == Encode(Normalize(fed)) && totalBytes == |hashed|
      && (if request.tailBytes.Some?
          then tail == Suffix(hashed, request.TailLimit()) && selectionActive && startFound && endFound
          else tail == [] && MarkerState(Normalize(fed)))
    }

    /** Marker mode, in terms of everything fed so far. */
    ghost predicate MarkerState(text: string)
      requires startMarker.Some? ==> startMarker.value != []
      requires endMarker.Some? ==> endMarker.value != []
      reads this, collector
    {
      && selectionActive == startFound
      && match FromStart(text, startMarker)
         case None =>
           && !startFound && text == skipped + startTail
           && KeptBack(skipped, startTail, |startMarker.value| - 1)
           && SelectedState([])
         case Some(rest) =>
           && startFound && startTail == []
           && SelectedState(rest)
    }

    ghost predicate SelectedState(rest: string)
      requires endMarker.Some? ==> endMarker.value != []
      reads this, collector
    {
      SelectedView(endMarker, selectionEnded, endFound, endTail, collector.fed, rest)
    }

    constructor (request: Request)
      requires request.Valid()
      ensures Valid() && fed == [] && this.request == request && fresh(collector)
    {
      this.request := request;
      startMarker := NormalizedMarker(request.startMarker);
      endMarker := NormalizedMarker(request.endMarker);
      collector := new Utf8PrefixCollector(request.Limit());
      hashed, totalBytes, tail := [], 0, [];
      selectionActive := request.startMarker.None?;
      selectionEnded := false;
      startFound := request.startMarker.None?;
      endFound := request.endMarker.None?;
      startTail, endTail := [], [];
      skipped, fed := [], [];
    }

    /** What is held back between chunks is bounded whatever the log: it is always shorter than the
        marker it may begin, the tail and the collected prefix never exceed the byte limit. */
    lemma MemoryIsBounded()
      requires Valid()
      ensures startMarker.Some? ==> |startTail| < |startMarker.value|
      ensures request.tailBytes.None? && startMarker.None? ==> startTail == []
      ensures request.tailBytes.None? && endMarker.Some? ==> |endTail| < |endMarker.value|
      ensures |tail| <= request.Limit() && |Encode(Concat(collector.parts))| <= request.Limit()
    {
    }

    method AddText(rawChunk: string)
      requires Valid()
      modifies this, collector
      ensures Valid() && fed == old(fed) + rawChunk
    {
      if rawChunk == [] {
        assert fed + rawChunk == fed;
        return;
      }
      var chunk := Account(rawChunk);
      if request.tailBytes.Some? {
        KeepTail(old(hashed), Encode(chunk));
      } else {
        SelectText(Normalize(old(fed)), chunk);
      }
    }

    /** Normalizes, hashes and counts one chunk. */
    method Account(rawChunk: string) returns (chunk: string)
      requires hashed == Encode(Normalize(fed)) && totalBytes == |hashed|
      modifies `fed, `hashed, `totalBytes
      ensures fed == old(fed) + rawChunk && chunk == Normalize(rawChunk)
      ensures hashed == old(hashed) + Encode(chunk) == Encode(Normalize(fed)) && totalBytes == |hashed|
      ensures Normalize(fed) == Normalize(old(fed)) + chunk
    {
      NormalizedStream(fed, rawChunk);
      fed := fed + rawChunk;
      chunk := Normalize(rawChunk);
      var encoded := Encode(chunk);
      hashed := hashed + encoded;
      totalBytes := totalBytes + |encoded|;
    }

    /** Tail mode: keep the last bytes only. */
    method KeepTail(ghost before: seq<Byte>, encoded: seq<Byte>)
      requires request.Valid()
      requires tail == Suffix(before, request.TailLimit())
      modifies `tail
      ensures tail == Suffix(before + encoded, request.TailLimit())
    {
      var tailLimit := request.TailLimit();
      SuffixOfAppend(before, encoded, tailLimit);
      if |encoded| >= tailLimit {
        CutShifted(tail, encoded, |encoded| - tailLimit);
        tail := encoded[|encoded| - tailLimit..];
      } else {
        tail := tail + encoded;
        if |tail| > tailLimit {
          tail := tail[|tail| - tailLimit..];
        }
      }
    }

    /** Marker mode: one normalized chunk behind the normalized `text` already consumed. */
    method SelectText(ghost text: string, chunk: string)
      requires startMarker.Some? ==> startMarker.value != []
      requires endMarker.Some? ==> endMarker.value != []
      requires collector.Valid() && MarkerState(text)
      modifies `selectionActive, `startFound, `startTail, `skipped, `selectionEnded, `endFound, `endTail, collector
      ensures collector.Valid() && MarkerState(text + chunk)
    {
      if selectionEnded {
        ActiveGrows(text, chunk, startMarker);
        EndStable(FromStart(text, startMarker).value, chunk, endMarker);
        return;
      }
      if !selectionActive {
        Assoc(skipped, startTail, chunk);
        AwaitStart(chunk);
        return;
      }
      ActiveGrows(text, chunk, startMarker);
      ConsumeSelected(FromStart(text, startMarker).value, chunk);
    }

    /** Search for the start marker across the chunk boundary. */
    method AwaitStart(chunk: string)
      requires startMarker.Some? && startMarker.value != [] && Find(skipped + startTail, startMarker.value).None?
      requires !selectionActive && !startFound && KeptBack(skipped, startTail, |startMarker.value| - 1)
      requires endMarker.Some? ==> endMarker.value != []
      requires collector.Valid() && SelectedState([])
      modifies `selectionActive, `startFound, `startTail, `skipped, `selectionEnded, `endFound, `endTail, collector
      ensures collector.Valid() && MarkerState(old(skipped) + (old(startTail) + chunk))
    {
      var marker := startMarker.value;
      var candidate := startTail + chunk;
      HeldStep(skipped, startTail, chunk, marker);
      var markerIndex := Find(candidate, marker);
      if markerIndex.None? {
        KeepCandidate(candidate, |marker| - 1);
      } else {
        CutShifted(skipped, candidate, markerIndex.value);
        Begin(candidate[markerIndex.value..]);
      }
    }

    /** The start marker was found: the selection begins with it. */
    method Begin(selected: string)
      requires endMarker.Some? ==> endMarker.value != []
      requires collector.Valid() && SelectedState([])
      modifies `selectionActive, `startFound, `startTail, `selectionEnded, `endFound, `endTail, collector
      ensures selectionActive && startFound && startTail == []
      ensures collector.Valid() && SelectedState(selected)
    {
      selectionActive := true;
      startFound := true;
      startTail := [];
      assert [] + selected == selected;
      ConsumeSelected([], selected);
    }

    /** Forget all but the last `keep` characters, which may begin a straddling start marker. */
    method KeepCandidate(candidate: string, keep: nat)
      requires skipped != [] ==> |candidate| >= keep
      modifies `startTail, `skipped
      ensures skipped + startTail == old(skipped) + candidate && KeptBack(skipped, startTail, keep)
    {
      SuffixSplits(candidate, keep);
      startTail := Suffix(candidate, keep);
      ghost var released := candidate[..|candidate| - |startTail|];
      Assoc(skipped, released, startTail);
      skipped := skipped + released;
    }

    /** Consume text at or after the start marker; `rest` is what already followed it. */
    method ConsumeSelected(ghost rest: string, chunk: string)
      requires endMarker.Some? ==> endMarker.value != []
      requires collector.Valid() && SelectedState(rest)
      modifies `selectionEnded, `endFound, `endTail, collector
      ensures collector.Valid() && SelectedState(rest + chunk)
    {
      if selectionEnded || chunk == [] {
        if chunk == [] { assert rest + chunk == rest; } else { EndStable(rest, chunk, endMarker); }
        return;
      }
      if endMarker.None? {
        collector.AddText(chunk);
        return;
      }
      var marker := endMarker.value;
      HeldStep(collector.fed, endTail, chunk, marker);
      Assoc(collector.fed, endTail, chunk);
      var candidate := endTail + chunk;
      var markerIndex := Find(candidate, marker);
      if markerIndex.Some? {
        var endIndex := markerIndex.value + |marker|;
        CutShifted(collector.fed, candidate, endIndex);
        collector.AddText(candidate[..endIndex]);
        endTail := [];
        endFound := true;
        selectionEnded := true;
        return;
      }
      HoldBack(candidate, |marker| - 1);
    }

    /** Release all but the last `keep` characters, which may begin a straddling marker. */
    method HoldBack(candidate: string, keep: nat)
      requires collector.Valid()
      modifies `endTail, collector
      requires collector.fed != [] ==> |candidate| >= keep
      ensures collector.Valid() && collector.fed + endTail == old(collector.fed) + candidate
      ensures KeptBack(collector.fed, endTail, keep)
    {
      if keep == 0 {
        collector.AddText(candidate);
        endTail := [];
        return;
      }
      if |candidate| <= keep {
        endTail := candidate;
        return;
      }
      collector.AddText(candidate[..|candidate| - keep]);
      endTail := candidate[|candidate| - keep..];
    }

    method Finish() returns (r: Result<BoundedTextEvidence, LogError>)
      requires Valid()
      ensures r == Select(request, fed)
    {
      if startMarker.Some? && !startFound {
        return Err(StartNotFound);
      }
      if endMarker.Some? && !endFound {
        return Err(EndNotFound);
      }
      var returned: string, bytesReturned: nat;
      if request.tailBytes.Some? {
        returned := DecodeIgnore(tail);
        bytesReturned := |Encode(returned)|;
        TailDecodes(Normalize(fed), request.TailLimit());
      } else {
        returned := Concat(collector.parts);
        bytesReturned := collector.bytesReturned;
      }
      var notes := Notes(request, bytesReturned, totalBytes);
      var truncated := bytesReturned < totalBytes;
      var warnings := if request.Requested() > request.hardMaxBytes then [Capped] else [];
      warnings := warnings + notes;
      if truncated { warnings := warnings + [Incomplete]; }
      assert warnings == Report(request, Normalize(fed), returned).warnings;
      r := Ok(BoundedTextEvidence(returned, bytesReturned, totalBytes, truncated, hashed, warnings));
    }
  }

  /** One log streamed chunk by chunk. */
  method Feed(accumulator: ActionLogEvidenceAccumulator, chunks: seq<string>)
    requires accumulator.Valid()
    modifies accumulator, accumulator.collector
    ensures accumulator.Valid() && accumulator.fed == old(accumulator.fed) + Concat(chunks)
  {
    for i := 0 to |chunks|
      invariant accumulator.Valid()
      invariant accumulator.fed == old(accumulator.fed) + Concat(chunks[..i])
    {
      ConcatTake(chunks, i);
      Assoc(old(accumulator.fed), Concat(chunks[..i]), chunks[i]);
      accumulator.AddText(chunks[i]);
    }
    assert chunks[..|chunks|] == chunks;
  }

  // ----- What the batch definition means -----

  /** `text[lo..hi]` runs from the first start marker through the first end marker that begins at or
      after it; an absent marker leaves its end of the text open. */
  ghost predicate IsSelection(text: string, start: Option<string>, end: Option<string>, lo: nat, hi: nat) {
    && lo <= hi <= |text|
    && (match start case None => lo == 0 case Some(m) => FirstAt(text, m, 0, lo))
    && (match end
        case None => hi == |text|
        case Some(m) => lo + |m| <= hi && FirstAt(text, m, lo, hi - |m|))
  }

  lemma StartFound(text: string, marker: string, lo: nat)
    requires FirstAt(text, marker, 0, lo)
    ensures FromStart(text, Some(marker)) == Some(text[lo..])
  {
    FindFirst(text, marker, 0, lo);
  }

  lemma EndFound(text: string, marker: string, lo: nat, hi: nat)
    requires lo + |marker| <= hi <= |text| && FirstAt(text, marker, lo, hi - |marker|)
    ensures ThroughEnd(text[lo..], Some(marker)) == Some(text[lo..hi])
  {
    assert text == text[..lo] + text[lo..];
    FindFirst(text, marker, lo, hi - |marker|);
    FindInRest(text[..lo], text[lo..], marker, 0);
    SliceOfRest(text, lo, hi);
  }

  lemma SelectionFound(text: string, start: Option<string>, end: Option<string>, lo: nat, hi: nat)
    requires IsSelection(text, start, end, lo, hi)
    ensures FromStart(text, start) == Some(text[lo..])
    ensures ThroughEnd(text[lo..], end) == Some(text[lo..hi])
  {
    if start.Some? {
      StartFound(text, start.value, lo);
    }
    if end.Some? {
      EndFound(text, end.value, lo, hi);
    } else {
      SliceOfRest(text, lo, hi);
    }
  }

  lemma SelectionExists(text: string, start: Option<string>, end: Option<string>) returns (lo: nat, hi: nat)
    requires FromStart(text, start).Some?
    requires ThroughEnd(FromStart(text, start).value, end).Some?
    ensures IsSelection(text, start, end, lo, hi)
  {
    lo := if start.None? then 0 else Find(text, start.value).value;
    if start.Some? {
      FindMeaning(text, start.value, 0);
    }
    hi := |text|;
    if end.Some? {
      assert text == text[..lo] + text[lo..];
      FindInRest(text[..lo], text[lo..], end.value, 0);
      FindMeaning(text, end.value, lo);
      hi := Find(text, end.value, lo).value + |end.value|;
    }
  }

  lemma EncodeEmpty(s: string)
    ensures |Encode(s)| == 0 ==> s == []
  {
  }

  lemma EncodeSlice(s: string, lo: nat, hi: nat)
    requires lo <= hi <= |s|
    ensures |Encode(s[lo..hi])| <= |Encode(s)|
    ensures |Encode(s[lo..hi])| == |Encode(s)| ==> s[lo..hi] == s
  {
    assert s == s[..lo] + (s[lo..hi] + s[hi..]);
    EncodeConcat(s[..lo], s[lo..hi] + s[hi..]);
    EncodeConcat(s[lo..hi], s[hi..]);
    EncodeEmpty(s[..lo]);
    EncodeEmpty(s[hi..]);
  }

  lemma SuffixIsSlice(text: string, limit: nat)
    ensures |Encode(FitSuffix(text, limit))| <= |Encode(text)|
    ensures |Encode(FitSuffix(text, limit))| == |Encode(text)| ==> FitSuffix(text, limit) == text
  {
    assert text[|text|..] == [];
    FitSuffixIsLongest(text, limit, |text|);
    var n := |FitSuffix(text, limit)|;
    assert text[|text| - n..] == text[|text| - n..|text|];
    EncodeSlice(text, |text| - n, |text|);
  }

  lemma PrefixIsSlice(text: string, lo: nat, hi: nat, limit: nat)
    requires lo <= hi <= |text|
    ensures |Encode(FitPrefix(text[lo..hi], limit))| <= |Encode(text)|
    ensures |Encode(FitPrefix(text[lo..hi], limit))| == |Encode(text)| ==> FitPrefix(text[lo..hi], limit) == text
  {
    var content := FitPrefix(text[lo..hi], limit);
    FitPrefixIsLongest(text[lo..hi], limit, []);
    assert content == text[lo..lo + |content|];
    EncodeSlice(text, lo, lo + |content|);
  }

  /** The evidence validator never rejects what the accumulator builds; it reports truncation exactly
      when something of the normalized log is missing. */
  lemma SelectValidates(request: Request, log: string)
    requires Select(request, log).Ok?
    ensures Select(request, log).value.Validates()
    ensures Select(request, log).value.truncated <==> Select(request, log).value.content != Normalize(log)
  {
    var text := Normalize(log);
    if request.tailBytes.Some? {
      SuffixIsSlice(text, request.TailLimit());
    } else {
      var start, end := NormalizedMarker(request.startMarker), NormalizedMarker(request.endMarker);
      var lo, hi := SelectionExists(text, start, end);
      SelectionFound(text, start, end, lo, hi);
      PrefixIsSlice(text, lo, hi, request.Limit());
    }
  }

  /** The accumulator driven over any cutting of a log, with request validation first. */
  method SelectChunks(request: Request, chunks: seq<string>) returns (r: Result<BoundedTextEvidence, LogError>)
    ensures r == Select(request, Concat(chunks))
    ensures r.Ok? ==> r.value.Validates()
  {
    if !request.Valid() {
      return Err(InvalidRequest);
    }
    var accumulator := new ActionLogEvidenceAccumulator(request);
    Feed(accumulator, chunks);
    assert [] + Concat(chunks) == Concat(chunks);
    r := accumulator.Finish();
    if r.Ok? {
      SelectValidates(request, Concat(chunks));
    }
  }

  lemma SelectOutcome(request: Request, log: string)
    requires request.Valid() && request.tailBytes.None?
    ensures var rest := FromStart(Normalize(log), NormalizedMarker(request.startMarker));
            && (Select(request, log) == Err(StartNotFound) <==> rest.None?)
            && (rest.Some? ==>
                  var selected := ThroughEnd(rest.value, NormalizedMarker(request.endMarker));
                  && (Select(request, log) == Err(EndNotFound) <==> selected.None?)
                  && (Select(request, log).Ok? <==> selected.Some?))
  {
  }

  lemma SelectionDecides(text: string, start: Option<string>, end: Option<string>)
    ensures FromStart(text, start).Some? && ThroughEnd(FromStart(text, start).value, end).Some?
       <==> exists lo: nat, hi: nat :: IsSelection(text, start, end, lo, hi)
  {
    if FromStart(text, start).Some? && ThroughEnd(FromStart(text, start).value, end).Some? {
      var lo, hi := SelectionExists(text, start, end);
    }
    if lo: nat, hi: nat :| IsSelection(text, start, end, lo, hi) {
      SelectionFound(text, start, end, lo, hi);
    }
  }

  /** Marker mode succeeds exactly when the markers delimit a selection, and returns the longest
      whole-code-point prefix of that selection that fits the byte limit. */
  lemma MarkerModeMeaning(request: Request, log: string)
    requires request.Valid() && request.tailBytes.None?
    ensures var text := Normalize(log);
            var start, end := NormalizedMarker(request.startMarker), NormalizedMarker(request.endMarker);
            Select(request, log).Ok? <==> exists lo: nat, hi: nat :: IsSelection(text, start, end, lo, hi)
  {
    SelectOutcome(request, log);
    SelectionDecides(Normalize(log), NormalizedMarker(request.startMarker), NormalizedMarker(request.endMarker));
  }

  lemma MarkerModeContent(request: Request, log: string, lo: nat, hi: nat, other: string)
    requires request.Valid() && request.tailBytes.None?
    requires IsSelection(Normalize(log), NormalizedMarker(request.startMarker),
                         NormalizedMarker(request.endMarker), lo, hi)
    requires other <= Normalize(log)[lo..hi] && |Encode(other)| <= request.Limit()
    ensures var r := Select(request, log);
            && r.Ok?
            && other <= r.value.content <= Normalize(log)[lo..hi]
            && r.value.bytesReturned <= request.Limit()
            && (r.value.bytesReturned < |Encode(Normalize(log)[lo..hi])| ==>
                  r.value.bytesReturned >= request.Limit() - 3)
            && r.value.fingerprinted == Encode(Normalize(log)) && r.value.totalBytes == |Encode(Normalize(log))|
  {
    SelectionFound(Normalize(log), NormalizedMarker(request.startMarker),
                   NormalizedMarker(request.endMarker), lo, hi);
    FitPrefixIsLongest(Normalize(log)[lo..hi], request.Limit(), other);
  }

  lemma StartMissing(text: string, marker: string)
    ensures FromStart(text, Some(marker)).None? <==> Absent(text, marker, 0)
  {
    FindMeaning(text, marker, 0);
  }

  lemma EndMissing(text: string, start: Option<string>, marker: string, lo: nat)
    requires IsSelection(text, start, None, lo, |text|)
    ensures FromStart(text, start) == Some(text[lo..])
    ensures ThroughEnd(text[lo..], Some(marker)).None? <==> Absent(text, marker, lo)
  {
    SelectionFound(text, start, None, lo, |text|);
    assert text == text[..lo] + text[lo..];
    FindInRest(text[..lo], text[lo..], marker, 0);
    FindMeaning(text, marker, lo);
  }

  /** The two failures are told apart: a start marker that occurs nowhere... */
  lemma StartFailureMeaning(request: Request, log: string)
    requires request.Valid() && request.tailBytes.None?
    ensures Select(request, log) == Err(StartNotFound) <==>
            request.startMarker.Some? && Absent(Normalize(log), Normalize(request.startMarker.value), 0)
  {
    SelectOutcome(request, log);
    if request.startMarker.Some? {
      StartMissing(Normalize(log), Normalize(request.startMarker.value));
    }
  }

  /** ...or an end marker that occurs nowhere at or after the first start, here at `lo`. */
  lemma EndFailureMeaning(request: Request, log: string, lo: nat)
    requires request.Valid() && request.tailBytes.None?
    requires IsSelection(Normalize(log), NormalizedMarker(request.startMarker), None, lo, |Normalize(log)|)
    ensures Select(request, log) == Err(EndNotFound) <==>
            request.endMarker.Some? && Absent(Normalize(log), Normalize(request.endMarker.value), lo)
  {
    SelectOutcome(request, log);
    var start := NormalizedMarker(request.startMarker);
    SelectionFound(Normalize(log), start, None, lo, |Normalize(log)|);
    if request.endMarker.Some? {
      EndMissing(Normalize(log), start, Normalize(request.endMarker.value), lo);
    }
  }

  /** Tail mode never fails and returns the longest suffix of whole code points within its limit. */
  lemma TailModeMeaning(request: Request, log: string, k: nat)
    requires request.Valid() && request.tailBytes.Some?
    requires k <= |Normalize(log)| && |Encode(Normalize(log)[k..])| <= request.TailLimit()
    ensures var text := Normalize(log);
            var r := Select(request, log);
            && r.Ok? && |r.value.content| <= |text|
            && r.value.content == text[|text| - |r.value.content|..]
            && |r.value.content| >= |text| - k
            && r.value.bytesReturned <= request.TailLimit()
            && (|Encode(text)| >= request.TailLimit() ==> r.value.bytesReturned >= request.TailLimit() - 3)
  {
    FitSuffixIsLongest(Normalize(log), request.TailLimit(), k);
  }

  // ----- Requests, limits and notes -----

  /** Which requests are refused, before any log is read. */
  lemma InvalidRequests(request: Request, log: string)
    ensures Select(request, log) == Err(InvalidRequest) <==>
            || request.hardMaxBytes <= 0
            || (request.requestedMaxBytes.Some? && request.requestedMaxBytes.value <= 0)
            || (request.tailBytes.Some? && request.tailBytes.value <= 0)
            || (request.tailBytes.Some? && (request.startMarker.Some? || request.endMarker.Some?))
            || request.startMarker == Some("") || request.endMarker == Some("")
  {
  }

  /** The limits are the smallest of the bounds that apply. */
  lemma LimitsAreTight(request: Request, n: int)
    ensures n <= request.Limit() <==>
            n <= request.hardMaxBytes && (request.requestedMaxBytes.Some? ==> n <= request.requestedMaxBytes.value)
    ensures n <= request.TailLimit() <==>
            n <= request.Limit() && (request.tailBytes.Some? ==> n <= request.tailBytes.value)
  {
  }

  lemma SelectionNotes(request: Request, returned: nat, total: nat, note: TextWarning)
    ensures note in Notes(request, returned, total) <==>
            match note {
              case TailLimited => request.tailBytes.Some? && request.tailBytes.value > request.Limit()
              case SuffixSelected => request.tailBytes.Some? && returned < total
              case StartApplied => request.tailBytes.None? && request.startMarker.Some?
              case EndApplied => request.tailBytes.None? && request.endMarker.Some?
              case _ => false
            }
  {
  }

  /** Each kind of note is given exactly when it applies. */
  lemma NotesAreExact(request: Request, log: string, note: TextWarning)
    requires Select(request, log).Ok?
    ensures var e := Select(request, log).value;
            note in e.warnings <==>
            match note {
              case Capped => request.requestedMaxBytes.Some? && request.requestedMaxBytes.value > request.hardMaxBytes
              case TailLimited =>
                request.tailBytes.Some? && request.tailBytes.value > request.Limit()
              case SuffixSelected => request.tailBytes.Some? && e.bytesReturned < e.totalBytes
              case StartApplied => request.startMarker.Some?
              case EndApplied => request.endMarker.Some?
              case Incomplete => e.bytesReturned < e.totalBytes
            }
  {
    var e := Select(request, log).value;
    SelectionNotes(request, e.bytesReturned, e.totalBytes, note);
  }
}
