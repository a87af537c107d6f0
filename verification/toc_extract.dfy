/** Table-of-contents engine, part 2: `extract_headings`. The Markdown
    parser is not part of this model; its output is the input here, a
    sequence of events, each with the range of document positions it came
    from. */
module TocExtract {
  import opened Wrappers
  import opened Strings
  import opened Toc

  /** The parser events the extractor reacts to; everything else is `Other`. */
  datatype EventKind =
    | HeadingStart(level: HeadingLevel)
    | HeadingEnd
    | LinkStart
    | LinkEnd
    | Text(text: string)
    | Code(code: string)
    | Other

  /** An event and its `[start, end)` range in the document. */
  datatype Event = Event(kind: EventKind, start: nat, end: nat)

  /** The parser never reports a start past the end of the document. */
  predicate InDocument(doc: string, events: seq<Event>)
  {
    forall i :: 0 <= i < |events| ==> events[i].start <= |doc|
  }

  /** An open link: where it starts and the text of its leaves so far. */
  datatype LinkState = LinkState(start: nat, textContent: string)

  /** An open heading. */
  datatype HeadingState = HeadingState(
    level: HeadingLevel,
    start: nat,
    lineNumber: nat,
    emptyLinkRanges: seq<Span>,
    currentLink: Option<LinkState>)

  /** All the extractor's mutable state between two events. */
  datatype Scan = Scan(
    headings: seq<Heading>,
    currentHeading: Option<HeadingState>,
    currentLine: nat,
    lastPos: nat)

  const Initial: Scan := Scan([], None, 1, 0)

  /** Closing a heading: take its source slice, cut out the empty links,
      clean the text, and keep the heading only if something other than
      whitespace and `#` is left. */
  function FinishHeading(doc: string, h: HeadingState, end: nat): (r: Option<Heading>)
    ensures r.Some? ==> r.value.text != [] && Trimmed(r.value.text) && HasContent(r.value.text)
    ensures r.Some? ==> r.value.lineNumber == h.lineNumber && r.value.level == LevelNumber(h.level)
    ensures r.None? <==>
      !HasContent(CleanText(Excise(SliceOrEmpty(doc, h.start, end), h.start, h.emptyLinkRanges)))
  {
    var full := SliceOrEmpty(doc, h.start, end);
    var text := CleanText(Excise(full, h.start, h.emptyLinkRanges));
    if text != [] && HasContent(text) then Some(Heading(LevelNumber(h.level), h.lineNumber, text))
    else None
  }

  /** Leaf text is collected only while a link inside a heading is open. */
  function AppendLinkText(s: Scan, t: string): Scan
  {
    match s.currentHeading
    case Some(h) =>
      (match h.currentLink
       case Some(link) =>
         s.(currentHeading := Some(h.(currentLink := Some(link.(textContent := link.textContent + t)))))
       case None => s)
    case None => s
  }

  /** The first half of each iteration: count the newlines between the
      cursor and the event's start, then move the cursor to the larger of
      the two positions. */
  function Advance(doc: string, s: Scan, start: nat): Scan
    requires start <= |doc|
  {
    var line := if start > s.lastPos
      then s.currentLine + Count(doc[s.lastPos..start], '\n')
      else s.currentLine;
    s.(currentLine := line, lastPos := if s.lastPos >= start then s.lastPos else start)
  }

  /** The second half: the reaction to the event itself. */
  function Handle(doc: string, s: Scan, e: Event): Scan
  {
    match e.kind
    case HeadingStart(level) =>
      s.(currentHeading := Some(HeadingState(level, e.start, s.currentLine, [], None)))
    case LinkStart =>
      (match s.currentHeading
       case Some(h) => s.(currentHeading := Some(h.(currentLink := Some(LinkState(e.start, "")))))
       case None => s)
    case Text(text) => AppendLinkText(s, text)
    case Code(code) => AppendLinkText(s, code)
    case LinkEnd =>
      (match s.currentHeading
       case Some(h) =>
         (match h.currentLink
          case Some(link) =>
            var ranges := if IsEmptyOrInvisible(link.textContent)
              then h.emptyLinkRanges + [Span(link.start, e.end)]
              else h.emptyLinkRanges;
            s.(currentHeading := Some(h.(currentLink := None, emptyLinkRanges := ranges)))
          case None => s)
       case None => s)
    case HeadingEnd =>
      (match s.currentHeading
       case Some(h) =>
         var out := FinishHeading(doc, h, e.end);
         s.(currentHeading := None,
            headings := if out.Some? then s.headings + [out.value] else s.headings)
       case None => s)
    case Other => s
  }

  /** One iteration of the event loop of `extract_headings`. */
  function Step(doc: string, s: Scan, e: Event): Scan
    requires e.start <= |doc|
  {
    Handle(doc, Advance(doc, s, e.start), e)
  }

  lemma InDocumentPrefix(doc: string, events: seq<Event>, k: nat)
    requires InDocument(doc, events) && k <= |events|
    ensures InDocument(doc, events[..k])
  {
    var init := events[..k];
    forall i | 0 <= i < k ensures init[i].start <= |doc| {
      assert init[i] == events[i];
    }
  }

  /** The state after the whole event sequence, folding `Step` from the left. */
  function Run(doc: string, events: seq<Event>): Scan
    requires InDocument(doc, events)
  {
    if events == [] then Initial
    else
      InDocumentPrefix(doc, events, |events| - 1);
      Step(doc, Run(doc, events[..|events| - 1]), events[|events| - 1])
  }

  /** Lines 129-212 of the source: closing the open heading. */
  method CloseHeading(markdown: string, heading: HeadingState, end: nat) returns (out: Option<Heading>)
    ensures out == FinishHeading(markdown, heading, end)
  {
    var fullText := SliceOrEmpty(markdown, heading.start, end);
    var text := ExciseEmptyLinks(fullText, heading.start, heading.emptyLinkRanges);
    var stripped := StripSetext(text);
    var collapsed := CollapseSpaces(stripped);
    var finalText := Trim(collapsed);
    if finalText != [] && HasContent(finalText) {
      out := Some(Heading(LevelNumber(heading.level), heading.lineNumber, finalText));
    } else {
      out := None;
    }
  }

  /** `extract_headings` over the parser's event sequence. */
  method ExtractHeadings(markdown: string, events: seq<Event>) returns (headings: seq<Heading>)
    requires InDocument(markdown, events)
    ensures headings == Run(markdown, events).headings
    ensures forall k :: 0 <= k < |headings| ==> ValidHeading(headings[k])
    ensures LinesSorted(headings)
  {
    headings := [];
    var currentHeading: Option<HeadingState> := None;
    var currentLine: nat := 1;
    var lastPos: nat := 0;
    for i := 0 to |events|
      invariant InDocument(markdown, events[..i])
      invariant Scan(headings, currentHeading, currentLine, lastPos) == Run(markdown, events[..i])
    {
      assert events[..i + 1][..i] == events[..i];
      InDocumentPrefix(markdown, events, i + 1);
      var event := events[i];
      ghost var before := Run(markdown, events[..i]);
      assert Run(markdown, events[..i + 1]) == Step(markdown, before, event);
      if event.start > lastPos {
        currentLine := currentLine + Count(markdown[lastPos..event.start], '\n');
      }
      lastPos := if lastPos >= event.start then lastPos else event.start;
      ghost var advanced := Advance(markdown, before, event.start);
      assert Scan(headings, currentHeading, currentLine, lastPos) == advanced;
      match event.kind {
        case HeadingStart(level) =>
          currentHeading := Some(HeadingState(level, event.start, currentLine, [], None));
        case LinkStart =>
          if currentHeading.Some? {
            currentHeading := Some(currentHeading.value.(currentLink := Some(LinkState(event.start, ""))));
          }
        case Text(text) =>
          if currentHeading.Some? && currentHeading.value.currentLink.Some? {
            var link := currentHeading.value.currentLink.value;
            currentHeading := Some(currentHeading.value.(
              currentLink := Some(link.(textContent := link.textContent + text))));
          }
        case Code(text) =>
          if currentHeading.Some? && currentHeading.value.currentLink.Some? {
            var link := currentHeading.value.currentLink.value;
            currentHeading := Some(currentHeading.value.(
              currentLink := Some(link.(textContent := link.textContent + text))));
          }
        case LinkEnd =>
          if currentHeading.Some? && currentHeading.value.currentLink.Some? {
            var heading := currentHeading.value;
            var link := heading.currentLink.value;
            var ranges := heading.emptyLinkRanges;
            if IsEmptyOrInvisible(link.textContent) {
              ranges := ranges + [Span(link.start, event.end)];
            }
            currentHeading := Some(heading.(currentLink := None, emptyLinkRanges := ranges));
          }
        case HeadingEnd =>
          if currentHeading.Some? {
            var heading := currentHeading.value;
            currentHeading := None;
            var out := CloseHeading(markdown, heading, event.end);
            if out.Some? {
              headings := headings + [out.value];
            }
          }
        case Other =>
      }
      assert Scan(headings, currentHeading, currentLine, lastPos) == Handle(markdown, advanced, event);
    }
    assert events[..|events|] == events;
    RunInvariant(markdown, events);
  }

  /** Line numbers never go down along the list. */
  predicate LinesSorted(hs: seq<Heading>)
  {
    forall j, k :: 0 <= j < k < |hs| ==> hs[j].lineNumber <= hs[k].lineNumber
  }

  /** The largest start seen, or 0 before any event. */
  function MaxStart(events: seq<Event>): (m: nat)
    ensures forall i :: 0 <= i < |events| ==> events[i].start <= m
    ensures events == [] ==> m == 0
    ensures events != [] ==> exists i :: 0 <= i < |events| && events[i].start == m
  {
    if events == [] then 0
    else
      var m := MaxStart(events[..|events| - 1]);
      var e := events[|events| - 1];
      if m >= e.start then m else e.start
  }

  /** What holds of the scan state between any two events. */
  ghost predicate ScanInvariant(doc: string, s: Scan)
  {
    && s.lastPos <= |doc|
    && s.currentLine == 1 + Count(doc[..s.lastPos], '\n')
    && (forall k :: 0 <= k < |s.headings| ==> ValidHeading(s.headings[k]))
    && (forall k :: 0 <= k < |s.headings| ==> s.headings[k].lineNumber <= s.currentLine)
    && LinesSorted(s.headings)
    && (s.currentHeading.Some? ==> OpenHeadingAfter(s.headings, s.currentHeading.value, s.currentLine))
  }

  /** The open heading started on a line no earlier than any emitted heading. */
  predicate OpenHeadingAfter(hs: seq<Heading>, h: HeadingState, currentLine: nat)
  {
    && 1 <= h.lineNumber <= currentLine
    && forall k :: 0 <= k < |hs| ==> hs[k].lineNumber <= h.lineNumber
  }

  lemma AppendPreservesInvariant(doc: string, s: Scan, h: HeadingState, out: Heading)
    requires ScanInvariant(doc, s) && s.currentHeading == Some(h)
    requires out.lineNumber == h.lineNumber && 1 <= out.level <= 6
    requires out.text != [] && Trimmed(out.text) && HasContent(out.text)
    ensures ScanInvariant(doc, s.(currentHeading := None, headings := s.headings + [out]))
  {
    var hs := s.headings + [out];
    assert forall k :: 0 <= k < |s.headings| ==> hs[k] == s.headings[k];
    assert hs[|s.headings|] == out;
  }

  lemma HeadingEndPreservesInvariant(doc: string, s: Scan, e: Event)
    requires ScanInvariant(doc, s) && e.kind == HeadingEnd
    ensures ScanInvariant(doc, Handle(doc, s, e))
  {
    if s.currentHeading.Some? {
      var h := s.currentHeading.value;
      var out := FinishHeading(doc, h, e.end);
      if out.Some? {
        AppendPreservesInvariant(doc, s, h, out.value);
      }
    }
  }

  lemma AdvancePreservesInvariant(doc: string, s: Scan, start: nat)
    requires start <= |doc| && ScanInvariant(doc, s)
    ensures ScanInvariant(doc, Advance(doc, s, start))
    ensures Advance(doc, s, start).lastPos == if s.lastPos >= start then s.lastPos else start
  {
    if start > s.lastPos {
      CountSplit(doc, s.lastPos, start, '\n');
    }
  }

  lemma HandlePreservesInvariant(doc: string, s: Scan, e: Event)
    requires ScanInvariant(doc, s)
    ensures ScanInvariant(doc, Handle(doc, s, e))
    ensures Handle(doc, s, e).lastPos == s.lastPos
  {
    match e.kind
    case HeadingEnd => HeadingEndPreservesInvariant(doc, s, e);
    case _ =>
  }

  lemma StepPreservesInvariant(doc: string, s: Scan, e: Event)
    requires e.start <= |doc| && ScanInvariant(doc, s)
    ensures ScanInvariant(doc, Step(doc, s, e))
    ensures Step(doc, s, e).lastPos == if s.lastPos >= e.start then s.lastPos else e.start
  {
    AdvancePreservesInvariant(doc, s, e.start);
    HandlePreservesInvariant(doc, Advance(doc, s, e.start), e);
  }

  /** After any prefix of the events: the line counter is one more than the
      number of newlines before `lastPos`, `lastPos` is the largest start
      seen so far, and the headings emitted are valid and in line order. */
  lemma {:induction false} RunInvariant(doc: string, events: seq<Event>)
    requires InDocument(doc, events)
    ensures ScanInvariant(doc, Run(doc, events))
    ensures Run(doc, events).lastPos == MaxStart(events)
  {
    if events != [] {
      var init := events[..|events| - 1];
      InDocumentPrefix(doc, events, |events| - 1);
      RunInvariant(doc, init);
      StepPreservesInvariant(doc, Run(doc, init), events[|events| - 1]);
    }
  }

  /** The cursor never moves backwards: a longer prefix of the events has a
      `lastPos` at least as large. */
  lemma LastPosMonotone(doc: string, events: seq<Event>, k: nat)
    requires InDocument(doc, events) && k <= |events|
    ensures InDocument(doc, events[..k])
    ensures Run(doc, events[..k]).lastPos <= Run(doc, events).lastPos
  {
    InDocumentPrefix(doc, events, k);
    RunInvariant(doc, events[..k]);
    RunInvariant(doc, events);
    if k > 0 {
      var i :| 0 <= i < k && events[..k][i].start == MaxStart(events[..k]);
      assert events[i] == events[..k][i];
    }
  }
}
