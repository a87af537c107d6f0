/** Table-of-contents engine, part 1: configuration, the `Heading` record and
    the text normalisation a heading goes through once its source slice is
    known — cutting out empty anchor links, dropping a setext underline,
    collapsing runs of spaces and the final content filter. */
module Toc {
  import opened Wrappers
  import opened Strings

  const DefaultTocBudget: nat := 4000
  const DefaultTocThreshold: nat := 8000

  /** `toc_budget` bounds the byte length of the rendered outline;
      documents whose size is below `full_content_threshold` get none. */
  datatype TocConfig = TocConfig(tocBudget: nat, fullContentThreshold: nat)

  const DefaultConfig: TocConfig := TocConfig(DefaultTocBudget, DefaultTocThreshold)

  /** One outline entry: heading depth (1 for H1 … 6 for H6), the 1-based
      line where the heading starts, and its text with inline markup kept. */
  datatype Heading = Heading(level: nat, lineNumber: nat, text: string)

  /** The parser's heading depth. */
  datatype HeadingLevel = H1 | H2 | H3 | H4 | H5 | H6

  function LevelNumber(level: HeadingLevel): (n: nat)
    ensures 1 <= n <= 6
  {
    match level
    case H1 => 1
    case H2 => 2
    case H3 => 3
    case H4 => 4
    case H5 => 5
    case H6 => 6
  }

  /** Characters that make a link's text count as invisible: whitespace,
      zero-width space, zero-width no-break space, zero-width non-joiner,
      zero-width joiner and the pilcrow used as a permalink glyph. */
  predicate IsInvisible(c: char)
  {
    IsWhitespace(c) || c == '\U{200B}' || c == '\U{FEFF}' || c == '\U{200C}'
    || c == '\U{200D}' || c == '\U{B6}'
  }

  /** `is_empty_or_invisible`: every character of `s` is invisible, which
      holds in particular for the empty string. */
  function IsEmptyOrInvisible(s: string): (r: bool)
    ensures r <==> forall i :: 0 <= i < |s| ==> IsInvisible(s[i])
  {
    s == [] || (IsInvisible(s[0]) && IsEmptyOrInvisible(s[1..]))
  }

  // ---------------------------------------------------------------------
  // Cutting empty-link spans out of a heading's source slice
  // ---------------------------------------------------------------------

  /** A half-open range of document positions. */
  datatype Span = Span(start: nat, end: nat)

  /** `usize::saturating_sub`. */
  function SatSub(a: nat, b: nat): nat
  {
    if a >= b then a - b else 0
  }

  /** The state of the excision loop: the text kept so far and the relative
      offset just past the last span removed. */
  datatype Cut = Cut(text: string, lastEnd: nat)

  /** One iteration of the excision loop for a span recorded in absolute
      offsets, `base` being the heading's start. A span that is inverted
      after conversion or reaches past the slice is skipped. */
  function CutStep(full: string, base: nat, c: Cut, span: Span): (r: Cut)
    requires c.lastEnd <= |full|
    ensures r.lastEnd <= |full|
  {
    var rs := SatSub(span.start, base);
    var re := SatSub(span.end, base);
    if rs >= re || re > |full| then c
    else Cut(if c.lastEnd < rs then c.text + full[c.lastEnd..rs] else c.text, re)
  }

  function CutAll(full: string, base: nat, spans: seq<Span>): (r: Cut)
    ensures r.lastEnd <= |full|
  {
    if spans == [] then Cut("", 0)
    else CutStep(full, base, CutAll(full, base, spans[..|spans| - 1]), spans[|spans| - 1])
  }

  /** The heading slice with the recorded spans cut out, as the loop of
      `extract_headings` computes it. */
  function Excise(full: string, base: nat, spans: seq<Span>): string
  {
    var c := CutAll(full, base, spans);
    if c.lastEnd < |full| then c.text + full[c.lastEnd..] else c.text
  }

  /** The excision loop: converts each span to offsets relative to the
      slice, skips malformed ones, and keeps the text between them. */
  method ExciseEmptyLinks(fullText: string, headingStart: nat, emptyLinkRanges: seq<Span>)
    returns (text: string)
    ensures text == Excise(fullText, headingStart, emptyLinkRanges)
  {
    text := "";
    var lastEnd: nat := 0;
    for i := 0 to |emptyLinkRanges|
      invariant Cut(text, lastEnd) == CutAll(fullText, headingStart, emptyLinkRanges[..i])
    {
      assert emptyLinkRanges[..i + 1][..i] == emptyLinkRanges[..i];
      var range := emptyLinkRanges[i];
      var relativeStart := SatSub(range.start, headingStart);
      var relativeEnd := SatSub(range.end, headingStart);
      if relativeStart >= relativeEnd || relativeEnd > |fullText| {
        continue;
      }
      if lastEnd < relativeStart {
        text := text + fullText[lastEnd..relativeStart];
      }
      lastEnd := relativeEnd;
    }
    assert emptyLinkRanges[..|emptyLinkRanges|] == emptyLinkRanges;
    if lastEnd < |fullText| {
      text := text + fullText[lastEnd..];
    }
  }

  /** Spans as a real parser reports them for one heading: each non-empty
      and inside the heading's slice `[base, base + n)`, in order and
      pairwise disjoint. */
  predicate OrderedSpans(spans: seq<Span>, base: nat, n: nat)
  {
    && (forall j :: 0 <= j < |spans| ==> base <= spans[j].start < spans[j].end <= base + n)
    && (forall j, k :: 0 <= j < k < |spans| ==> spans[j].end <= spans[k].start)
  }

  /** Where the cut state stands after the first `i` ordered spans: the
      relative end of span `i - 1`, or the slice start. */
  function PrevEnd(spans: seq<Span>, base: nat, i: nat): int
    requires i <= |spans|
  {
    if i == 0 then 0 else spans[i - 1].end - base
  }

  /** Relative position `p` of the slice lies inside one of the spans. */
  ghost predicate Covered(spans: seq<Span>, base: nat, p: nat)
  {
    exists j :: 0 <= j < |spans| && spans[j].start <= base + p < spans[j].end
  }

  /** Reference definition of removal: the characters of `full[..hi]` that
      no span covers, in their original order. */
  ghost function Uncovered(full: string, base: nat, spans: seq<Span>, hi: nat): string
    requires hi <= |full|
  {
    if hi == 0 then ""
    else (Uncovered(full, base, spans, hi - 1)
          + (if Covered(spans, base, hi - 1) then "" else [full[hi - 1]]))
  }

  lemma {:induction false} UncoveredGap(full: string, base: nat, spans: seq<Span>, lo: nat, hi: nat)
    requires lo <= hi <= |full|
    requires forall p :: lo <= p < hi ==> !Covered(spans, base, p)
    ensures Uncovered(full, base, spans, hi) == Uncovered(full, base, spans, lo) + full[lo..hi]
    decreases hi
  {
    if lo < hi {
      UncoveredGap(full, base, spans, lo, hi - 1);
      assert full[lo..hi] == full[lo..hi - 1] + [full[hi - 1]];
    }
  }

  lemma {:induction false} UncoveredSkip(full: string, base: nat, spans: seq<Span>, lo: nat, hi: nat)
    requires lo <= hi <= |full|
    requires forall p :: lo <= p < hi ==> Covered(spans, base, p)
    ensures Uncovered(full, base, spans, hi) == Uncovered(full, base, spans, lo)
    decreases hi
  {
    if lo < hi {
      UncoveredSkip(full, base, spans, lo, hi - 1);
    }
  }

  /** A position after span `k - 1` and before span `k` is covered by no
      span of an ordered list. */
  lemma NotCoveredBetween(spans: seq<Span>, base: nat, n: nat, k: nat, p: nat)
    requires OrderedSpans(spans, base, n) && k <= |spans|
    requires k == 0 || spans[k - 1].end <= base + p
    requires k == |spans| || base + p < spans[k].start
    ensures !Covered(spans, base, p)
  {
    forall j | 0 <= j < |spans|
      ensures !(spans[j].start <= base + p < spans[j].end)
    {
      if j < k - 1 {
        assert spans[j].end <= spans[k - 1].start;
      } else if k < j {
        assert spans[k].end <= spans[j].start;
      }
    }
  }

  /** One loop step over an in-bounds span whose preceding gap no span
      covers: the gap is kept and the span's own characters are dropped. */
  lemma CutStepGap(full: string, base: nat, spans: seq<Span>, lo: nat, i: nat)
    requires i < |spans| && base <= spans[i].start < spans[i].end <= base + |full|
    requires lo <= spans[i].start - base
    requires forall p :: lo <= p < spans[i].start - base ==> !Covered(spans, base, p)
    ensures CutStep(full, base, Cut(Uncovered(full, base, spans, lo), lo), spans[i])
         == Cut(Uncovered(full, base, spans, spans[i].end - base), spans[i].end - base)
  {
    var rs := spans[i].start - base;
    var re := spans[i].end - base;
    UncoveredGap(full, base, spans, lo, rs);
    forall p | rs <= p < re
      ensures Covered(spans, base, p)
    {
      assert spans[i].start <= base + p < spans[i].end;
    }
    UncoveredSkip(full, base, spans, rs, re);
  }

  /** In an ordered list, nothing covers the gap between span `i - 1` (or
      the slice start) and span `i`. */
  lemma GapBeforeSpan(spans: seq<Span>, base: nat, n: nat, i: nat)
    requires OrderedSpans(spans, base, n) && i < |spans|
    ensures var lo := PrevEnd(spans, base, i);
      && 0 <= lo <= spans[i].start - base
      && forall p :: lo <= p < spans[i].start - base ==> !Covered(spans, base, p)
  {
    var lo := PrevEnd(spans, base, i);
    assert i > 0 ==> spans[i - 1].end <= spans[i].start;
    forall p | lo <= p < spans[i].start - base
      ensures !Covered(spans, base, p)
    {
      NotCoveredBetween(spans, base, n, i, p);
    }
  }

  lemma CutAllSnoc(full: string, base: nat, spans: seq<Span>, k: nat)
    requires 0 < k <= |spans|
    ensures CutAll(full, base, spans[..k])
         == CutStep(full, base, CutAll(full, base, spans[..k - 1]), spans[k - 1])
  {
    assert spans[..k][..k - 1] == spans[..k - 1];
  }

  /** The loop step for span `i` of an ordered list, starting from the
      state that ends at span `i - 1`. */
  lemma OrderedStep(full: string, base: nat, spans: seq<Span>, i: nat)
    requires OrderedSpans(spans, base, |full|) && i < |spans|
    ensures var lo := PrevEnd(spans, base, i);
      var hi := PrevEnd(spans, base, i + 1);
      0 <= lo <= hi <= |full| &&
      CutStep(full, base, Cut(Uncovered(full, base, spans, lo), lo), spans[i])
        == Cut(Uncovered(full, base, spans, hi), hi)
  {
    var lo := PrevEnd(spans, base, i);
    GapBeforeSpan(spans, base, |full|, i);
    CutStepGap(full, base, spans, lo, i);
  }

  /** After `k` ordered spans the loop has kept exactly the uncovered text
      up to the end of span `k - 1`. */
  lemma {:induction false} CutAllOrdered(full: string, base: nat, spans: seq<Span>, k: nat)
    requires OrderedSpans(spans, base, |full|) && k <= |spans|
    ensures var last := PrevEnd(spans, base, k);
      0 <= last <= |full| &&
      CutAll(full, base, spans[..k]) == Cut(Uncovered(full, base, spans, last), last)
  {
    if k > 0 {
      CutAllOrdered(full, base, spans, k - 1);
      CutAllSnoc(full, base, spans, k);
      OrderedStep(full, base, spans, k - 1);
    }
  }

  /** For spans as a parser reports them, excision removes exactly the
      characters the spans cover and keeps every other character of the
      slice, in order. */
  lemma ExciseRemovesSpans(full: string, base: nat, spans: seq<Span>)
    requires OrderedSpans(spans, base, |full|)
    ensures Excise(full, base, spans) == Uncovered(full, base, spans, |full|)
  {
    var n := |spans|;
    CutAllOrdered(full, base, spans, n);
    assert spans[..n] == spans;
    var last := PrevEnd(spans, base, n);
    forall p | last <= p < |full|
      ensures !Covered(spans, base, p)
    {
      NotCoveredBetween(spans, base, |full|, n, p);
    }
    UncoveredGap(full, base, spans, last, |full|);
  }

  /** The span passes the skip test of the excision loop: after conversion
      to relative offsets it is non-empty and ends inside the slice. */
  predicate WellFormedSpan(full: string, base: nat, span: Span)
  {
    SatSub(span.start, base) < SatSub(span.end, base) <= |full|
  }

  /** The spans that pass the skip test, in their original order. */
  function WellFormedOnly(full: string, base: nat, spans: seq<Span>): (r: seq<Span>)
    ensures |r| <= |spans|
    ensures forall j :: 0 <= j < |r| ==> WellFormedSpan(full, base, r[j])
  {
    if spans == [] then []
    else
      var last := spans[|spans| - 1];
      WellFormedOnly(full, base, spans[..|spans| - 1])
        + (if WellFormedSpan(full, base, last) then [last] else [])
  }

  /** Malformed spans are ignored wherever they occur in the list: the loop
      keeps the same text as for the well-formed spans alone. */
  lemma {:induction false} CutAllIgnoresMalformed(full: string, base: nat, spans: seq<Span>)
    ensures CutAll(full, base, spans) == CutAll(full, base, WellFormedOnly(full, base, spans))
  {
    if spans != [] {
      var init := spans[..|spans| - 1];
      var last := spans[|spans| - 1];
      var wf := WellFormedOnly(full, base, init);
      CutAllIgnoresMalformed(full, base, init);
      if WellFormedSpan(full, base, last) {
        assert (wf + [last])[..|wf + [last]| - 1] == wf;
      } else {
        assert wf + [] == wf;
      }
    }
  }

  /** Excision ignores malformed spans wherever they occur. */
  lemma ExciseIgnoresMalformed(full: string, base: nat, spans: seq<Span>)
    ensures Excise(full, base, spans) == Excise(full, base, WellFormedOnly(full, base, spans))
  {
    CutAllIgnoresMalformed(full, base, spans);
  }

  /** When the spans that pass the skip test are ordered and disjoint,
      excision removes exactly the characters they cover, whatever malformed
      spans are mixed in. */
  lemma ExciseRemovesWellFormedSpans(full: string, base: nat, spans: seq<Span>)
    requires OrderedSpans(WellFormedOnly(full, base, spans), base, |full|)
    ensures Excise(full, base, spans)
         == Uncovered(full, base, WellFormedOnly(full, base, spans), |full|)
  {
    ExciseIgnoresMalformed(full, base, spans);
    ExciseRemovesSpans(full, base, WellFormedOnly(full, base, spans));
  }

  // ---------------------------------------------------------------------
  // Setext underline
  // ---------------------------------------------------------------------

  /** A line made only of `=` and `-`. */
  predicate IsUnderline(s: string)
  {
    forall i :: 0 <= i < |s| ==> s[i] == '=' || s[i] == '-'
  }

  /** `p` is the position of the last newline of `text`, and what follows
      it is, once trimmed, a non-empty setext underline. */
  predicate UnderlineAt(text: string, p: nat)
  {
    LastNewlineAt(text, p) && IsUnderlineLine(text[p + 1..])
  }

  /** `p` is the position of the last newline of `text`. */
  predicate LastNewlineAt(text: string, p: nat)
  {
    p < |text| && text[p] == '\n' && forall i :: p < i < |text| ==> text[i] != '\n'
  }

  /** Trimmed, the line is a non-empty run of `=` and `-`. */
  predicate IsUnderlineLine(line: string)
  {
    Trim(line) != [] && IsUnderline(Trim(line))
  }

  /** Trims `t`; when the part after its last newline is a setext underline
      that line and its newline are dropped, otherwise the trimmed text is
      returned unchanged. */
  function StripSetext(t: string): string
  {
    DropUnderline(Trim(t))
  }

  /** The underline test on already trimmed text: only the segment after
      the last newline is examined. */
  function DropUnderline(text: string): string
  {
    match LastIndexOf(text, '\n')
    case None => text
    case Some(p) =>
      var after := Trim(text[p + 1..]);
      if after != [] && IsUnderline(after) then text[..p] else text
  }

  /** `rfind('\n')` finds the one position satisfying `LastNewlineAt`. */
  lemma LastIndexOfNewline(text: string)
    ensures LastIndexOf(text, '\n').None? ==> forall p: nat :: !LastNewlineAt(text, p)
    ensures LastIndexOf(text, '\n').Some? ==>
      var p := LastIndexOf(text, '\n').value;
      LastNewlineAt(text, p) && forall q: nat :: q != p ==> !LastNewlineAt(text, q)
  {
    var r := LastIndexOf(text, '\n');
    forall q: nat | q < |text| && text[q] == '\n' && (r.None? || q < r.value)
      ensures !LastNewlineAt(text, q)
    {
      assert r.Some? && text[r.value] == '\n';
    }
  }

  /** The setext strip removes the last line together with its newline
      exactly when that line is an underline, and otherwise returns the
      trimmed text unchanged. */
  lemma StripSetextSpec(t: string)
    ensures forall p: nat :: UnderlineAt(Trim(t), p) ==> StripSetext(t) == Trim(t)[..p]
    ensures (forall p: nat :: !UnderlineAt(Trim(t), p)) ==> StripSetext(t) == Trim(t)
  {
    DropUnderlineSpec(Trim(t));
  }

  lemma DropUnderlineAt(text: string, p: nat)
    requires LastIndexOf(text, '\n') == Some(p)
    ensures DropUnderline(text) == if IsUnderlineLine(text[p + 1..]) then text[..p] else text
  {
  }

  lemma DropUnderlineSpec(text: string)
    ensures forall p: nat :: UnderlineAt(text, p) ==> DropUnderline(text) == text[..p]
    ensures (forall p: nat :: !UnderlineAt(text, p)) ==> DropUnderline(text) == text
  {
    LastIndexOfNewline(text);
    match LastIndexOf(text, '\n')
    case None =>
    case Some(p) =>
      DropUnderlineAt(text, p);
      assert UnderlineAt(text, p) <==> IsUnderlineLine(text[p + 1..]);
  }

  // ---------------------------------------------------------------------
  // Collapsing runs of spaces
  // ---------------------------------------------------------------------

  /** The collapse loop, one character at a time: a space is dropped when
      the output so far already ends in a space. */
  function Collapse(s: string): string
  {
    if s == [] then ""
    else
      var prev := Collapse(s[..|s| - 1]);
      var c := s[|s| - 1];
      if c == ' ' && prev != [] && prev[|prev| - 1] == ' ' then prev else prev + [c]
  }

  /** The collapse loop of `extract_headings`, driven by `last_was_space`. */
  method CollapseSpaces(text: string) returns (result: string)
    ensures result == Collapse(text)
  {
    result := "";
    var lastWasSpace := false;
    for i := 0 to |text|
      invariant result == Collapse(text[..i])
      invariant lastWasSpace <==> result != [] && result[|result| - 1] == ' '
    {
      assert text[..i + 1][..i] == text[..i];
      var c := text[i];
      if c == ' ' {
        if !lastWasSpace {
          result := result + [c];
          lastWasSpace := true;
        }
      } else {
        result := result + [c];
        lastWasSpace := false;
      }
    }
    assert text[..|text|] == text;
  }

  /** No two adjacent spaces. */
  predicate NoDoubleSpace(s: string)
  {
    forall i :: 0 < i < |s| ==> !(s[i - 1] == ' ' && s[i] == ' ')
  }

  /** The characters of `s` other than the plain space, in order. */
  function NonSpaces(s: string): string
  {
    if s == [] then ""
    else NonSpaces(s[..|s| - 1]) + (if s[|s| - 1] == ' ' then "" else [s[|s| - 1]])
  }

  lemma {:induction false} CollapseNoDoubleSpace(s: string)
    ensures NoDoubleSpace(Collapse(s))
  {
    if s != [] {
      CollapseNoDoubleSpace(s[..|s| - 1]);
    }
  }

  /** Collapsing only ever drops spaces: every other character (tabs and
      newlines included) survives, in order. */
  lemma {:induction false} CollapseKeepsNonSpaces(s: string)
    ensures NonSpaces(Collapse(s)) == NonSpaces(s)
  {
    if s != [] {
      var prev := Collapse(s[..|s| - 1]);
      CollapseKeepsNonSpaces(s[..|s| - 1]);
      var c := s[|s| - 1];
      if !(c == ' ' && prev != [] && prev[|prev| - 1] == ' ') {
        assert (prev + [c])[..|prev + [c]| - 1] == prev;
      }
    }
  }

  /** A string without double spaces is left as it is. */
  lemma {:induction false} CollapseFixesCollapsed(s: string)
    requires NoDoubleSpace(s)
    ensures Collapse(s) == s
  {
    if s != [] {
      var init := s[..|s| - 1];
      assert NoDoubleSpace(init) by {
        forall i | 0 < i < |init| ensures !(init[i - 1] == ' ' && init[i] == ' ') {
          assert init[i - 1] == s[i - 1] && init[i] == s[i];
        }
      }
      CollapseFixesCollapsed(init);
      var c := s[|s| - 1];
      assert !(c == ' ' && init != [] && init[|init| - 1] == ' ') by {
        if init != [] {
          assert init[|init| - 1] == s[|s| - 2];
        }
      }
      assert Collapse(s) == init + [c];
      assert s == init + [c];
    }
  }

  /** Collapsing twice is collapsing once. */
  lemma CollapseIdempotent(s: string)
    ensures Collapse(Collapse(s)) == Collapse(s)
  {
    CollapseNoDoubleSpace(s);
    CollapseFixesCollapsed(Collapse(s));
  }

  // ---------------------------------------------------------------------
  // Final heading text and the content filter
  // ---------------------------------------------------------------------

  /** Some character is neither whitespace nor `#`. */
  predicate HasContent(t: string)
  {
    exists i :: 0 <= i < |t| && !IsWhitespace(t[i]) && t[i] != '#'
  }

  /** `str::get(start..end).unwrap_or("")`: the slice when the range is in
      order and inside `doc`, otherwise the empty string. */
  function SliceOrEmpty(doc: string, start: nat, end: nat): (r: string)
    ensures |r| <= |doc|
    ensures start <= end <= |doc| ==> |r| == end - start && doc == doc[..start] + r + doc[end..]
    ensures !(start <= end <= |doc|) ==> r == ""
  {
    if start <= end <= |doc| then doc[start..end] else ""
  }

  /** The normalisation pipeline applied to the slice with empty links cut
      out: setext strip, space collapse, trim. */
  function CleanText(excised: string): string
  {
    Trim(Collapse(StripSetext(excised)))
  }

  /** What every emitted heading satisfies. */
  predicate ValidHeading(h: Heading)
  {
    && 1 <= h.level <= 6
    && h.lineNumber >= 1
    && h.text != []
    && Trimmed(h.text)
    && HasContent(h.text)
  }

  /** A text with no whitespace at either end is its own trim. */
  lemma TrimKeeps(s: string)
    requires s != [] && !IsWhitespace(s[0]) && !IsWhitespace(s[|s| - 1])
    ensures Trim(s) == s
  {
  }

  /** Joining a head and a newline-free last line by a newline: that
      newline is the last one, and the two pieces are what it separates. */
  lemma JoinAtNewline(head: string, u: string)
    requires '\n' !in u
    ensures var t := head + "\n" + u;
      LastIndexOf(t, '\n') == Some(|head|) && t[..|head|] == head && t[|head| + 1..] == u
  {
    var t := head + "\n" + u;
    assert t[|head|] == '\n';
    assert forall i :: |head| < i < |t| ==> t[i] == u[i - |head| - 1];
    assert t[|head| + 1..] == u;
    assert t[..|head|] == head;
  }

  /** An underline line after the last newline is dropped with it. */
  lemma DropUnderlineLast(head: string, u: string)
    requires '\n' !in u && IsUnderlineLine(u)
    ensures DropUnderline(head + "\n" + u) == head
  {
    JoinAtNewline(head, u);
    DropUnderlineAt(head + "\n" + u, |head|);
  }

  /** A non-empty run of `=` is a one-line underline. */
  lemma EqualsRunUnderline(u: string)
    requires u != [] && forall i :: 0 <= i < |u| ==> u[i] == '='
    ensures '\n' !in u && IsUnderlineLine(u)
  {
    TrimKeeps(u);
  }

  /** The setext strip of `Foo`, `bar`, `===` drops only the underline. */
  lemma StripSetextTwoLines()
    ensures StripSetext("Foo\nbar\n===") == "Foo\nbar"
  {
    var t := "Foo\nbar" + "\n" + "===";
    assert t == "Foo\nbar\n===";
    TrimKeeps(t);
    assert forall i :: 0 <= i < 3 ==> "==="[i] == '=';
    EqualsRunUnderline("===");
    DropUnderlineLast("Foo\nbar", "===");
  }

  /** `Foo`, `bar` has no spaces to collapse and nothing to trim. */
  lemma CleanTwoLines()
    ensures Trim(Collapse("Foo\nbar")) == "Foo\nbar"
  {
    var s := "Foo\nbar";
    assert NoDoubleSpace(s) by {
      assert forall i :: 0 <= i < |s| ==> s[i] != ' ';
    }
    CollapseFixesCollapsed(s);
    TrimKeeps(s);
  }

  /** A heading text can keep a newline: in the two-line setext heading
      `Foo`, `bar`, `===` only the underline is dropped. */
  lemma SetextKeepsInnerNewline()
    ensures CleanText("Foo\nbar\n===") == "Foo\nbar"
  {
    StripSetextTwoLines();
    CleanTwoLines();
  }
}
