/** Table-of-contents engine, part 3: rendering the outline, choosing the
    deepest heading level that fits the byte budget, and the size-gated
    entry point `generate_toc`. */
module TocRender {
  import opened Wrappers
  import opened Strings
  import opened Toc
  import opened TocExtract

  /** The separator between line number and heading text (U+2192). */
  const Arrow: char := '\U{2192}'

  // ---------------------------------------------------------------------
  // Rendering
  // ---------------------------------------------------------------------

  /** The headings at or above `maxLevel`, in their original order. */
  function Filtered(hs: seq<Heading>, maxLevel: nat): (r: seq<Heading>)
    ensures |r| <= |hs|
    ensures forall k :: 0 <= k < |r| ==> r[k].level <= maxLevel
    ensures r == [] <==> forall k :: 0 <= k < |hs| ==> hs[k].level > maxLevel
    ensures forall k :: 0 <= k < |hs| && hs[k].level <= maxLevel ==> hs[k] in r
  {
    if hs == [] then []
    else
      var last := hs[|hs| - 1];
      assert forall k :: 0 <= k < |hs| - 1 ==> hs[..|hs| - 1][k] == hs[k];
      Filtered(hs[..|hs| - 1], maxLevel) + (if last.level <= maxLevel then [last] else [])
  }

  /** Filtering distributes over concatenation; with the one-heading case
      this fixes the result: each heading is kept or dropped in place, so
      the kept headings appear in their input order. */
  lemma {:induction false} FilteredAppend(a: seq<Heading>, b: seq<Heading>, maxLevel: nat)
    ensures Filtered(a + b, maxLevel) == Filtered(a, maxLevel) + Filtered(b, maxLevel)
    decreases |b|
  {
    if b == [] {
      assert a + b == a;
    } else {
      var b' := b[..|b| - 1];
      var last := b[|b| - 1];
      assert (a + b)[..|a + b| - 1] == a + b';
      assert (a + b)[|a + b| - 1] == last;
      FilteredAppend(a, b', maxLevel);
    }
  }

  /** A single heading is kept exactly when it is at or above the level. */
  lemma FilteredSingle(h: Heading, maxLevel: nat)
    ensures Filtered([h], maxLevel) == if h.level <= maxLevel then [h] else []
  {
    assert [h][..0] == [];
  }

  /** Every heading shown is one of the input headings. */
  lemma {:induction false} FilteredMembers(hs: seq<Heading>, maxLevel: nat)
    ensures forall k :: 0 <= k < |Filtered(hs, maxLevel)| ==> Filtered(hs, maxLevel)[k] in hs
  {
    if hs != [] {
      var init := hs[..|hs| - 1];
      FilteredMembers(init, maxLevel);
      var f := Filtered(init, maxLevel);
      forall k | 0 <= k < |f| ensures f[k] in hs {
        assert f[k] in init;
      }
    }
  }

  /** An upper bound on the line numbers of the input bounds the output. */
  lemma {:induction false} FilteredBounded(hs: seq<Heading>, maxLevel: nat, bound: nat)
    requires forall k :: 0 <= k < |hs| ==> hs[k].lineNumber <= bound
    ensures forall k :: 0 <= k < |Filtered(hs, maxLevel)| ==> Filtered(hs, maxLevel)[k].lineNumber <= bound
  {
    if hs != [] {
      FilteredBounded(hs[..|hs| - 1], maxLevel, bound);
    }
  }

  /** Filtering keeps the order, so sorted line numbers stay sorted. */
  lemma {:induction false} FilteredSorted(hs: seq<Heading>, maxLevel: nat)
    requires LinesSorted(hs)
    ensures LinesSorted(Filtered(hs, maxLevel))
  {
    if hs != [] {
      var init := hs[..|hs| - 1];
      var last := hs[|hs| - 1];
      assert LinesSorted(init);
      FilteredSorted(init, maxLevel);
      FilteredBounded(init, maxLevel, last.lineNumber);
    }
  }

  /** The field width for right-justified line numbers, from the largest
      line number shown: 3, 4 or 5 below 100, 1000 and 10000, beyond that the
      number of decimal digits. The field is never narrower than 3 and never
      narrower than the number it is sized for. */
  function Width(maxLineNum: nat): (w: nat)
    ensures w >= 3 && w >= NumDigits(maxLineNum)
  {
    if maxLineNum < 100 then
      NumDigitsAtMost(maxLineNum, 2);
      3
    else if maxLineNum < 1000 then
      NumDigitsAtMost(maxLineNum, 3);
      4
    else if maxLineNum < 10000 then
      NumDigitsAtMost(maxLineNum, 4);
      5
    else if NumDigits(maxLineNum) >= 3 then NumDigits(maxLineNum)
    else 3
  }

  /** The width in terms of the digit count `d` of the last line number:
      3 up to two digits, `d + 1` for three and four digits, and `d` from
      five digits on. */
  lemma WidthByDigits(n: nat)
    ensures var d := NumDigits(n);
      Width(n) == if d <= 2 then 3 else if d <= 4 then d + 1 else d
  {
    assert Pow10(2) == 100 && Pow10(3) == 1000 && Pow10(4) == 10000;
    if n < 100 {
      NumDigitsAtMost(n, 2);
    } else if n < 1000 {
      NumDigitsAtMost(n, 3);
      NumDigitsAtLeast(n, 2);
    } else if n < 10000 {
      NumDigitsAtMost(n, 4);
      NumDigitsAtLeast(n, 3);
    } else {
      NumDigitsAtLeast(n, 4);
    }
  }

  /** A larger line number never gets a narrower field. */
  lemma WidthMonotone(a: nat, b: nat)
    requires a <= b
    ensures Width(a) <= Width(b)
  {
    if a >= 10000 {
      NumDigitsMonotone(a, b);
    } else if b >= 10000 {
      assert Pow10(4) == 10000;
      NumDigitsAtLeast(b, 4);
    }
  }

  /** One outline line: `{line_number:>width$}→{text}`. */
  function FormatLine(h: Heading, width: nat): string
  {
    PadLeft(NatToString(h.lineNumber), width) + [Arrow] + h.text
  }

  /** The formatted line of each heading, in order. */
  function Lines(fs: seq<Heading>, width: nat): (ls: seq<string>)
    ensures |ls| == |fs|
  {
    if fs == [] then []
    else Lines(fs[..|fs| - 1], width) + [FormatLine(fs[|fs| - 1], width)]
  }

  lemma {:induction false} LinesAt(fs: seq<Heading>, width: nat, k: nat)
    requires k < |fs|
    ensures Lines(fs, width)[k] == FormatLine(fs[k], width)
  {
    var init := fs[..|fs| - 1];
    var prev := Lines(init, width);
    assert Lines(fs, width) == prev + [FormatLine(fs[|fs| - 1], width)];
    if k < |init| {
      LinesAt(init, width, k);
      assert Lines(fs, width)[k] == prev[k];
      assert init[k] == fs[k];
    }
  }

  /** The lines of `fs`, separated by single newlines, no trailing newline. */
  function JoinLines(fs: seq<Heading>, width: nat): string
  {
    if fs == [] then ""
    else if |fs| == 1 then FormatLine(fs[0], width)
    else JoinLines(fs[..|fs| - 1], width) + "\n" + FormatLine(fs[|fs| - 1], width)
  }

  lemma JoinLinesPrefix(fs: seq<Heading>, i: nat, width: nat)
    requires i < |fs|
    ensures JoinLines(fs[..i + 1], width)
         == if i == 0 then FormatLine(fs[i], width) else JoinLines(fs[..i], width) + "\n" + FormatLine(fs[i], width)
  {
    assert fs[..i + 1][..i] == fs[..i];
  }

  /** Joining the lines one by one is joining the list of lines. */
  lemma {:induction false} JoinLinesIsJoin(fs: seq<Heading>, width: nat)
    requires fs != []
    ensures JoinLines(fs, width) == Join(Lines(fs, width), '\n')
  {
    var init := fs[..|fs| - 1];
    var line := FormatLine(fs[|fs| - 1], width);
    assert Lines(fs, width) == Lines(init, width) + [line];
    if |fs| > 1 {
      JoinLinesIsJoin(init, width);
      JoinSnoc(Lines(init, width), line, '\n');
    }
  }

  /** The outline of the headings at or above `maxLevel`: one line each,
      separated by single newlines, no trailing newline; the empty string
      when no heading qualifies. */
  function Render(hs: seq<Heading>, maxLevel: nat): string
  {
    var fs := Filtered(hs, maxLevel);
    if fs == [] then ""
    else JoinLines(fs, Width(fs[|fs| - 1].lineNumber))
  }

  /** `render_toc`, pushing line after line into the result. */
  method RenderToc(headings: seq<Heading>, maxLevel: nat) returns (result: string)
    ensures result == Render(headings, maxLevel)
  {
    var filtered := Filtered(headings, maxLevel);
    if filtered == [] {
      return "";
    }
    var maxLineNum := filtered[|filtered| - 1].lineNumber;
    var width := Width(maxLineNum);
    result := "";
    for i := 0 to |filtered|
      invariant result == JoinLines(filtered[..i], width)
    {
      JoinLinesPrefix(filtered, i, width);
      var line := FormatLine(filtered[i], width);
      if i > 0 {
        result := result + "\n";
      }
      result := result + line;
    }
    assert filtered[..|filtered|] == filtered;
  }

  /** The render is empty exactly when no heading is at or above `maxLevel`. */
  lemma RenderEmpty(hs: seq<Heading>, maxLevel: nat)
    ensures Render(hs, maxLevel) == "" <==> forall k :: 0 <= k < |hs| ==> hs[k].level > maxLevel
  {
    var fs := Filtered(hs, maxLevel);
    if fs != [] {
      var w := Width(fs[|fs| - 1].lineNumber);
      assert |FormatLine(fs[|fs| - 1], w)| > 0;
    }
  }

  lemma LineHasNoNewline(h: Heading, width: nat)
    requires '\n' !in h.text
    ensures '\n' !in FormatLine(h, width)
  {
    var num := NatToString(h.lineNumber);
    var pad := PadLeft(num, width);
    assert '\n' !in num;
    if |num| < width {
      assert '\n' !in Spaces(width - |num|);
    }
    assert '\n' !in pad;
  }

  /** When no heading text spans several lines, splitting the outline on
      newlines gives back exactly one formatted line per shown heading, in
      order. */
  lemma RenderSplitsIntoLines(hs: seq<Heading>, maxLevel: nat)
    requires forall k :: 0 <= k < |hs| ==> '\n' !in hs[k].text
    requires Filtered(hs, maxLevel) != []
    ensures
      var fs := Filtered(hs, maxLevel);
      Split(Render(hs, maxLevel), '\n') == Lines(fs, Width(fs[|fs| - 1].lineNumber))
  {
    var fs := Filtered(hs, maxLevel);
    var w := Width(fs[|fs| - 1].lineNumber);
    var ls := Lines(fs, w);
    FilteredMembers(hs, maxLevel);
    forall k | 0 <= k < |ls| ensures '\n' !in ls[k] {
      assert fs[k] in hs;
      LinesAt(fs, w, k);
      LineHasNoNewline(fs[k], w);
    }
    SplitJoin(ls, '\n');
    JoinLinesIsJoin(fs, w);
  }

  /** A field wide enough for the number puts the arrow right after it. */
  lemma LineAligned(h: Heading, width: nat)
    requires NumDigits(h.lineNumber) <= width
    ensures |FormatLine(h, width)| > width && FormatLine(h, width)[width] == Arrow
  {
    var pad := PadLeft(NatToString(h.lineNumber), width);
    PadLeftShape(NatToString(h.lineNumber), width);
    assert |pad| == width;
    assert FormatLine(h, width) == pad + [Arrow] + h.text;
  }

  /** For headings in line order (as extraction produces them) the arrows of
      all lines stand in the same column, `width`: the last heading has the
      largest number, and the field is sized for it. */
  lemma RenderAligned(hs: seq<Heading>, maxLevel: nat)
    requires LinesSorted(hs)
    requires Filtered(hs, maxLevel) != []
    ensures
      var fs := Filtered(hs, maxLevel);
      var w := Width(fs[|fs| - 1].lineNumber);
      var ls := Lines(fs, w);
      forall k :: 0 <= k < |ls| ==> |ls[k]| > w && ls[k][w] == Arrow
  {
    var fs := Filtered(hs, maxLevel);
    FilteredSorted(hs, maxLevel);
    var last := fs[|fs| - 1].lineNumber;
    var w := Width(last);
    var ls := Lines(fs, w);
    forall k | 0 <= k < |ls| ensures |ls[k]| > w && ls[k][w] == Arrow {
      if k < |fs| - 1 {
        assert fs[k].lineNumber <= last;
      }
      NumDigitsMonotone(fs[k].lineNumber, last);
      LinesAt(fs, w, k);
      LineAligned(fs[k], w);
    }
  }

  /** The byte length of one line: the padded number is ASCII, the arrow
      takes three bytes, then the text. */
  lemma LineBytes(h: Heading, width: nat)
    ensures Utf8Len(FormatLine(h, width))
         == |PadLeft(NatToString(h.lineNumber), width)| + 3 + Utf8Len(h.text)
  {
    var num := NatToString(h.lineNumber);
    var pad := PadLeft(num, width);
    PadLeftShape(num, width);
    forall i | 0 <= i < |pad| ensures pad[i] as int < 0x80 {
      if i >= |pad| - |num| {
        assert pad[i] == num[i - (|pad| - |num|)];
      }
    }
    Utf8LenAscii(pad);
    Utf8LenAppend(pad, [Arrow]);
    Utf8LenAppend(pad + [Arrow], h.text);
    assert Utf8Len([Arrow]) == Utf8Len([]) + Utf8Width(Arrow);
  }

  // ---------------------------------------------------------------------
  // Level selection
  // ---------------------------------------------------------------------

  datatype LevelChoice = LevelChoice(level: nat, toc: string)

  /** The deepest level present, or 1 for no headings. */
  function MaxLevel(hs: seq<Heading>): (m: nat)
    ensures hs == [] ==> m == 1
    ensures forall k :: 0 <= k < |hs| ==> hs[k].level <= m
    ensures hs != [] ==> exists k :: 0 <= k < |hs| && hs[k].level == m
  {
    if hs == [] then 1
    else if |hs| == 1 then hs[0].level
    else
      var m := MaxLevel(hs[..|hs| - 1]);
      var l := hs[|hs| - 1].level;
      if m >= l then m else l
  }

  /** A candidate outline is kept when it is non-empty and at most `budget`
      bytes long. */
  predicate FitsText(t: string, budget: nat)
  {
    t != "" && Utf8Len(t) <= budget
  }

  /** The render at `level` fits the budget. */
  predicate Fits(hs: seq<Heading>, budget: nat, level: nat)
  {
    FitsText(Render(hs, level), budget)
  }

  /** The renders at levels 1 to `n`, in order. */
  function RenderAll(hs: seq<Heading>, n: nat): (rs: seq<string>)
    ensures |rs| == n
  {
    if n == 0 then [] else RenderAll(hs, n - 1) + [Render(hs, n)]
  }

  lemma {:induction false} RenderAllAt(hs: seq<Heading>, n: nat, l: nat)
    requires 1 <= l <= n
    ensures RenderAll(hs, n)[l - 1] == Render(hs, l)
  {
    var prev := RenderAll(hs, n - 1);
    assert RenderAll(hs, n) == prev + [Render(hs, n)];
    if l < n {
      RenderAllAt(hs, n - 1, l);
      assert (prev + [Render(hs, n)])[l - 1] == prev[l - 1];
    }
  }

  /** The choice after trying the candidates in turn (candidate `k` is level
      `k + 1`): each one that fits replaces any earlier choice. */
  function BestOf(renders: seq<string>, budget: nat): Option<LevelChoice>
  {
    if renders == [] then None
    else
      var t := renders[|renders| - 1];
      if FitsText(t, budget) then Some(LevelChoice(|renders|, t))
      else BestOf(renders[..|renders| - 1], budget)
  }

  /** The scan keeps the deepest fitting candidate: a chosen level fits, its
      text is that level's candidate, and no deeper candidate fits; no choice
      means no candidate fits. */
  lemma {:induction false} BestOfDeepest(renders: seq<string>, budget: nat)
    ensures var b := BestOf(renders, budget);
      && (b.Some? ==>
           && 1 <= b.value.level <= |renders|
           && b.value.toc == renders[b.value.level - 1]
           && FitsText(b.value.toc, budget)
           && forall k :: b.value.level <= k < |renders| ==> !FitsText(renders[k], budget))
      && (b.None? ==> forall k :: 0 <= k < |renders| ==> !FitsText(renders[k], budget))
  {
    if renders != [] {
      var init := renders[..|renders| - 1];
      BestOfDeepest(init, budget);
      forall k | 0 <= k < |init| ensures renders[k] == init[k] {
      }
    }
  }

  /** Over the renders of a heading list: the chosen level is the deepest
      level up to `n` whose render fits. */
  lemma BestLevelDeepest(hs: seq<Heading>, budget: nat, n: nat)
    ensures var b := BestOf(RenderAll(hs, n), budget);
      && (b.Some? ==>
           && 1 <= b.value.level <= n
           && b.value.toc == Render(hs, b.value.level)
           && Fits(hs, budget, b.value.level)
           && forall l :: b.value.level < l <= n ==> !Fits(hs, budget, l))
      && (b.None? ==> forall l :: 1 <= l <= n ==> !Fits(hs, budget, l))
  {
    var rs := RenderAll(hs, n);
    BestOfDeepest(rs, budget);
    forall l | 1 <= l <= n ensures rs[l - 1] == Render(hs, l) {
      RenderAllAt(hs, n, l);
    }
  }

  /** `find_optimal_level`: try every level from 1 to the deepest present
      and keep the last render that fits; sizes are not assumed to grow with
      the level, so the scan never stops early. */
  method FindOptimalLevel(headings: seq<Heading>, budget: nat) returns (best: Option<LevelChoice>)
    ensures headings == [] ==> best == None
    ensures headings != [] ==> best == BestOf(RenderAll(headings, MaxLevel(headings)), budget)
  {
    if headings == [] {
      return None;
    }
    var maxLevel := MaxLevel(headings);
    best := None;
    for level := 1 to maxLevel + 1
      invariant best == BestOf(RenderAll(headings, level - 1), budget)
    {
      var rendered := RenderToc(headings, level);
      assert RenderAll(headings, level)[..level - 1] == RenderAll(headings, level - 1);
      if rendered == "" {
        continue;
      }
      if Utf8Len(rendered) <= budget {
        best := Some(LevelChoice(level, rendered));
      }
    }
  }

  // ---------------------------------------------------------------------
  // Entry point
  // ---------------------------------------------------------------------

  /** The text of a level choice. */
  function ChoiceText(c: Option<LevelChoice>): Option<string>
  {
    match c
    case Some(choice) => Some(choice.toc)
    case None => None
  }

  /** `generate_toc`: no outline for documents below the size threshold;
      otherwise the outline of the deepest level whose render fits the
      budget, if any level does. The caller supplies the size measurement and
      the parser's events. */
  method GenerateToc(markdown: string, events: seq<Event>, totalBytes: nat, config: TocConfig)
    returns (toc: Option<string>)
    requires InDocument(markdown, events)
    ensures totalBytes < config.fullContentThreshold ==> toc == None
    ensures toc.Some? ==> FitsText(toc.value, config.tocBudget)
    ensures
      var hs := Run(markdown, events).headings;
      totalBytes >= config.fullContentThreshold ==>
        toc == ChoiceText(BestOf(RenderAll(hs, MaxLevel(hs)), config.tocBudget))
  {
    if totalBytes < config.fullContentThreshold {
      return None;
    }
    var headings := ExtractHeadings(markdown, events);
    if headings == [] {
      assert RenderAll(headings, 1) == [""];
      return None;
    }
    var choice := FindOptimalLevel(headings, config.tocBudget);
    BestOfDeepest(RenderAll(headings, MaxLevel(headings)), config.tocBudget);
    if choice.None? {
      return None;
    }
    var t := choice.value.toc;
    if t == "" {
      return None;
    }
    toc := Some(t);
  }
}
