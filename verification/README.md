# llms-fetch-mcp core, modelled in Dafny

llms-fetch-mcp is an MCP server that fetches documentation pages for language
models. It caches them on disk and prepends a table of contents to long
Markdown documents. This project models two parts of it and proves properties
of them:

- The table-of-contents engine of `src/toc.rs`.
  - `extract_headings` walks the Markdown parser's events. It keeps a line
    counter and records empty anchor links. For each heading it cuts those
    links out of the heading's source text, strips a setext underline,
    collapses runs of spaces and drops headings with no content.
  - `render_toc` prints one line per heading: the right-justified line
    number, `→`, then the heading text.
  - `find_optimal_level` picks the deepest heading level whose outline fits
    a byte budget.
  - `generate_toc` gates all of this on the document size.
- The pure helpers of `src/main.rs`.
  - `get_url_variations`: the candidate URLs tried for a page.
  - `url_to_path`: the cache path of a URL, with its traversal checks.
  - `extract_body`: the `<body>` fallback used when article extraction finds
    nothing.
  - `count_stats`: line, word and character statistics.

Modules:

- `Wrappers` (wrappers.dfy): `Option` and `Result`.
- `Strings` (strings.dfy): the string operations the source calls.
  - Rust's `trim`, with Unicode White_Space written out.
  - `split` and `join`, `find` and `rfind`, `trim_start_matches` and
    `trim_end_matches`.
  - UTF-8 length, decimal formatting and right-justified padding.
- `Toc` (toc.dfy): configuration, the `Heading` record and the text clean-up
  of one heading.
- `TocExtract` (toc_extract.dfy): the event loop of `extract_headings`.
  - `Run` folds one step per event and serves as its specification.
  - The method `ExtractHeadings` is proved equal to it.
- `TocRender` (toc_render.dfy): rendering, level selection and
  `generate_toc`.
- `Fetch` (fetch.dfy): the `src/main.rs` helpers.

Each loop of the source is a method with loop invariants. Each method is
proved equal to a specification function, and the lemmas state the source's
promises about that function.

Text is `seq<char>`. Offsets into the document count characters. Byte lengths
come from an explicit UTF-8 width function wherever the source compares byte
sizes: the TOC budget counts bytes, and `→` takes three of them.

## Model

| member | source | states |
|---|---|---|
| Toc.LevelNumber | src/toc.rs:198-205 | a heading level maps to a number from 1 to 6 |
| Toc.IsEmptyOrInvisible | src/toc.rs:46-55 | true exactly when every character is whitespace, U+200B, U+FEFF, U+200C, U+200D or U+00B6; so true for the empty text |
| Toc.ExciseEmptyLinks | src/toc.rs:137-160 | the excision loop computes the fold `Excise` over the recorded spans: relative offsets via saturating subtraction, malformed spans skipped, text kept between spans and after the last |
| Toc.ExciseIgnoresMalformed | src/toc.rs:141-146 | spans that are inverted after conversion, or end past the slice, have no effect: excising all spans gives what excising only the well-formed ones gives |
| Toc.ExciseRemovesWellFormedSpans | src/toc.rs:137-160 | when the well-formed spans are ordered and disjoint, the result is the slice minus exactly the characters they cover, whatever malformed spans lie among them |
| Toc.ExciseRemovesSpans | src/toc.rs:137-160 | for in-bounds, non-empty, ordered and disjoint spans the result is exactly the slice minus the covered characters, with the rest kept in order |
| Toc.LastIndexOfNewline | src/toc.rs:164 | `rfind('\n')` finds the unique last newline, or reports that there is none |
| Toc.DropUnderlineSpec | src/toc.rs:164-176 | the last line and its newline are dropped exactly when the trimmed part after the last newline is a non-empty run of `=`/`-`; otherwise the text is unchanged |
| Toc.StripSetextSpec | src/toc.rs:163-176 | the same, applied to the trimmed heading text |
| Toc.DropUnderlineLast | src/toc.rs:164-176 | a last line that trims to a non-empty run of `=`/`-` is dropped together with its newline, and the text before it is kept whole |
| Toc.SetextKeepsInnerNewline | src/toc.rs:163-192 | a cleaned heading text can still hold a newline: the two-line setext heading `Foo`, `bar`, `===` cleans to `Foo\nbar` |
| Toc.CollapseSpaces | src/toc.rs:179-192 | the `last_was_space` loop computes `Collapse`, which drops a space exactly when the output already ends in one |
| Toc.CollapseNoDoubleSpace | src/toc.rs:179-192 | the collapsed text has no two adjacent spaces |
| Toc.CollapseKeepsNonSpaces | src/toc.rs:179-192 | every character other than a space survives collapsing, tabs and newlines included, in order |
| Toc.CollapseFixesCollapsed | src/toc.rs:179-192 | a text without double spaces is unchanged |
| Toc.CollapseIdempotent | src/toc.rs:179-192 | collapsing twice is collapsing once |
| TocExtract.FinishHeading | src/toc.rs:129-212 | a closed heading is emitted with its level and start line, and a non-empty, trimmed text with a character other than whitespace and `#`; it is dropped, not blanked, exactly when the cleaned text lacks such a character |
| TocExtract.CloseHeading | src/toc.rs:129-212 | the closing steps (slice, excise, setext strip, collapse, trim, filter) compute `FinishHeading` |
| TocExtract.ExtractHeadings | src/toc.rs:59-220 | the event loop computes the fold `Run`; every heading it returns is valid, and line numbers never decrease |
| TocExtract.RunInvariant | src/toc.rs:79-90 | after any prefix of the events, `last_pos` is the largest start seen and the line counter is 1 plus the number of newlines before `last_pos`, whatever order the ranges come in; emitted headings are valid and in line order |
| TocExtract.LastPosMonotone | src/toc.rs:90 | `last_pos` never decreases as events are consumed |
| TocRender.Filtered | src/toc.rs:250 | only headings at or above the level are kept, and every such heading is kept; the result is empty exactly when none qualifies |
| TocRender.FilteredAppend | src/toc.rs:250 | filtering a concatenation concatenates the filtered parts, so kept headings stay in their input order |
| TocRender.FilteredSingle | src/toc.rs:250 | one heading is kept exactly when its level is at or above the maximum level |
| TocRender.FilteredMembers | src/toc.rs:250 | every kept heading is an input heading |
| TocRender.FilteredSorted | src/toc.rs:250 | filtering keeps line numbers in order |
| TocRender.Width | src/toc.rs:264-272 | the field width is 3, 4 or 5 below 100, 1000 and 10000, and otherwise the digit count; it is at least 3 and at least the digit count of the number it is sized for |
| TocRender.WidthByDigits | src/toc.rs:264-272 | with `d` the digit count of the last line number, the width is 3 up to two digits, `d + 1` for three and four digits, and `d` from five digits on |
| TocRender.WidthMonotone | src/toc.rs:264-272 | a larger last line number never gives a narrower field |
| TocRender.RenderToc | src/toc.rs:247-286 | the line-pushing loop computes `Render`: the filtered headings' lines joined by single newlines, no trailing newline, width taken from the last filtered heading |
| TocRender.RenderEmpty | src/toc.rs:250-254 | the render is empty exactly when no heading is at or above the level |
| TocRender.JoinLinesIsJoin | src/toc.rs:278-283 | the loop output is the list of formatted lines joined with `\n` |
| TocRender.RenderSplitsIntoLines | src/toc.rs:278-283 | for single-line heading texts, splitting the render at newlines gives back one formatted line per filtered heading, in order |
| TocRender.LineAligned | src/toc.rs:282 | a field at least as wide as the number puts `→` at column `width` |
| TocRender.RenderAligned | src/toc.rs:257-283 | for headings in line order, every line has its `→` in the same column |
| TocRender.LineBytes | src/toc.rs:282 | a line's byte size is the padded number, 3 bytes for `→`, then the text's UTF-8 size |
| TocRender.MaxLevel | src/toc.rs:228 | the deepest level present, or 1 when there are no headings |
| TocRender.BestOfDeepest | src/toc.rs:230-244 | the scan keeps the deepest fitting candidate; no deeper candidate fits; no choice means none fits |
| TocRender.BestLevelDeepest | src/toc.rs:230-244 | over renders: a chosen level is between 1 and the maximum, its text is that level's render, non-empty and within the byte budget, and no deeper level fits |
| TocRender.FindOptimalLevel | src/toc.rs:223-245 | `None` for no headings; otherwise the choice of the loop over levels 1 to the maximum, with no early exit |
| TocRender.GenerateToc | src/toc.rs:290-303 | `None` below the size threshold; any returned outline is non-empty and within budget; above the threshold the result is the deepest fitting render of the extracted headings |
| Fetch.LowerChar | src/main.rs:134 | lowercasing yields one character, or two exactly for U+0130 |
| Fetch.ToLowerLength | src/main.rs:268 | full lowercasing lengthens a text by one character per U+0130 |
| Fetch.GetUrlVariations | src/main.rs:131-169 | the URL itself comes first. Exactly `[url]` when the lowercased URL ends in `.md` or `.txt` or the URL has `?`. Otherwise `base.md`, then the four directory guesses unless the last path segment has an extension. No candidate repeats |
| Fetch.CandidatesDistinct | src/main.rs:156-166 | the six candidates of a URL are pairwise different |
| Fetch.StemAndExtension | src/main.rs:197 | a file name is its stem followed by `.` and its extension, when it has one |
| Fetch.SanitizeQuery | src/main.rs:205 | same length; none of `/`, `\`, `:`, `*`, `?`, `"`, `<`, `>` or the vertical bar survives; every other character is kept in place |
| Fetch.PushComponents | src/main.rs:180-189 | error on a `.` or `..` segment; otherwise the non-empty segments are appended in order |
| Fetch.SetQueryExtension | src/main.rs:203-213 | the sanitized query, after `?`, is appended to the last component's extension |
| Fetch.BuildPath | src/main.rs:175-213 | error on a `.` or `..` segment; otherwise the base, the host, the non-empty segments, `index` when the path is empty or its last segment has no extension, and the query folded in |
| Fetch.UrlToPath | src/main.rs:171-221 | error without a host; error on a `.` or `..` segment; otherwise the built path if it starts with the base directory, else a traversal error |
| Fetch.PathForLength | src/main.rs:180-201 | one component per non-empty segment, plus one for `index` exactly when it is needed |
| Fetch.PathTailNormal | src/main.rs:180-201 | at least one component follows the host, and each is a normal file name |
| Fetch.WithQueryNormal | src/main.rs:203-213 | folding the query into a normal file name keeps it a single normal component |
| Fetch.WithQueryEnds | src/main.rs:203-213 | the last component ends with `?` and the sanitized query |
| Fetch.PathForUnderBase | src/main.rs:173-218 | for a normal host and a path without `.`/`..` segments, the cache path starts with the base directory, the host comes right after it and every later component is normal, so the traversal check never fails |
| Fetch.PathMirrorsUrl | src/main.rs:175-201 | with no query, no empty segments and a last segment with an extension, the components after the host, joined with `/`, give back the URL path |
| Fetch.BodyRange | src/main.rs:269-274 | a found range starts after `<body` and its `>`, and ends at least 7 characters before the end of the searched text |
| Fetch.BodyRangeSpec | src/main.rs:269-274 | no range exactly when `<body`, a `>` after it or `</body>` is missing, or the last `</body>` begins before the `>` that closes the first `<body`; otherwise the range runs from just past that `>` to the last `</body>` |
| Fetch.ExtractBodyAsWritten | src/main.rs:267-278 | positions searched in the fully lowercased text: `None` exactly when there is no range there; otherwise the original's text between the two places, or a panic when the range ends past the original's end, which needs a U+0130 in the page |
| Fetch.ExtractBody | src/main.rs:267-278 | `None` exactly when, ignoring ASCII case, a tag is missing or the last `</body>` begins before the `>` closing the first `<body`; otherwise the text between that `>` and the last `</body>`, at least 13 characters shorter than the page |
| Fetch.ExtractBodyOfPage | src/main.rs:267-278 | when the page reads `pre<body attrs>body</body>post` ignoring ASCII case, with no `<body` before the opening tag, no `>` in `attrs` and no `</body>` after the closing tag, the result is the page's text at the place of `body` |
| Fetch.ExtractBodyOfLowercasePage | src/main.rs:267-278 | for such a page without capitals, the result is exactly the body |
| Fetch.ExtractBodyOfHtmlPage | src/main.rs:267-278 | `<html><body>x</body></html>` yields `x` |
| Fetch.AsWrittenAgreesWithoutDottedI | src/main.rs:267-278 | without U+0130 the code as written returns what `ExtractBody` returns, and never panics |
| Fetch.DottedIShiftsBody | src/main.rs:268-275 | as written, `İ<body>x</body>` yields `<` instead of `x` |
| Fetch.DottedIBodyCorrected | src/main.rs:267-278 | the corrected function yields `x` for the same page |
| Fetch.LinePiecesCount | src/main.rs:281 | the number of lines is the number of newlines, plus one for unterminated trailing text |
| Fetch.WordCountZero | src/main.rs:282 | a text has no words exactly when it is all whitespace |
| Fetch.WordCountJoin | src/main.rs:282 | non-empty whitespace-free words joined by single spaces count as that many words |
| Fetch.CountStats | src/main.rs:280-285 | lines as `str::lines` counts them; words zero exactly for all-whitespace text; characters the length; so the empty text gives (0, 0, 0) |

## Left out

- The Markdown parser (`pulldown_cmark`) is not part of this model.
  - Its event stream is an input: heading starts with their level, heading
    ends, link starts and ends, text and code leaves, and everything else.
  - Each event carries its range.
  - The only precondition is that event starts lie inside the document.
- Offsets count characters, not bytes. `markdown.get(..)` on a byte range
  that splits a character has no counterpart here.
- `TocRender.Width`: for line numbers of 10000 and more the source computes
  `floor(log10(n as f64)) + 1`; the model uses the exact decimal digit
  count instead. The two differ where `f64` rounding makes `log10` reach
  the next integer: for 999999999999998 and 999999999999999 the source
  gives width 16 and the model 15. `f64` rounding is not modelled.
- `TocRender.RenderSplitsIntoLines` assumes that no heading text holds a
  newline, but extraction can emit one (`Toc.SetextKeepsInnerNewline`: a
  two-line setext heading keeps its inner newline). Such a heading
  renders as more than one line; that case is outside the lemma.
- `Fetch.LowerChar`: lowercasing covers ASCII capitals and U+0130. Every
  other character stands for itself. The Unicode lowercase tables are not
  modelled.
- URL parsing (`url::Url::parse`) is not modelled.
  - Host, path and query are inputs, and the parsed path is an input of
    `GetUrlVariations`.
  - `Fetch.UrlToPath` treats the host as one path component.
  - Paths are sequences of components, so `Path::join`/`push` normalisation
    beyond that is not modelled.
- `Fetch.SetExtension`: `PathBuf::set_extension` panics on an extension
  containing a separator. That case is unreachable here and not modelled:
  both the sanitized query and an extension taken from a single component
  are free of `/`.
- `Fetch.UrlToPath`: the source is one function; here it is split into
  `BuildPath`, `PushComponents` and `SetQueryExtension`, with the same steps
  in the same order.
- `Fetch.LinePieces`: the trailing carriage return that `str::lines` removes
  does not change the count, so it is not modelled.
- Async and I/O code:
  - fetching (`reqwest`) and the `tokio` fan-out;
  - cache writes and `ensure_gitignore`;
  - `canonicalize`;
  - the MCP server and command-line handling.
- `html_to_markdown` wraps Readability and `html2md`, which are not part of
  this model. Only its `extract_body` fallback is modelled.
- `generate_toc` takes `total_bytes` as given; measuring the document is not
  modelled.

## Findings

| source | as written | input that shows it | evidently intended | confidence | as-written member | corrected member |
|---|---|---|---|---|---|---|
| src/main.rs:268-275 | `extract_body` finds positions in `html.to_lowercase()` and uses them to slice `html`. Full Unicode lowercasing can change lengths: U+0130 becomes `i` plus U+0307. The positions then fall in the wrong place of the original | `İ<body>x</body>` returns `Some("<")` instead of `Some("x")` | a case-insensitive match whose positions are positions in `html`, e.g. `to_ascii_lowercase` | not executed; in bytes other characters shift offsets as well and can make the slice panic | Fetch.DottedIShiftsBody (over Fetch.ExtractBodyAsWritten) | Fetch.DottedIBodyCorrected, Fetch.ExtractBodyOfPage (over Fetch.ExtractBody) |
