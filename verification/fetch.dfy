/** The pure helpers of the fetch server: the candidate URLs tried for a
    page (`get_url_variations`), the cache path a URL is stored under
    (`url_to_path`), the `<body>` fallback used when article extraction
    finds nothing (`extract_body`) and the statistics reported with every
    fetch (`count_stats`). URL parsing is not modelled: its results (the
    host, the path, the query) are inputs. */
module Fetch {
  import opened Wrappers
  import opened Strings

  // ---------------------------------------------------------------------
  // Lowercasing
  // ---------------------------------------------------------------------

  const DottedCapitalI: char := '\U{0130}'
  const CombiningDotAbove: char := '\U{0307}'

  /** `char::to_lowercase` as far as this module needs it: ASCII capitals
      become small letters and U+0130 (capital I with dot above) becomes
      two characters, `i` and U+0307. Any other character stands for its
      own lowercase form, which is a single character and not ASCII. */
  function LowerChar(c: char): (r: string)
    ensures 1 <= |r| <= 2
    ensures |r| == 2 <==> c == DottedCapitalI
  {
    if 'A' <= c <= 'Z' then [(c as int + 32) as char]
    else if c == DottedCapitalI then ['i', CombiningDotAbove]
    else [c]
  }

  /** `str::to_lowercase`: each character replaced by its lowercase form. */
  function ToLower(s: string): string
  {
    if s == [] then [] else ToLower(s[..|s| - 1]) + LowerChar(s[|s| - 1])
  }

  /** Lowercasing never shortens a text, and lengthens it by one character
      for every U+0130. */
  lemma {:induction false} ToLowerLength(s: string)
    ensures |ToLower(s)| == |s| + Count(s, DottedCapitalI)
    decreases |s|
  {
    if s != [] {
      ToLowerLength(s[..|s| - 1]);
    }
  }

  lemma {:induction false} ToLowerAppend(a: string, b: string)
    ensures ToLower(a + b) == ToLower(a) + ToLower(b)
    decreases |b|
  {
    if b == [] {
      assert a + b == a;
    } else {
      var b' := b[..|b| - 1];
      assert (a + b)[..|a + b| - 1] == a + b';
      ToLowerAppend(a, b');
    }
  }

  /** `char::to_ascii_lowercase`. */
  function AsciiLower(c: char): char
  {
    if 'A' <= c <= 'Z' then (c as int + 32) as char else c
  }

  /** `str::to_ascii_lowercase`: one character for one, so indices into the
      result are indices into the input. */
  function FoldAscii(s: string): (r: string)
    ensures |r| == |s|
  {
    seq(|s|, i requires 0 <= i < |s| => AsciiLower(s[i]))
  }

  /** Without U+0130, full lowercasing keeps every index in place and
      agrees with ASCII lowercasing on the characters that matter here. */
  lemma {:induction false} ToLowerWithoutDottedI(s: string)
    requires forall i :: 0 <= i < |s| ==> s[i] != DottedCapitalI
    ensures ToLower(s) == FoldAscii(s)
    decreases |s|
  {
    if s != [] {
      var init := s[..|s| - 1];
      ToLowerWithoutDottedI(init);
      assert FoldAscii(s) == FoldAscii(init) + [AsciiLower(s[|s| - 1])];
    }
  }

  // ---------------------------------------------------------------------
  // get_url_variations
  // ---------------------------------------------------------------------

  /** The URL path's last segment names a file: it contains a dot and does
      not end with one. `parsedPath` is the path of the parsed URL, or
      `None` when the URL does not parse. */
  predicate HasFileExtension(parsedPath: Option<string>)
  {
    match parsedPath
    case None => false
    case Some(path) =>
      match LastIndexOf(path, '/')
      case None => false
      case Some(i) =>
        var last := path[i + 1..];
        '.' in last && !EndsWith(last, ".")
  }

  /** Two strings that extend `base` and differ at offset `k` past it. */
  lemma DiffersAfter(base: string, x: string, y: string, k: nat)
    requires k < |x| && k < |y| && x[k] != y[k]
    ensures base + x != base + y
  {
    assert (base + x)[|base| + k] == x[k];
    assert (base + y)[|base| + k] == y[k];
  }

  /** `url` differs from `base + x` when `url` is `base` followed only by
      slashes and `x` has a character other than `/` at offset 1. */
  lemma NotSlashExtension(url: string, base: string, x: string)
    requires |base| <= |url| && base == url[..|base|]
    requires forall i :: |base| <= i < |url| ==> url[i] == '/'
    requires |x| >= 2 && x[1] != '/'
    ensures url != base + x
  {
  }

  /** The six candidates of a URL without an extension are all different. */
  lemma CandidatesDistinct(url: string)
    ensures var base := TrimEndMatches(url, '/');
      var vs := [url, base + ".md", base + ".html.md", base + "/index.md",
                 base + "/llms.txt", base + "/llms-full.txt"];
      forall i, j :: 0 <= i < j < |vs| ==> vs[i] != vs[j]
  {
    var base := TrimEndMatches(url, '/');
    var xs := [".md", ".html.md", "/index.md", "/llms.txt", "/llms-full.txt"];
    forall k | 0 <= k < |xs| ensures url != base + xs[k] {
      NotSlashExtension(url, base, xs[k]);
    }
    DiffersAfter(base, xs[0], xs[1], 1);
    DiffersAfter(base, xs[0], xs[2], 0);
    DiffersAfter(base, xs[0], xs[3], 0);
    DiffersAfter(base, xs[0], xs[4], 0);
    DiffersAfter(base, xs[1], xs[2], 0);
    DiffersAfter(base, xs[1], xs[3], 0);
    DiffersAfter(base, xs[1], xs[4], 0);
    DiffersAfter(base, xs[2], xs[3], 1);
    DiffersAfter(base, xs[2], xs[4], 1);
    DiffersAfter(base, xs[3], xs[4], 5);
  }

  /** The URLs tried, in order, when fetching `url`: the URL itself, and
      unless it already names a Markdown or text file or carries a query,
      `<base>.md` and (when the path has no file extension) four more
      guesses, where `<base>` is `url` without trailing slashes. */
  method GetUrlVariations(url: string, parsedPath: Option<string>) returns (variations: seq<string>)
    ensures |variations| >= 1 && variations[0] == url
    ensures EndsWith(ToLower(url), ".md") || EndsWith(ToLower(url), ".txt") || '?' in url
      ==> variations == [url]
    ensures !(EndsWith(ToLower(url), ".md") || EndsWith(ToLower(url), ".txt") || '?' in url)
      ==> var base := TrimEndMatches(url, '/');
          variations == [url, base + ".md"]
            + (if HasFileExtension(parsedPath) then []
               else [base + ".html.md", base + "/index.md", base + "/llms.txt", base + "/llms-full.txt"])
    ensures forall i, j :: 0 <= i < j < |variations| ==> variations[i] != variations[j]
  {
    variations := [url];
    var urlLower := ToLower(url);
    if EndsWith(urlLower, ".md") || EndsWith(urlLower, ".txt") {
      return;
    }
    if '?' in url {
      return;
    }
    var base := TrimEndMatches(url, '/');
    var hasFileExtension := HasFileExtension(parsedPath);
    variations := variations + [base + ".md"];
    if !hasFileExtension {
      variations := variations + [base + ".html.md"];
      variations := variations + [base + "/index.md"];
      variations := variations + [base + "/llms.txt"];
      variations := variations + [base + "/llms-full.txt"];
    }
    CandidatesDistinct(url);
    ghost var all := [url, base + ".md", base + ".html.md", base + "/index.md",
                      base + "/llms.txt", base + "/llms-full.txt"];
    assert variations == all[..|variations|];
  }

  // ---------------------------------------------------------------------
  // url_to_path
  // ---------------------------------------------------------------------

  /** Why a URL has no cache path. */
  datatype PathError = NoHost | InvalidComponent | PathTraversal

  /** A path is a sequence of components; `StartsWith` is
      `Path::starts_with`, which compares whole components. */
  predicate StartsWith(path: seq<string>, prefix: seq<string>)
  {
    |prefix| <= |path| && path[..|prefix|] == prefix
  }

  /** A component that names an entry inside its directory: not empty, not
      `.` or `..`, and without a separator. */
  predicate NormalComponent(c: string)
  {
    c != "" && c != "." && c != ".." && '/' !in c
  }

  /** `Path::extension` of a file name: the text after the last dot, unless
      there is no dot, the only dot starts the name, or the name is `..`. */
  function Extension(name: string): Option<string>
  {
    if name == ".." then None
    else match LastIndexOf(name, '.')
      case None => None
      case Some(i) => if i == 0 then None else Some(name[i + 1..])
  }

  /** `Path::file_stem` of a file name: the name without its extension. */
  function FileStem(name: string): string
  {
    if name == ".." then name
    else match LastIndexOf(name, '.')
      case None => name
      case Some(i) => if i == 0 then name else name[..i]
  }

  /** Stem and extension split a file name and lose nothing. */
  lemma StemAndExtension(name: string)
    ensures FileStem(name) + (match Extension(name) case None => "" case Some(e) => "." + e) == name
  {
    if name != ".." {
      match LastIndexOf(name, '.')
      case None =>
      case Some(i) =>
        if i != 0 {
          assert name == name[..i] + "." + name[i + 1..];
        }
    }
  }

  /** `PathBuf::set_extension` on the last component: the stem followed by
      `.` and the new extension; names without a stem are left alone. */
  function SetExtension(name: string, ext: string): string
  {
    if name == "" || name == "." || name == ".." then name
    else FileStem(name) + (if ext == "" then "" else "." + ext)
  }

  /** The characters the cache path must not contain from a query. */
  predicate UnsafeQueryChar(c: char)
  {
    c in "/\\:*?\"<>|"
  }

  /** The query with every unsafe character replaced by `_`. */
  function SanitizeQuery(q: string): (r: string)
    ensures |r| == |q|
    ensures forall i :: 0 <= i < |q| ==> !UnsafeQueryChar(r[i])
    ensures forall i :: 0 <= i < |q| && !UnsafeQueryChar(q[i]) ==> r[i] == q[i]
  {
    seq(|q|, i requires 0 <= i < |q| => if UnsafeQueryChar(q[i]) then '_' else q[i])
  }

  /** The URL path without its leading slashes, split at `/`. */
  function UrlComponents(urlPath: string): seq<string>
  {
    var trimmed := TrimStartMatches(urlPath, '/');
    if trimmed == [] then [] else Split(trimmed, '/')
  }

  predicate HasDotComponent(components: seq<string>)
  {
    exists i :: 0 <= i < |components| && (components[i] == "." || components[i] == "..")
  }

  /** The non-empty components, in order. */
  function NonEmpty(components: seq<string>): seq<string>
  {
    if components == [] then []
    else
      var init := components[..|components| - 1];
      var last := components[|components| - 1];
      NonEmpty(init) + (if last == "" then [] else [last])
  }

  /** A file named `index` is added when the URL path is empty or its last
      segment has no extension. */
  predicate NeedsIndex(urlPath: string)
  {
    var trimmed := TrimStartMatches(urlPath, '/');
    trimmed == [] || (var segments := Split(trimmed, '/'); Extension(segments[|segments| - 1]).None?)
  }

  /** The last component once the query is folded into its extension. */
  function WithQuery(name: string, query: string): string
  {
    SetExtension(name, CurrentExtension(name) + "?" + SanitizeQuery(query))
  }

  /** The extension of a name, or the empty string when it has none. */
  function CurrentExtension(name: string): string
  {
    match Extension(name) case None => "" case Some(e) => e
  }

  /** The components a URL path adds below the host: its non-empty
      segments, then `index` when needed. */
  function PathTail(urlPath: string): seq<string>
  {
    NonEmpty(UrlComponents(urlPath)) + (if NeedsIndex(urlPath) then ["index"] else [])
  }

  /** Folds the query, if any, into the extension of the last component. */
  function FoldQuery(path: seq<string>, query: Option<string>): seq<string>
    requires path != []
  {
    match query
    case None => path
    case Some(q) => path[..|path| - 1] + [WithQuery(path[|path| - 1], q)]
  }

  /** The cache path of a URL whose host and path components are valid:
      the base directory, the host, the non-empty path components, `index`
      when needed, and the query folded into the last component. */
  function PathFor(baseDir: seq<string>, host: string, urlPath: string, query: Option<string>): seq<string>
  {
    FoldQuery(baseDir + [host] + PathTail(urlPath), query)
  }

  /** Maps a parsed URL (host, path, query) to its file under `baseDir`,
      refusing `.` and `..` path components and paths that leave `baseDir`. */
  method UrlToPath(baseDir: seq<string>, host: Option<string>, urlPath: string, query: Option<string>)
    returns (r: Result<seq<string>, PathError>)
    ensures host.None? ==> r == Err(NoHost)
    ensures host.Some? && HasDotComponent(UrlComponents(urlPath)) ==> r == Err(InvalidComponent)
    ensures host.Some? && !HasDotComponent(UrlComponents(urlPath)) ==>
      var p := PathFor(baseDir, host.value, urlPath, query);
      r == if StartsWith(p, baseDir) then Ok(p) else Err(PathTraversal)
  {
    if host.None? {
      return Err(NoHost);
    }
    var built := BuildPath(baseDir, host.value, urlPath, query);
    if built.Err? {
      return built;
    }
    var path := built.value;
    if !StartsWith(path, baseDir) {
      return Err(PathTraversal);
    }
    return Ok(path);
  }

  /** The path-building part of `url_to_path`: the host below `baseDir`,
      the non-empty segments of the URL path (refusing `.` and `..`),
      `index` when needed, and the query folded into the last component. */
  method BuildPath(baseDir: seq<string>, domain: string, urlPath: string, query: Option<string>)
    returns (r: Result<seq<string>, PathError>)
    ensures HasDotComponent(UrlComponents(urlPath)) ==> r == Err(InvalidComponent)
    ensures !HasDotComponent(UrlComponents(urlPath)) ==> r == Ok(PathFor(baseDir, domain, urlPath, query))
  {
    var path := baseDir + [domain];
    ghost var head := path;
    var urlPathTrimmed := TrimStartMatches(urlPath, '/');
    if urlPathTrimmed != [] {
      var components := Split(urlPathTrimmed, '/');
      assert components == UrlComponents(urlPath);
      var pushed := PushComponents(path, components);
      if pushed.Err? {
        return Err(InvalidComponent);
      }
      path := pushed.value;
    }
    assert path == head + NonEmpty(UrlComponents(urlPath));

    var needsIndex :=
      if urlPathTrimmed == [] then true
      else
        var segments := Split(urlPathTrimmed, '/');
        Extension(segments[|segments| - 1]).None?;
    IndexStep(head, urlPath, path);
    if needsIndex {
      path := path + ["index"];
    }
    ghost var plain := path;

    if query.Some? {
      path := SetQueryExtension(path, query.value);
    }
    assert path == FoldQuery(plain, query);
    return Ok(path);
  }

  /** The query step of `url_to_path`: the sanitized query is appended,
      after `?`, to the extension of the last component. */
  method SetQueryExtension(path: seq<string>, query: string) returns (p: seq<string>)
    requires path != []
    ensures p == FoldQuery(path, Some(query))
  {
    var safeQuery := SanitizeQuery(query);
    var name := path[|path| - 1];
    var currentExt := CurrentExtension(name);
    var newExt := if currentExt == "" then "?" + safeQuery else currentExt + "?" + safeQuery;
    QueryExtension(name, query);
    p := path[..|path| - 1] + [SetExtension(name, newExt)];
  }

  /** The component loop of `url_to_path`: appends the segments of the URL
      path to `path`, skipping empty ones and refusing `.` and `..`. */
  method PushComponents(path: seq<string>, components: seq<string>) returns (r: Result<seq<string>, PathError>)
    ensures HasDotComponent(components) ==> r == Err(InvalidComponent)
    ensures !HasDotComponent(components) ==> r == Ok(path + NonEmpty(components))
  {
    var pushed := path;
    for i := 0 to |components|
      invariant pushed == path + NonEmpty(components[..i])
      invariant !HasDotComponent(components[..i])
    {
      var component := components[i];
      if component == ".." || component == "." {
        DotComponentAt(components, i);
        return Err(InvalidComponent);
      }
      NonEmptyPush(path, components, i, pushed);
      DotFreeStep(components, i);
      if component != "" {
        pushed := pushed + [component];
      }
    }
    assert components[..|components|] == components;
    return Ok(pushed);
  }

  /** `index` is appended exactly when the URL path needs it. */
  lemma IndexStep(head: seq<string>, urlPath: string, path: seq<string>)
    requires path == head + NonEmpty(UrlComponents(urlPath))
    ensures (if NeedsIndex(urlPath) then path + ["index"] else path) == head + PathTail(urlPath)
  {
  }

  /** A `.` or `..` segment makes the URL path invalid. */
  lemma DotComponentAt(components: seq<string>, i: nat)
    requires i < |components| && (components[i] == ".." || components[i] == ".")
    ensures HasDotComponent(components)
  {
  }

  /** One more segment adds itself to the non-empty ones unless it is
      empty. */
  lemma NonEmptyPush(head: seq<string>, components: seq<string>, i: nat, path: seq<string>)
    requires i < |components| && path == head + NonEmpty(components[..i])
    ensures (if components[i] == "" then path else path + [components[i]])
      == head + NonEmpty(components[..i + 1])
  {
    assert components[..i + 1][..i] == components[..i];
  }

  /** A segment that is neither `.` nor `..` keeps the prefix valid. */
  lemma DotFreeStep(components: seq<string>, i: nat)
    requires i < |components| && components[i] != "." && components[i] != ".."
    requires !HasDotComponent(components[..i])
    ensures !HasDotComponent(components[..i + 1])
  {
    assert components[..i + 1][..i] == components[..i];
  }

  /** Keeping the non-empty components of valid URL segments leaves only
      normal file names. */
  lemma {:induction false} NonEmptyNormal(components: seq<string>)
    requires forall i :: 0 <= i < |components| ==> '/' !in components[i]
    requires !HasDotComponent(components)
    ensures forall i :: 0 <= i < |NonEmpty(components)| ==> NormalComponent(NonEmpty(components)[i])
    decreases |components|
  {
    if components != [] {
      var init := components[..|components| - 1];
      assert !HasDotComponent(init) by {
        forall i | 0 <= i < |init| ensures init[i] != "." && init[i] != ".." {
          assert init[i] == components[i];
        }
      }
      NonEmptyNormal(init);
    }
  }

  /** A non-empty last component survives `NonEmpty` as its last element. */
  lemma NonEmptyLast(components: seq<string>)
    requires components != [] && components[|components| - 1] != ""
    ensures var r := NonEmpty(components); r != [] && r[|r| - 1] == components[|components| - 1]
  {
  }

  /** Components that are all non-empty are kept as they are. */
  lemma {:induction false} NonEmptyKeepsAll(components: seq<string>)
    requires forall i :: 0 <= i < |components| ==> components[i] != ""
    ensures NonEmpty(components) == components
    decreases |components|
  {
    if components != [] {
      NonEmptyKeepsAll(components[..|components| - 1]);
    }
  }

  /** At least one component follows the host, and all of them are normal
      file names. */
  lemma PathTailNormal(urlPath: string)
    requires !HasDotComponent(UrlComponents(urlPath))
    ensures var tail := PathTail(urlPath);
      |tail| >= 1 && forall i :: 0 <= i < |tail| ==> NormalComponent(tail[i])
  {
    var components := UrlComponents(urlPath);
    NonEmptyNormal(components);
    if !NeedsIndex(urlPath) {
      var last := components[|components| - 1];
      assert Extension(last).Some?;
      NonEmptyLast(components);
    }
  }

  /** The stem and the extension are pieces of the name. */
  lemma StemExtensionWithin(name: string, c: char)
    requires c !in name
    ensures c !in FileStem(name) && c !in CurrentExtension(name)
  {
    StemAndExtension(name);
  }

  /** No unsafe character survives sanitizing. */
  lemma SanitizedSafe(q: string, c: char)
    requires UnsafeQueryChar(c)
    ensures c !in SanitizeQuery(q)
  {
    var safe := SanitizeQuery(q);
    forall i | 0 <= i < |safe| ensures safe[i] != c {
      assert !UnsafeQueryChar(safe[i]);
    }
  }

  /** A normal name keeps its stem and gets `.`, the old extension, `?` and
      the sanitized query. */
  lemma WithQueryShape(name: string, query: string)
    requires NormalComponent(name)
    ensures WithQuery(name, query)
      == FileStem(name) + "." + CurrentExtension(name) + ("?" + SanitizeQuery(query))
  {
    var ext := CurrentExtension(name) + "?" + SanitizeQuery(query);
    assert ext != "" by {
      assert ext[|CurrentExtension(name)|] == '?';
    }
  }

  /** An empty current extension leaves just `?` and the query. */
  lemma QueryExtension(name: string, query: string)
    ensures var ext := CurrentExtension(name);
      var safe := SanitizeQuery(query);
      WithQuery(name, query) == SetExtension(name, if ext == "" then "?" + safe else ext + "?" + safe)
  {
    var ext := CurrentExtension(name);
    if ext == "" {
      assert ext + "?" + SanitizeQuery(query) == "?" + SanitizeQuery(query);
    }
  }

  /** The folded-in query keeps the name a single normal component. */
  lemma WithQueryNormal(name: string, query: string)
    requires NormalComponent(name)
    ensures NormalComponent(WithQuery(name, query))
  {
    WithQueryShape(name, query);
    StemExtensionWithin(name, '/');
    SanitizedSafe(query, '/');
  }

  /** The last component ends with `?` and the sanitized query. */
  lemma WithQueryEnds(name: string, query: string)
    requires NormalComponent(name)
    ensures EndsWith(WithQuery(name, query), "?" + SanitizeQuery(query))
  {
    WithQueryShape(name, query);
    var head := FileStem(name) + "." + CurrentExtension(name);
    var tail := "?" + SanitizeQuery(query);
    assert (head + tail)[|head|..] == tail;
  }

  /** With a query, only the last component changes. */
  lemma FoldQueryLast(path: seq<string>, q: string)
    requires path != []
    ensures var p := FoldQuery(path, Some(q));
      && |p| == |path|
      && p[|p| - 1] == WithQuery(path[|path| - 1], q)
      && forall i :: 0 <= i < |path| - 1 ==> p[i] == path[i]
  {
  }

  /** The component that takes the query stays normal. */
  lemma FoldQueryNormal(baseDir: seq<string>, path: seq<string>, q: string)
    requires |path| >= |baseDir| + 2
    requires forall i :: |baseDir| < i < |path| ==> NormalComponent(path[i])
    ensures var p := FoldQuery(path, Some(q));
      forall i :: |baseDir| < i < |p| ==> NormalComponent(p[i])
  {
    WithQueryNormal(path[|path| - 1], q);
    FoldQueryLast(path, q);
  }

  /** Folding a query into a path under `baseDir` whose components after
      the base are normal keeps all of that. */
  lemma FoldQueryUnderBase(baseDir: seq<string>, path: seq<string>, query: Option<string>)
    requires |path| >= |baseDir| + 2 && path[..|baseDir|] == baseDir
    requires forall i :: |baseDir| < i < |path| ==> NormalComponent(path[i])
    ensures var p := FoldQuery(path, query);
      |p| == |path| && p[..|baseDir| + 1] == path[..|baseDir| + 1]
      && forall i :: |baseDir| < i < |p| ==> NormalComponent(p[i])
  {
    if query.Some? {
      FoldQueryNormal(baseDir, path, query.value);
      FoldQueryLast(path, query.value);
    }
  }

  /** The base directory, a normal host and normal components, with a query
      folded in: still under the base, host first, all components normal. */
  lemma FoldQueryOfTail(baseDir: seq<string>, host: string, tail: seq<string>, query: Option<string>)
    requires NormalComponent(host)
    requires |tail| >= 1 && forall i :: 0 <= i < |tail| ==> NormalComponent(tail[i])
    ensures var p := FoldQuery(baseDir + [host] + tail, query);
      && StartsWith(p, baseDir)
      && |p| >= |baseDir| + 2
      && p[|baseDir|] == host
      && forall i :: |baseDir| < i < |p| ==> NormalComponent(p[i])
  {
    var path := baseDir + [host] + tail;
    assert forall i :: |baseDir| < i < |path| ==> path[i] == tail[i - |baseDir| - 1];
    assert path[..|baseDir|] == baseDir;
    FoldQueryUnderBase(baseDir, path, query);
    var p := FoldQuery(path, query);
    assert p[..|baseDir|] == p[..|baseDir| + 1][..|baseDir|];
  }

  /** The cache path lies under the base directory, the host comes right
      after it, and every later component is a normal file name — so the
      traversal check never fails and no component climbs out. */
  lemma PathForUnderBase(baseDir: seq<string>, host: string, urlPath: string, query: Option<string>)
    requires NormalComponent(host)
    requires !HasDotComponent(UrlComponents(urlPath))
    ensures var p := PathFor(baseDir, host, urlPath, query);
      && StartsWith(p, baseDir)
      && |p| >= |baseDir| + 2
      && p[|baseDir|] == host
      && forall i :: |baseDir| < i < |p| ==> NormalComponent(p[i])
  {
    PathTailNormal(urlPath);
    FoldQueryOfTail(baseDir, host, PathTail(urlPath), query);
  }

  /** Without `index` and without empty segments, the components below the
      host are exactly the segments of the URL path. */
  lemma PathTailIsSegments(urlPath: string)
    requires !NeedsIndex(urlPath)
    requires forall i :: 0 <= i < |UrlComponents(urlPath)| ==> UrlComponents(urlPath)[i] != ""
    ensures PathTail(urlPath) == Split(TrimStartMatches(urlPath, '/'), '/')
  {
    var components := UrlComponents(urlPath);
    assert components == Split(TrimStartMatches(urlPath, '/'), '/');
    PathTailNoIndex(urlPath);
    NonEmptyKeepsAll(components);
  }

  /** Without `index` the tail is just the non-empty segments. */
  lemma PathTailNoIndex(urlPath: string)
    requires !NeedsIndex(urlPath)
    ensures PathTail(urlPath) == NonEmpty(UrlComponents(urlPath))
  {
    assert NonEmpty(UrlComponents(urlPath)) + [] == NonEmpty(UrlComponents(urlPath));
  }

  /** With no query, no empty segments and a last segment that names a
      file, the components after the host spell the URL path again. */
  lemma PathMirrorsUrl(baseDir: seq<string>, host: string, urlPath: string)
    requires !NeedsIndex(urlPath)
    requires forall i :: 0 <= i < |UrlComponents(urlPath)| ==> UrlComponents(urlPath)[i] != ""
    ensures var p := PathFor(baseDir, host, urlPath, None);
      Join(p[|baseDir| + 1..], '/') == TrimStartMatches(urlPath, '/')
  {
    PathTailIsSegments(urlPath);
    var tail := PathTail(urlPath);
    assert (baseDir + [host] + tail)[|baseDir| + 1..] == tail;
    JoinSplit(TrimStartMatches(urlPath, '/'), '/');
  }

  /** `index` is added exactly when needed: the path has one component per
      non-empty URL segment, plus one for `index`. */
  lemma PathForLength(baseDir: seq<string>, host: string, urlPath: string, query: Option<string>)
    ensures |PathFor(baseDir, host, urlPath, query)|
      == |baseDir| + 1 + |NonEmpty(UrlComponents(urlPath))| + (if NeedsIndex(urlPath) then 1 else 0)
  {
  }

  // ---------------------------------------------------------------------
  // extract_body
  // ---------------------------------------------------------------------

  /** What `extract_body` does: return a value, or panic on a slice index
      past the end of the string. */
  datatype BodyOutcome = Returned(body: Option<string>) | Panicked

  const OpenTag: string := "<body"
  const CloseTag: string := "</body>"

  /** The range `extract_body` cuts, located in the lowercased text `lower`:
      from just past the `>` that closes the first `<body`, to the start of
      the last `</body>`. */
  function BodyRange(lower: string): (r: Option<(nat, nat)>)
    ensures r.Some? ==> 6 <= r.value.0 <= r.value.1 && r.value.1 + 7 <= |lower|
  {
    match FindFrom(lower, OpenTag, 0)
    case None => None
    case Some(start) =>
      match IndexOf(lower[start..], '>')
      case None => None
      case Some(gt) =>
        assert gt >= 5 by {
          forall k | 0 <= k < 5 ensures lower[start..][k] != '>' {
            assert lower[start..][k] == OpenTag[k];
          }
        }
        var bodyStart := gt + start + 1;
        match RFindBefore(lower, CloseTag, |lower|)
        case None => None
        case Some(bodyEnd) =>
          if bodyEnd >= bodyStart then Some((bodyStart, bodyEnd)) else None
  }

  /** No `<body` begins before `p`. */
  predicate NoOpenBefore(lower: string, p: nat)
  {
    forall q: nat :: q < p ==> !IsAt(lower, OpenTag, q)
  }

  /** `p` is where the first `<body` of `lower` begins. */
  predicate FirstOpenAt(lower: string, p: nat)
  {
    IsAt(lower, OpenTag, p) && NoOpenBefore(lower, p)
  }

  /** `g` is the first `>` at or after `p`. */
  predicate FirstGtFrom(lower: string, p: nat, g: nat)
  {
    p <= g < |lower| && lower[g] == '>' && forall k :: p <= k < g ==> lower[k] != '>'
  }

  /** No `</body>` begins after `e`. */
  predicate NoCloseAfter(lower: string, e: nat)
  {
    forall q: nat :: e < q < |lower| ==> !IsAt(lower, CloseTag, q)
  }

  /** `e` is where the last `</body>` of `lower` begins. */
  predicate LastCloseAt(lower: string, e: nat)
  {
    IsAt(lower, CloseTag, e) && NoCloseAfter(lower, e)
  }

  /** The three places `extract_body` looks for in `lower`: the first
      `<body` at `p`, the first `>` from there on at `g`, and the last
      `</body>` at `e`. */
  predicate TagsAt(lower: string, p: nat, g: nat, e: nat)
  {
    FirstOpenAt(lower, p) && FirstGtFrom(lower, p, g) && LastCloseAt(lower, e)
  }

  /** There is nothing to cut: one of the three places is missing, or the
      last `</body>` begins before the `>` that closes the first `<body`. */
  ghost predicate NoBodyIn(lower: string)
  {
    forall p: nat, g: nat, e: nat :: TagsAt(lower, p, g, e) ==> e < g + 1
  }

  /** `find("<body")` stops at the first `<body`. */
  lemma FindOpenTag(lower: string, p: nat)
    requires FirstOpenAt(lower, p)
    ensures FindFrom(lower, OpenTag, 0) == Some(p)
  {
    var r := FindFrom(lower, OpenTag, 0);
    assert r.Some?;
  }

  /** Searching the text from `p` on for `>` stops at the first one. */
  lemma FindGt(lower: string, p: nat, g: nat)
    requires FirstGtFrom(lower, p, g)
    ensures IndexOf(lower[p..], '>') == Some(g - p)
  {
    assert forall k :: 0 <= k < g - p ==> lower[p..][k] == lower[p + k];
    IndexOfFirst(lower[p..], '>', g - p);
  }

  /** `rfind("</body>")` stops at the last `</body>`. */
  lemma FindCloseTag(lower: string, e: nat)
    requires LastCloseAt(lower, e)
    ensures RFindBefore(lower, CloseTag, |lower|) == Some(e)
  {
    var r := RFindBefore(lower, CloseTag, |lower|);
    assert r.Some?;
  }

  /** The range from the three places: it runs from just past the `>` to
      the last `</body>`, and there is none when the `</body>` comes first. */
  lemma TagsAtRange(lower: string, p: nat, g: nat, e: nat)
    requires TagsAt(lower, p, g, e)
    ensures BodyRange(lower) == if g + 1 <= e then Some((g + 1, e)) else None
  {
    FindOpenTag(lower, p);
    FindGt(lower, p, g);
    FindCloseTag(lower, e);
  }

  /** A range found comes from the three places. */
  lemma RangeTags(lower: string) returns (p: nat, g: nat, e: nat)
    requires BodyRange(lower).Some?
    ensures TagsAt(lower, p, g, e) && g + 1 <= e
  {
    p := FindFrom(lower, OpenTag, 0).value;
    g := p + IndexOf(lower[p..], '>').value;
    e := RFindBefore(lower, CloseTag, |lower|).value;
    assert forall k :: p <= k < g ==> lower[k] == lower[p..][k - p];
  }

  /** `BodyRange` finds nothing exactly when one of the three places is
      missing or the last `</body>` begins before the `>` that closes the
      first `<body`; otherwise it finds the text between them. */
  lemma BodyRangeSpec(lower: string)
    ensures BodyRange(lower).None? <==> NoBodyIn(lower)
    ensures forall p: nat, g: nat, e: nat :: TagsAt(lower, p, g, e) && g + 1 <= e ==>
      BodyRange(lower) == Some((g + 1, e))
  {
    forall p: nat, g: nat, e: nat | TagsAt(lower, p, g, e)
      ensures BodyRange(lower) == if g + 1 <= e then Some((g + 1, e)) else None
    {
      TagsAtRange(lower, p, g, e);
    }
    if BodyRange(lower).Some? {
      var p, g, e := RangeTags(lower);
    }
  }

  /** Only U+0130 makes the lowercase text longer than the original. */
  lemma LongerLowerHasDottedI(html: string)
    ensures |ToLower(html)| > |html| ==> DottedCapitalI in html
  {
    ToLowerLength(html);
    CountPositive(html, DottedCapitalI);
  }

  /** `extract_body` as written: the range is found in the fully lowercased
      text and then cut from the original, which panics when the range ends
      past the original's end; that can only happen when the text holds
      U+0130, the one character whose lowercase is longer. */
  function ExtractBodyAsWritten(html: string): (r: BodyOutcome)
    ensures r == Returned(None) <==> NoBodyIn(ToLower(html))
    ensures forall p: nat, g: nat, e: nat :: TagsAt(ToLower(html), p, g, e) && g + 1 <= e ==>
      r == if e <= |html| then Returned(Some(html[g + 1..e])) else Panicked
    ensures r.Panicked? ==> DottedCapitalI in html
  {
    BodyRangeSpec(ToLower(html));
    match BodyRange(ToLower(html))
    case None => Returned(None)
    case Some((a, b)) =>
      if b <= |html| then Returned(Some(html[a..b]))
      else
        LongerLowerHasDottedI(html);
        Panicked
  }

  /** `extract_body` with ASCII lowercasing, which keeps every index of the
      lowercased text an index of the original: the text between the `>`
      closing the first `<body` and the last `</body>`, the tags matched
      without regard to case; nothing when a tag is missing or the last
      `</body>` comes before that `>`. */
  function ExtractBody(html: string): (r: Option<string>)
    ensures r.None? <==> NoBodyIn(FoldAscii(html))
    ensures forall p: nat, g: nat, e: nat :: TagsAt(FoldAscii(html), p, g, e) && g + 1 <= e ==>
      r == Some(html[g + 1..e])
    ensures r.Some? ==> |r.value| + 13 <= |html|
  {
    BodyRangeSpec(FoldAscii(html));
    match BodyRange(FoldAscii(html))
    case None => None
    case Some((a, b)) => Some(html[a..b])
  }

  /** Without U+0130 the code as written agrees with the corrected one. */
  lemma AsWrittenAgreesWithoutDottedI(html: string)
    requires forall i :: 0 <= i < |html| ==> html[i] != DottedCapitalI
    ensures ExtractBodyAsWritten(html) == Returned(ExtractBody(html))
  {
    ToLowerWithoutDottedI(html);
  }

  /** A text without ASCII capitals is its own ASCII lowercase. */
  lemma FoldAsciiKeeps(s: string)
    requires forall i :: 0 <= i < |s| ==> !('A' <= s[i] <= 'Z')
    ensures FoldAscii(s) == s
  {
  }

  /** A lowercased page: text, the opening tag with its attributes, the
      body, the closing tag, and more text. */
  function Page(pre: string, attrs: string, body: string, post: string): string
  {
    pre + OpenTag + attrs + ">" + body + CloseTag + post
  }

  /** The page's own tags are the three places when no `<body` begins
      before the opening tag, its attributes hold no `>`, and no `</body>`
      begins after the closing tag. */
  lemma PageTags(pre: string, attrs: string, body: string, post: string)
    requires NoOpenBefore(Page(pre, attrs, body, post), |pre|)
    requires '>' !in attrs
    requires NoCloseAfter(Page(pre, attrs, body, post), |pre| + 6 + |attrs| + |body|)
    ensures TagsAt(Page(pre, attrs, body, post), |pre|, |pre| + 5 + |attrs|, |pre| + 6 + |attrs| + |body|)
  {
    var lower := Page(pre, attrs, body, post);
    var p := |pre|;
    var g := p + 5 + |attrs|;
    var e := g + 1 + |body|;
    assert lower[p..p + 5] == OpenTag by {
      forall k | 0 <= k < 5 ensures lower[p + k] == OpenTag[k] {
      }
    }
    assert lower[g] == '>';
    forall k | p <= k < g ensures lower[k] != '>' {
      if k < p + 5 {
        assert lower[k] == OpenTag[k - p];
      } else {
        assert lower[k] == attrs[k - p - 5];
      }
    }
    assert lower[e..e + 7] == CloseTag by {
      forall k | 0 <= k < 7 ensures lower[e + k] == CloseTag[k] {
      }
    }
  }

  /** No `<body` begins before the opening tag when no `<` in `pre` is
      followed by `b`. */
  lemma NoOpenBeforeOf(pre: string, attrs: string, body: string, post: string)
    requires forall q :: 0 <= q && q + 1 < |pre| && pre[q] == '<' ==> pre[q + 1] != 'b'
    ensures NoOpenBefore(Page(pre, attrs, body, post), |pre|)
  {
    var lower := Page(pre, attrs, body, post);
    forall q: nat | q < |pre| ensures !IsAt(lower, OpenTag, q) {
      if q + 5 <= |lower| {
        var w := lower[q..q + 5];
        assert w[0] == pre[q];
        if pre[q] == '<' {
          if q + 1 < |pre| {
            assert w[1] == pre[q + 1];
          } else {
            assert w[1] == '<';
          }
        }
      }
    }
  }

  /** No `</body>` begins after the closing tag when no `</` in `post` is
      followed by `b`. */
  lemma NoCloseAfterOf(pre: string, attrs: string, body: string, post: string)
    requires forall q :: 0 <= q && q + 2 < |post| && post[q] == '<' && post[q + 1] == '/' ==>
      post[q + 2] != 'b'
    ensures NoCloseAfter(Page(pre, attrs, body, post), |pre| + 6 + |attrs| + |body|)
  {
    var lower := Page(pre, attrs, body, post);
    var e := |pre| + 6 + |attrs| + |body|;
    forall q: nat | e < q < |lower| ensures !IsAt(lower, CloseTag, q) {
      if q + 7 <= |lower| {
        var w := lower[q..q + 7];
        if q < e + 7 {
          assert w[0] == CloseTag[q - e];
        } else {
          var i := q - e - 7;
          assert w[0] == post[i] && w[1] == post[i + 1] && w[2] == post[i + 2];
        }
      }
    }
  }

  /** The range of a lowercased page `pre <body attrs> body </body> post`. */
  lemma BodyRangeOfPage(pre: string, attrs: string, body: string, post: string)
    requires NoOpenBefore(Page(pre, attrs, body, post), |pre|)
    requires '>' !in attrs
    requires NoCloseAfter(Page(pre, attrs, body, post), |pre| + 6 + |attrs| + |body|)
    ensures var a := |pre| + 6 + |attrs|;
      BodyRange(Page(pre, attrs, body, post)) == Some((a, a + |body|))
  {
    PageTags(pre, attrs, body, post);
    TagsAtRange(Page(pre, attrs, body, post), |pre|, |pre| + 5 + |attrs|, |pre| + 6 + |attrs| + |body|);
  }

  /** When the ASCII lowercase of `html` reads `pre<body attrs>body</body>post`,
      with no `<body` in front of the opening tag, no `>` inside it and no
      `</body>` after the closing tag, the result is the text of `html` at
      the place of `body` — the tags may be in any case. */
  lemma ExtractBodyOfPage(html: string, pre: string, attrs: string, body: string, post: string)
    requires FoldAscii(html) == Page(pre, attrs, body, post)
    requires NoOpenBefore(Page(pre, attrs, body, post), |pre|)
    requires '>' !in attrs
    requires NoCloseAfter(Page(pre, attrs, body, post), |pre| + 6 + |attrs| + |body|)
    ensures var a := |pre| + 6 + |attrs|;
      a + |body| <= |html| && ExtractBody(html) == Some(html[a..a + |body|])
  {
    var g := |pre| + 5 + |attrs|;
    PageTags(pre, attrs, body, post);
    ExtractBodyAtTags(html, |pre|, g, g + 1 + |body|);
  }

  /** The result, given the three places in the ASCII-lowercased text. */
  lemma ExtractBodyAtTags(html: string, p: nat, g: nat, e: nat)
    requires TagsAt(FoldAscii(html), p, g, e) && g + 1 <= e
    ensures e <= |html| && ExtractBody(html) == Some(html[g + 1..e])
  {
  }

  /** The cut text is the body itself when the page is already in lowercase. */
  lemma ExtractBodyOfLowercasePage(pre: string, attrs: string, body: string, post: string)
    requires NoOpenBefore(Page(pre, attrs, body, post), |pre|)
    requires '>' !in attrs
    requires NoCloseAfter(Page(pre, attrs, body, post), |pre| + 6 + |attrs| + |body|)
    requires var html := Page(pre, attrs, body, post);
      forall i :: 0 <= i < |html| ==> !('A' <= html[i] <= 'Z')
    ensures ExtractBody(Page(pre, attrs, body, post)) == Some(body)
  {
    var html := Page(pre, attrs, body, post);
    FoldAsciiKeeps(html);
    ExtractBodyOfPage(html, pre, attrs, body, post);
    BodyOfPage(pre, attrs, body, post);
  }

  /** `<html><body>x</body></html>` yields `x`. */
  lemma ExtractBodyOfHtmlPage()
    ensures ExtractBody("<html><body>x</body></html>") == Some("x")
  {
    var pre, post := "<html>", "</html>";
    assert Page(pre, "", "x", post) == "<html><body>x</body></html>";
    assert pre[1] == 'h' && post[2] == 'h';
    NoOpenBeforeOf(pre, "", "x", post);
    NoCloseAfterOf(pre, "", "x", post);
    ExtractBodyOfLowercasePage(pre, "", "x", post);
  }

  /** Where the body sits in a page. */
  lemma BodyOfPage(pre: string, attrs: string, body: string, post: string)
    ensures var a := |pre| + 6 + |attrs|;
      a + |body| <= |Page(pre, attrs, body, post)| && Page(pre, attrs, body, post)[a..a + |body|] == body
  {
    var html := (pre + OpenTag + attrs + ">") + body + (CloseTag + post);
    assert html == Page(pre, attrs, body, post);
    assert html[|pre + OpenTag + attrs + ">"|..][..|body|] == body;
  }

  /** `İ<body>x</body>`, as a page. */
  function DottedIPage(x: char): string
  {
    [DottedCapitalI] + OpenTag + ">" + [x] + CloseTag
  }

  /** The code as written cuts the range found in the fully lowercased text,
      when that range lies within the original. */
  lemma AsWrittenAt(html: string, a: nat, b: nat)
    requires BodyRange(ToLower(html)) == Some((a, b)) && b <= |html|
    ensures ExtractBodyAsWritten(html) == Returned(Some(html[a..b]))
  {
  }

  /** Lowercasing `İ<body>x</body>` gives `i̇<body>x</body>`, two characters
      in front of the tag. */
  lemma LowerDottedIPage(x: char)
    requires x != DottedCapitalI
    ensures ToLower(DottedIPage(x)) == Page(['i', CombiningDotAbove], [], [AsciiLower(x)], [])
  {
    var page := OpenTag + ">" + [x] + CloseTag;
    assert DottedIPage(x) == [DottedCapitalI] + page;
    ToLowerAppend([DottedCapitalI], page);
    ToLowerDottedI();
    NoDottedIInTagPage(x);
    ToLowerWithoutDottedI(page);
    FoldTagPage(x);
    PagePrefix(['i', CombiningDotAbove], [], [AsciiLower(x)], []);
  }

  /** U+0130 alone lowercases to two characters. */
  lemma ToLowerDottedI()
    ensures ToLower([DottedCapitalI]) == ['i', CombiningDotAbove]
  {
    assert ToLower([DottedCapitalI]) == ToLower([]) + LowerChar(DottedCapitalI);
  }

  /** Text in front of a page is its `pre`. */
  lemma PagePrefix(x: string, attrs: string, body: string, post: string)
    ensures x + Page([], attrs, body, post) == Page(x, attrs, body, post)
  {
    assert [] + OpenTag == OpenTag;
  }

  /** `<body>x</body>` holds no U+0130 unless `x` is one. */
  lemma NoDottedIInTagPage(x: char)
    requires x != DottedCapitalI
    ensures var page := OpenTag + ">" + [x] + CloseTag;
      forall i :: 0 <= i < |page| ==> page[i] != DottedCapitalI
  {
  }

  /** ASCII lowercasing `<body>x</body>` lowercases only `x`. */
  lemma FoldTagPage(x: char)
    ensures FoldAscii(OpenTag + ">" + [x] + CloseTag) == Page([], [], [AsciiLower(x)], [])
  {
  }

  /** In `İ<body>x</body>` the lowercase text is one character longer than
      the page, so the range found in it is off by one in the page: the code
      as written returns `<` where the body `x` is meant. */
  lemma DottedIShiftsBody(x: char)
    requires x != DottedCapitalI
    ensures ExtractBodyAsWritten(DottedIPage(x)) == Returned(Some("<"))
  {
    var html := DottedIPage(x);
    var dotted := ['i', CombiningDotAbove];
    var lx := [AsciiLower(x)];
    LowerDottedIPage(x);
    NoOpenBeforeOf(dotted, [], lx, []);
    NoCloseAfterOf(dotted, [], lx, []);
    BodyRangeOfPage(dotted, [], lx, []);
    AsWrittenAt(html, 8, 9);
    assert html[8..9] == "<";
  }

  /** With ASCII lowercasing the same page yields its body `x`. */
  lemma DottedIBodyCorrected(x: char)
    ensures ExtractBody(DottedIPage(x)) == Some([x])
  {
    var html := DottedIPage(x);
    var lx := [AsciiLower(x)];
    assert FoldAscii(html) == Page([DottedCapitalI], [], lx, []);
    NoOpenBeforeOf([DottedCapitalI], [], lx, []);
    NoCloseAfterOf([DottedCapitalI], [], lx, []);
    ExtractBodyOfPage(html, [DottedCapitalI], [], lx, []);
    assert html[7..8] == [x];
  }

  // ---------------------------------------------------------------------
  // count_stats
  // ---------------------------------------------------------------------

  /** Lines, words and characters of a document. */
  datatype Stats = Stats(lines: nat, words: nat, characters: nat)

  /** The pieces `str::lines` yields (before removing a trailing carriage
      return): the text split at newlines, without the empty piece a final
      newline leaves. */
  function LinePieces(s: string): seq<string>
  {
    if s == [] then []
    else
      var parts := Split(s, '\n');
      if parts[|parts| - 1] == [] then parts[..|parts| - 1] else parts
  }

  /** One line per newline, plus one for unterminated trailing text. */
  lemma LinePiecesCount(s: string)
    ensures |LinePieces(s)| == Count(s, '\n') + (if s != [] && s[|s| - 1] != '\n' then 1 else 0)
  {
    if s != [] {
      var parts := Split(s, '\n');
      SplitCount(s, '\n');
      SplitLastEmpty(s, '\n');
      if parts[|parts| - 1] == [] {
        assert |LinePieces(s)| == |parts| - 1;
      } else {
        assert |LinePieces(s)| == |parts|;
      }
    }
  }

  /** Index `i` starts a word: a non-whitespace character at the start or
      after whitespace. */
  predicate StartsWord(s: string, i: nat)
    requires i < |s|
  {
    !IsWhitespace(s[i]) && (i == 0 || IsWhitespace(s[i - 1]))
  }

  /** The number of items `str::split_whitespace` yields: the maximal runs
      of non-whitespace characters. */
  function WordCount(s: string): nat
  {
    if s == [] then 0
    else WordCount(s[..|s| - 1]) + (if StartsWord(s, |s| - 1) then 1 else 0)
  }

  /** A space between two texts separates their words. */
  lemma {:induction false} WordCountSpaced(a: string, c: string)
    ensures WordCount(a + " " + c) == WordCount(a) + WordCount(c)
    decreases |c|
  {
    var s := a + " " + c;
    if c == [] {
      assert s[..|s| - 1] == a;
    } else {
      var c' := c[..|c| - 1];
      assert s[..|s| - 1] == a + " " + c';
      WordCountSpaced(a, c');
      assert s[|s| - 1] == c[|c| - 1];
      if |c| > 1 {
        assert s[|s| - 2] == c[|c| - 2];
      }
    }
  }

  /** A non-empty run without whitespace is one word. */
  lemma {:induction false} WordCountOfWord(w: string)
    requires w != [] && forall i :: 0 <= i < |w| ==> !IsWhitespace(w[i])
    ensures WordCount(w) == 1
    decreases |w|
  {
    var init := w[..|w| - 1];
    if init == [] {
      assert WordCount(init) == 0;
    } else {
      WordCountOfWord(init);
    }
  }

  /** Words joined by single spaces count as themselves. */
  lemma {:induction false} WordCountJoin(words: seq<string>)
    requires forall k :: 0 <= k < |words| ==>
      words[k] != [] && forall i :: 0 <= i < |words[k]| ==> !IsWhitespace(words[k][i])
    ensures WordCount(Join(words, ' ')) == |words|
    decreases |words|
  {
    if |words| == 1 {
      WordCountOfWord(words[0]);
    } else if |words| > 1 {
      WordCountOfWord(words[0]);
      WordCountJoin(words[1..]);
      WordCountSpaced(words[0], Join(words[1..], ' '));
      assert Join(words, ' ') == words[0] + " " + Join(words[1..], ' ');
    }
  }

  /** A text has no words exactly when it is all whitespace. */
  lemma {:induction false} WordCountZero(s: string)
    ensures WordCount(s) == 0 <==> forall i :: 0 <= i < |s| ==> IsWhitespace(s[i])
    decreases |s|
  {
    if s != [] {
      var init := s[..|s| - 1];
      WordCountZero(init);
      if WordCount(init) > 0 {
        var i :| 0 <= i < |init| && !IsWhitespace(init[i]);
      }
    }
  }

  /** `count_stats`: lines as `str::lines` counts them, words as
      `split_whitespace` counts them, and characters. */
  function CountStats(content: string): (r: Stats)
    ensures r.lines == Count(content, '\n') + (if content != [] && content[|content| - 1] != '\n' then 1 else 0)
    ensures r.characters == |content|
    ensures r.words == 0 <==> forall i :: 0 <= i < |content| ==> IsWhitespace(content[i])
  {
    LinePiecesCount(content);
    WordCountZero(content);
    Stats(|LinePieces(content)|, WordCount(content), |content|)
  }
}
