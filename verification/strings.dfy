/** Character and string helpers shared by the table-of-contents engine and
    the fetch helpers: Rust's `char::is_whitespace`, `trim`, `find`/`rfind`
    on a single character, `split`, decimal formatting of `usize` and the
    UTF-8 length that `String::len` reports. Strings are sequences of
    Unicode scalar values. */
module Strings {
  import opened Wrappers

  /** Rust's `char::is_whitespace`: the Unicode White_Space property. */
  predicate IsWhitespace(c: char)
  {
    ('\U{9}' <= c <= '\U{D}') || c == ' ' || c == '\U{85}' || c == '\U{A0}'
    || c == '\U{1680}' || ('\U{2000}' <= c <= '\U{200A}') || c == '\U{2028}'
    || c == '\U{2029}' || c == '\U{202F}' || c == '\U{205F}' || c == '\U{3000}'
  }

  /** `str::trim_start`: drops every leading whitespace character. */
  function TrimStart(s: string): (r: string)
    ensures |r| <= |s| && r == s[|s| - |r|..]
    ensures r == [] || !IsWhitespace(r[0])
    ensures forall i :: 0 <= i < |s| - |r| ==> IsWhitespace(s[i])
  {
    if s != [] && IsWhitespace(s[0]) then TrimStart(s[1..]) else s
  }

  /** `str::trim_end`: drops every trailing whitespace character. */
  function TrimEnd(s: string): (r: string)
    ensures |r| <= |s| && r == s[..|r|]
    ensures r == [] || !IsWhitespace(r[|r| - 1])
    ensures forall i :: |r| <= i < |s| ==> IsWhitespace(s[i])
  {
    if s != [] && IsWhitespace(s[|s| - 1]) then TrimEnd(s[..|s| - 1]) else s
  }

  /** A string with no whitespace at either end. */
  predicate Trimmed(s: string)
  {
    s == [] || (!IsWhitespace(s[0]) && !IsWhitespace(s[|s| - 1]))
  }

  /** `str::trim`: drops whitespace at both ends; the result is empty
      exactly when `s` is all whitespace. */
  function Trim(s: string): (r: string)
    ensures Trimmed(r) && |r| <= |s|
    ensures r == [] <==> forall i :: 0 <= i < |s| ==> IsWhitespace(s[i])
  {
    var t := TrimStart(s);
    var r := TrimEnd(t);
    assert t != [] ==> r != [];
    r
  }

  /** Number of occurrences of `c` in `s` (`chars().filter(..).count()`). */
  function Count(s: string, c: char): nat
  {
    if s == [] then 0 else Count(s[..|s| - 1], c) + (if s[|s| - 1] == c then 1 else 0)
  }

  lemma {:induction false} CountAppend(a: string, b: string, c: char)
    ensures Count(a + b, c) == Count(a, c) + Count(b, c)
    decreases |b|
  {
    if b == [] {
      assert a + b == a;
    } else {
      var b' := b[..|b| - 1];
      assert (a + b)[..|a + b| - 1] == a + b';
      CountAppend(a, b', c);
    }
  }

  /** Counting over `s[..j]` splits at any `i <= j`. */
  /** A character counted at least once occurs in the text. */
  lemma {:induction false} CountPositive(s: string, c: char)
    ensures Count(s, c) > 0 ==> c in s
    decreases |s|
  {
    if s != [] && s[|s| - 1] != c {
      var init := s[..|s| - 1];
      CountPositive(init, c);
      if c in init {
        var i :| 0 <= i < |init| && init[i] == c;
        assert s[i] == c;
      }
    }
  }

  lemma CountSplit(s: string, i: nat, j: nat, c: char)
    requires i <= j <= |s|
    ensures Count(s[..j], c) == Count(s[..i], c) + Count(s[i..j], c)
  {
    assert s[..j] == s[..i] + s[i..j];
    CountAppend(s[..i], s[i..j], c);
  }

  /** Bytes needed to encode `c` in UTF-8. */
  function Utf8Width(c: char): (n: nat)
    ensures 1 <= n <= 4
  {
    if c as int < 0x80 then 1
    else if c as int < 0x800 then 2
    else if c as int < 0x1_0000 then 3
    else 4
  }

  /** `String::len`: the length of the UTF-8 encoding of `s`, in bytes. */
  function Utf8Len(s: string): nat
  {
    if s == [] then 0 else Utf8Len(s[..|s| - 1]) + Utf8Width(s[|s| - 1])
  }

  lemma {:induction false} Utf8LenAppend(a: string, b: string)
    ensures Utf8Len(a + b) == Utf8Len(a) + Utf8Len(b)
    decreases |b|
  {
    if b == [] {
      assert a + b == a;
    } else {
      var b' := b[..|b| - 1];
      assert (a + b)[..|a + b| - 1] == a + b';
      Utf8LenAppend(a, b');
    }
  }

  /** ASCII text takes one byte per character. */
  lemma {:induction false} Utf8LenAscii(s: string)
    requires forall i :: 0 <= i < |s| ==> s[i] as int < 0x80
    ensures Utf8Len(s) == |s|
  {
    if s != [] {
      Utf8LenAscii(s[..|s| - 1]);
    }
  }

  /** Every character needs at least one byte, so a non-empty string has a
      non-zero byte length. */
  lemma {:induction false} Utf8LenBounds(s: string)
    ensures |s| <= Utf8Len(s) <= 4 * |s|
  {
    if s != [] {
      Utf8LenBounds(s[..|s| - 1]);
    }
  }

  /** `str::find` for one character: the first index holding `c`. */
  function IndexOf(s: string, c: char): (r: Option<nat>)
    ensures r.None? ==> forall i :: 0 <= i < |s| ==> s[i] != c
    ensures r.Some? ==>
      r.value < |s| && s[r.value] == c && forall i :: 0 <= i < r.value ==> s[i] != c
  {
    if s == [] then None
    else if s[0] == c then Some(0)
    else match IndexOf(s[1..], c)
      case None => None
      case Some(i) => Some(i + 1)
  }

  /** `find` reports the first position of a character. */
  lemma IndexOfFirst(s: string, c: char, g: nat)
    requires g < |s| && s[g] == c
    requires forall k :: 0 <= k < g ==> s[k] != c
    ensures IndexOf(s, c) == Some(g)
  {
    var r := IndexOf(s, c);
    assert r.Some? && r.value >= g;
  }

  /** `str::rfind` for one character: the last index holding `c`. */
  function LastIndexOf(s: string, c: char): (r: Option<nat>)
    ensures r.None? ==> forall i :: 0 <= i < |s| ==> s[i] != c
    ensures r.Some? ==>
      r.value < |s| && s[r.value] == c && forall i :: r.value < i < |s| ==> s[i] != c
  {
    if s == [] then None
    else if s[|s| - 1] == c then Some(|s| - 1)
    else LastIndexOf(s[..|s| - 1], c)
  }

  /** `str::split` on one character: the pieces between occurrences of `d`,
      empty pieces included. */
  function Split(s: string, d: char): (parts: seq<string>)
    ensures |parts| >= 1
    ensures forall i :: 0 <= i < |parts| ==> d !in parts[i]
    decreases |s|
  {
    match IndexOf(s, d)
    case None => [s]
    case Some(i) => [s[..i]] + Split(s[i + 1..], d)
  }

  /** The inverse of `Split`: the pieces separated by `d`. */
  function Join(parts: seq<string>, d: char): string
  {
    if |parts| == 0 then ""
    else if |parts| == 1 then parts[0]
    else parts[0] + [d] + Join(parts[1..], d)
  }

  /** Splitting on `d` loses nothing: joining the pieces gives the string back. */
  lemma {:induction false} JoinSplit(s: string, d: char)
    ensures Join(Split(s, d), d) == s
    decreases |s|
  {
    match IndexOf(s, d)
    case None =>
    case Some(i) =>
      var rest := s[i + 1..];
      var ps := Split(rest, d);
      var all := [s[..i]] + ps;
      assert Split(s, d) == all;
      JoinSplit(rest, d);
      assert all[0] == s[..i] && all[1..] == ps && |all| > 1;
      assert Join(all, d) == s[..i] + [d] + Join(ps, d);
      assert s == s[..i] + [d] + rest;
  }

  /** The first `d` of `a + [d] + rest`, when `a` has none, is right after `a`. */
  lemma IndexOfAfter(a: string, d: char, rest: string)
    requires d !in a
    ensures IndexOf(a + [d] + rest, d) == Some(|a|)
  {
    var s := a + [d] + rest;
    assert s[|a|] == d;
    forall i | 0 <= i < |a| ensures s[i] != d {
      assert s[i] == a[i];
    }
  }

  /** Joining pieces free of `d` and splitting again gives the pieces back. */
  lemma {:induction false} SplitJoin(parts: seq<string>, d: char)
    requires |parts| >= 1
    requires forall i :: 0 <= i < |parts| ==> d !in parts[i]
    ensures Split(Join(parts, d), d) == parts
    decreases |parts|
  {
    var a := parts[0];
    assert d !in a;
    if |parts| == 1 {
      assert Join(parts, d) == a;
      assert IndexOf(a, d) == None;
    } else {
      var tail := parts[1..];
      var rest := Join(tail, d);
      var s := a + [d] + rest;
      assert Join(parts, d) == s;
      IndexOfAfter(a, d, rest);
      assert s[..|a|] == a && s[|a| + 1..] == rest;
      assert Split(s, d) == [a] + Split(rest, d);
      SplitJoin(tail, d);
      assert parts == [a] + tail;
    }
  }

  /** Appending one more piece to a join. */
  lemma {:induction false} JoinSnoc(parts: seq<string>, p: string, d: char)
    requires |parts| >= 1
    ensures Join(parts + [p], d) == Join(parts, d) + [d] + p
    decreases |parts|
  {
    if |parts| > 1 {
      assert (parts + [p])[1..] == parts[1..] + [p];
      JoinSnoc(parts[1..], p, d);
    }
  }

  function Pow10(k: nat): (p: nat)
    ensures p >= 1
  {
    if k == 0 then 1 else 10 * Pow10(k - 1)
  }

  /** The ASCII digit for `d < 10`. */
  function DigitChar(d: nat): (c: char)
    requires d < 10
    ensures '0' <= c <= '9'
  {
    ['0', '1', '2', '3', '4', '5', '6', '7', '8', '9'][d]
  }

  /** Decimal rendering of a `usize` (`{}` in a format string), no leading zeros. */
  function NatToString(n: nat): (r: string)
    ensures |r| >= 1
    ensures forall i :: 0 <= i < |r| ==> '0' <= r[i] <= '9'
    ensures (|r| > 1) == (n >= 10)
  {
    if n < 10 then [DigitChar(n)] else NatToString(n / 10) + [DigitChar(n % 10)]
  }

  /** Number of decimal digits of `n`. */
  function NumDigits(n: nat): nat
  {
    |NatToString(n)|
  }

  /** The digit count is floor(log10 n) + 1: `n` lies between the matching
      powers of ten. */
  lemma {:induction false} NumDigitsBounds(n: nat)
    ensures NumDigits(n) >= 1
    ensures n < Pow10(NumDigits(n))
    ensures n >= 1 ==> Pow10(NumDigits(n) - 1) <= n
  {
    if n >= 10 {
      NumDigitsBounds(n / 10);
    }
  }

  /** A value below `10^k` has at most `k` digits. */
  lemma NumDigitsAtMost(n: nat, k: nat)
    requires 1 <= k && n < Pow10(k)
    ensures NumDigits(n) <= k
  {
    NumDigitsBounds(n);
    if NumDigits(n) > k {
      Pow10Monotone(k, NumDigits(n) - 1);
    }
  }

  /** A value of at least `10^k` has more than `k` digits. */
  lemma {:induction false} NumDigitsAtLeast(n: nat, k: nat)
    requires Pow10(k) <= n
    ensures NumDigits(n) > k
    decreases k
  {
    if k > 0 {
      NumDigitsAtLeast(n / 10, k - 1);
      assert NatToString(n) == NatToString(n / 10) + [DigitChar(n % 10)];
    }
  }

  /** More is never written with fewer digits. */
  lemma NumDigitsMonotone(a: nat, b: nat)
    requires a <= b
    ensures NumDigits(a) <= NumDigits(b)
  {
    NumDigitsBounds(b);
    NumDigitsAtMost(a, NumDigits(b));
  }

  lemma {:induction false} Pow10Monotone(a: nat, b: nat)
    requires a <= b
    ensures Pow10(a) <= Pow10(b)
    decreases b
  {
    if a < b {
      Pow10Monotone(a, b - 1);
    }
  }

  /** `n` spaces. */
  function Spaces(n: nat): (r: string)
    ensures |r| == n && forall i :: 0 <= i < n ==> r[i] == ' '
  {
    if n == 0 then "" else Spaces(n - 1) + " "
  }

  /** Right-justification as `{:>width$}` does it: spaces in front up to
      `width` characters; a longer string is never cut. */
  function PadLeft(s: string, width: nat): string
  {
    if |s| >= width then s else Spaces(width - |s|) + s
  }

  /** The padded string is `width` long (or `s` itself when longer), ends
      with `s`, and has only spaces before it. */
  lemma PadLeftShape(s: string, width: nat)
    ensures var r := PadLeft(s, width);
      && |r| == (if |s| >= width then |s| else width)
      && r[|r| - |s|..] == s
      && forall i :: 0 <= i < |r| - |s| ==> r[i] == ' '
  {
  }

  /** `str::ends_with`. */
  predicate EndsWith(s: string, suffix: string)
  {
    |suffix| <= |s| && s[|s| - |suffix|..] == suffix
  }

  /** `pat` occurs in `s` starting at index `i`. */
  predicate IsAt(s: string, pat: string, i: nat)
  {
    i + |pat| <= |s| && s[i..i + |pat|] == pat
  }

  /** `str::find` with a string pattern, starting the search at `k`: the
      first index at or after `k` where `pat` occurs. */
  function FindFrom(s: string, pat: string, k: nat): (r: Option<nat>)
    ensures r.None? ==> forall i :: k <= i ==> !IsAt(s, pat, i)
    ensures r.Some? ==>
      k <= r.value && IsAt(s, pat, r.value)
      && forall i :: k <= i < r.value ==> !IsAt(s, pat, i)
    decreases |s| - k
  {
    if k + |pat| > |s| then None
    else if s[k..k + |pat|] == pat then Some(k)
    else FindFrom(s, pat, k + 1)
  }

  /** `str::rfind` with a string pattern, among start indices below `k`:
      the last index before `k` where `pat` occurs. */
  function RFindBefore(s: string, pat: string, k: nat): (r: Option<nat>)
    ensures r.None? ==> forall i :: 0 <= i < k ==> !IsAt(s, pat, i)
    ensures r.Some? ==>
      r.value < k && IsAt(s, pat, r.value)
      && forall i :: r.value < i < k ==> !IsAt(s, pat, i)
  {
    if k == 0 then None
    else if IsAt(s, pat, k - 1) then Some(k - 1)
    else RFindBefore(s, pat, k - 1)
  }

  /** `str::trim_start_matches` with one character. */
  function TrimStartMatches(s: string, c: char): (r: string)
    ensures |r| <= |s| && r == s[|s| - |r|..]
    ensures r == [] || r[0] != c
    ensures forall i :: 0 <= i < |s| - |r| ==> s[i] == c
  {
    if s != [] && s[0] == c then TrimStartMatches(s[1..], c) else s
  }

  /** `str::trim_end_matches` with one character. */
  function TrimEndMatches(s: string, c: char): (r: string)
    ensures |r| <= |s| && r == s[..|r|]
    ensures r == [] || r[|r| - 1] != c
    ensures forall i :: |r| <= i < |s| ==> s[i] == c
  {
    if s != [] && s[|s| - 1] == c then TrimEndMatches(s[..|s| - 1], c) else s
  }

  /** `split` yields one more piece than there are separators. */
  lemma {:induction false} SplitCount(s: string, d: char)
    ensures |Split(s, d)| == Count(s, d) + 1
    decreases |s|
  {
    match IndexOf(s, d)
    case None =>
      CountAbsent(s, d);
    case Some(i) =>
      var rest := s[i + 1..];
      assert s == s[..i] + [d] + rest;
      CountAbsent(s[..i], d);
      CountAppend(s[..i] + [d], rest, d);
      CountAppend(s[..i], [d], d);
      SplitCount(rest, d);
  }

  /** A string without `c` counts no `c`. */
  lemma {:induction false} CountAbsent(s: string, c: char)
    requires c !in s
    ensures Count(s, c) == 0
    decreases |s|
  {
    if s != [] {
      assert c !in s[..|s| - 1];
      CountAbsent(s[..|s| - 1], c);
    }
  }

  /** The last piece of `split` is empty exactly when the string is empty or
      ends with the separator. */
  lemma {:induction false} SplitLastEmpty(s: string, d: char)
    ensures var parts := Split(s, d);
      parts[|parts| - 1] == [] <==> (s == [] || s[|s| - 1] == d)
    decreases |s|
  {
    var parts := Split(s, d);
    match IndexOf(s, d)
    case None =>
      assert parts == [s];
    case Some(i) =>
      var rest := s[i + 1..];
      var ps := Split(rest, d);
      SplitLastEmpty(rest, d);
      assert parts == [s[..i]] + ps;
      assert parts[|parts| - 1] == ps[|ps| - 1];
      if rest != [] {
        assert s[|s| - 1] == rest[|rest| - 1];
      }
  }

}
