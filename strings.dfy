/**
 * The JavaScript string operations the site's path, search and label code relies on,
 * with their ECMAScript meaning: `split` on one separator character, `join`,
 * `filter(Boolean)` on the parts, `replace` of a literal string (first occurrence only),
 * `trim`, the regular-expression character classes `\s`, `\w` and the line terminators,
 * and number-to-string conversion.
 */
module Strings {
  import opened Wrappers

  // ---------------------------------------------------------------------------
  // Character classes
  // ---------------------------------------------------------------------------

  /** ECMAScript `\s`: the WhiteSpace and LineTerminator code points. */
  predicate IsSpace(c: char) {
    c == '\t' || c == '\n' || c == '\U{B}' || c == '\U{C}' || c == '\r' || c == ' '
    || c == '\U{A0}' || c == '\U{1680}' || ('\U{2000}' <= c <= '\U{200A}')
    || c == '\U{2028}' || c == '\U{2029}' || c == '\U{202F}' || c == '\U{205F}'
    || c == '\U{3000}' || c == '\U{FEFF}'
  }

  /** ECMAScript LineTerminator: what `.` refuses and what `^`/`$` see in multiline mode. */
  predicate IsLineTerminator(c: char) {
    c == '\n' || c == '\r' || c == '\U{2028}' || c == '\U{2029}'
  }

  /** ECMAScript `\w`. */
  predicate IsWordChar(c: char) {
    ('a' <= c <= 'z') || ('A' <= c <= 'Z') || ('0' <= c <= '9') || c == '_'
  }

  /** The regex class `[A-Z]`. */
  predicate IsUpper(c: char) {
    'A' <= c <= 'Z'
  }

  predicate IsDigit(c: char) {
    '0' <= c <= '9'
  }

  predicate IsSlash(c: char) {
    c == '/'
  }

  /** `toUpperCase` on a `\w` character: only a-z change. */
  function ToUpper(c: char): (u: char)
    ensures ('a' <= c <= 'z') ==> 'A' <= u <= 'Z' && u as int == c as int - 32
    ensures !('a' <= c <= 'z') ==> u == c
  {
    if 'a' <= c <= 'z' then (c as int - 32) as char else c
  }

  predicate NoChar(s: string, c: char) {
    forall i :: 0 <= i < |s| ==> s[i] != c
  }

  // ---------------------------------------------------------------------------
  // Prefixes and suffixes
  // ---------------------------------------------------------------------------

  predicate StartsWith(s: string, prefix: string) {
    |prefix| <= |s| && s[..|prefix|] == prefix
  }

  predicate EndsWith(s: string, suffix: string) {
    |suffix| <= |s| && s[|s| - |suffix|..] == suffix
  }

  // ---------------------------------------------------------------------------
  // split / join / filter(Boolean)
  // ---------------------------------------------------------------------------

  /** `s.split(sep)` for a one-character separator: never empty, `"".split(sep) == [""]`. */
  function Split(s: string, sep: char): (parts: seq<string>)
    ensures |parts| >= 1
    ensures forall i :: 0 <= i < |parts| ==> NoChar(parts[i], sep)
    decreases |s|
  {
    if |s| == 0 then [""]
    else
      var rest := Split(s[1..], sep);
      if s[0] == sep then [""] + rest
      else [[s[0]] + rest[0]] + rest[1..]
  }

  /** `parts.join(sep)`. */
  function Join(parts: seq<string>, sep: char): string
    decreases |parts|
  {
    if |parts| == 0 then ""
    else if |parts| == 1 then parts[0]
    else parts[0] + [sep] + Join(parts[1..], sep)
  }

  /** `parts.filter(Boolean)`: drops the empty strings, keeps the order. */
  function NonEmpty(parts: seq<string>): (r: seq<string>)
    ensures |r| <= |parts|
    ensures forall i :: 0 <= i < |r| ==> r[i] != "" && r[i] in parts
    decreases |parts|
  {
    if |parts| == 0 then []
    else (if parts[0] == "" then [] else [parts[0]]) + NonEmpty(parts[1..])
  }

  /** `path.split("/").filter(Boolean)`: the non-empty path segments, in order. */
  function Segments(path: string): (segs: seq<string>)
    ensures forall i :: 0 <= i < |segs| ==> segs[i] != "" && NoChar(segs[i], '/')
  {
    NonEmpty(Split(path, '/'))
  }

  lemma {:induction false} JoinCons(x: string, rest: seq<string>, sep: char)
    ensures Join([x] + rest, sep) == if |rest| == 0 then x else x + [sep] + Join(rest, sep)
  {
    assert ([x] + rest)[1..] == rest;
  }

  /** Joining the parts of a split gives back the string. */
  lemma {:induction false} JoinSplit(s: string, sep: char)
    ensures Join(Split(s, sep), sep) == s
    decreases |s|
  {
    if |s| > 0 {
      var rest := Split(s[1..], sep);
      JoinSplit(s[1..], sep);
      if s[0] == sep {
        JoinCons("", rest, sep);
        assert s == [sep] + s[1..];
      } else {
        JoinCons([s[0]] + rest[0], rest[1..], sep);
        JoinCons(rest[0], rest[1..], sep);
        assert rest == [rest[0]] + rest[1..];
        assert s == [s[0]] + s[1..];
      }
    }
  }

  /** Joining with one more part at the end. */
  lemma {:induction false} JoinSnoc(xs: seq<string>, x: string, sep: char)
    ensures Join(xs + [x], sep) == if |xs| == 0 then x else Join(xs, sep) + [sep] + x
    decreases |xs|
  {
    if |xs| == 0 {
      assert xs + [x] == [x];
    } else {
      JoinSnoc(xs[1..], x, sep);
      assert xs + [x] == [xs[0]] + (xs[1..] + [x]);
      JoinCons(xs[0], xs[1..] + [x], sep);
      JoinCons(xs[0], xs[1..], sep);
      assert xs == [xs[0]] + xs[1..];
    }
  }

  /** Text appended to a join lands on its last part. */
  lemma JoinExtendLast(xs: seq<string>, x: string, suffix: string, sep: char)
    ensures Join(xs + [x], sep) + suffix == Join(xs + [x + suffix], sep)
  {
    JoinSnoc(xs, x, sep);
    JoinSnoc(xs, x + suffix, sep);
    if |xs| > 0 {
      Regroup3(Join(xs, sep), [sep], x, suffix);
    }
  }

  lemma Regroup3(a: string, b: string, c: string, d: string)
    ensures a + b + c + d == a + b + (c + d)
  {
  }

  /** A string without the separator splits into itself alone. */
  lemma {:induction false} SplitNoSep(s: string, sep: char)
    requires NoChar(s, sep)
    ensures Split(s, sep) == [s]
    decreases |s|
  {
    if |s| > 0 {
      SplitNoSep(s[1..], sep);
      assert [s[0]] + s[1..] == s;
    }
  }

  /** Splitting distributes over a separator: `(a + sep + b).split(sep) == a.split(sep) + b.split(sep)`. */
  lemma {:induction false} SplitAtSep(a: string, b: string, sep: char)
    ensures Split(a + [sep] + b, sep) == Split(a, sep) + Split(b, sep)
    decreases |a|
  {
    var s := a + [sep] + b;
    if |a| == 0 {
      assert s[1..] == b;
    } else {
      assert s[1..] == a[1..] + [sep] + b;
      SplitAtSep(a[1..], b, sep);
    }
  }

  /** Splitting a join of separator-free parts gives back the parts. */
  lemma {:induction false} SplitJoin(parts: seq<string>, sep: char)
    requires |parts| >= 1
    requires forall i :: 0 <= i < |parts| ==> NoChar(parts[i], sep)
    ensures Split(Join(parts, sep), sep) == parts
    decreases |parts|
  {
    if |parts| == 1 {
      SplitNoSep(parts[0], sep);
    } else {
      SplitJoin(parts[1..], sep);
      SplitNoSep(parts[0], sep);
      SplitAtSep(parts[0], Join(parts[1..], sep), sep);
      assert parts == [parts[0]] + parts[1..];
    }
  }

  lemma {:induction false} NonEmptyConcat(a: seq<string>, b: seq<string>)
    ensures NonEmpty(a + b) == NonEmpty(a) + NonEmpty(b)
    decreases |a|
  {
    if |a| > 0 {
      var h := if a[0] == "" then [] else [a[0]];
      NonEmptyConcat(a[1..], b);
      assert NonEmpty(a + b) == h + NonEmpty(a[1..] + b) by {
        assert (a + b)[0] == a[0];
        assert (a + b)[1..] == a[1..] + b;
      }
      AppendAssoc(h, NonEmpty(a[1..]), NonEmpty(b));
    } else {
      assert a + b == b;
    }
  }

  lemma AppendAssoc<T>(a: seq<T>, b: seq<T>, c: seq<T>)
    ensures a + b + c == a + (b + c)
  {
  }

  lemma {:induction false} NonEmptyOfNonEmpty(parts: seq<string>)
    requires forall i :: 0 <= i < |parts| ==> parts[i] != ""
    ensures NonEmpty(parts) == parts
    decreases |parts|
  {
    if |parts| > 0 {
      NonEmptyOfNonEmpty(parts[1..]);
      assert parts == [parts[0]] + parts[1..];
    }
  }

  /** The segments of `a + "/" + b` are those of `a` followed by those of `b`. */
  lemma SegmentsAtSlash(a: string, b: string)
    ensures Segments(a + "/" + b) == Segments(a) + Segments(b)
  {
    SplitAtSep(a, b, '/');
    NonEmptyConcat(Split(a, '/'), Split(b, '/'));
  }

  /** A leading slash adds no segment. */
  lemma SegmentsLeadingSlash(b: string)
    ensures Segments("/" + b) == Segments(b)
  {
    SegmentsAtSlash("", b);
    assert "" + "/" + b == "/" + b;
  }

  /** Re-splitting joined segments gives the same segments. */
  lemma SegmentsJoin(parts: seq<string>)
    requires forall i :: 0 <= i < |parts| ==> parts[i] != "" && NoChar(parts[i], '/')
    ensures Segments(Join(parts, '/')) == parts
  {
    if |parts| > 0 {
      SplitJoin(parts, '/');
      NonEmptyOfNonEmpty(parts);
    }
  }

  /** A non-empty, slash-free string is a single segment. */
  lemma SegmentsOfName(x: string)
    requires x != "" && NoChar(x, '/')
    ensures Segments(x) == [x]
  {
    SplitNoSep(x, '/');
  }

  // ---------------------------------------------------------------------------
  // Literal search and String.prototype.replace(string, string)
  // ---------------------------------------------------------------------------

  predicate OccursAt(s: string, pat: string, i: int) {
    0 <= i && i + |pat| <= |s| && s[i..i + |pat|] == pat
  }

  predicate FirstOccurrence(s: string, pat: string, i: int) {
    OccursAt(s, pat, i) && forall j :: 0 <= j < i ==> !OccursAt(s, pat, j)
  }

  /** The first index at or after `from` where `pat` occurs in `s` (`indexOf(pat, from)`). */
  function IndexOfFrom(s: string, pat: string, from: nat): (r: Option<nat>)
    ensures r.Some? ==> from <= r.value && OccursAt(s, pat, r.value)
    ensures r.Some? ==> forall j :: from <= j < r.value ==> !OccursAt(s, pat, j)
    ensures r.None? ==> forall j :: from <= j ==> !OccursAt(s, pat, j)
    decreases |s| - from
  {
    if from + |pat| > |s| then None
    else if s[from..from + |pat|] == pat then Some(from)
    else IndexOfFrom(s, pat, from + 1)
  }

  /**
   * `s.replace(pat, rep)` with a literal pattern: only the first occurrence is replaced,
   * and a string without the pattern is returned unchanged. (The replacement is taken
   * literally: `$`-patterns in it are not modelled.)
   */
  function ReplaceFirst(s: string, pat: string, rep: string): (r: string)
    ensures (forall j :: !OccursAt(s, pat, j)) ==> r == s
    ensures forall i :: FirstOccurrence(s, pat, i) ==> r == s[..i] + rep + s[i + |pat|..]
  {
    match IndexOfFrom(s, pat, 0)
    case None => s
    case Some(i) => s[..i] + rep + s[i + |pat|..]
  }

  /** A pattern cannot start inside a prefix that lacks the pattern's first character. */
  lemma NoOccurrenceIn(a: string, rest: string, pat: string)
    requires |pat| > 0 && NoChar(a, pat[0])
    ensures forall j :: 0 <= j < |a| ==> !OccursAt(a + rest, pat, j)
  {
    forall j | 0 <= j < |a|
      ensures !OccursAt(a + rest, pat, j)
    {
      assert (a + rest)[j] == a[j];
    }
  }

  /** Replacing in `a + pat + b`, where `a` holds no occurrence, gives `a + rep + b`. */
  lemma ReplaceFirstAt(a: string, pat: string, b: string, rep: string)
    requires forall j :: 0 <= j < |a| ==> !OccursAt(a + pat + b, pat, j)
    ensures ReplaceFirst(a + pat + b, pat, rep) == a + rep + b
  {
    var s := a + pat + b;
    assert s[|a|..|a| + |pat|] == pat;
    assert FirstOccurrence(s, pat, |a|);
    assert s[..|a|] == a && s[|a| + |pat|..] == b;
  }

  /** Replacing in `a + pat + b`, where `a` lacks the pattern's first character. */
  lemma ReplaceFirstAfter(a: string, pat: string, b: string, rep: string)
    requires |pat| > 0 && NoChar(a, pat[0])
    ensures ReplaceFirst(a + pat + b, pat, rep) == a + rep + b
  {
    NoOccurrenceIn(a, pat + b, pat);
    assert a + (pat + b) == a + pat + b;
    ReplaceFirstAt(a, pat, b, rep);
  }

  lemma Regroup(a: string, b: string, c: string, d: string, e: string)
    ensures a + b + (c + d + e) == (a + b + c) + d + e
  {
  }

  /** Two successive first-occurrence replacements, each pattern's first character absent before it. */
  lemma ReplaceTwice(a: string, p1: string, b: string, p2: string, c: string, r1: string, r2: string)
    requires |p1| > 0 && |p2| > 0
    requires NoChar(a, p1[0]) && NoChar(a + r1 + b, p2[0])
    ensures ReplaceFirst(ReplaceFirst(a + p1 + (b + p2 + c), p1, r1), p2, r2) == a + r1 + b + r2 + c
  {
    ReplaceFirstAfter(a, p1, b + p2 + c, r1);
    Regroup(a, r1, b, p2, c);
    ReplaceFirstAfter(a + r1 + b, p2, c, r2);
  }

  // ---------------------------------------------------------------------------
  // Trimming
  // ---------------------------------------------------------------------------

  /** Drops the longest prefix all of whose characters satisfy `p`. */
  function DropWhile(s: string, p: char -> bool): (r: string)
    ensures |r| <= |s| && r == s[|s| - |r|..]
    ensures forall i :: 0 <= i < |s| - |r| ==> p(s[i])
    ensures |r| > 0 ==> !p(r[0])
    decreases |s|
  {
    if |s| > 0 && p(s[0]) then DropWhile(s[1..], p) else s
  }

  /** Drops the longest suffix all of whose characters satisfy `p`. */
  function DropWhileEnd(s: string, p: char -> bool): (r: string)
    ensures |r| <= |s| && r == s[..|r|]
    ensures forall i :: |r| <= i < |s| ==> p(s[i])
    ensures |r| > 0 ==> !p(r[|r| - 1])
    decreases |s|
  {
    if |s| > 0 && p(s[|s| - 1]) then DropWhileEnd(s[..|s| - 1], p) else s
  }

  /**
   * `s.replace(/^\/+|\/+$/g, "")`: every leading and every trailing slash removed.
   * (Of the two alternatives, the first can only match at index 0 and the second only a
   * run of slashes that reaches the end, so the global replace is exactly this.)
   */
  function TrimSlashes(s: string): (r: string)
    ensures |r| <= |s|
    ensures |r| > 0 ==> r[0] != '/' && r[|r| - 1] != '/'
    ensures (|s| > 0 ==> s[0] != '/' && s[|s| - 1] != '/') ==> r == s
  {
    DropWhileEnd(DropWhile(s, IsSlash), IsSlash)
  }

  predicate AllSlashes(s: string) {
    forall i :: 0 <= i < |s| ==> s[i] == '/'
  }

  lemma {:induction false} DropWhileSlashes(a: string, x: string)
    requires AllSlashes(a)
    requires |x| > 0 ==> x[0] != '/'
    ensures DropWhile(a + x, IsSlash) == x
    decreases |a|
  {
    if |a| > 0 {
      assert (a + x)[1..] == a[1..] + x;
      DropWhileSlashes(a[1..], x);
    } else {
      assert a + x == x;
    }
  }

  lemma {:induction false} DropWhileEndSlashes(x: string, b: string)
    requires AllSlashes(b)
    requires |x| > 0 ==> x[|x| - 1] != '/'
    ensures DropWhileEnd(x + b, IsSlash) == x
    decreases |b|
  {
    if |b| > 0 {
      assert (x + b)[..|x + b| - 1] == x + b[..|b| - 1];
      DropWhileEndSlashes(x, b[..|b| - 1]);
    } else {
      assert x + b == x;
    }
  }

  /** Slashes + clean + slashes trims to the clean middle part. */
  lemma TrimSlashesOf(a: string, x: string, b: string)
    requires AllSlashes(a) && AllSlashes(b)
    requires |x| > 0 ==> x[0] != '/' && x[|x| - 1] != '/'
    ensures TrimSlashes(a + x + b) == x
  {
    if x == "" {
      assert a + x + b == (a + b) + "";
      DropWhileSlashes(a + b, "");
    } else {
      assert a + x + b == a + (x + b);
      DropWhileSlashes(a, x + b);
      DropWhileEndSlashes(x, b);
    }
  }

  /** `s.trim()`: leading and trailing `\s` removed; empty exactly for blank input. */
  function Trim(s: string): (r: string)
    ensures |r| <= |s|
    ensures |r| > 0 ==> !IsSpace(r[0]) && !IsSpace(r[|r| - 1])
    ensures r == "" <==> forall i :: 0 <= i < |s| ==> IsSpace(s[i])
  {
    var a := DropWhile(s, IsSpace);
    var r := DropWhileEnd(a, IsSpace);
    assert r != "" ==> !IsSpace(s[|s| - |a|]);
    r
  }

  // ---------------------------------------------------------------------------
  // Number to string
  // ---------------------------------------------------------------------------

  function DigitChar(d: nat): (c: char)
    requires d < 10
    ensures IsDigit(c) && c as int - '0' as int == d
  {
    ('0' as int + d) as char
  }

  /** The number a string of decimal digits denotes. */
  function DigitsValue(s: string): nat
    decreases |s|
  {
    if |s| == 0 then 0
    else DigitsValue(s[..|s| - 1]) * 10 + (if IsDigit(s[|s| - 1]) then s[|s| - 1] as int - '0' as int else 0)
  }

  /** `String(n)` for a non-negative integer: decimal digits, no leading zero. */
  function NatToString(n: nat): (r: string)
    ensures |r| >= 1 && forall i :: 0 <= i < |r| ==> IsDigit(r[i])
    ensures r[0] == '0' ==> r == "0"
    ensures DigitsValue(r) == n
    decreases n
  {
    if n < 10 then [DigitChar(n)]
    else
      var r := NatToString(n / 10) + [DigitChar(n % 10)];
      assert r[..|r| - 1] == NatToString(n / 10);
      r
  }

  /** `String(i)` / template interpolation of an integer: a minus sign for negatives. */
  function IntToString(i: int): (r: string)
    ensures (|r| > 0 && r[0] == '-') <==> i < 0
    ensures var d := if i < 0 then r[1..] else r;
            |d| >= 1 && (forall k :: 0 <= k < |d| ==> IsDigit(d[k])) && (d[0] == '0' ==> d == "0")
            && DigitsValue(d) == if i < 0 then -i else i
  {
    if i < 0 then "-" + NatToString(-i) else NatToString(i)
  }
}
