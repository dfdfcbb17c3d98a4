/**
 * The text side of the search index (lib/search/index.ts): the markup
 * stripper `stripMdx` and the heading scanner `extractHeadings`.
 *
 * Each global regular-expression pass is a matcher `MatchX(t)`: what the
 * expression matches, backtracking included, when the engine tries it at the
 * start of `t`, the input from the current position on. None of these
 * expressions has an anchor or a look-behind, so the text from the current
 * position is all a match depends on. `Rewrite` applies a matcher the way a
 * global `replace` does: left to right, each match replaced, scanning resumed
 * after it. The two multiline expressions, whose `^` looks at the character
 * before the position, are written out with an explicit line-start flag.
 */
module SearchText {
  import opened Wrappers
  import opened Strings

  /** A match at the current position: its length and its replacement (or its capture). */
  datatype Match = Match(len: nat, rep: string)

  predicate Fits(t: string, r: Option<Match>) {
    r.Some? ==> 1 <= r.value.len <= |t|
  }

  /** `m` never matches the empty string and never runs past the end of its input. */
  ghost predicate IsMatcher(m: string -> Option<Match>) {
    forall t :: Fits(t, m(t))
  }

  /** Every match of `m` begins with a character satisfying `first`. */
  ghost predicate StartsWithOne(m: string -> Option<Match>, first: char -> bool) {
    forall t :: m(t).Some? ==> |t| > 0 && first(t[0])
  }

  predicate Avoids(s: string, first: char -> bool) {
    forall i :: 0 <= i < |s| ==> !first(s[i])
  }

  /** A global `replace` with matcher `m`. */
  function Rewrite(s: string, m: string -> Option<Match>): string
    requires IsMatcher(m)
    decreases |s|
  {
    if |s| == 0 then ""
    else match m(s)
      case Some(x) => x.rep + Rewrite(s[x.len..], m)
      case None => [s[0]] + Rewrite(s[1..], m)
  }

  /** Text in which no match can begin passes through unchanged, and so does the rest after it. */
  lemma {:induction false} RewriteSkips(a: string, x: string, m: string -> Option<Match>, first: char -> bool)
    requires IsMatcher(m) && StartsWithOne(m, first) && Avoids(a, first)
    ensures Rewrite(a + x, m) == a + Rewrite(x, m)
    decreases |a|
  {
    if |a| > 0 {
      AvoidsTail(a, first);
      RewriteSkips(a[1..], x, m, first);
      ConsRegroup(a, x, Rewrite(x, m));
      HeadSkipped(a + x, m, first);
    } else {
      assert a + x == x;
    }
  }

  lemma AvoidsTail(a: string, first: char -> bool)
    requires |a| > 0 && Avoids(a, first)
    ensures Avoids(a[1..], first) && !first(a[0])
  {
    assert forall i :: 0 <= i < |a| - 1 ==> a[1..][i] == a[i + 1];
  }

  lemma ConsRegroup(a: string, x: string, y: string)
    requires |a| > 0
    ensures (a + x)[0] == a[0] && (a + x)[1..] == a[1..] + x
    ensures [a[0]] + (a[1..] + y) == a + y
  {
    assert [a[0]] + a[1..] == a;
  }

  /** A character no match can begin with is copied and the scan moves on. */
  lemma HeadSkipped(s: string, m: string -> Option<Match>, first: char -> bool)
    requires IsMatcher(m) && StartsWithOne(m, first) && |s| > 0 && !first(s[0])
    ensures Rewrite(s, m) == [s[0]] + Rewrite(s[1..], m)
  {
    assert m(s).None?;
  }

  lemma RewriteUntouched(s: string, m: string -> Option<Match>, first: char -> bool)
    requires IsMatcher(m) && StartsWithOne(m, first) && Avoids(s, first)
    ensures Rewrite(s, m) == s
  {
    RewriteSkips(s, "", m, first);
    assert s + "" == s;
  }

  // ---------------------------------------------------------------------------
  // Scanning helpers
  // ---------------------------------------------------------------------------

  /** The first index at or after `from` holding `c`. */
  function FindChar(t: string, c: char, from: nat): (r: Option<nat>)
    ensures r.Some? ==> from <= r.value < |t| && t[r.value] == c
    ensures r.Some? ==> forall k :: from <= k < r.value ==> t[k] != c
    ensures r.None? ==> forall k :: from <= k < |t| ==> t[k] != c
    decreases |t| - from
  {
    if from >= |t| then None
    else if t[from] == c then Some(from)
    else FindChar(t, c, from + 1)
  }

  /** How many characters from `from` on satisfy `p`, the run a greedy repetition takes. */
  function Run(t: string, from: nat, p: char -> bool): (n: nat)
    ensures from + n <= |t| || n == 0
    ensures forall k :: from <= k < from + n ==> p(t[k])
    ensures from + n < |t| ==> !p(t[from + n])
    decreases |t| - from
  {
    if from < |t| && p(t[from]) then 1 + Run(t, from + 1, p) else 0
  }

  predicate IsOpenAngle(c: char) { c == '<' }
  predicate IsBacktick(c: char) { c == '`' }
  predicate IsOpenBracket(c: char) { c == '[' }
  predicate IsBang(c: char) { c == '!' }
  predicate IsHash(c: char) { c == '#' }
  /** The emphasis marker class: `*` or `_`. */
  predicate IsMarker(c: char) { c == '*' || c == '_' }
  predicate NotLineTerminator(c: char) { !IsLineTerminator(c) }

  /** The first emphasis marker at or after `from`. */
  function FindMarker(t: string, from: nat): (r: Option<nat>)
    ensures r.Some? ==> from <= r.value < |t| && IsMarker(t[r.value])
    ensures r.Some? ==> forall k :: from <= k < r.value ==> !IsMarker(t[k])
    ensures r.None? ==> forall k :: from <= k < |t| ==> !IsMarker(t[k])
    decreases |t| - from
  {
    if from >= |t| then None
    else if IsMarker(t[from]) then Some(from)
    else FindMarker(t, from + 1)
  }

  function Min(a: nat, b: nat): nat {
    if a <= b then a else b
  }

  // ---------------------------------------------------------------------------
  // The passes of stripMdx, in order
  // ---------------------------------------------------------------------------

  /**
   * The index of the `>` closing the first closing tag at or after `k`: `<`,
   * `/`, a capital letter, then anything up to the next `>`. This is the lazy
   * "anything" between an opening and a closing component tag, tried one
   * more character at a time.
   */
  function ClosingTag(t: string, k: nat): (r: Option<nat>)
    ensures r.Some? ==> k + 3 <= r.value < |t| && t[r.value] == '>'
    decreases |t| - k
  {
    if k + 3 >= |t| then None
    else if t[k] == '<' && t[k + 1] == '/' && IsUpper(t[k + 2]) then
      match FindChar(t, '>', k + 3)
      case Some(e) => Some(e)
      case None => ClosingTag(t, k + 1)
    else ClosingTag(t, k + 1)
  }

  /**
   * Pass 1, a component with content: `<`, a capital letter, the opening tag
   * to its first `>`, then everything up to and including the first closing
   * component tag. Removed.
   */
  function MatchComponentBlock(t: string): (r: Option<Match>)
    ensures Fits(t, r)
    ensures r.Some? ==> |t| > 0 && t[0] == '<' && r.value.rep == ""
  {
    if |t| < 2 || t[0] != '<' || !IsUpper(t[1]) then None
    else match FindChar(t, '>', 2)
      case None => None
      case Some(j) =>
        match ClosingTag(t, j + 1)
        case None => None
        case Some(e) => Some(Match(e + 1, ""))
  }

  /**
   * Pass 2, a self-closing component: `<`, a capital letter, then up to the
   * first `>`, which must come right after a `/` that is not the capital.
   * Removed.
   */
  function MatchSelfClosing(t: string): (r: Option<Match>)
    ensures Fits(t, r)
    ensures r.Some? ==> |t| > 0 && t[0] == '<' && r.value.rep == ""
  {
    if |t| < 2 || t[0] != '<' || !IsUpper(t[1]) then None
    else match FindChar(t, '>', 2)
      case None => None
      case Some(j) => if j >= 3 && t[j - 1] == '/' then Some(Match(j + 1, "")) else None
  }

  const Fence := "```"

  /** Pass 3, a fenced code block: three backticks, then up to the next three. Removed. */
  function MatchFence(t: string): (r: Option<Match>)
    ensures Fits(t, r)
    ensures r.Some? ==> |t| > 0 && t[0] == '`' && r.value.rep == ""
  {
    if |t| < 3 || t[..3] != Fence then None
    else match IndexOfFrom(t, Fence, 3)
      case None => None
      case Some(k) => Some(Match(k + 3, ""))
  }

  /** Pass 4, inline code: a backtick, at least one other character, a backtick. Removed. */
  function MatchInlineCode(t: string): (r: Option<Match>)
    ensures Fits(t, r)
    ensures r.Some? ==> |t| > 0 && t[0] == '`' && r.value.rep == ""
  {
    if |t| < 1 || t[0] != '`' then None
    else match FindChar(t, '`', 1)
      case None => None
      case Some(j) => if j >= 2 then Some(Match(j + 1, "")) else None
  }

  /**
   * Pass 5, a link: `[`, a non-empty label without `]`, `](`, a non-empty
   * target without `)`, `)`. Replaced by the label.
   */
  function MatchLink(t: string): (r: Option<Match>)
    ensures Fits(t, r)
    ensures r.Some? ==> |t| > 0 && t[0] == '[' && |r.value.rep| > 0
  {
    if |t| < 1 || t[0] != '[' then None
    else match FindChar(t, ']', 1)
      case None => None
      case Some(j) =>
        if j < 2 || j + 1 >= |t| || t[j + 1] != '(' then None
        else match FindChar(t, ')', j + 2)
          case None => None
          case Some(k) => if k < j + 3 then None else Some(Match(k + 1, t[1..j]))
  }

  /**
   * Pass 6, an image: `![`, a possibly empty alt text without `]`, `](`, a
   * non-empty target without `)`, `)`. Removed.
   */
  function MatchImage(t: string): (r: Option<Match>)
    ensures Fits(t, r)
    ensures r.Some? ==> |t| > 0 && t[0] == '!' && r.value.rep == ""
  {
    if |t| < 2 || t[0] != '!' || t[1] != '[' then None
    else match FindChar(t, ']', 2)
      case None => None
      case Some(j) =>
        if j + 1 >= |t| || t[j + 1] != '(' then None
        else match FindChar(t, ')', j + 2)
          case None => None
          case Some(k) => if k < j + 3 then None else Some(Match(k + 1, ""))
  }

  /**
   * Pass 7, emphasis: one to three markers, a non-empty marker-free text, one
   * to three markers. Replaced by the text. A run of four or more markers
   * cannot open a match at its start: the text would have to begin with a
   * marker.
   */
  function MatchEmphasis(t: string): (r: Option<Match>)
    ensures Fits(t, r)
    ensures r.Some? ==> |t| > 0 && IsMarker(t[0]) && |r.value.rep| > 0
  {
    var open := Run(t, 0, IsMarker);
    if open < 1 || open > 3 || open >= |t| then None
    else match FindMarker(t, open)
      case None => None
      case Some(e) => Some(Match(e + Min(Run(t, e, IsMarker), 3), t[open..e]))
  }

  /** Pass 8 at a line start: one to six `#` followed by a run of whitespace. Removed. */
  function MatchHeadingMarker(t: string): (r: Option<Match>)
    ensures Fits(t, r)
    ensures r.Some? ==> |t| > 0 && t[0] == '#' && r.value.rep == ""
  {
    var h := Run(t, 0, IsHash);
    if h < 1 || h > 6 || h >= |t| || !IsSpace(t[h]) then None
    else Some(Match(h + Run(t, h, IsSpace), ""))
  }

  /** Whether position `p` is where a multiline `^` matches: the start, or just after a line terminator. */
  predicate LineStart(s: string, p: nat) {
    p == 0 || (p <= |s| && IsLineTerminator(s[p - 1]))
  }

  /**
   * A global `replace` with a multiline expression anchored by `^`: `m` is
   * tried only where `lineStart` holds, which depends on the character of
   * the original text just before the position.
   */
  function LineRewrite(s: string, lineStart: bool, m: string -> Option<Match>): string
    requires IsMatcher(m)
    decreases |s|
  {
    if |s| == 0 then ""
    else if lineStart && m(s).Some? then
      var n := m(s).value.len;
      m(s).value.rep + LineRewrite(s[n..], IsLineTerminator(s[n - 1]), m)
    else [s[0]] + LineRewrite(s[1..], IsLineTerminator(s[0]), m)
  }

  lemma {:induction false} LineRewriteUntouched(s: string, lineStart: bool, m: string -> Option<Match>, first: char -> bool)
    requires IsMatcher(m) && StartsWithOne(m, first) && Avoids(s, first)
    ensures LineRewrite(s, lineStart, m) == s
    decreases |s|
  {
    if |s| > 0 {
      assert m(s).None?;
      LineRewriteUntouched(s[1..], IsLineTerminator(s[0]), m, first);
      assert s == [s[0]] + s[1..];
    }
  }

  /** No two whitespace characters are adjacent. */
  predicate SingleSpaced(s: string) {
    forall i :: 0 <= i < |s| - 1 ==> !(IsSpace(s[i]) && IsSpace(s[i + 1]))
  }

  /** The only whitespace character is the plain space. */
  predicate PlainSpaces(s: string) {
    forall i :: 0 <= i < |s| ==> IsSpace(s[i]) ==> s[i] == ' '
  }

  /** Pass 9: every run of whitespace becomes one space. */
  function Collapse(s: string): (r: string)
    ensures SingleSpaced(r) && PlainSpaces(r)
    ensures |r| <= |s| && (|r| == 0 <==> |s| == 0)
    ensures |r| > 0 ==> (IsSpace(r[0]) <==> IsSpace(s[0]))
    decreases |s|
  {
    if |s| == 0 then ""
    else if IsSpace(s[0]) then
      var rest := DropWhile(s, IsSpace);
      " " + Collapse(rest)
    else [s[0]] + Collapse(s[1..])
  }

  /** Text that is already single-spaced with plain spaces is a fixed point of the collapse. */
  lemma {:induction false} CollapseKeeps(s: string)
    requires SingleSpaced(s) && PlainSpaces(s)
    ensures Collapse(s) == s
    decreases |s|
  {
    if |s| > 0 {
      SpacingOfTail(s);
      CollapseKeeps(s[1..]);
      CollapseStep(s);
      assert s == [s[0]] + s[1..];
    }
  }

  /** On single-spaced text the collapse takes one character at a time. */
  lemma CollapseStep(s: string)
    requires |s| > 0 && SingleSpaced(s) && PlainSpaces(s)
    ensures Collapse(s) == [s[0]] + Collapse(s[1..])
  {
    if IsSpace(s[0]) {
      assert DropWhile(s, IsSpace) == s[1..] by {
        if |s| > 1 {
          assert !IsSpace(s[1]);
        }
      }
      assert [s[0]] == " ";
    }
  }

  lemma SpacingOfTail(s: string)
    requires |s| > 0 && SingleSpaced(s) && PlainSpaces(s)
    ensures SingleSpaced(s[1..]) && PlainSpaces(s[1..])
  {
    var t := s[1..];
    assert forall i :: 0 <= i < |t| ==> t[i] == s[i + 1];
  }

  /** Trimming a single-spaced, plain-spaced text keeps it so. */
  lemma TrimKeepsSpacing(s: string)
    requires SingleSpaced(s) && PlainSpaces(s)
    ensures SingleSpaced(Trim(s)) && PlainSpaces(Trim(s))
  {
    var a := DropWhile(s, IsSpace);
    var r := DropWhileEnd(a, IsSpace);
    var off := |s| - |a|;
    assert forall i :: 0 <= i < |r| ==> r[i] == s[off + i];
  }

  /** Passes 1 to 4: components with content, self-closing components, fenced code, inline code. */
  function StripCode(content: string): string {
    var afterBlocks := Rewrite(content, MatchComponentBlock);
    var afterTags := Rewrite(afterBlocks, MatchSelfClosing);
    var afterFences := Rewrite(afterTags, MatchFence);
    Rewrite(afterFences, MatchInlineCode)
  }

  /** Passes 5 and 6: links, then images. */
  function StripLinks(s: string): string {
    var afterLinks := Rewrite(s, MatchLink);
    Rewrite(afterLinks, MatchImage)
  }

  /** Passes 7 and 8: emphasis markers, then heading markers. */
  function StripMarkers(s: string): string {
    var afterEmphasis := Rewrite(s, MatchEmphasis);
    LineRewrite(afterEmphasis, true, MatchHeadingMarker)
  }

  /** stripMdx: the eight markup passes in order, whitespace collapsed, ends trimmed. */
  function StripMdx(content: string): (r: string)
    ensures SingleSpaced(r) && PlainSpaces(r)
    ensures |r| > 0 ==> !IsSpace(r[0]) && !IsSpace(r[|r| - 1])
  {
    var collapsed := Collapse(StripMarkers(StripLinks(StripCode(content))));
    TrimKeepsSpacing(collapsed);
    Trim(collapsed)
  }

  // ---------------------------------------------------------------------------
  // Properties of stripMdx
  // ---------------------------------------------------------------------------

  lemma StripMdxOfPasses(s: string, code: string, links: string, markers: string)
    requires StripCode(s) == code && StripLinks(code) == links && StripMarkers(links) == markers
    ensures StripMdx(s) == Trim(Collapse(markers))
  {
  }

  /** The characters some markup pass starts on: `<`, backtick, `[`, `!`, `*`, `_`, `#`. */
  predicate IsSpecial(c: char) {
    c == '<' || c == '`' || c == '[' || c == '!' || c == '*' || c == '_' || c == '#'
  }

  predicate Plain(s: string) {
    forall i :: 0 <= i < |s| ==> !IsSpecial(s[i])
  }

  lemma PlainAvoids(s: string)
    requires Plain(s)
    ensures Avoids(s, IsOpenAngle) && Avoids(s, IsBacktick) && Avoids(s, IsOpenBracket)
    ensures Avoids(s, IsBang) && Avoids(s, IsMarker) && Avoids(s, IsHash)
  {
  }

  lemma AvoidsJoined(a: string, x: string, b: string, y: string, c: string, p: char -> bool)
    requires Avoids(a, p) && Avoids(x, p) && Avoids(b, p) && Avoids(y, p) && Avoids(c, p)
    ensures Avoids(a + x + b + y + c, p)
  {
    var s := a + x + b + y + c;
    forall i | 0 <= i < |s| ensures !p(s[i]) {
      if i < |a| { assert s[i] == a[i]; }
      else if i < |a + x| { assert s[i] == x[i - |a|]; }
      else if i < |a + x + b| { assert s[i] == b[i - |a + x|]; }
      else if i < |a + x + b + y| { assert s[i] == y[i - |a + x + b|]; }
      else { assert s[i] == c[i - |a + x + b + y|]; }
    }
  }

  lemma CodeUntouched(s: string)
    requires Avoids(s, IsOpenAngle) && Avoids(s, IsBacktick)
    ensures StripCode(s) == s
  {
    RewriteUntouched(s, MatchComponentBlock, IsOpenAngle);
    RewriteUntouched(s, MatchSelfClosing, IsOpenAngle);
    RewriteUntouched(s, MatchFence, IsBacktick);
    RewriteUntouched(s, MatchInlineCode, IsBacktick);
  }

  lemma LinksUntouched(s: string)
    requires Avoids(s, IsOpenBracket) && Avoids(s, IsBang)
    ensures StripLinks(s) == s
  {
    RewriteUntouched(s, MatchLink, IsOpenBracket);
    RewriteUntouched(s, MatchImage, IsBang);
  }

  lemma MarkersUntouched(s: string)
    requires Avoids(s, IsMarker) && Avoids(s, IsHash)
    ensures StripMarkers(s) == s
  {
    RewriteUntouched(s, MatchEmphasis, IsMarker);
    LineRewriteUntouched(s, true, MatchHeadingMarker, IsHash);
  }

  /** Text with no markup character is returned as its whitespace-collapsed, trimmed self. */
  lemma PlainTextUntouched(s: string)
    requires Plain(s)
    ensures StripMdx(s) == Trim(Collapse(s))
  {
    PlainAvoids(s);
    CodeUntouched(s);
    LinksUntouched(s);
    MarkersUntouched(s);
  }

  lemma FenceMatched(c: string, rest: string)
    requires Avoids(c, IsBacktick)
    ensures MatchFence(Fence + c + Fence + rest) == Some(Match(|c| + 6, ""))
  {
    var t := Fence + c + Fence + rest;
    assert t[..3] == Fence;
    assert OccursAt(t, Fence, 3 + |c|) by {
      assert t[3 + |c|..6 + |c|] == Fence;
    }
    forall j | 3 <= j < 3 + |c|
      ensures !OccursAt(t, Fence, j)
    {
      assert t[j] == c[j - 3];
    }
  }

  /** The fence pass drops a complete block standing at the start. */
  lemma FencePassDrops(c: string, x: string)
    requires Avoids(c, IsBacktick)
    ensures Rewrite(Fence + c + Fence + x, MatchFence) == Rewrite(x, MatchFence)
  {
    var t := Fence + c + Fence + x;
    FenceMatched(c, x);
    assert t[|c| + 6..] == x;
  }

  lemma Regroup5(a: string, b: string, c: string, d: string, e: string)
    ensures a + b + c + d + e == a + ((b + c + d) + e)
  {
  }

  /** Passes 1 to 3 over `a + block + x`, with no `<` or backtick in `a` and no `<` in the block. */
  lemma FenceCut(a: string, c: string, x: string)
    requires Avoids(a, IsOpenAngle) && Avoids(a, IsBacktick)
    requires Avoids(c, IsOpenAngle) && Avoids(c, IsBacktick)
    ensures StripCode(a + Fence + c + Fence + x) == StripCode(a + x)
  {
    var block := Fence + c + Fence;
    Regroup5(a, Fence, c, Fence, x);
    AvoidsJoined("", Fence, c, Fence, "", IsOpenAngle);
    assert "" + Fence + c + Fence + "" == block;
    RewriteSkips(a, block + x, MatchComponentBlock, IsOpenAngle);
    RewriteSkips(block, x, MatchComponentBlock, IsOpenAngle);
    RewriteSkips(a, x, MatchComponentBlock, IsOpenAngle);
    var x1 := Rewrite(x, MatchComponentBlock);
    RewriteSkips(a, block + x1, MatchSelfClosing, IsOpenAngle);
    RewriteSkips(block, x1, MatchSelfClosing, IsOpenAngle);
    RewriteSkips(a, x1, MatchSelfClosing, IsOpenAngle);
    var x2 := Rewrite(x1, MatchSelfClosing);
    RewriteSkips(a, block + x2, MatchFence, IsBacktick);
    RewriteSkips(a, x2, MatchFence, IsBacktick);
    FencePassDrops(c, x2);
  }

  /**
   * A fenced code block is removed entirely, fences included, before the
   * emphasis pass ever sees it: with no `<` or backtick before it and no `<`
   * or backtick inside it, the output is that of the text with the block cut out.
   */
  lemma FencedCodeRemoved(a: string, c: string, b: string)
    requires Avoids(a, IsOpenAngle) && Avoids(a, IsBacktick)
    requires Avoids(c, IsOpenAngle) && Avoids(c, IsBacktick)
    ensures StripMdx(a + Fence + c + Fence + b) == StripMdx(a + b)
  {
    FenceCut(a, c, b);
  }

  lemma LinkMatched(l: string, u: string, rest: string)
    requires |l| > 0 && NoChar(l, ']') && |u| > 0 && NoChar(u, ')')
    ensures MatchLink("[" + l + "](" + u + ")" + rest) == Some(Match(|l| + |u| + 4, l))
  {
    var t := "[" + l + "](" + u + ")" + rest;
    var j := |l| + 1;
    assert t[j] == ']' && t[j + 1] == '(';
    assert forall k :: 1 <= k < j ==> t[k] == l[k - 1];
    assert FindChar(t, ']', 1) == Some(j);
    assert t[j + 2 + |u|] == ')';
    assert forall k :: j + 2 <= k < j + 2 + |u| ==> t[k] == u[k - j - 2];
    assert FindChar(t, ')', j + 2) == Some(j + 2 + |u|);
    assert t[1..j] == l;
  }

  /** The link pass replaces a link standing alone by its label. */
  lemma LinkPassAlone(l: string, u: string)
    requires |l| > 0 && NoChar(l, ']') && |u| > 0 && NoChar(u, ')')
    ensures Rewrite("[" + l + "](" + u + ")", MatchLink) == l
  {
    var t := "[" + l + "](" + u + ")";
    LinkMatched(l, u, "");
    assert t + "" == t;
    assert t[|t|..] == "";
  }

  /** What may stand inside a link or image target and pass the early passes untouched. */
  predicate PlainTarget(u: string) {
    |u| > 0 && Plain(u) && NoChar(u, ')')
  }

  /** A link with a plain label and target: passes 1 to 4 leave it, passes 5 and 6 leave its label. */
  lemma LinkStages(l: string, u: string)
    requires |l| > 0 && Plain(l) && NoChar(l, ']') && PlainTarget(u)
    ensures StripCode("[" + l + "](" + u + ")") == "[" + l + "](" + u + ")"
    ensures StripLinks("[" + l + "](" + u + ")") == l
  {
    PlainAvoids(l);
    PlainAvoids(u);
    AvoidsJoined("[", l, "](", u, ")", IsOpenAngle);
    AvoidsJoined("[", l, "](", u, ")", IsBacktick);
    CodeUntouched("[" + l + "](" + u + ")");
    LinkPassAlone(l, u);
    RewriteUntouched(l, MatchImage, IsBang);
  }

  /** `[label](url)` becomes its label. */
  lemma LinkKeepsLabel(l: string, u: string)
    requires |l| > 0 && Plain(l) && NoChar(l, ']') && PlainTarget(u)
    ensures StripMdx("[" + l + "](" + u + ")") == Trim(Collapse(l))
  {
    LinkStages(l, u);
    PlainAvoids(l);
    MarkersUntouched(l);
  }

  /** On `![alt](url)` with a non-empty alt, the link pass leaves the `!` and the alt text. */
  lemma ImageWithAltLinkPass(alt: string, u: string)
    requires |alt| > 0 && NoChar(alt, ']') && Avoids(alt, IsOpenBracket) && |u| > 0 && NoChar(u, ')')
    ensures Rewrite("![" + alt + "](" + u + ")", MatchLink) == "!" + alt
  {
    ImageIsBangLink(alt, u);
    RewriteSkips("!", "[" + alt + "](" + u + ")", MatchLink, IsOpenBracket);
    LinkPassAlone(alt, u);
  }

  lemma ImageIsBangLink(alt: string, u: string)
    ensures "![" + alt + "](" + u + ")" == "!" + ("[" + alt + "](" + u + ")")
  {
  }

  /** What is left, `!alt`, is no image and, with plain alt text, no other markup either. */
  lemma BangAltUntouched(alt: string)
    requires |alt| > 0 && Plain(alt)
    ensures Rewrite("!" + alt, MatchImage) == "!" + alt
    ensures StripMarkers("!" + alt) == "!" + alt
  {
    var bang := "!" + alt;
    PlainAvoids(alt);
    assert MatchImage(bang).None? by {
      assert bang[1] == alt[0];
    }
    assert bang[1..] == alt;
    RewriteUntouched(alt, MatchImage, IsBang);
    AvoidsJoined("!", alt, "", "", "", IsMarker);
    AvoidsJoined("!", alt, "", "", "", IsHash);
    assert "!" + alt + "" + "" + "" == bang;
    MarkersUntouched(bang);
  }

  /**
   * The link pass runs before the image pass, so it takes `[alt](url)` out of
   * `![alt](url)` whenever the alt text is non-empty: the `!` stays and the
   * image pass finds nothing left to remove.
   */
  lemma ImageWithAltBecomesBangAlt(alt: string, u: string)
    requires |alt| > 0 && Plain(alt) && NoChar(alt, ']') && PlainTarget(u)
    ensures StripMdx("![" + alt + "](" + u + ")") == Trim(Collapse("!" + alt))
  {
    var s := "![" + alt + "](" + u + ")";
    ImageAvoids(alt, u);
    CodeUntouched(s);
    PlainAvoids(alt);
    ImageWithAltLinkPass(alt, u);
    BangAltUntouched(alt);
    StripMdxOfPasses(s, s, "!" + alt, "!" + alt);
  }

  lemma ImageAvoids(alt: string, u: string)
    requires Plain(alt) && PlainTarget(u)
    ensures var s := "![" + alt + "](" + u + ")"; Avoids(s, IsOpenAngle) && Avoids(s, IsBacktick)
  {
    PlainAvoids(alt);
    PlainAvoids(u);
    AvoidsJoined("![", alt, "](", u, ")", IsOpenAngle);
    AvoidsJoined("![", alt, "](", u, ")", IsBacktick);
  }

  lemma ImageMatched(u: string, rest: string)
    requires |u| > 0 && NoChar(u, ')')
    ensures MatchImage("![](" + u + ")" + rest) == Some(Match(|u| + 5, ""))
  {
    var t := "![](" + u + ")" + rest;
    assert t[0] == '!' && t[1] == '[' && t[2] == ']' && t[3] == '(';
    assert FindChar(t, ']', 2) == Some(2);
    assert t[4 + |u|] == ')';
    assert forall k :: 4 <= k < 4 + |u| ==> t[k] == u[k - 4];
    assert FindChar(t, ')', 4) == Some(4 + |u|);
  }

  /** On `![](url)` the link pass finds no label and leaves the text alone. */
  lemma EmptyAltLinkPass(u: string)
    requires Avoids(u, IsOpenBracket)
    ensures Rewrite("![](" + u + ")", MatchLink) == "![](" + u + ")"
  {
    var tail := "](" + u + ")";
    EmptyLinkTailAvoids(u);
    EmptyBracketUnmatched(tail);
    RewriteUntouched(tail, MatchLink, IsOpenBracket);
    BracketThenTail(tail);
    RewriteSkips("!", "[" + tail, MatchLink, IsOpenBracket);
    EmptyImageRegroup(u);
  }

  lemma EmptyLinkTailAvoids(u: string)
    requires Avoids(u, IsOpenBracket)
    ensures Avoids("](" + u + ")", IsOpenBracket)
  {
    AvoidsJoined("](", u, ")", "", "", IsOpenBracket);
    assert "](" + u + ")" + "" + "" == "](" + u + ")";
  }

  /** `[` followed at once by `]` is no link: the link text may not be empty. */
  lemma EmptyBracketUnmatched(tail: string)
    requires |tail| > 0 && tail[0] == ']'
    ensures MatchLink("[" + tail).None?
  {
    assert FindChar("[" + tail, ']', 1) == Some(1);
  }

  lemma BracketThenTail(tail: string)
    requires MatchLink("[" + tail).None? && Rewrite(tail, MatchLink) == tail
    ensures Rewrite("[" + tail, MatchLink) == "[" + tail
  {
    assert ("[" + tail)[1..] == tail;
  }

  lemma EmptyImageRegroup(u: string)
    ensures "![](" + u + ")" == "!" + ("[" + ("](" + u + ")"))
  {
  }

  /** The image pass removes `![](url)` whole. */
  lemma EmptyAltImagePass(u: string)
    requires |u| > 0 && NoChar(u, ')')
    ensures Rewrite("![](" + u + ")", MatchImage) == ""
  {
    var s := "![](" + u + ")";
    ImageMatched(u, "");
    assert s + "" == s;
    assert s[|u| + 5..] == "";
  }

  /** On `![](url)` the link pass finds no label and the image pass removes the whole image. */
  lemma ImageWithoutAltLinks(u: string)
    requires |u| > 0 && NoChar(u, ')') && Avoids(u, IsOpenBracket)
    ensures StripLinks("![](" + u + ")") == ""
  {
    EmptyAltLinkPass(u);
    EmptyAltImagePass(u);
  }

  /** Only an image with an empty alt text is removed, by the image pass. */
  lemma ImageWithoutAltRemoved(u: string)
    requires PlainTarget(u)
    ensures StripMdx("![](" + u + ")") == ""
  {
    PlainAvoids(u);
    AvoidsJoined("![](", u, ")", "", "", IsOpenAngle);
    AvoidsJoined("![](", u, ")", "", "", IsBacktick);
    assert "![](" + u + ")" + "" + "" == "![](" + u + ")";
    CodeUntouched("![](" + u + ")");
    ImageWithoutAltLinks(u);
    MarkersUntouched("");
  }

  lemma BoldMatched(w: string)
    requires |w| > 0 && Avoids(w, IsMarker)
    ensures MatchEmphasis("**" + w + "**") == Some(Match(|w| + 4, w))
  {
    var t := "**" + w + "**";
    assert t[0] == '*' && t[1] == '*' && t[2] == w[0];
    assert Run(t, 0, IsMarker) == 2;
    assert forall k :: 2 <= k < 2 + |w| ==> t[k] == w[k - 2];
    assert t[2 + |w|] == '*';
    assert FindMarker(t, 2) == Some(2 + |w|);
    assert Run(t, 2 + |w|, IsMarker) == 2;
    assert t[2..2 + |w|] == w;
  }

  /** Passes 7 and 8 unwrap `**text**`. */
  lemma BoldMarkers(w: string)
    requires |w| > 0 && Avoids(w, IsMarker) && Avoids(w, IsHash)
    ensures StripMarkers("**" + w + "**") == w
  {
    var t := "**" + w + "**";
    BoldMatched(w);
    assert t[|w| + 4..] == "";
    assert Rewrite(t, MatchEmphasis) == w + "";
    assert w + "" == w;
    LineRewriteUntouched(w, true, MatchHeadingMarker, IsHash);
  }

  /** `**text**` becomes its text. */
  lemma BoldUnwrapped(w: string)
    requires |w| > 0 && Plain(w)
    ensures StripMdx("**" + w + "**") == Trim(Collapse(w))
  {
    var s := "**" + w + "**";
    BoldAvoids(w);
    CodeUntouched(s);
    LinksUntouched(s);
    PlainAvoids(w);
    BoldMarkers(w);
    StripMdxOfPasses(s, s, s, w);
  }

  lemma BoldAvoids(w: string)
    requires Plain(w)
    ensures var s := "**" + w + "**";
            Avoids(s, IsOpenAngle) && Avoids(s, IsBacktick) && Avoids(s, IsOpenBracket) && Avoids(s, IsBang)
  {
    var s := "**" + w + "**";
    PlainAvoids(w);
    assert s + "" + "" == s;
    AvoidsJoined("**", w, "**", "", "", IsOpenAngle);
    AvoidsJoined("**", w, "**", "", "", IsBacktick);
    AvoidsJoined("**", w, "**", "", "", IsOpenBracket);
    AvoidsJoined("**", w, "**", "", "", IsBang);
  }

  // ---------------------------------------------------------------------------
  // extractHeadings
  // ---------------------------------------------------------------------------

  predicate NoLineTerminator(s: string) {
    forall i :: 0 <= i < |s| ==> !IsLineTerminator(s[i])
  }

  /** The largest index in [lo, hi) whose character is not a line terminator. */
  function LastNonTerminator(t: string, lo: nat, hi: nat): (r: Option<nat>)
    requires hi <= |t|
    ensures r.Some? ==> lo <= r.value < hi && !IsLineTerminator(t[r.value])
    ensures r.Some? ==> forall k :: r.value < k < hi ==> IsLineTerminator(t[k])
    ensures r.None? ==> forall k :: lo <= k < hi ==> IsLineTerminator(t[k])
    decreases hi
  {
    if hi <= lo then None
    else if !IsLineTerminator(t[hi - 1]) then Some(hi - 1)
    else LastNonTerminator(t, lo, hi - 1)
  }

  /**
   * The heading expression at a line start: one to six `#`, a run of
   * whitespace, then a captured non-empty text up to the end of the line.
   * The whitespace run is greedy and may cross line ends; when the input ends
   * inside it, the engine gives whitespace back one character at a time until
   * the capture can start on a character that is not a line terminator.
   * `rep` is the capture.
   */
  function HashRun(t: string, from: nat): (n: nat)
    ensures from + n <= |t| || n == 0
    ensures forall k :: from <= k < from + n ==> t[k] == '#'
    ensures from + n < |t| ==> t[from + n] != '#'
    decreases |t| - from
  {
    if from < |t| && t[from] == '#' then 1 + HashRun(t, from + 1) else 0
  }
  function SpaceRun(t: string, from: nat): (n: nat)
    ensures from + n <= |t| || n == 0
    ensures forall k :: from <= k < from + n ==> IsSpace(t[k])
    ensures from + n < |t| ==> !IsSpace(t[from + n])
    decreases |t| - from
  {
    if from < |t| && IsSpace(t[from]) then 1 + SpaceRun(t, from + 1) else 0
  }
  function LineRun(t: string, from: nat): (n: nat)
    ensures from + n <= |t| || n == 0
    ensures forall k :: from <= k < from + n ==> !IsLineTerminator(t[k])
    ensures from + n < |t| ==> IsLineTerminator(t[from + n])
    decreases |t| - from
  {
    if from < |t| && !IsLineTerminator(t[from]) then 1 + LineRun(t, from + 1) else 0
  }
  function HeadingAt(t: string): (r: Option<Match>)
    ensures Fits(t, r)
    ensures r.Some? ==> |t| > 0 && t[0] == '#' && |r.value.rep| > 0 && NoLineTerminator(r.value.rep)
  {
    var h := HashRun(t, 0);
    if h < 1 || h > 6 || h >= |t| || !IsSpace(t[h]) then None
    else
      var q := h + SpaceRun(t, h);
      var start := if q < |t| then Some(q) else LastNonTerminator(t, h + 1, q);
      match start
      case None => None
      case Some(p) =>
        var e := p + LineRun(t, p);
        assert e > p;
        Some(Match(e, t[p..e]))
  }

  /** Where a match starts, and the match. */
  datatype Hit = Hit(at: nat, m: Match)

  /**
   * What one `exec` of a multiline expression `m` finds from `lastIndex`: the
   * leftmost line start at or after it where `m` matches.
   */
  function NextLineMatch(s: string, lastIndex: nat, m: string -> Option<Match>): (r: Option<Hit>)
    requires IsMatcher(m)
    ensures r.Some? ==> lastIndex <= r.value.at && 1 <= r.value.m.len && r.value.at + r.value.m.len <= |s|
    decreases |s| - lastIndex
  {
    if lastIndex >= |s| then None
    else if LineStart(s, lastIndex) && m(s[lastIndex..]).Some? then
      Some(Hit(lastIndex, m(s[lastIndex..]).value))
    else NextLineMatch(s, lastIndex + 1, m)
  }

  /** What `exec` finds is a match of `m` at a line start. */
  lemma {:induction false} NextLineMatchFound(s: string, lastIndex: nat, m: string -> Option<Match>)
    requires IsMatcher(m) && NextLineMatch(s, lastIndex, m).Some?
    ensures var h := NextLineMatch(s, lastIndex, m).value;
      LineStart(s, h.at) && m(s[h.at..]) == Some(h.m)
    decreases |s| - lastIndex
  {
    if !(LineStart(s, lastIndex) && m(s[lastIndex..]).Some?) {
      NextLineMatchFound(s, lastIndex + 1, m);
    }
  }

  /** The captures of the successive `exec` results from `lastIndex` on, each search resuming where the last match ended. */
  function Captures(s: string, lastIndex: nat, m: string -> Option<Match>): seq<string>
    requires IsMatcher(m)
    decreases |s| - lastIndex
  {
    match NextLineMatch(s, lastIndex, m)
    case None => []
    case Some(h) => [h.m.rep] + Captures(s, h.at + h.m.len, m)
  }

  function Headings(s: string): seq<string> {
    Captures(s, 0, HeadingAt)
  }

  /**
   * The `while` loop over `exec` of a global multiline expression `m`: each
   * match's capture is pushed, and the next search starts where the match
   * ended.
   */
  method ExecCaptures(content: string, m: string -> Option<Match>) returns (captures: seq<string>)
    requires IsMatcher(m)
    ensures captures == Captures(content, 0, m)
  {
    captures := [];
    var lastIndex := 0;
    var found := NextLineMatch(content, lastIndex, m);
    while found.Some?
      invariant lastIndex <= |content|
      invariant found == NextLineMatch(content, lastIndex, m)
      invariant captures + Captures(content, lastIndex, m) == Captures(content, 0, m)
      decreases |content| - lastIndex
    {
      var hit := found.value;
      CapturesStep(content, lastIndex, m);
      MovePushed(captures, hit.m.rep, Captures(content, hit.at + hit.m.len, m));
      captures := captures + [hit.m.rep];
      lastIndex := hit.at + hit.m.len;
      found := NextLineMatch(content, lastIndex, m);
    }
  }

  /** extractHeadings: the exec loop with the heading expression. */
  method ExtractHeadings(content: string) returns (headings: seq<string>)
    ensures headings == Headings(content)
  {
    headings := ExecCaptures(content, HeadingAt);
  }

  lemma MovePushed(xs: seq<string>, x: string, ys: seq<string>)
    ensures (xs + [x]) + ys == xs + ([x] + ys)
  {
  }

  lemma CapturesNone(s: string, lastIndex: nat, m: string -> Option<Match>)
    requires IsMatcher(m) && NextLineMatch(s, lastIndex, m).None?
    ensures Captures(s, lastIndex, m) == []
  {
  }

  /** One `exec` step: a match contributes its capture and the scan resumes after it. */
  lemma CapturesStep(s: string, lastIndex: nat, m: string -> Option<Match>)
    requires IsMatcher(m) && NextLineMatch(s, lastIndex, m).Some?
    ensures Captures(s, lastIndex, m)
      == [NextLineMatch(s, lastIndex, m).value.m.rep]
         + Captures(s, NextLineMatch(s, lastIndex, m).value.at + NextLineMatch(s, lastIndex, m).value.m.len, m)
  {
  }

  /** Every heading is non-empty text within one line. */
  lemma {:induction false} HeadingsAreLineText(s: string, lastIndex: nat)
    ensures AllLineText(Captures(s, lastIndex, HeadingAt))
    decreases |s| - lastIndex
  {
    match NextLineMatch(s, lastIndex, HeadingAt) {
      case None =>
        CapturesNone(s, lastIndex, HeadingAt);
      case Some(h) =>
        var next := h.at + h.m.len;
        HeadingsAreLineText(s, next);
        HitIsLineText(s, lastIndex, h);
        AllLineTextCons(h.m.rep, Captures(s, next, HeadingAt));
        CapturesAt(s, lastIndex, HeadingAt, h.m.rep, next);
    }
  }

  lemma HitIsLineText(s: string, lastIndex: nat, h: Hit)
    requires NextLineMatch(s, lastIndex, HeadingAt) == Some(h)
    ensures |h.m.rep| > 0 && NoLineTerminator(h.m.rep)
  {
    NextLineMatchFound(s, lastIndex, HeadingAt);
    assert HeadingAt(s[h.at..]) == Some(h.m);
  }

  /** Every text is non-empty and lies within one line. */
  predicate AllLineText(texts: seq<string>) {
    forall i :: 0 <= i < |texts| ==> |texts[i]| > 0 && NoLineTerminator(texts[i])
  }

  lemma AllLineTextCons(t: string, rest: seq<string>)
    requires |t| > 0 && NoLineTerminator(t) && AllLineText(rest)
    ensures AllLineText([t] + rest)
  {
    forall i | 0 <= i < |[t] + rest|
      ensures |([t] + rest)[i]| > 0 && NoLineTerminator(([t] + rest)[i])
    {
      if i > 0 {
        assert ([t] + rest)[i] == rest[i - 1];
      }
    }
  }

  /** Positions where no match starts are skipped. */
  lemma {:induction false} SkipTo(s: string, p: nat, q: nat, m: string -> Option<Match>)
    requires IsMatcher(m) && p <= q <= |s|
    requires forall k :: p <= k < q ==> !(LineStart(s, k) && m(s[k..]).Some?)
    ensures NextLineMatch(s, p, m) == NextLineMatch(s, q, m)
    ensures Captures(s, p, m) == Captures(s, q, m)
    decreases q - p
  {
    if p < q {
      SkipTo(s, p + 1, q, m);
    }
  }

  function ShiftHit(r: Option<Hit>, d: nat): Option<Hit> {
    match r
    case None => None
    case Some(h) => Some(Hit(h.at + d, h.m))
  }

  /** Text after a line end scans the same whatever precedes it. */
  lemma {:induction false} NextLineMatchShift(a: string, b: string, p: nat, m: string -> Option<Match>)
    requires IsMatcher(m)
    requires |a| == 0 || IsLineTerminator(a[|a| - 1])
    requires p <= |b|
    ensures NextLineMatch(a + b, |a| + p, m) == ShiftHit(NextLineMatch(b, p, m), |a|)
    decreases |b| - p
  {
    var s := a + b;
    if p < |b| {
      assert s[|a| + p..] == b[p..];
      assert LineStart(s, |a| + p) == LineStart(b, p) by {
        if p > 0 { assert s[|a| + p - 1] == b[p - 1]; }
      }
      NextLineMatchShift(a, b, p + 1, m);
    }
  }

  /** From `p` on, scanning `s` from `d + q` finds the hit scanning `b` from `q` finds, moved by `d`. */
  predicate ScansApart(s: string, b: string, d: nat, p: nat, m: string -> Option<Match>)
    requires IsMatcher(m)
  {
    forall q :: p <= q <= |b| ==> NextLineMatch(s, d + q, m) == ShiftHit(NextLineMatch(b, q, m), d)
  }

  /** Scans that find the same hits, `d` positions apart, capture the same texts. */
  lemma {:induction false} CapturesShifted(s: string, b: string, d: nat, p: nat, m: string -> Option<Match>)
    requires IsMatcher(m) && p <= |b|
    requires ScansApart(s, b, d, p, m)
    ensures Captures(s, d + p, m) == Captures(b, p, m)
    decreases |b| - p
  {
    var r := NextLineMatch(b, p, m);
    assert NextLineMatch(s, d + p, m) == ShiftHit(r, d);
    if r.None? {
      CapturesNone(s, d + p, m);
      CapturesNone(b, p, m);
    } else {
      var h := r.value;
      var next := h.at + h.m.len;
      CapturesAt(b, p, m, h.m.rep, next);
      CapturesAt(s, d + p, m, h.m.rep, d + next);
      CapturesShifted(s, b, d, next, m);
    }
  }

  /** CapturesStep for a known capture and resumption index. */
  lemma CapturesAt(s: string, lastIndex: nat, m: string -> Option<Match>, rep: string, next: nat)
    requires IsMatcher(m) && NextLineMatch(s, lastIndex, m).Some?
    requires NextLineMatch(s, lastIndex, m).value.m.rep == rep
    requires NextLineMatch(s, lastIndex, m).value.at + NextLineMatch(s, lastIndex, m).value.m.len == next
    ensures Captures(s, lastIndex, m) == [rep] + Captures(s, next, m)
  {
    CapturesStep(s, lastIndex, m);
  }

  /** Text after a line end captures the same whatever precedes it. */
  lemma CapturesShift(a: string, b: string, p: nat, m: string -> Option<Match>)
    requires IsMatcher(m)
    requires |a| == 0 || IsLineTerminator(a[|a| - 1])
    requires p <= |b|
    ensures Captures(a + b, |a| + p, m) == Captures(b, p, m)
  {
    ScansShifted(a, b, p, m);
    CapturesShifted(a + b, b, |a|, p, m);
  }

  lemma ScansShifted(a: string, b: string, p: nat, m: string -> Option<Match>)
    requires IsMatcher(m)
    requires |a| == 0 || IsLineTerminator(a[|a| - 1])
    requires p <= |b|
    ensures ScansApart(a + b, b, |a|, p, m)
  {
    forall q | p <= q <= |b|
      ensures NextLineMatch(a + b, |a| + q, m) == ShiftHit(NextLineMatch(b, q, m), |a|)
    {
      NextLineMatchShift(a, b, q, m);
    }
  }

  // ---------------------------------------------------------------------------
  // The heading rule, line by line
  // ---------------------------------------------------------------------------

  /** The text a sequence of lines stands for: each line followed by a newline. */
  function Lines(ls: seq<string>): string {
    if |ls| == 0 then "" else ls[0] + "\n" + Lines(ls[1..])
  }

  /**
   * The heading one line makes by itself: after one to six `#` and a run of
   * whitespace, the rest of the line, when something is left of it.
   */
  function LineHeading(l: string): Option<string> {
    var h := HashRun(l, 0);
    if 1 <= h <= 6 && h < |l| && IsSpace(l[h]) && h + SpaceRun(l, h) < |l|
    then Some(l[h + SpaceRun(l, h)..])
    else None
  }

  /** One to six `#` and nothing but whitespace after them: the expression then reaches into the next line. */
  predicate Dangling(l: string) {
    1 <= HashRun(l, 0) <= 6 && forall k :: HashRun(l, 0) <= k < |l| ==> IsSpace(l[k])
  }

  /** The reference rule: the headings of the lines that make one, in order. */
  function LineHeadings(ls: seq<string>): seq<string> {
    if |ls| == 0 then []
    else match LineHeading(ls[0])
      case Some(t) => [t] + LineHeadings(ls[1..])
      case None => LineHeadings(ls[1..])
  }

  lemma HashRunPrefix(l: string, x: string)
    requires HashRun(l, 0) < |l|
    ensures HashRun(l + x, 0) == HashRun(l, 0)
  {
    var n := HashRun(l, 0);
    assert (l + x)[n] == l[n];
    assert forall k :: 0 <= k < n ==> (l + x)[k] == l[k];
  }

  lemma SpaceRunPrefix(l: string, x: string, from: nat)
    requires from + SpaceRun(l, from) < |l|
    ensures SpaceRun(l + x, from) == SpaceRun(l, from)
  {
    var n := SpaceRun(l, from);
    assert (l + x)[from + n] == l[from + n];
    assert forall k :: from <= k < from + n ==> (l + x)[k] == l[k];
  }

  /** A heading found where the whitespace run stops before the end of the text. */
  lemma HeadingAtLine(t: string, q: nat, e: nat)
    requires 1 <= HashRun(t, 0) <= 6 && HashRun(t, 0) < |t| && IsSpace(t[HashRun(t, 0)])
    requires q == HashRun(t, 0) + SpaceRun(t, HashRun(t, 0)) && q < |t|
    requires e == q + LineRun(t, q)
    ensures HeadingAt(t) == Some(Match(e, t[q..e]))
  {
  }

  lemma HeadingOfHeadingLine(l: string, r: string)
    requires NoLineTerminator(l) && LineHeading(l).Some?
    ensures HeadingAt(l + "\n" + r) == Some(Match(|l|, LineHeading(l).value))
  {
    NewlineRegroup(l, r);
    HeadingLineExtended(l, "\n" + r);
  }

  lemma NewlineRegroup(l: string, r: string)
    ensures l + "\n" + r == l + ("\n" + r) && ("\n" + r)[0] == '\n'
  {
  }

  /** A heading line followed by a line end and anything else. */
  lemma HeadingLineExtended(l: string, x: string)
    requires NoLineTerminator(l) && LineHeading(l).Some?
    requires |x| > 0 && IsLineTerminator(x[0])
    ensures HeadingAt(l + x) == Some(Match(|l|, LineHeading(l).value))
  {
    var h := HashRun(l, 0);
    var q := h + SpaceRun(l, h);
    var t := l + x;
    HashRunPrefix(l, x);
    SpaceRunPrefix(l, x, h);
    LineRunPrefix(l, x, q);
    assert t[h] == l[h];
    HeadingAtLine(t, q, |l|);
    PrefixSlice(l, x, q);
    LineHeadingText(l);
    MatchOfSlice(t, q, |l|, LineHeading(l).value);
  }

  lemma LineHeadingText(l: string)
    requires LineHeading(l).Some?
    ensures LineHeading(l).value == l[HashRun(l, 0) + SpaceRun(l, HashRun(l, 0))..]
  {
  }

  lemma PrefixSlice(l: string, x: string, q: nat)
    requires q <= |l|
    ensures (l + x)[q..|l|] == l[q..]
  {
  }

  lemma MatchOfSlice(t: string, q: nat, e: nat, text: string)
    requires q <= e <= |t| && HeadingAt(t) == Some(Match(e, t[q..e])) && t[q..e] == text
    ensures HeadingAt(t) == Some(Match(e, text))
  {
  }

  lemma LineRunExact(t: string, q: nat, e: nat)
    requires q <= e < |t| && IsLineTerminator(t[e])
    requires forall k :: q <= k < e ==> !IsLineTerminator(t[k])
    ensures LineRun(t, q) == e - q
  {
  }

  lemma LineRunPrefix(l: string, x: string, q: nat)
    requires NoLineTerminator(l) && q <= |l|
    requires |x| > 0 && IsLineTerminator(x[0])
    ensures LineRun(l + x, q) == |l| - q
  {
    var t := l + x;
    assert forall k :: q <= k < |l| ==> t[k] == l[k];
    assert t[|l|] == x[0];
    LineRunExact(t, q, |l|);
  }

  lemma NoHeadingAtLine(l: string, r: string)
    requires NoLineTerminator(l) && LineHeading(l).None? && !Dangling(l)
    ensures HeadingAt(l + "\n" + r) == None
  {
    NewlineRegroup(l, r);
    NoHeadingBeforeEnd(l, "\n" + r);
  }

  /** A line that makes no heading and is no dangling marker matches nothing, whatever line end follows it. */
  lemma NoHeadingBeforeEnd(l: string, x: string)
    requires NoLineTerminator(l) && LineHeading(l).None? && !Dangling(l)
    requires |x| == 0 || IsLineTerminator(x[0])
    ensures HeadingAt(l + x) == None
  {
    var s := l + x;
    var h := HashRun(l, 0);
    if h < |l| {
      HashRunPrefix(l, x);
      assert s[h] == l[h];
      assert 1 <= h <= 6 ==> !IsSpace(l[h]);
    } else if h == 0 {
      assert |s| == 0 || s[0] == x[0];
    } else {
      assert forall k :: 0 <= k < 7 ==> s[k] == l[k];
    }
  }

  /** A heading line contributes its heading; the scan then goes on with the next line. */
  lemma HeadingLineThenRest(l: string, r: string)
    requires NoLineTerminator(l) && LineHeading(l).Some?
    ensures Headings(l + "\n" + r) == [LineHeading(l).value] + Headings(r)
  {
    ResumeAfterLine(l, r);
    FirstLineCaptured(l, r);
    CapturesAt(l + "\n" + r, 0, HeadingAt, LineHeading(l).value, |l|);
  }

  lemma FirstLineCaptured(l: string, r: string)
    requires NoLineTerminator(l) && LineHeading(l).Some?
    ensures NextLineMatch(l + "\n" + r, 0, HeadingAt) == Some(Hit(0, Match(|l|, LineHeading(l).value)))
  {
    HeadingOfHeadingLine(l, r);
    MatchAtStart(l + "\n" + r, Match(|l|, LineHeading(l).value));
  }

  /** After a heading that spans its whole line, the scan goes on with the next line as a text of its own. */
  lemma ResumeAfterLine(l: string, r: string)
    requires NoLineTerminator(l) && |l| > 0
    ensures Captures(l + "\n" + r, |l|, HeadingAt) == Captures(r, 0, HeadingAt)
  {
    var first := l + "\n";
    InsideLine(l, r);
    SkipOne(first + r, |l|, HeadingAt);
    CapturesShift(first, r, 0, HeadingAt);
  }

  lemma InsideLine(l: string, r: string)
    requires NoLineTerminator(l) && |l| > 0
    ensures |l| < |l + "\n" + r| && !LineStart(l + "\n" + r, |l|)
  {
    var s := l + "\n" + r;
    assert s[|l| - 1] == l[|l| - 1];
  }

  /** A position that is no line start matches nothing: the scan moves on. */
  lemma SkipOne(s: string, p: nat, m: string -> Option<Match>)
    requires IsMatcher(m) && p < |s| && !LineStart(s, p)
    ensures Captures(s, p, m) == Captures(s, p + 1, m)
  {
    SkipTo(s, p, p + 1, m);
  }

  /** Any other line, unless it is a dangling marker, contributes nothing. */
  lemma PlainLineThenRest(l: string, r: string)
    requires NoLineTerminator(l) && LineHeading(l).None? && !Dangling(l)
    ensures Headings(l + "\n" + r) == Headings(r)
  {
    var first := l + "\n";
    var s := first + r;
    forall k | 0 <= k < |first|
      ensures !(LineStart(s, k) && HeadingAt(s[k..]).Some?)
    {
      if k == 0 {
        NoHeadingAtLine(l, r);
        assert s[0..] == s;
      } else {
        assert s[k - 1] == l[k - 1];
      }
    }
    SkipTo(s, 0, |first|, HeadingAt);
    CapturesShift(first, r, 0, HeadingAt);
  }

  /**
   * extractHeadings returns, in document order, the text after a run of one
   * to six `#` and whitespace at the start of a line, for every text made of
   * lines none of which is a dangling marker.
   */
  lemma {:induction false} HeadingsOfLines(ls: seq<string>)
    requires forall i :: 0 <= i < |ls| ==> NoLineTerminator(ls[i]) && !Dangling(ls[i])
    ensures Headings(Lines(ls)) == LineHeadings(ls)
    decreases |ls|
  {
    if |ls| == 0 {
      CapturesNone("", 0, HeadingAt);
    } else {
      HeadingsOfLines(ls[1..]);
      if LineHeading(ls[0]).Some? {
        HeadingLineThenRest(ls[0], Lines(ls[1..]));
      } else {
        PlainLineThenRest(ls[0], Lines(ls[1..]));
      }
    }
  }

  /** A last line without a line end: its heading, if it makes one, and nothing else. */
  lemma LastLineHeadings(l: string)
    requires NoLineTerminator(l) && !Dangling(l)
    ensures Headings(l) == if LineHeading(l).Some? then [LineHeading(l).value] else []
  {
    if LineHeading(l).Some? {
      var h := HashRun(l, 0);
      var q := h + SpaceRun(l, h);
      assert l[h] == l[h];
      HeadingAtLine(l, q, |l|);
      LineHeadingText(l);
      MatchOfSlice(l, q, |l|, LineHeading(l).value);
      MatchAtStart(l, Match(|l|, LineHeading(l).value));
      CapturesAt(l, 0, HeadingAt, LineHeading(l).value, |l|);
      CapturesNone(l, |l|, HeadingAt);
    } else {
      NoHeadingBeforeEnd(l, "");
      assert l + "" == l;
      forall k | 0 <= k < |l|
        ensures !(LineStart(l, k) && HeadingAt(l[k..]).Some?)
      {
        if k == 0 {
          assert l[0..] == l;
        }
      }
      SkipTo(l, 0, |l|, HeadingAt);
      CapturesNone(l, |l|, HeadingAt);
    }
  }

  /**
   * A text whose last line has no line end: the headings are those of all
   * its lines, the last one included.
   */
  lemma {:induction false} HeadingsOfLinesThenLast(ls: seq<string>, last: string)
    requires forall i :: 0 <= i < |ls| ==> NoLineTerminator(ls[i]) && !Dangling(ls[i])
    requires NoLineTerminator(last) && !Dangling(last)
    ensures Headings(Lines(ls) + last) == LineHeadings(ls + [last])
    decreases |ls|
  {
    if |ls| == 0 {
      assert Lines(ls) + last == last;
      assert ls + [last] == [last];
      LastLineHeadings(last);
    } else {
      HeadingsOfLinesThenLast(ls[1..], last);
      assert (ls + [last])[0] == ls[0];
      assert (ls + [last])[1..] == ls[1..] + [last];
      assert Lines(ls) + last == ls[0] + "\n" + (Lines(ls[1..]) + last);
      if LineHeading(ls[0]).Some? {
        HeadingLineThenRest(ls[0], Lines(ls[1..]) + last);
      } else {
        PlainLineThenRest(ls[0], Lines(ls[1..]) + last);
      }
    }
  }

  /** The text of lines each ended by a carriage return and a line feed. */
  function CrlfLines(ls: seq<string>): string {
    if |ls| == 0 then "" else ls[0] + "\r\n" + CrlfLines(ls[1..])
  }

  /** After a line end, a line feed starts a line of its own, which matches nothing. */
  lemma LineFeedNoHeading(s: string, k: nat)
    requires k < |s| && s[k] == '\n'
    ensures HeadingAt(s[k..]) == None
  {
    assert s[k..][0] == '\n';
  }

  /** A heading line ended by "\r\n": the carriage return ends the capture, the line feed matches nothing. */
  lemma HeadingCrlfLineThenRest(l: string, r: string)
    requires NoLineTerminator(l) && LineHeading(l).Some?
    ensures Headings(l + "\r\n" + r) == [LineHeading(l).value] + Headings(r)
  {
    FirstCrlfLineCaptured(l, r);
    CapturesAt(l + "\r\n" + r, 0, HeadingAt, LineHeading(l).value, |l|);
    ResumeAfterCrlfLine(l, r);
  }

  lemma FirstCrlfLineCaptured(l: string, r: string)
    requires NoLineTerminator(l) && LineHeading(l).Some?
    ensures NextLineMatch(l + "\r\n" + r, 0, HeadingAt) == Some(Hit(0, Match(|l|, LineHeading(l).value)))
  {
    assert l + "\r\n" + r == l + ("\r\n" + r);
    HeadingLineExtended(l, "\r\n" + r);
    MatchAtStart(l + "\r\n" + r, Match(|l|, LineHeading(l).value));
  }

  /** After a heading that spans its whole line, the "\r\n" is passed over and the scan goes on with the next line. */
  lemma ResumeAfterCrlfLine(l: string, r: string)
    requires NoLineTerminator(l) && |l| > 0
    ensures Captures(l + "\r\n" + r, |l|, HeadingAt) == Captures(r, 0, HeadingAt)
  {
    var first := l + "\r\n";
    var s := first + r;
    forall k | |l| <= k < |first|
      ensures !(LineStart(s, k) && HeadingAt(s[k..]).Some?)
    {
      if k == |l| {
        assert s[k - 1] == l[k - 1];
      } else {
        LineFeedNoHeading(s, k);
      }
    }
    SkipTo(s, |l|, |first|, HeadingAt);
    CapturesShift(first, r, 0, HeadingAt);
  }

  /** Any other line ended by "\r\n", unless it is a dangling marker, contributes nothing. */
  lemma PlainCrlfLineThenRest(l: string, r: string)
    requires NoLineTerminator(l) && LineHeading(l).None? && !Dangling(l)
    ensures Headings(l + "\r\n" + r) == Headings(r)
  {
    var first := l + "\r\n";
    var s := first + r;
    forall k | 0 <= k < |first|
      ensures !(LineStart(s, k) && HeadingAt(s[k..]).Some?)
    {
      if k == 0 {
        assert s == l + ("\r\n" + r) && ("\r\n" + r)[0] == '\r';
        NoHeadingBeforeEnd(l, "\r\n" + r);
        assert s[0..] == s;
      } else if k <= |l| {
        assert s[k - 1] == l[k - 1];
      } else {
        LineFeedNoHeading(s, k);
      }
    }
    SkipTo(s, 0, |first|, HeadingAt);
    CapturesShift(first, r, 0, HeadingAt);
  }

  /**
   * Text with "\r\n" line ends, its last line ended or not: the headings are
   * those of the same lines with "\n" line ends.
   */
  lemma {:induction false} HeadingsOfCrlfLinesThenLast(ls: seq<string>, last: string)
    requires forall i :: 0 <= i < |ls| ==> NoLineTerminator(ls[i]) && !Dangling(ls[i])
    requires NoLineTerminator(last) && !Dangling(last)
    ensures Headings(CrlfLines(ls) + last) == LineHeadings(ls + [last])
    decreases |ls|
  {
    if |ls| == 0 {
      assert CrlfLines(ls) + last == last;
      assert ls + [last] == [last];
      LastLineHeadings(last);
    } else {
      HeadingsOfCrlfLinesThenLast(ls[1..], last);
      assert (ls + [last])[0] == ls[0];
      assert (ls + [last])[1..] == ls[1..] + [last];
      assert CrlfLines(ls) + last == ls[0] + "\r\n" + (CrlfLines(ls[1..]) + last);
      if LineHeading(ls[0]).Some? {
        HeadingCrlfLineThenRest(ls[0], CrlfLines(ls[1..]) + last);
      } else {
        PlainCrlfLineThenRest(ls[0], CrlfLines(ls[1..]) + last);
      }
    }
  }

  /**
   * A marker at the very end of the text followed by two spaces: the engine
   * gives back one space, and that space is the heading.
   */
  lemma DanglingMarkerAtEnd()
    ensures Headings("#  ") == [" "]
  {
    var s := "#  ";
    assert HashRun(s, 0) == 1 && SpaceRun(s, 1) == 2;
    assert LastNonTerminator(s, 2, 3) == Some(2);
    assert LineRun(s, 2) == 1 && s[2..3] == " ";
    assert HeadingAt(s) == Some(Match(3, " "));
    MatchAtStart(s, Match(3, " "));
    CapturesAt(s, 0, HeadingAt, " ", 3);
    CapturesNone(s, 3, HeadingAt);
  }

  /** A line starting with seven `#` is not a heading. */
  lemma SevenHashesNoHeading(l: string, r: string)
    requires NoLineTerminator(l) && |l| >= 7 && forall i :: 0 <= i < 7 ==> l[i] == '#'
    ensures Headings(l + "\n" + r) == Headings(r)
  {
    assert HashRun(l, 0) >= 7;
    PlainLineThenRest(l, r);
  }

  /**
   * A line of `#` alone is a marker whose whitespace run is the line end
   * itself: the expression takes the next line as the heading text.
   */
  lemma DanglingMarkerTakesNextLine(text: string, r: string)
    requires |text| > 0 && !IsSpace(text[0]) && NoLineTerminator(text)
    ensures Headings("#\n" + text + "\n" + r) == [text] + Headings(r)
  {
    var first := "#\n" + text + "\n";
    var s := first + r;
    var e := 2 + |text|;
    DanglingMatch(text, r);
    MatchAtStart(s, Match(e, text));
    DanglingLineEnd(text, r);
    SkipOne(s, e, HeadingAt);
    CapturesShift(first, r, 0, HeadingAt);
    CapturesAt(s, 0, HeadingAt, text, e);
  }

  /** The match of `#`, a line end and a line of text: the text is the capture. */
  lemma DanglingMatch(text: string, r: string)
    requires |text| > 0 && !IsSpace(text[0]) && NoLineTerminator(text)
    ensures HeadingAt("#\n" + text + "\n" + r) == Some(Match(2 + |text|, text))
  {
    var s := "#\n" + text + "\n" + r;
    var e := 2 + |text|;
    assert s[0] == '#' && s[1] == '\n' && s[2] == text[0] && s[e] == '\n';
    assert forall k :: 2 <= k < e ==> s[k] == text[k - 2];
    assert HashRun(s, 0) == 1;
    assert SpaceRun(s, 1) == 1;
    LineRunExact(s, 2, e);
    assert s[2..e] == text;
    HeadingAtLine(s, 2, e);
  }

  lemma MatchAtStart(s: string, mt: Match)
    requires HeadingAt(s) == Some(mt)
    ensures NextLineMatch(s, 0, HeadingAt) == Some(Hit(0, mt))
  {
    assert s[0..] == s;
  }

  lemma DanglingLineEnd(text: string, r: string)
    requires |text| > 0 && NoLineTerminator(text)
    ensures 2 + |text| < |"#\n" + text + "\n" + r| && !LineStart("#\n" + text + "\n" + r, 2 + |text|)
    ensures |"#\n" + text + "\n"| == 2 + |text| + 1
  {
    var s := "#\n" + text + "\n" + r;
    assert s[1 + |text|] == text[|text| - 1];
  }

  lemma HeadingLineShape(title: string)
    requires |title| > 0 && !IsSpace(title[0]) && NoLineTerminator(title)
    ensures NoLineTerminator("# " + title) && !Dangling("# " + title)
    ensures LineHeading("# " + title) == Some(title)
  {
    var l := "# " + title;
    assert l[0] == '#' && l[1] == ' ' && l[2] == title[0];
    assert forall k :: 2 <= k < |l| ==> l[k] == title[k - 2];
    assert HashRun(l, 0) == 1;
    assert SpaceRun(l, 1) == 1;
    assert l[2..] == title;
  }

  lemma FenceLine()
    ensures NoLineTerminator(Fence) && !Dangling(Fence) && LineHeading(Fence).None?
  {
    assert Fence[0] == '`';
    assert HashRun(Fence, 0) == 0;
  }

  /** A heading line between two fence lines. */
  function FencedHeading(title: string): seq<string> {
    [Fence, "# " + title, Fence]
  }

  lemma FencedHeadingText(title: string)
    ensures Lines(FencedHeading(title)) == "" + Fence + ("\n" + "# " + title + "\n") + Fence + "\n"
  {
    var l := "# " + title;
    var ls := FencedHeading(title);
    assert ls[1..] == [l, Fence] && ls[1..][1..] == [Fence] && ls[1..][1..][1..] == [];
    assert Lines(ls[1..][1..]) == Fence + "\n";
    assert Lines(ls[1..]) == l + "\n" + (Fence + "\n");
    assert Lines(ls) == Fence + "\n" + (l + "\n" + (Fence + "\n"));
  }

  /**
   * Headings are scanned in the raw body: a `#` line inside a fenced code
   * block still counts.
   */
  lemma FencedHeadingStillCounts(title: string)
    requires |title| > 0 && !IsSpace(title[0]) && NoLineTerminator(title)
    ensures Headings(Lines(FencedHeading(title))) == [title]
  {
    var l := "# " + title;
    HeadingLineShape(title);
    FenceLine();
    ThreeLineHeadings(Fence, l, Fence, title);
    HeadingsOfLines([Fence, l, Fence]);
  }

  /** Three lines of which only the middle one is a heading. */
  lemma ThreeLineHeadings(a: string, b: string, c: string, t: string)
    requires NoLineTerminator(a) && !Dangling(a) && LineHeading(a).None?
    requires NoLineTerminator(b) && !Dangling(b) && LineHeading(b) == Some(t)
    requires NoLineTerminator(c) && !Dangling(c) && LineHeading(c).None?
    ensures LineHeadings([a, b, c]) == [t]
    ensures forall i :: 0 <= i < |[a, b, c]| ==> NoLineTerminator([a, b, c][i]) && !Dangling([a, b, c][i])
  {
    var ls := [a, b, c];
    assert ls[1..] == [b, c] && ls[1..][1..] == [c] && ls[1..][1..][1..] == [];
    assert LineHeadings([c]) == [];
    assert LineHeadings([b, c]) == [t];
  }

  /** The stripped text of the same body drops the whole block, heading included. */
  lemma FencedHeadingStripped(title: string)
    requires NoLineTerminator(title) && Avoids(title, IsOpenAngle) && Avoids(title, IsBacktick)
    ensures StripMdx(Lines(FencedHeading(title))) == ""
  {
    var c := "\n" + "# " + title + "\n";
    assert Lines(FencedHeading(title)) == "" + Fence + c + Fence + "\n" by {
      FencedHeadingText(title);
    }
    assert StripMdx("" + Fence + c + Fence + "\n") == StripMdx("" + "\n") by {
      AvoidsJoined("\n", "# ", title, "\n", "", IsOpenAngle);
      AvoidsJoined("\n", "# ", title, "\n", "", IsBacktick);
      assert c + "" == c;
      FencedCodeRemoved("", c, "\n");
    }
    assert "" + "\n" == "\n";
    NewlineStripped();
  }

  /** A lone line break strips to nothing. */
  lemma NewlineStripped()
    ensures StripMdx("\n") == ""
  {
    PlainTextUntouched("\n");
    NewlineCollapsed();
    SpaceTrimmed();
  }

  lemma NewlineCollapsed()
    ensures Collapse("\n") == " "
  {
    assert DropWhile("\n", IsSpace) == "";
  }

  lemma SpaceTrimmed()
    ensures Trim(" ") == ""
  {
    assert IsSpace(" "[0]);
  }
}
