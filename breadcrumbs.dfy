/**
 * The breadcrumb trail above a page: one crumb per non-empty path segment,
 * each linking to the path up to and including its segment, titled by the
 * segment with dashes as spaces and words capitalised.
 */
module Breadcrumbs {
  import opened Wrappers
  import opened Strings

  datatype Crumb = Crumb(title: string, href: string)

  // ---------------------------------------------------------------------------
  // formatSegment
  // ---------------------------------------------------------------------------

  /** The first pass of formatSegment: every `-` becomes a space. */
  function Undash(s: string): (r: string)
    ensures |r| == |s|
    ensures NoChar(r, '-')
    ensures forall i :: 0 <= i < |s| ==> r[i] == (if s[i] == '-' then ' ' else s[i])
  {
    seq(|s|, i requires 0 <= i < |s| => if s[i] == '-' then ' ' else s[i])
  }

  /** Where the regex `\b\w` matches: a word character not preceded by one. */
  predicate WordStart(s: string, i: int)
    requires 0 <= i < |s|
  {
    IsWordChar(s[i]) && (i == 0 || !IsWordChar(s[i - 1]))
  }

  /** The second pass: every word-initial character upper-cased. */
  function Capitalise(s: string): (r: string)
    ensures |r| == |s|
  {
    seq(|s|, i requires 0 <= i < |s| => if WordStart(s, i) then ToUpper(s[i]) else s[i])
  }

  /**
   * formatSegment keeps the length, leaves no dash, keeps which positions hold
   * word characters, starts no word with a lower-case letter, and changes
   * nothing else: a dash becomes a space, a word-initial character is
   * upper-cased, and every other character stays.
   */
  function FormatSegment(segment: string): (r: string)
    ensures |r| == |segment|
    ensures NoChar(r, '-')
    ensures forall i :: 0 <= i < |r| ==> (IsWordChar(r[i]) <==> IsWordChar(segment[i]))
    ensures forall i :: 0 <= i < |r| && WordStart(r, i) ==> !('a' <= r[i] <= 'z')
    ensures forall i :: 0 <= i < |r| && segment[i] != '-' && !WordStart(segment, i) ==> r[i] == segment[i]
    ensures forall i :: 0 <= i < |r| ==>
              r[i] == if segment[i] == '-' then ' '
                      else if WordStart(segment, i) then ToUpper(segment[i])
                      else segment[i]
  {
    var u := Undash(segment);
    var r := Capitalise(u);
    assert forall i :: 0 <= i < |r| ==> (WordStart(r, i) <==> WordStart(u, i)) && (WordStart(u, i) <==> WordStart(segment, i));
    r
  }

  /** A title that is already formatted is left as it is. */
  lemma FormatSegmentIdempotent(segment: string)
    ensures FormatSegment(FormatSegment(segment)) == FormatSegment(segment)
  {
    var r := FormatSegment(segment);
    var r2 := FormatSegment(r);
    forall i | 0 <= i < |r|
      ensures r2[i] == r[i]
    {
      if WordStart(r, i) {
        assert ToUpper(r[i]) == r[i];
      }
    }
  }

  /**
   * The segments formatSegment leaves alone are exactly those with no dash
   * and no word starting with a lower-case letter.
   */
  lemma FormatSegmentFixes(segment: string)
    ensures FormatSegment(segment) == segment
            <==> NoChar(segment, '-')
                 && forall i :: 0 <= i < |segment| && WordStart(segment, i) ==> !('a' <= segment[i] <= 'z')
  {
    var r := FormatSegment(segment);
    if NoChar(segment, '-') && forall i :: 0 <= i < |segment| && WordStart(segment, i) ==> !('a' <= segment[i] <= 'z') {
      forall i | 0 <= i < |segment|
        ensures r[i] == segment[i]
      {
        assert Undash(segment)[i] == segment[i];
        if WordStart(segment, i) {
          assert WordStart(Undash(segment), i);
        }
      }
    }
  }

  // ---------------------------------------------------------------------------
  // generateBreadcrumbs
  // ---------------------------------------------------------------------------

  /** The path built from the first segments: `/` before each one. */
  function PathTo(segs: seq<string>): string
    decreases |segs|
  {
    if |segs| == 0 then "" else PathTo(segs[..|segs| - 1]) + "/" + segs[|segs| - 1]
  }

  lemma PathToSnoc(segs: seq<string>, i: nat)
    requires i < |segs|
    ensures PathTo(segs[..i + 1]) == PathTo(segs[..i]) + "/" + segs[i]
  {
    assert segs[..i + 1][..i] == segs[..i];
  }

  /** The crumbs for a list of segments, the k-th linking to the first k+1. */
  function CrumbsOf(segs: seq<string>): (r: seq<Crumb>)
    ensures |r| == |segs|
  {
    seq(|segs|, k requires 0 <= k < |segs| => Crumb(FormatSegment(segs[k]), PathTo(segs[..k + 1])))
  }

  /** The crumbs generateBreadcrumbs yields for a pathname. */
  function BreadcrumbsFor(pathname: string): seq<Crumb> {
    CrumbsOf(Segments(pathname))
  }

  /** generateBreadcrumbs: the loop that extends the current path by one segment per crumb. */
  method GenerateBreadcrumbs(pathname: string) returns (breadcrumbs: seq<Crumb>)
    ensures breadcrumbs == BreadcrumbsFor(pathname)
  {
    var segments := Segments(pathname);
    ghost var all := CrumbsOf(segments);
    breadcrumbs := [];
    var currentPath := "";
    for i := 0 to |segments|
      invariant breadcrumbs == all[..i]
      invariant currentPath == PathTo(segments[..i])
    {
      PathToSnoc(segments, i);
      TakeSnoc(all, i);
      currentPath := currentPath + "/" + segments[i];
      breadcrumbs := breadcrumbs + [Crumb(FormatSegment(segments[i]), currentPath)];
    }
    assert all[..|segments|] == all;
  }

  lemma TakeSnoc<T>(s: seq<T>, i: nat)
    requires i < |s|
    ensures s[..i + 1] == s[..i] + [s[i]]
  {
  }

  /** The path to some segments is `/` and their join, or nothing for none. */
  lemma {:induction false} PathToIsJoin(segs: seq<string>)
    ensures PathTo(segs) == if |segs| == 0 then "" else "/" + Join(segs, '/')
    decreases |segs|
  {
    if |segs| > 0 {
      var init := segs[..|segs| - 1];
      var last := segs[|segs| - 1];
      PathToIsJoin(init);
      assert segs == init + [last];
      JoinSnoc(init, last, '/');
      if |init| > 0 {
        SlashRegroup(Join(init, '/'), last);
      }
    }
  }

  lemma SlashRegroup(j: string, x: string)
    ensures "/" + j + "/" + x == "/" + (j + ['/'] + x)
  {
  }

  /** One crumb per non-empty segment, titled by that segment, in order. */
  lemma CrumbPerSegment(pathname: string)
    ensures |BreadcrumbsFor(pathname)| == |Segments(pathname)|
    ensures forall k :: 0 <= k < |Segments(pathname)| ==>
      BreadcrumbsFor(pathname)[k].title == FormatSegment(Segments(pathname)[k])
  {
  }

  /** Crumb k links to `/` and the first k+1 segments joined by `/`. */
  lemma CrumbHref(pathname: string, k: nat)
    requires k < |Segments(pathname)|
    ensures BreadcrumbsFor(pathname)[k].href == "/" + Join(Segments(pathname)[..k + 1], '/')
  {
    CrumbOfSegments(Segments(pathname), k);
  }

  lemma CrumbOfSegments(segs: seq<string>, k: nat)
    requires k < |segs|
    ensures CrumbsOf(segs)[k].href == "/" + Join(segs[..k + 1], '/')
  {
    assert CrumbsOf(segs)[k].href == PathTo(segs[..k + 1]);
    PathToIsJoin(segs[..k + 1]);
  }

  /** Each href extends the one before it by `/` and the next segment. */
  lemma HrefExtendsPrevious(pathname: string, k: nat)
    requires k + 1 < |Segments(pathname)|
    ensures BreadcrumbsFor(pathname)[k + 1].href
            == BreadcrumbsFor(pathname)[k].href + "/" + Segments(pathname)[k + 1]
    ensures StartsWith(BreadcrumbsFor(pathname)[k + 1].href, BreadcrumbsFor(pathname)[k].href)
  {
    PathToSnoc(Segments(pathname), k + 1);
  }

  /** Splitting a crumb's href gives back the segments up to its own. */
  lemma CrumbHrefSegments(pathname: string, k: nat)
    requires k < |Segments(pathname)|
    ensures Segments(BreadcrumbsFor(pathname)[k].href) == Segments(pathname)[..k + 1]
  {
    var segs := Segments(pathname)[..k + 1];
    CrumbHref(pathname, k);
    SegmentsLeadingSlash(Join(segs, '/'));
    SegmentsJoin(segs);
  }

  /** The last crumb links to the pathname with its empty segments removed. */
  lemma LastCrumbIsPage(pathname: string)
    requires |Segments(pathname)| > 0
    ensures var c := BreadcrumbsFor(pathname);
            c[|c| - 1].href == "/" + Join(Segments(pathname), '/')
  {
    var segs := Segments(pathname);
    CrumbHref(pathname, |segs| - 1);
    assert segs[..|segs|] == segs;
  }

  /** A clean pathname (a slash before each non-empty segment) is the last crumb's href itself. */
  lemma LastCrumbOfCleanPath(segs: seq<string>)
    requires |segs| > 0
    requires forall i :: 0 <= i < |segs| ==> segs[i] != "" && NoChar(segs[i], '/')
    ensures var c := BreadcrumbsFor("/" + Join(segs, '/'));
            |c| == |segs| && c[|c| - 1].href == "/" + Join(segs, '/')
  {
    SegmentsLeadingSlash(Join(segs, '/'));
    SegmentsJoin(segs);
    LastCrumbIsPage("/" + Join(segs, '/'));
  }

  // ---------------------------------------------------------------------------
  // Visibility
  // ---------------------------------------------------------------------------

  /**
   * What the component draws: the given items when there are any (an empty
   * list included), else the generated crumbs; nothing when that is at most
   * one crumb.
   */
  function Shown(items: Option<seq<Crumb>>, pathname: string): (r: Option<seq<Crumb>>)
    ensures items.Some? ==> (r.Some? <==> |items.value| > 1) && (r.Some? ==> r.value == items.value)
    ensures items.None? ==> (r.Some? <==> |Segments(pathname)| > 1) && (r.Some? ==> r.value == BreadcrumbsFor(pathname))
  {
    var crumbs := if items.Some? then items.value else BreadcrumbsFor(pathname);
    if |crumbs| <= 1 then None else Some(crumbs)
  }

  /** A given empty list is used as it is, so it hides the trail even on a deep page. */
  lemma EmptyItemsHide(pathname: string)
    ensures Shown(Some([]), pathname).None?
  {
  }

  /** The root and the pages one level deep show no trail. */
  lemma ShallowPageHidden(segment: string)
    requires NoChar(segment, '/')
    ensures Shown(None, "/" + segment).None?
  {
    SegmentsLeadingSlash(segment);
    if segment != "" {
      SegmentsOfName(segment);
    } else {
      assert Segments("") == [] by {
        assert Split("", '/') == [""];
      }
    }
  }
}
