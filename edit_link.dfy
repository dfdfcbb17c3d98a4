/**
 * The "edit this page" link: the page's path without its outer slashes (or
 * `index` for the root), with `.mdx` appended, put in place of `{path}` in
 * the configured URL pattern.
 */
module EditLink {
  import opened Wrappers
  import opened Strings

  datatype EditPageConfig = EditPageConfig(enabled: Option<bool>, pattern: Option<string>)

  const PathPlaceholder := "{path}"

  /**
   * The regex replace of `^/` and `/$`: a slash at the start and one at the
   * end come off, once each; a lone `/` is the leading one.
   */
  function TrimOuterSlash(pathname: string): (r: string)
    ensures |pathname| - 2 <= |r| <= |pathname|
  {
    var a := if |pathname| > 0 && pathname[0] == '/' then pathname[1..] else pathname;
    if |a| > 0 && a[|a| - 1] == '/' then a[..|a| - 1] else a
  }

  /** What TrimOuterSlash does to each shape of path: only the outermost slash at either end goes. */
  lemma TrimOuterSlashCases(x: string)
    ensures TrimOuterSlash("/" + x + "/") == x
    ensures (|x| == 0 || x[|x| - 1] != '/') ==> TrimOuterSlash("/" + x) == x
    ensures (|x| == 0 || x[0] != '/') ==> TrimOuterSlash(x + "/") == x
    ensures (|x| == 0 || (x[0] != '/' && x[|x| - 1] != '/')) ==> TrimOuterSlash(x) == x
  {
    assert ("/" + x + "/")[1..] == x + "/";
    assert ("/" + x)[1..] == x;
    assert (x + "/")[..|x|] == x;
  }

  /** `cleanPath`: the trimmed path, or `index` when nothing is left. */
  function CleanPath(pathname: string): (r: string)
    ensures r != ""
    ensures TrimOuterSlash(pathname) == "" ==> r == "index"
    ensures TrimOuterSlash(pathname) != "" ==> r == TrimOuterSlash(pathname)
  {
    var t := TrimOuterSlash(pathname);
    if t == "" then "index" else t
  }

  /** The page's source file: the clean path and `.mdx`. */
  function FilePath(pathname: string): (r: string)
    ensures EndsWith(r, ".mdx") && |r| > |".mdx"|
    ensures r[..|r| - 4] == CleanPath(pathname)
  {
    CleanPath(pathname) + ".mdx"
  }

  /** The pattern when the link is enabled and the pattern non-empty. */
  function ActivePattern(config: EditPageConfig): (r: Option<string>)
    ensures r.Some? <==> config.enabled == Some(true) && config.pattern.Some? && config.pattern.value != ""
    ensures r.Some? ==> r == config.pattern
  {
    if config.enabled == Some(true) && config.pattern.Some? && config.pattern.value != "" then config.pattern else None
  }

  /**
   * The edit URL, none when the feature is off or has no pattern; otherwise
   * the pattern with its first `{path}` replaced by the file path, or the
   * pattern unchanged when it has no `{path}`.
   */
  function EditUrl(config: EditPageConfig, pathname: string): (r: Option<string>)
    ensures r.Some? <==> ActivePattern(config).Some?
    ensures r.Some? && (forall j :: !OccursAt(config.pattern.value, PathPlaceholder, j)) ==> r.value == config.pattern.value
    ensures forall i :: r.Some? && FirstOccurrence(config.pattern.value, PathPlaceholder, i) ==>
      r.value == config.pattern.value[..i] + FilePath(pathname) + config.pattern.value[i + |PathPlaceholder|..]
  {
    match ActivePattern(config)
    case None => None
    case Some(pattern) => Some(ReplaceFirst(pattern, PathPlaceholder, FilePath(pathname)))
  }

  /**
   * With a pattern `pre{path}post` (no `{` in `pre`), a page at `/` and its
   * segments gets `pre`, the joined segments, `.mdx`, then `post` untouched.
   */
  lemma EditUrlOfPage(pre: string, post: string, segs: seq<string>)
    requires NoChar(pre, '{')
    requires |segs| > 0 && forall i :: 0 <= i < |segs| ==> segs[i] != "" && NoChar(segs[i], '/')
    ensures EditUrl(EditPageConfig(Some(true), Some(pre + PathPlaceholder + post)), "/" + Join(segs, '/'))
            == Some(pre + Join(segs, '/') + ".mdx" + post)
  {
    JoinEnds(segs);
    EditUrlOfCleanPath(pre, post, Join(segs, '/'));
  }

  /** The same for any path without outer slashes, after a leading `/`. */
  lemma EditUrlOfCleanPath(pre: string, post: string, x: string)
    requires NoChar(pre, '{')
    requires x != "" && x[0] != '/' && x[|x| - 1] != '/'
    ensures EditUrl(EditPageConfig(Some(true), Some(pre + PathPlaceholder + post)), "/" + x)
            == Some(pre + x + ".mdx" + post)
  {
    var pattern := pre + PathPlaceholder + post;
    FilePathOfCleanPath(x);
    ReplacePlaceholder(pre, post, x + ".mdx");
    EditUrlActive(EditPageConfig(Some(true), Some(pattern)), "/" + x);
    Regroup(pre, x, post);
  }

  lemma FilePathOfCleanPath(x: string)
    requires x != "" && x[0] != '/' && x[|x| - 1] != '/'
    ensures FilePath("/" + x) == x + ".mdx"
  {
    TrimOuterSlashCases(x);
  }

  lemma ReplacePlaceholder(pre: string, post: string, file: string)
    requires NoChar(pre, '{')
    ensures ReplaceFirst(pre + PathPlaceholder + post, PathPlaceholder, file) == pre + file + post
  {
    ReplaceFirstAfter(pre, PathPlaceholder, post, file);
  }

  lemma Regroup(pre: string, x: string, post: string)
    ensures pre + (x + ".mdx") + post == pre + x + ".mdx" + post
  {
  }

  /** The home page edits `index.mdx`. */
  lemma EditUrlOfRoot(pre: string, post: string)
    requires NoChar(pre, '{')
    ensures EditUrl(EditPageConfig(Some(true), Some(pre + PathPlaceholder + post)), "/")
            == Some(pre + "index.mdx" + post)
  {
    var pattern := pre + PathPlaceholder + post;
    var config := EditPageConfig(Some(true), Some(pattern));
    assert FilePath("/") == "index.mdx" by {
      assert TrimOuterSlash("/") == "";
    }
    assert ReplaceFirst(pattern, PathPlaceholder, "index.mdx") == pre + "index.mdx" + post by {
      ReplaceFirstAfter(pre, PathPlaceholder, post, "index.mdx");
    }
    EditUrlActive(config, "/");
  }

  lemma EditUrlActive(config: EditPageConfig, pathname: string)
    requires config.enabled == Some(true) && config.pattern.Some? && config.pattern.value != ""
    ensures EditUrl(config, pathname) == Some(ReplaceFirst(config.pattern.value, PathPlaceholder, FilePath(pathname)))
  {
  }

  /** A join of non-empty, slash-free segments is non-empty and neither starts nor ends with `/`. */
  lemma {:induction false} JoinEnds(segs: seq<string>)
    requires |segs| > 0 && forall i :: 0 <= i < |segs| ==> segs[i] != "" && NoChar(segs[i], '/')
    ensures var x := Join(segs, '/'); x != "" && x[0] == segs[0][0] && x[|x| - 1] == segs[|segs| - 1][|segs[|segs| - 1]| - 1]
    decreases |segs|
  {
    if |segs| > 1 {
      JoinEnds(segs[1..]);
    }
  }
}
