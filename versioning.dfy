/**
 * Version-prefixed documentation paths (lib/utils/versioning.ts).
 *
 * A path such as "/v1/guide/intro" belongs to the configured version whose `path` is the
 * first segment ("v1"); a path whose first segment names no version belongs to the default
 * version, which is served without a prefix.
 */
module Versioning {
  import opened Wrappers
  import opened Strings

  datatype Version = Version(id: string, caption: string, path: string, deprecated: bool)

  /** The versioning section of the site configuration (the banner settings are not used here). */
  datatype VersioningConfig = VersioningConfig(enabled: bool, defaultVersion: string, versions: seq<Version>)

  /** `config?.enabled`, with an absent configuration counting as disabled. */
  predicate Enabled(config: Option<VersioningConfig>) {
    config.Some? && config.value.enabled
  }

  /** `config?.enabled && config.versions?.length`: the guard of the lookups. */
  predicate Active(config: Option<VersioningConfig>) {
    Enabled(config) && |config.value.versions| > 0
  }

  /** `path.replace(/^\/+|\/+$/g, '').split('/')[0]`. */
  function FirstSegment(path: string): string {
    Split(TrimSlashes(path), '/')[0]
  }

  predicate FirstWithPath(vs: seq<Version>, p: string, i: int) {
    0 <= i < |vs| && vs[i].path == p && forall j :: 0 <= j < i ==> vs[j].path != p
  }

  predicate FirstWithId(vs: seq<Version>, id: string, i: int) {
    0 <= i < |vs| && vs[i].id == id && forall j :: 0 <= j < i ==> vs[j].id != id
  }

  predicate HasPath(vs: seq<Version>, p: string) {
    exists j :: 0 <= j < |vs| && vs[j].path == p
  }

  predicate HasId(vs: seq<Version>, id: string) {
    exists j :: 0 <= j < |vs| && vs[j].id == id
  }

  /** `versions.find(v => v.path === p)`, as an index. */
  function FindByPath(vs: seq<Version>, p: string): (r: Option<nat>)
    ensures r.Some? ==> FirstWithPath(vs, p, r.value)
    ensures r.None? ==> forall j :: 0 <= j < |vs| ==> vs[j].path != p
    decreases |vs|
  {
    if |vs| == 0 then None
    else if vs[0].path == p then Some(0)
    else match FindByPath(vs[1..], p)
      case None => None
      case Some(k) => Some(k + 1)
  }

  /** `versions.find(v => v.id === id)`, as an index. */
  function FindById(vs: seq<Version>, id: string): (r: Option<nat>)
    ensures r.Some? ==> FirstWithId(vs, id, r.value)
    ensures r.None? ==> forall j :: 0 <= j < |vs| ==> vs[j].id != id
    decreases |vs|
  {
    if |vs| == 0 then None
    else if vs[0].id == id then Some(0)
    else match FindById(vs[1..], id)
      case None => None
      case Some(k) => Some(k + 1)
  }

  /** `getDefaultVersion`: the version named by `defaultVersion`, else the first version. */
  function GetDefaultVersion(config: Option<VersioningConfig>): (r: Option<Version>)
    ensures r.None? <==> !Active(config)
    ensures Active(config) ==> forall i :: FirstWithId(config.value.versions, config.value.defaultVersion, i)
                                          ==> r == Some(config.value.versions[i])
    ensures Active(config) && !HasId(config.value.versions, config.value.defaultVersion) ==> r == Some(config.value.versions[0])
  {
    if !Active(config) then None
    else
      var vs := config.value.versions;
      match FindById(vs, config.value.defaultVersion)
      case Some(i) => Some(vs[i])
      case None => Some(vs[0])
  }

  /**
   * `getVersionFromPath`: nothing when versioning is off or lists no version; otherwise the
   * first version whose `path` is the first segment, and the default version when none is.
   */
  function GetVersionFromPath(path: string, config: Option<VersioningConfig>): (r: Option<Version>)
    ensures !Active(config) ==> r.None?
    ensures Active(config) ==> r.Some? && r.value in config.value.versions
    ensures Active(config) ==> forall i :: FirstWithPath(config.value.versions, FirstSegment(path), i)
                                          ==> r == Some(config.value.versions[i])
    ensures Active(config) && !HasPath(config.value.versions, FirstSegment(path)) ==> r == GetDefaultVersion(config)
  {
    if !Active(config) then None
    else
      var vs := config.value.versions;
      match FindByPath(vs, FirstSegment(path))
      case Some(i) => Some(vs[i])
      case None => GetDefaultVersion(config)
  }

  /**
   * `isDefaultVersion`: true when versioning is off or there is no current version; otherwise
   * the current version's id is compared with the configured `defaultVersion` id itself
   * (not with the fallback chosen by `getDefaultVersion`).
   */
  function IsDefaultVersion(current: Option<Version>, config: Option<VersioningConfig>): bool {
    !Enabled(config) || current.None? || current.value.id == config.value.defaultVersion
  }

  /**
   * `getPathWithinVersion`: when the first segment is some version's path, that one segment is
   * removed (the rest re-joined after a "/"); otherwise the path is returned as given.
   */
  function GetPathWithinVersion(path: string, config: Option<VersioningConfig>): (r: string)
    ensures !Active(config) ==> r == path
    ensures Active(config) && !HasPath(config.value.versions, FirstSegment(path)) ==> r == path
    ensures Active(config) && HasPath(config.value.versions, FirstSegment(path)) ==>
              |r| > 0 && r[0] == '/' && TrimSlashes(path) == FirstSegment(path) + (if r == "/" then "" else r)
  {
    if !Active(config) then path
    else
      var segments := Split(TrimSlashes(path), '/');
      if HasPath(config.value.versions, segments[0]) then
        var r := "/" + Join(segments[1..], '/');
        RemovedSegment(TrimSlashes(path), segments);
        r
      else path
  }

  /** The arithmetic of removing the first part of a split, used by GetPathWithinVersion. */
  lemma RemovedSegment(clean: string, segments: seq<string>)
    requires segments == Split(clean, '/')
    requires |clean| > 0 ==> clean[|clean| - 1] != '/'
    ensures var r := "/" + Join(segments[1..], '/');
            clean == segments[0] + (if r == "/" then "" else r)
  {
    JoinSplit(clean, '/');
    JoinCons(segments[0], segments[1..], '/');
    assert segments == [segments[0]] + segments[1..];
  }

  /**
   * `buildVersionedPath`: the path unchanged when versioning is off; otherwise the cleaned inner
   * path, bare for the default version and after "/<path>" for any other, with trailing slashes
   * removed and "/" for an empty result. Always starts with "/" and never ends with one
   * unless it is "/".
   */
  function BuildVersionedPath(path: string, target: Version, config: Option<VersioningConfig>): (r: string)
    ensures !Enabled(config) ==> r == path
    ensures Enabled(config) ==> |r| > 0 && r[0] == '/' && (r == "/" || r[|r| - 1] != '/')
  {
    if !Enabled(config) then path
    else
      var cleanInnerPath := TrimSlashes(GetPathWithinVersion(path, config));
      var defaultVersion := GetDefaultVersion(config);
      if defaultVersion.Some? && target.id == defaultVersion.value.id then "/" + cleanInnerPath
      else
        var joined := DropWhileEnd("/" + target.path + "/" + cleanInnerPath, IsSlash);
        if joined == "" then "/" else joined
  }

  const VersionPlaceholder: string := "{version}"
  const LatestPlaceholder: string := "{latest}"

  /** The label substituted for `{latest}`: the default version's label, or "latest". */
  function LatestLabel(defaultVersion: Option<Version>): (l: string)
    ensures l != ""
    ensures defaultVersion.Some? && defaultVersion.value.caption != "" ==> l == defaultVersion.value.caption
  {
    if defaultVersion.Some? && defaultVersion.value.caption != "" then defaultVersion.value.caption else "latest"
  }

  /**
   * `formatBannerMessage`: the first `{version}` becomes the current version's label, then
   * the first `{latest}` of the message so far becomes LatestLabel; a pass whose
   * placeholder does not occur leaves the text as it is.
   */
  function FormatBannerMessage(message: string, current: Version, defaultVersion: Option<Version>): (r: string)
    ensures (forall j :: !OccursAt(message, VersionPlaceholder, j)) ==>
              ((forall j :: !OccursAt(message, LatestPlaceholder, j)) ==> r == message)
              && forall k :: FirstOccurrence(message, LatestPlaceholder, k) ==>
                   r == message[..k] + LatestLabel(defaultVersion) + message[k + |LatestPlaceholder|..]
    ensures forall i :: FirstOccurrence(message, VersionPlaceholder, i) ==>
              var m := message[..i] + current.caption + message[i + |VersionPlaceholder|..];
              ((forall j :: !OccursAt(m, LatestPlaceholder, j)) ==> r == m)
              && forall k :: FirstOccurrence(m, LatestPlaceholder, k) ==>
                   r == m[..k] + LatestLabel(defaultVersion) + m[k + |LatestPlaceholder|..]
  {
    ReplaceFirst(ReplaceFirst(message, VersionPlaceholder, current.caption), LatestPlaceholder, LatestLabel(defaultVersion))
  }

  // ---------------------------------------------------------------------------
  // Properties
  // ---------------------------------------------------------------------------

  /**
   * Both placeholders filled: `A{version}B{latest}C` becomes `A<caption>B<latest>C` when no
   * brace comes before the placeholders.
   */
  lemma BannerMessageFilled(a: string, b: string, c: string, current: Version, defaultVersion: Option<Version>)
    requires NoChar(a, '{') && NoChar(b, '{') && NoChar(current.caption, '{')
    ensures FormatBannerMessage(a + VersionPlaceholder + (b + LatestPlaceholder + c), current, defaultVersion)
            == a + current.caption + b + LatestLabel(defaultVersion) + c
  {
    assert NoChar(a + current.caption + b, '{');
    ReplaceTwice(a, VersionPlaceholder, b, LatestPlaceholder, c, current.caption, LatestLabel(defaultVersion));
  }

  /** Only `{latest}`: it becomes the latest label and the rest is untouched. */
  lemma BannerLatestOnly(a: string, b: string, current: Version, defaultVersion: Option<Version>)
    requires NoChar(a, '{') && NoChar(b, '{')
    ensures FormatBannerMessage(a + LatestPlaceholder + b, current, defaultVersion)
            == a + LatestLabel(defaultVersion) + b
  {
    var message := a + LatestPlaceholder + b;
    NoVersionBefore(a, b, "");
    assert message + "" == message;
    assert forall j :: !OccursAt(message, VersionPlaceholder, j);
    ReplaceFirstAfter(a, LatestPlaceholder, b, LatestLabel(defaultVersion));
  }

  /** `{latest}` before `{version}`: each becomes its label, in place. */
  lemma BannerReversedOrder(a: string, b: string, c: string, current: Version, defaultVersion: Option<Version>)
    requires NoChar(a, '{') && NoChar(b, '{')
    ensures FormatBannerMessage(a + LatestPlaceholder + (b + VersionPlaceholder + c), current, defaultVersion)
            == a + LatestLabel(defaultVersion) + b + current.caption + c
  {
    BothPassesReversed(a, b, c, current.caption, LatestLabel(defaultVersion));
  }

  lemma BothPassesReversed(a: string, b: string, c: string, caption: string, latest: string)
    requires NoChar(a, '{') && NoChar(b, '{')
    ensures ReplaceFirst(ReplaceFirst(a + LatestPlaceholder + (b + VersionPlaceholder + c), VersionPlaceholder, caption),
                         LatestPlaceholder, latest)
            == a + latest + b + caption + c
  {
    var rest := b + caption + c;
    var once := ReplaceFirst(a + LatestPlaceholder + (b + VersionPlaceholder + c), VersionPlaceholder, caption);
    VersionPassAfterLatest(a, b, c, caption);
    assert once == a + LatestPlaceholder + rest;
    ReplaceFirstAfter(a, LatestPlaceholder, rest, latest);
    Regroup3(a, latest, b, caption, c);
  }

  lemma Regroup3(a: string, x: string, b: string, y: string, c: string)
    ensures a + x + (b + y + c) == a + x + b + y + c
  {
  }

  lemma VersionPassAfterLatest(a: string, b: string, c: string, caption: string)
    requires NoChar(a, '{') && NoChar(b, '{')
    ensures ReplaceFirst(a + LatestPlaceholder + (b + VersionPlaceholder + c), VersionPlaceholder, caption)
            == a + LatestPlaceholder + (b + caption + c)
  {
    var x := a + LatestPlaceholder + b;
    NoVersionBefore(a, b, VersionPlaceholder + c);
    assert x + (VersionPlaceholder + c) == x + VersionPlaceholder + c;
    ReplaceFirstAt(x, VersionPlaceholder, c, caption);
    Regroup3(a, LatestPlaceholder, b, VersionPlaceholder, c);
    Regroup3(a, LatestPlaceholder, b, caption, c);
  }

  /** The only brace of `a{latest}b` starts `{latest}`, so no `{version}` starts there. */
  lemma NoVersionBefore(a: string, b: string, rest: string)
    requires NoChar(a, '{') && NoChar(b, '{')
    ensures forall j :: 0 <= j < |a + LatestPlaceholder + b| ==> !OccursAt(a + LatestPlaceholder + b + rest, VersionPlaceholder, j)
  {
    var x := a + LatestPlaceholder + b;
    var s := x + rest;
    forall j | 0 <= j < |x|
      ensures !OccursAt(s, VersionPlaceholder, j)
    {
      if j + |VersionPlaceholder| <= |s| {
        var w := s[j..j + |VersionPlaceholder|];
        if j < |a| {
          assert w[0] == s[j] == a[j];
        } else if j == |a| {
          assert w[1] == s[j + 1] == 'l';
        } else if j < |a| + |LatestPlaceholder| {
          assert w[0] == s[j] == LatestPlaceholder[j - |a|];
        } else {
          assert w[0] == s[j] == b[j - |a| - |LatestPlaceholder|];
        }
      }
    }
  }

  /**
   * `isDefaultVersion` and `getDefaultVersion` agree on the fallback version only when
   * `defaultVersion` names a configured version.
   */
  lemma {:induction false} FallbackIsDefaultIff(config: Option<VersioningConfig>)
    requires Active(config)
    ensures IsDefaultVersion(GetDefaultVersion(config), config)
            <==> HasId(config.value.versions, config.value.defaultVersion)
  {
    var vs := config.value.versions;
    match FindById(vs, config.value.defaultVersion)
    case Some(i) =>
    case None =>
  }

  /** A version whose path no other version shares. */
  predicate UniquePath(vs: seq<Version>, v: Version) {
    forall w :: w in vs && w.path == v.path ==> w == v
  }

  /** A path whose first segment is the path of a uniquely identified version reads as it. */
  lemma ReadsBack(r: string, v: Version, config: Option<VersioningConfig>)
    requires Active(config)
    requires v in config.value.versions && UniquePath(config.value.versions, v)
    requires FirstSegment(r) == v.path
    ensures GetVersionFromPath(r, config) == Some(v)
  {
    var vs := config.value.versions;
    var i :| 0 <= i < |vs| && vs[i] == v;
    assert vs[i].path == v.path;
    var k := FindByPath(vs, v.path).value;
    assert FirstWithPath(vs, FirstSegment(r), k);
  }

  /** Building for a version other than the default joins its path and the inner path. */
  lemma BuildForOther(p: string, v: Version, config: Option<VersioningConfig>)
    requires Active(config)
    requires v.id != GetDefaultVersion(config).value.id
    ensures var inner := TrimSlashes(GetPathWithinVersion(p, config));
            var joined := DropWhileEnd("/" + v.path + "/" + inner, IsSlash);
            BuildVersionedPath(p, v, config) == if joined == "" then "/" else joined
  {
  }

  lemma EmptyInner(segment: string, inner: string)
    requires inner == ""
    ensures "/" + segment + "/" + inner == ("/" + segment) + "/"
  {
  }

  lemma JoinRegroup(segment: string, inner: string)
    ensures "/" + segment + "/" + inner == ("/" + (segment + "/" + inner)) + ""
  {
  }

  lemma NoSuffix(x: string)
    ensures x + "" == x
  {
  }

  /** Joining a segment and a cleaned inner path leaves no trailing slash and trims back. */
  lemma JoinedUnderSegment(segment: string, inner: string)
    requires segment != "" && NoChar(segment, '/')
    requires |inner| > 0 ==> inner[0] != '/' && inner[|inner| - 1] != '/'
    ensures var body := if inner == "" then segment else segment + "/" + inner;
            DropWhileEnd("/" + segment + "/" + inner, IsSlash) == "/" + body && TrimSlashes("/" + body) == body
  {
    assert segment[0] != '/' && segment[|segment| - 1] != '/';
    var body := if inner == "" then segment else segment + "/" + inner;
    assert body[0] != '/' && body[|body| - 1] != '/';
    if inner == "" {
      EmptyInner(segment, inner);
      DropWhileEndSlashes("/" + body, "/");
    } else {
      JoinRegroup(segment, inner);
      DropWhileEndSlashes("/" + body, "");
    }
    TrimSlashesOf("/", body, "");
    NoSuffix("/" + body);
  }

  /** A path starting with a version segment loses exactly that segment. */
  lemma StripsSegment(r: string, segment: string, rest: seq<string>, config: Option<VersioningConfig>)
    requires Active(config) && HasPath(config.value.versions, segment)
    requires Split(TrimSlashes(r), '/') == [segment] + rest
    ensures GetPathWithinVersion(r, config) == "/" + Join(rest, '/')
  {
    assert ([segment] + rest)[1..] == rest;
  }

  /** The parts of a built path: the version's path, then the parts of the inner path. */
  lemma BuiltParts(segment: string, inner: string)
    requires segment != "" && NoChar(segment, '/')
    ensures var body := if inner == "" then segment else segment + "/" + inner;
            var rest := if inner == "" then [] else Split(inner, '/');
            Split(body, '/') == [segment] + rest && Join(rest, '/') == inner
  {
    SplitNoSep(segment, '/');
    if inner != "" {
      SplitAtSep(segment, inner, '/');
      JoinSplit(inner, '/');
    }
  }

  /** Reading a path whose parts are a unique version's path followed by `rest`. */
  lemma ReadsVersionParts(r: string, v: Version, rest: seq<string>, config: Option<VersioningConfig>)
    requires Active(config)
    requires v in config.value.versions && UniquePath(config.value.versions, v)
    requires Split(TrimSlashes(r), '/') == [v.path] + rest
    ensures GetVersionFromPath(r, config) == Some(v)
    ensures GetPathWithinVersion(r, config) == "/" + Join(rest, '/')
  {
    ReadsBack(r, v, config);
    var i :| 0 <= i < |config.value.versions| && config.value.versions[i] == v;
    assert HasPath(config.value.versions, v.path);
    StripsSegment(r, v.path, rest, config);
  }

  /**
   * Round trip for a non-default version: a path built for `v` is read back as `v`, and
   * stripping the version again gives "/" + the cleaned inner path of the original.
   */
  lemma VersionRoundTrip(p: string, v: Version, config: Option<VersioningConfig>)
    requires Active(config)
    requires v in config.value.versions && UniquePath(config.value.versions, v)
    requires v.path != "" && NoChar(v.path, '/')
    requires v.id != GetDefaultVersion(config).value.id
    ensures GetVersionFromPath(BuildVersionedPath(p, v, config), config) == Some(v)
    ensures GetPathWithinVersion(BuildVersionedPath(p, v, config), config)
            == "/" + TrimSlashes(GetPathWithinVersion(p, config))
  {
    var inner := TrimSlashes(GetPathWithinVersion(p, config));
    var body := if inner == "" then v.path else v.path + "/" + inner;
    var rest: seq<string> := if inner == "" then [] else Split(inner, '/');
    var r := "/" + body;
    assert BuildVersionedPath(p, v, config) == r && TrimSlashes(r) == body by {
      BuildForOther(p, v, config);
      JoinedUnderSegment(v.path, inner);
    }
    BuiltParts(v.path, inner);
    ReadsVersionParts(r, v, rest, config);
  }

  /** Building for the default version gives the cleaned inner path under "/". */
  lemma BuildForDefault(p: string, config: Option<VersioningConfig>)
    requires Active(config)
    ensures BuildVersionedPath(p, GetDefaultVersion(config).value, config)
            == "/" + TrimSlashes(GetPathWithinVersion(p, config))
  {
  }

  /** A path whose first segment names no version reads as the default, with nothing stripped. */
  lemma Unversioned(r: string, config: Option<VersioningConfig>)
    requires Active(config)
    requires !HasPath(config.value.versions, FirstSegment(r))
    ensures GetVersionFromPath(r, config) == GetDefaultVersion(config)
    ensures GetPathWithinVersion(r, config) == r
  {
  }

  /** The first segment of "/" + a cleaned path is that path's first part. */
  lemma FirstSegmentUnderRoot(inner: string)
    requires |inner| > 0 ==> inner[0] != '/' && inner[|inner| - 1] != '/'
    ensures FirstSegment("/" + inner) == Split(inner, '/')[0]
  {
    TrimSlashesOf("/", inner, "");
    assert "/" + inner + "" == "/" + inner;
  }

  /**
   * The default version is served unprefixed: building for it gives "/" + the cleaned inner
   * path, and when that path does not begin with a version segment it is read back as the
   * default version with nothing to strip.
   */
  lemma DefaultVersionRoundTrip(p: string, config: Option<VersioningConfig>)
    requires Active(config)
    ensures var d := GetDefaultVersion(config).value;
            var inner := TrimSlashes(GetPathWithinVersion(p, config));
            var r := BuildVersionedPath(p, d, config);
            r == "/" + inner
            && (!HasPath(config.value.versions, Split(inner, '/')[0]) ==>
                  GetVersionFromPath(r, config) == Some(d) && GetPathWithinVersion(r, config) == r)
  {
    var inner := TrimSlashes(GetPathWithinVersion(p, config));
    BuildForDefault(p, config);
    FirstSegmentUnderRoot(inner);
    if !HasPath(config.value.versions, Split(inner, '/')[0]) {
      Unversioned("/" + inner, config);
    }
  }
}
