/**
 * Documents by slug and the list of all slugs (lib/content/index.ts).
 *
 * The content root is `Option<seq<Entry>>` (absent when the directory does not exist);
 * `existsSync`/`readFileSync` on a candidate path are a lookup in a map from paths
 * relative to the content root to the files stored there.
 */
module Content {
  import opened Wrappers
  import opened Strings
  import opened FileTree

  /** What `getDocBySlug` returns: the body after the front matter, and the front matter. */
  datatype Doc = Doc(content: string, frontmatter: map<string, string>)

  /** `DocMeta`: front-matter title and description when present, the slug, the file's path. */
  datatype DocMeta = DocMeta(title: Option<string>, description: Option<string>, slug: string, filePath: string)

  // ---------------------------------------------------------------------------
  // getDocBySlug
  // ---------------------------------------------------------------------------

  /** `slug.length > 0 ? slug.join("/") : "index"`. */
  function LookupKey(slug: seq<string>): string {
    if |slug| > 0 then Join(slug, '/') else "index"
  }

  /** The four candidate files, in the order they are tried. */
  function Candidates(slug: seq<string>): (c: seq<string>)
    ensures |c| == 4
  {
    var key := LookupKey(slug);
    [key + ".mdx", key + "/index.mdx", key + ".md", key + "/index.md"]
  }

  /** The index of the first path that exists. */
  function FirstExisting(paths: seq<string>, files: map<string, FileData>): (r: Option<nat>)
    ensures r.Some? ==> r.value < |paths| && paths[r.value] in files
    ensures r.Some? ==> forall j :: 0 <= j < r.value ==> paths[j] !in files
    ensures r.None? ==> forall j :: 0 <= j < |paths| ==> paths[j] !in files
    decreases |paths|
  {
    if |paths| == 0 then None
    else if paths[0] in files then Some(0)
    else match FirstExisting(paths[1..], files)
      case None => None
      case Some(k) => Some(k + 1)
  }

  function DocAt(files: map<string, FileData>, path: string): Doc
    requires path in files
  {
    Doc(files[path].body, files[path].frontmatter)
  }

  /** The document `getDocBySlug` returns: the first existing candidate's, or none. */
  function Resolve(slug: seq<string>, files: map<string, FileData>): Option<Doc> {
    match FirstExisting(Candidates(slug), files)
    case None => None
    case Some(i) => Some(DocAt(files, Candidates(slug)[i]))
  }

  /** `getDocBySlug`: tries the candidates in order and returns at the first that exists. */
  method GetDocBySlug(slug: seq<string>, files: map<string, FileData>) returns (doc: Option<Doc>)
    ensures doc == Resolve(slug, files)
  {
    var slugPath := if |slug| > 0 then Join(slug, '/') else "index";
    var possiblePaths := [slugPath + ".mdx", slugPath + "/index.mdx", slugPath + ".md", slugPath + "/index.md"];
    assert possiblePaths == Candidates(slug);
    for i := 0 to |possiblePaths|
      invariant forall j :: 0 <= j < i ==> possiblePaths[j] !in files
    {
      if possiblePaths[i] in files {
        var data := files[possiblePaths[i]];
        FirstExistingIs(possiblePaths, files, i);
        return Some(Doc(data.body, data.frontmatter));
      }
    }
    FirstExistingIs(possiblePaths, files, |possiblePaths|);
    return None;
  }

  /** FirstExisting is determined by which paths exist before and at an index. */
  lemma FirstExistingIs(paths: seq<string>, files: map<string, FileData>, i: nat)
    requires i <= |paths|
    requires forall j :: 0 <= j < i ==> paths[j] !in files
    ensures i < |paths| && paths[i] in files ==> FirstExisting(paths, files) == Some(i)
    ensures i == |paths| ==> FirstExisting(paths, files) == None
  {
  }

  /** The lookup key of a non-empty slug of proper segments splits back into the slug. */
  lemma LookupKeyRoundTrip(slug: seq<string>)
    requires |slug| > 0
    requires forall i :: 0 <= i < |slug| ==> slug[i] != "" && NoChar(slug[i], '/')
    ensures Split(LookupKey(slug), '/') == slug
  {
    SplitJoin(slug, '/');
  }

  /** Nothing is found exactly when none of the four candidates exists. */
  lemma ResolveNoneIff(slug: seq<string>, files: map<string, FileData>)
    ensures Resolve(slug, files).None? <==> forall i :: 0 <= i < 4 ==> Candidates(slug)[i] !in files
  {
  }

  /**
   * Priority: `key.mdx` beats everything, `key/index.mdx` beats `key.md`, and `key.md`
   * beats `key/index.md`.
   */
  lemma ResolvePriority(slug: seq<string>, files: map<string, FileData>)
    ensures var key := LookupKey(slug);
            key + ".mdx" in files ==> Resolve(slug, files) == Some(DocAt(files, key + ".mdx"))
    ensures var key := LookupKey(slug);
            (key + ".mdx" !in files && key + "/index.mdx" in files) ==>
              Resolve(slug, files) == Some(DocAt(files, key + "/index.mdx"))
    ensures var key := LookupKey(slug);
            (key + ".mdx" !in files && key + "/index.mdx" !in files && key + ".md" in files) ==>
              Resolve(slug, files) == Some(DocAt(files, key + ".md"))
  {
    var c := Candidates(slug);
    FirstExistingIs(c, files, 0);
    if c[0] !in files {
      FirstExistingIs(c, files, 1);
      if c[1] !in files {
        FirstExistingIs(c, files, 2);
      }
    }
  }

  // ---------------------------------------------------------------------------
  // getAllDocSlugs
  // ---------------------------------------------------------------------------

  /** The slug a markdown file contributes: its directories, then its name unless that is "index". */
  function DocSlug(f: Found): seq<string> {
    var name := StripExtension(f.name);
    if name == "index" then f.dirs else f.dirs + [name]
  }

  /** The slugs of a sequence of files, one per file and in the same order. */
  function DocSlugs(fs: seq<Found>): (r: seq<seq<string>>)
    ensures |r| == |fs| && forall i :: 0 <= i < |fs| ==> r[i] == DocSlug(fs[i])
    decreases |fs|
  {
    if |fs| == 0 then [] else [DocSlug(fs[0])] + DocSlugs(fs[1..])
  }

  lemma {:induction false} DocSlugsConcat(a: seq<Found>, b: seq<Found>)
    ensures DocSlugs(a + b) == DocSlugs(a) + DocSlugs(b)
    decreases |a|
  {
    if |a| == 0 {
      assert a + b == b;
    } else {
      assert (a + b)[1..] == a[1..] + b;
      DocSlugsConcat(a[1..], b);
    }
  }

  /** One more entry of a listing: its slugs follow those of the entries before it. */
  lemma WalkStep(entries: seq<Entry>, i: nat, basePath: seq<string>)
    requires i < |entries|
    ensures DocSlugs(MarkdownFiles(entries[..i + 1], basePath))
            == DocSlugs(MarkdownFiles(entries[..i], basePath)) + DocSlugs(EntryFiles(entries[i], basePath))
  {
    MarkdownFilesSnoc(entries, i, basePath);
    DocSlugsConcat(MarkdownFiles(entries[..i], basePath), EntryFiles(entries[i], basePath));
  }

  /** The slugs `getAllDocSlugs` returns: none without a content root, else one per markdown file. */
  function AllDocSlugs(root: Option<seq<Entry>>): seq<seq<string>> {
    if root.None? then [] else DocSlugs(MarkdownFiles(root.value, []))
  }

  /** `walkDir`: appends the slugs of the files below `entries` to those collected so far. */
  method WalkDir(entries: seq<Entry>, basePath: seq<string>, slugs: seq<seq<string>>) returns (out: seq<seq<string>>)
    ensures out == slugs + DocSlugs(MarkdownFiles(entries, basePath))
    decreases entries
  {
    out := slugs;
    assert entries[..0] == [];
    for i := 0 to |entries|
      invariant out == slugs + DocSlugs(MarkdownFiles(entries[..i], basePath))
    {
      WalkStep(entries, i, basePath);
      ghost var before := out;
      ghost var step := DocSlugs(EntryFiles(entries[i], basePath));
      match entries[i] {
        case Dir(file, children) =>
          EntryFilesOfDir(file, children, basePath);
          out := WalkDir(children, basePath + [file], out);
        case File(file, data) =>
          FileSlug(file, data, basePath);
          if IsMarkdown(file) {
            var name := StripExtension(file);
            if name == "index" {
              out := out + [basePath];
            } else {
              out := out + [basePath + [name]];
            }
          }
      }
      Appended(slugs, DocSlugs(MarkdownFiles(entries[..i], basePath)), step, before, out);
    }
    assert entries[..|entries|] == entries;
  }

  /** The slug list a single file contributes. */
  lemma FileSlug(file: string, data: FileData, basePath: seq<string>)
    ensures DocSlugs(EntryFiles(File(file, data), basePath))
            == if !IsMarkdown(file) then []
               else if StripExtension(file) == "index" then [basePath]
               else [basePath + [StripExtension(file)]]
  {
    EntryFilesOfFile(file, data, basePath);
  }

  lemma Appended<T>(start: seq<T>, done: seq<T>, step: seq<T>, before: seq<T>, after: seq<T>)
    requires before == start + done && after == before + step
    ensures after == start + (done + step)
  {
  }

  /** `getAllDocSlugs`. */
  method GetAllDocSlugs(root: Option<seq<Entry>>) returns (slugs: seq<seq<string>>)
    ensures slugs == AllDocSlugs(root)
  {
    if root.None? {
      return [];
    }
    slugs := WalkDir(root.value, [], []);
  }

  /** The index rule and its consequences for a few file names. */
  lemma IndexRule(d: seq<string>, n: string, x: FileData, y: FileData)
    requires n != "index"
    ensures DocSlug(Found([], "index.md", x)) == [] && DocSlug(Found([], "index.mdx", x)) == []
    ensures DocSlug(Found(d, "index.md", x)) == d && DocSlug(Found(d, "index.mdx", x)) == d
    ensures DocSlug(Found(d, n + ".md", x)) == d + [n] && DocSlug(Found(d, n + ".mdx", y)) == d + [n]
  {
    assert StripExtension("index.md") == "index";
    assert StripExtension("index.mdx") == "index";
    var md := n + ".md";
    assert md[|md| - 1] == 'd' && md[|md| - 3..] == ".md" && md[..|md| - 3] == n;
    assert StripExtension(md) == n;
    var mdx := n + ".mdx";
    assert mdx[|mdx| - 4..] == ".mdx" && mdx[..|mdx| - 4] == n;
    assert StripExtension(mdx) == n;
  }

  /** Every slug emitted for a walk started in `base` extends `base`. */
  lemma SlugsUnderBase(entries: seq<Entry>, base: seq<string>)
    ensures forall s :: s in DocSlugs(MarkdownFiles(entries, base)) ==> |base| <= |s| && s[..|base|] == base
  {
    FoundBelow(entries, base);
    var fs := MarkdownFiles(entries, base);
    forall s | s in DocSlugs(fs)
      ensures |base| <= |s| && s[..|base|] == base
    {
      var i :| 0 <= i < |fs| && DocSlugs(fs)[i] == s;
      assert fs[i] in fs;
      SlugUnderDirs(fs[i], base);
    }
  }

  lemma SlugUnderDirs(f: Found, base: seq<string>)
    requires |base| <= |f.dirs| && f.dirs[..|base|] == base
    ensures |base| <= |DocSlug(f)| && DocSlug(f)[..|base|] == base
  {
    if StripExtension(f.name) != "index" {
      var s := DocSlug(f);
      assert s[..|f.dirs|] == f.dirs;
      assert s[..|base|] == f.dirs[..|base|];
    }
  }

  /**
   * Every enumerated slug can be loaded: when every markdown file of the tree is stored under
   * its path, `getDocBySlug` finds a document for each slug `getAllDocSlugs` returns.
   */
  lemma EnumeratedSlugsResolve(root: seq<Entry>, files: map<string, FileData>)
    requires forall f :: f in MarkdownFiles(root, []) ==> PathOf(f) in files
    ensures forall s :: s in AllDocSlugs(Some(root)) ==> Resolve(s, files).Some?
  {
    var fs := MarkdownFiles(root, []);
    forall s | s in AllDocSlugs(Some(root))
      ensures Resolve(s, files).Some?
    {
      var i :| 0 <= i < |fs| && DocSlugs(fs)[i] == s;
      assert fs[i] in fs;
      FoundBelow(root, []);
      FoundResolves(fs[i], files);
    }
  }

  /** The file behind a slug is one of that slug's candidates, so the slug resolves. */
  lemma FoundResolves(f: Found, files: map<string, FileData>)
    requires IsMarkdown(f.name) && PathOf(f) in files
    ensures Resolve(DocSlug(f), files).Some?
  {
    var stem := StripExtension(f.name);
    var ext := if EndsWith(f.name, ".mdx") then ".mdx" else ".md";
    assert stem + ext == f.name;
    if stem == "index" && |f.dirs| == 0 {
      RootIndexCandidate(f, ext);
    } else if stem == "index" {
      DirIndexCandidate(f, stem, ext);
    } else {
      NamedCandidate(f, stem, ext);
    }
    ResolveNoneIff(DocSlug(f), files);
  }

  lemma RootIndexCandidate(f: Found, ext: string)
    requires f.dirs == [] && f.name == "index" + ext && (ext == ".mdx" || ext == ".md")
    requires StripExtension(f.name) == "index"
    ensures PathOf(f) in Candidates(DocSlug(f))
  {
    assert f.dirs + [f.name] == [f.name];
    assert Candidates(DocSlug(f))[if ext == ".mdx" then 0 else 2] == PathOf(f);
  }

  lemma DirIndexCandidate(f: Found, stem: string, ext: string)
    requires |f.dirs| > 0 && stem == "index" && f.name == stem + ext && (ext == ".mdx" || ext == ".md")
    requires StripExtension(f.name) == stem
    ensures PathOf(f) in Candidates(DocSlug(f))
  {
    JoinSnoc(f.dirs, f.name, '/');
    Regroup3(Join(f.dirs, '/'), "/", stem, ext);
    assert Candidates(DocSlug(f))[if ext == ".mdx" then 1 else 3] == PathOf(f);
  }

  lemma NamedCandidate(f: Found, stem: string, ext: string)
    requires stem != "index" && f.name == stem + ext && (ext == ".mdx" || ext == ".md")
    requires StripExtension(f.name) == stem
    ensures PathOf(f) in Candidates(DocSlug(f))
  {
    JoinExtendLast(f.dirs, stem, ext, '/');
    assert f.dirs + [stem + ext] == f.dirs + [f.name];
    assert Candidates(DocSlug(f))[if ext == ".mdx" then 0 else 2] == PathOf(f);
  }

  // ---------------------------------------------------------------------------
  // getAllDocs
  // ---------------------------------------------------------------------------

  /** The metadata of one file: the "/"-joined slug, with the root index as "". */
  function DocMetaOf(f: Found): DocMeta {
    var fm := f.data.frontmatter;
    var name := StripExtension(f.name);
    var slug := if name == "index" then Join(f.dirs, '/') else Join(f.dirs + [name], '/');
    DocMeta(if "title" in fm then Some(fm["title"]) else None,
            if "description" in fm then Some(fm["description"]) else None,
            slug, PathOf(f))
  }

  /** The metadata of a sequence of files, one per file and in the same order. */
  function DocMetas(fs: seq<Found>): (r: seq<DocMeta>)
    ensures |r| == |fs| && forall i :: 0 <= i < |fs| ==> r[i] == DocMetaOf(fs[i])
    decreases |fs|
  {
    if |fs| == 0 then [] else [DocMetaOf(fs[0])] + DocMetas(fs[1..])
  }

  lemma {:induction false} DocMetasConcat(a: seq<Found>, b: seq<Found>)
    ensures DocMetas(a + b) == DocMetas(a) + DocMetas(b)
    decreases |a|
  {
    if |a| == 0 {
      assert a + b == b;
    } else {
      assert (a + b)[1..] == a[1..] + b;
      DocMetasConcat(a[1..], b);
    }
  }

  lemma MetaStep(entries: seq<Entry>, i: nat, basePath: seq<string>)
    requires i < |entries|
    ensures DocMetas(MarkdownFiles(entries[..i + 1], basePath))
            == DocMetas(MarkdownFiles(entries[..i], basePath)) + DocMetas(EntryFiles(entries[i], basePath))
  {
    MarkdownFilesSnoc(entries, i, basePath);
    DocMetasConcat(MarkdownFiles(entries[..i], basePath), EntryFiles(entries[i], basePath));
  }

  /** The metadata of one markdown file, written out field by field. */
  lemma MarkdownFileMeta(file: string, data: FileData, basePath: seq<string>)
    requires IsMarkdown(file)
    ensures var name := StripExtension(file);
            var frontmatter := data.frontmatter;
            DocMetaOf(Found(basePath, file, data))
            == DocMeta(if "title" in frontmatter then Some(frontmatter["title"]) else None,
                       if "description" in frontmatter then Some(frontmatter["description"]) else None,
                       if name == "index" then Join(basePath, '/') else Join(basePath + [name], '/'),
                       Join(basePath + [file], '/'))
  {
  }

  /**
   * A document's file path without its extension is its slug, except for an
   * index file, whose path keeps "index" as a last segment of its own.
   */
  lemma MetaFilePath(f: Found)
    requires IsMarkdown(f.name)
    ensures var meta := DocMetaOf(f);
            StripExtension(meta.filePath)
            == if StripExtension(f.name) != "index" then meta.slug
               else if |f.dirs| == 0 then "index"
               else meta.slug + "/index"
  {
    StripExtensionOfPath(f.dirs, f.name);
    JoinSnoc(f.dirs, "index", '/');
    assert ['/'] + "index" == "/index";
  }

  /** The metadata list a single file contributes. */
  lemma FileMeta(file: string, data: FileData, basePath: seq<string>)
    ensures DocMetas(EntryFiles(File(file, data), basePath))
            == if IsMarkdown(file) then [DocMetaOf(Found(basePath, file, data))] else []
  {
    EntryFilesOfFile(file, data, basePath);
  }

  function AllDocs(root: Option<seq<Entry>>): seq<DocMeta> {
    if root.None? then [] else DocMetas(MarkdownFiles(root.value, []))
  }

  /** `getAllDocs`'s `walkDir`: appends the metadata of the files below `entries`. */
  method WalkDocs(entries: seq<Entry>, basePath: seq<string>, docs: seq<DocMeta>) returns (out: seq<DocMeta>)
    ensures out == docs + DocMetas(MarkdownFiles(entries, basePath))
    decreases entries
  {
    out := docs;
    assert entries[..0] == [];
    for i := 0 to |entries|
      invariant out == docs + DocMetas(MarkdownFiles(entries[..i], basePath))
    {
      MetaStep(entries, i, basePath);
      ghost var before := out;
      ghost var step := DocMetas(EntryFiles(entries[i], basePath));
      match entries[i] {
        case Dir(file, children) =>
          EntryFilesOfDir(file, children, basePath);
          out := WalkDocs(children, basePath + [file], out);
        case File(file, data) =>
          out := AddFile(file, data, basePath, out);
      }
      Appended(docs, DocMetas(MarkdownFiles(entries[..i], basePath)), step, before, out);
    }
    assert entries[..|entries|] == entries;
  }

  /** One file of the walk: its metadata is appended when it is markdown. */
  method AddFile(file: string, data: FileData, basePath: seq<string>, docs: seq<DocMeta>) returns (out: seq<DocMeta>)
    ensures out == docs + DocMetas(EntryFiles(File(file, data), basePath))
  {
    FileMeta(file, data, basePath);
    out := docs;
    if IsMarkdown(file) {
      MarkdownFileMeta(file, data, basePath);
      var name := StripExtension(file);
      var slug := if name == "index" then Join(basePath, '/') else Join(basePath + [name], '/');
      var frontmatter := data.frontmatter;
      out := out + [DocMeta(if "title" in frontmatter then Some(frontmatter["title"]) else None,
                            if "description" in frontmatter then Some(frontmatter["description"]) else None,
                            slug, Join(basePath + [file], '/'))];
    }
  }

  /** `getAllDocs`. */
  method GetAllDocs(root: Option<seq<Entry>>) returns (docs: seq<DocMeta>)
    ensures docs == AllDocs(root)
  {
    if root.None? {
      return [];
    }
    docs := WalkDocs(root.value, [], []);
  }

  /** `getAllDocs` and `getAllDocSlugs` agree file by file: each slug string is the joined slug. */
  lemma DocsMatchSlugs(root: Option<seq<Entry>>)
    ensures |AllDocs(root)| == |AllDocSlugs(root)|
    ensures forall i :: 0 <= i < |AllDocs(root)| ==> AllDocs(root)[i].slug == Join(AllDocSlugs(root)[i], '/')
  {
    if root.Some? {
      MetasMatchSlugs(MarkdownFiles(root.value, []));
    }
  }

  lemma MetasMatchSlugs(fs: seq<Found>)
    ensures |DocMetas(fs)| == |DocSlugs(fs)|
    ensures forall i :: 0 <= i < |fs| ==> DocMetas(fs)[i].slug == Join(DocSlugs(fs)[i], '/')
  {
  }
}
