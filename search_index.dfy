/**
 * The search index: one SearchDocument per markdown file below the content
 * directory, in the order the recursive file walk lists them. Each document
 * carries the file's slug, its title and description (front matter, with
 * fallbacks), the stripped body cut to 1000 characters and the headings
 * scanned from the raw body.
 */
module SearchIndex {
  import opened Wrappers
  import opened Strings
  import opened FileTree
  import SearchText
  import Content

  datatype SearchDocument = SearchDocument(
    slug: string,
    title: string,
    description: string,
    content: string,
    headings: seq<string>)

  /** The number of characters of stripped text a document keeps. */
  const ContentLimit: nat := 1000

  /** The markdown files of the content directory, or none when it does not exist. */
  function ContentFiles(root: Option<seq<Entry>>): seq<Found> {
    if root.None? then [] else MarkdownFiles(root.value, [])
  }

  /**
   * getFilesRecursively: an absent directory yields nothing; otherwise every
   * entry in listing order, sub-directories walked where they appear and only
   * `.md`/`.mdx` files kept.
   */
  method GetFilesRecursively(dir: Option<seq<Entry>>, dirs: seq<string>) returns (files: seq<Found>)
    ensures files == if dir.None? then [] else MarkdownFiles(dir.value, dirs)
    decreases if dir.Some? then dir.value else []
  {
    if dir.None? {
      return [];
    }
    var entries := dir.value;
    files := [];
    for i := 0 to |entries|
      invariant files == MarkdownFiles(entries[..i], dirs)
    {
      MarkdownFilesSnoc(entries, i, dirs);
      match entries[i] {
        case Dir(name, children) =>
          EntryFilesOfDir(name, children, dirs);
          var sub := GetFilesRecursively(Some(children), dirs + [name]);
          files := files + sub;
        case File(name, data) =>
          EntryFilesOfFile(name, data, dirs);
          if IsMarkdown(name) {
            files := files + [Found(dirs, name, data)];
          }
      }
    }
    assert entries[..|entries|] == entries;
  }

  // ---------------------------------------------------------------------------
  // Per-file derivation
  // ---------------------------------------------------------------------------

  /** The regex replace of a trailing `/index` by nothing. */
  function DropIndexSuffix(s: string): string {
    if EndsWith(s, "/index") then s[..|s| - 6] else s
  }

  /** The global replace of every backslash by a slash. */
  function SlashesForBackslashes(s: string): string {
    seq(|s|, i requires 0 <= i < |s| => if s[i] == '\\' then '/' else s[i])
  }

  /** The slug variable: extension dropped, then a trailing `/index`, then backslashes made slashes. */
  function PathSlug(relativePath: string): string {
    SlashesForBackslashes(DropIndexSuffix(StripExtension(relativePath)))
  }

  /** The root index slug is the empty string. */
  function RootRule(slug: string): string {
    if slug == "index" then "" else slug
  }

  /** A front-matter string, or the fallback when it is missing or empty (the `||` operator). */
  function FrontmatterOr(fm: map<string, string>, key: string, fallback: string): (r: string)
    ensures key in fm && fm[key] != "" ==> r == fm[key]
    ensures !(key in fm && fm[key] != "") ==> r == fallback
  {
    if key in fm && fm[key] != "" then fm[key] else fallback
  }

  /** `slice(0, n)`. */
  function Take(s: string, n: nat): string {
    if |s| <= n then s else s[..n]
  }

  /** The document's slug: the path slug with the root rule applied. */
  function SearchSlug(f: Found): string {
    RootRule(PathSlug(PathOf(f)))
  }

  /** The document's content: the stripped body cut to the limit. */
  function BodyText(body: string): string {
    Take(SearchText.StripMdx(body), ContentLimit)
  }

  /** The document one file contributes. */
  function DocumentFor(f: Found): SearchDocument {
    var slug := PathSlug(PathOf(f));
    var fm := f.data.frontmatter;
    SearchDocument(
      RootRule(slug),
      FrontmatterOr(fm, "title", slug),
      FrontmatterOr(fm, "description", ""),
      BodyText(f.data.body),
      SearchText.Headings(f.data.body))
  }

  /** The body of the loop in generateSearchIndex: the document of one file. */
  method BuildDocument(file: Found) returns (doc: SearchDocument)
    ensures doc == DocumentFor(file)
  {
    var slug := PathSlug(PathOf(file));
    var frontmatter := file.data.frontmatter;
    var headings := SearchText.ExtractHeadings(file.data.body);
    doc := SearchDocument(
      if slug == "index" then "" else slug,
      FrontmatterOr(frontmatter, "title", slug),
      FrontmatterOr(frontmatter, "description", ""),
      BodyText(file.data.body),
      headings);
  }

  /** The documents of a sequence of files, one per file and in the same order. */
  function DocumentsFor(files: seq<Found>): seq<SearchDocument>
    decreases |files|
  {
    if |files| == 0 then [] else DocumentsFor(files[..|files| - 1]) + [DocumentFor(files[|files| - 1])]
  }

  lemma {:induction false} DocumentsForAt(files: seq<Found>)
    ensures |DocumentsFor(files)| == |files|
    ensures forall i :: 0 <= i < |files| ==> DocumentsFor(files)[i] == DocumentFor(files[i])
    decreases |files|
  {
    if |files| > 0 {
      var init := files[..|files| - 1];
      var last := DocumentFor(files[|files| - 1]);
      DocumentsForAt(init);
      assert DocumentsFor(files) == DocumentsFor(init) + [last];
      forall i | 0 <= i < |files| - 1
        ensures DocumentsFor(files)[i] == DocumentFor(files[i])
      {
        SnocIndex(DocumentsFor(init), last, i);
        assert init[i] == files[i];
      }
    }
  }

  lemma SnocIndex<T>(a: seq<T>, x: T, i: nat)
    requires i < |a|
    ensures (a + [x])[i] == a[i]
  {
  }

  lemma DocumentsForSnoc(files: seq<Found>, i: nat)
    requires i < |files|
    ensures DocumentsFor(files[..i + 1]) == DocumentsFor(files[..i]) + [DocumentFor(files[i])]
  {
    assert files[..i + 1][..i] == files[..i];
  }

  /** generateSearchIndex: one document per file, in the order the walk lists them. */
  method GenerateSearchIndex(root: Option<seq<Entry>>) returns (documents: seq<SearchDocument>)
    ensures documents == DocumentsFor(ContentFiles(root))
  {
    var files := GetFilesRecursively(root, []);
    documents := [];
    for i := 0 to |files|
      invariant documents == DocumentsFor(files[..i])
    {
      var doc := BuildDocument(files[i]);
      DocumentsForSnoc(files, i);
      documents := documents + [doc];
    }
    assert files[..|files|] == files;
  }

  // ---------------------------------------------------------------------------
  // Properties
  // ---------------------------------------------------------------------------

  /** A cut of single-spaced text with no leading space keeps both properties. */
  lemma TakePrefix(s: string, n: nat)
    requires SearchText.SingleSpaced(s) && (|s| > 0 ==> !IsSpace(s[0]))
    ensures var c := Take(s, n);
            |c| == SearchText.Min(|s|, n) && c == s[..|c|]
            && (|c| > 0 ==> !IsSpace(c[0])) && SearchText.SingleSpaced(c)
  {
    var c := Take(s, n);
    assert forall i :: 0 <= i < |c| ==> c[i] == s[i];
  }

  /**
   * The content is the first min(1000, length) characters of the stripped
   * body, so it is never longer than 1000.
   */
  lemma ContentIsBoundedPrefix(body: string)
    ensures |BodyText(body)| == SearchText.Min(|SearchText.StripMdx(body)|, ContentLimit)
    ensures BodyText(body) == SearchText.StripMdx(body)[..|BodyText(body)|]
  {
    TakePrefix(SearchText.StripMdx(body), ContentLimit);
  }

  /** The content never starts with whitespace and has no two whitespace characters in a row. */
  lemma ContentSpacing(body: string)
    ensures |BodyText(body)| > 0 ==> !IsSpace(BodyText(body)[0])
    ensures SearchText.SingleSpaced(BodyText(body))
  {
    TakePrefix(SearchText.StripMdx(body), ContentLimit);
  }

  /** Title and description fall back to the slug before the root rewrite and to the empty string. */
  lemma Fallbacks(f: Found)
    ensures var fm := f.data.frontmatter;
            var d := DocumentFor(f);
            (d.title == if "title" in fm && fm["title"] != "" then fm["title"] else PathSlug(PathOf(f)))
            && (d.description == if "description" in fm && fm["description"] != "" then fm["description"] else "")
  {
  }

  /** The root `index.md`/`index.mdx` gets the empty slug and, without a title, the title "index". */
  lemma RootIndexDocument(name: string, data: FileData)
    requires name == "index.md" || name == "index.mdx"
    requires "title" !in data.frontmatter
    ensures SearchSlug(Found([], name, data)) == ""
    ensures FrontmatterOr(data.frontmatter, "title", PathSlug(PathOf(Found([], name, data)))) == "index"
  {
    RootIndexPath(name, data);
  }

  lemma RootIndexPath(name: string, data: FileData)
    requires name == "index.md" || name == "index.mdx"
    ensures PathSlug(PathOf(Found([], name, data))) == "index"
  {
    assert PathOf(Found([], name, data)) == name by {
      assert [] + [name] == [name];
    }
    IndexFileSlug(name);
  }

  lemma IndexFileSlug(name: string)
    requires name == "index.md" || name == "index.mdx"
    ensures PathSlug(name) == "index"
  {
    assert StripExtension(name) == "index";
    assert DropIndexSuffix("index") == "index" by {
      assert !EndsWith("index", "/index");
    }
    assert SlashesForBackslashes("index") == "index";
  }

  lemma {:induction false} JoinNoChar(parts: seq<string>, sep: char, c: char)
    requires sep != c
    requires forall i :: 0 <= i < |parts| ==> NoChar(parts[i], c)
    ensures NoChar(Join(parts, sep), c)
    decreases |parts|
  {
    if |parts| > 1 {
      JoinNoChar(parts[1..], sep, c);
      JoinCons(parts[0], parts[1..], sep);
      assert [parts[0]] + parts[1..] == parts;
      var r := Join(parts[1..], sep);
      var s := parts[0] + [sep] + r;
      forall i | 0 <= i < |s| ensures s[i] != c {
        if i < |parts[0]| { assert s[i] == parts[0][i]; }
        else if i > |parts[0]| { assert s[i] == r[i - |parts[0]| - 1]; }
      }
    }
  }

  lemma SlashesKept(s: string)
    requires NoChar(s, '\\')
    ensures SlashesForBackslashes(s) == s
  {
  }

  /** A last segment that is not `index` and has no slash leaves no `/index` at the end. */
  lemma NoIndexSuffix(dirs: seq<string>, stem: string)
    requires stem != "index" && NoChar(stem, '/')
    ensures !EndsWith(Join(dirs + [stem], '/'), "/index")
    ensures Join(dirs + [stem], '/') != "index"
  {
    JoinSnoc(dirs, stem, '/');
    var p := Join(dirs + [stem], '/');
    assert p[|p| - |stem|..] == stem;
    if |stem| >= 6 {
      assert p[|p| - 6] == stem[|stem| - 6];
    } else if |dirs| > 0 {
      assert p[|p| - |stem| - 1] == '/';
      if |stem| == 5 {
        assert p[|p| - 5..] == stem;
      }
    }
    if |dirs| > 0 {
      assert p[|Join(dirs, '/')|] == '/';
    }
  }

  lemma PlainStem(dirs: seq<string>, stem: string)
    requires stem != "index" && NoChar(stem, '/')
    ensures DropIndexSuffix(Join(dirs + [stem], '/')) == Join(dirs + [stem], '/')
  {
    NoIndexSuffix(dirs, stem);
  }

  lemma RootIndexStem(dirs: seq<string>, stem: string)
    requires stem == "index" && |dirs| == 0
    ensures DropIndexSuffix(Join(dirs + [stem], '/')) == Join(dirs + [stem], '/')
  {
    assert dirs + [stem] == [stem];
    assert |stem| < 6;
  }

  /** A nested `index` file: the `/index` suffix goes and the directories remain. */
  lemma NestedIndexStem(dirs: seq<string>, stem: string)
    requires stem == "index" && |dirs| > 0
    ensures DropIndexSuffix(Join(dirs + [stem], '/')) == Join(dirs, '/')
  {
    var j := Join(dirs, '/');
    JoinSnoc(dirs, stem, '/');
    assert Join(dirs + [stem], '/') == j + ['/'] + stem;
    IndexSuffixDropped(j, stem);
  }

  lemma IndexSuffixDropped(j: string, stem: string)
    requires stem == "index"
    ensures DropIndexSuffix(j + ['/'] + stem) == j
  {
    var p := j + ['/'] + stem;
    assert p[|p| - 6..] == "/index";
    assert p[..|p| - 6] == j;
  }

  /** The slug derived from a path whose extension is already gone. */
  lemma SlugOfStem(dirs: seq<string>, stem: string)
    requires NoChar(stem, '/') && NoChar(stem, '\\')
    requires forall i :: 0 <= i < |dirs| ==> NoChar(dirs[i], '\\')
    ensures SlashesForBackslashes(DropIndexSuffix(Join(dirs + [stem], '/')))
            == if stem == "index" && |dirs| > 0 then Join(dirs, '/') else Join(dirs + [stem], '/')
  {
    var q := if stem == "index" && |dirs| > 0 then Join(dirs, '/') else Join(dirs + [stem], '/');
    DropIndexOfStem(dirs, stem);
    StemPathNoBackslash(dirs, stem);
    SlashesKept(q);
  }

  lemma DropIndexOfStem(dirs: seq<string>, stem: string)
    requires NoChar(stem, '/')
    ensures DropIndexSuffix(Join(dirs + [stem], '/'))
            == if stem == "index" && |dirs| > 0 then Join(dirs, '/') else Join(dirs + [stem], '/')
  {
    if stem != "index" {
      PlainStem(dirs, stem);
    } else if |dirs| == 0 {
      RootIndexStem(dirs, stem);
    } else {
      NestedIndexStem(dirs, stem);
    }
  }

  lemma StemPathNoBackslash(dirs: seq<string>, stem: string)
    requires NoChar(stem, '\\')
    requires forall i :: 0 <= i < |dirs| ==> NoChar(dirs[i], '\\')
    ensures NoChar(if stem == "index" && |dirs| > 0 then Join(dirs, '/') else Join(dirs + [stem], '/'), '\\')
  {
    if !(stem == "index" && |dirs| > 0) {
      assert forall i :: 0 <= i < |dirs + [stem]| ==> NoChar((dirs + [stem])[i], '\\');
      JoinNoChar(dirs + [stem], '/', '\\');
    } else {
      JoinNoChar(dirs, '/', '\\');
    }
  }

  /**
   * The search slug agrees with the slug string the content module gives the
   * same file; the only rewrite on top is the root rule, which also empties
   * the slug of `index/index.md`.
   */
  lemma SearchSlugAgreesWithContent(f: Found)
    requires IsMarkdown(f.name) && NoChar(f.name, '/') && NoChar(f.name, '\\')
    requires forall i :: 0 <= i < |f.dirs| ==> NoChar(f.dirs[i], '\\')
    ensures SearchSlug(f) == RootRule(Content.DocMetaOf(f).slug)
  {
    var stem := StripExtension(f.name);
    assert StripExtension(PathOf(f)) == Join(f.dirs + [stem], '/') by {
      StripExtensionOfPath(f.dirs, f.name);
    }
    assert NoChar(stem, '/') && NoChar(stem, '\\') by {
      assert forall k :: 0 <= k < |stem| ==> stem[k] == f.name[k];
    }
    SlugOfStem(f.dirs, stem);
  }

  /**
   * `index/index.md` and the root `index.md` both get the empty search slug,
   * although the content module gives them the slugs "index" and "".
   */
  lemma NestedIndexSharesRootSlug(name: string, a: FileData, b: FileData)
    requires IsMarkdown(name) && StripExtension(name) == "index"
    requires NoChar(name, '/') && NoChar(name, '\\')
    ensures SearchSlug(Found(["index"], name, a)) == ""
    ensures SearchSlug(Found([], name, b)) == ""
    ensures Content.DocMetaOf(Found(["index"], name, a)).slug == "index"
    ensures Content.DocMetaOf(Found([], name, b)).slug == ""
  {
    var nested := Found(["index"], name, a);
    assert NoChar(nested.dirs[0], '\\');
    SearchSlugAgreesWithContent(nested);
    SearchSlugAgreesWithContent(Found([], name, b));
  }
}
