/**
 * The content directory as seen through `readdirSync`/`statSync`: an ordered listing of
 * entries per directory, each a file (with its parsed front matter and body) or a
 * sub-directory. Both directory walks of the site enumerate the same markdown files in
 * the same depth-first listing order, defined once here as MarkdownFiles.
 */
module FileTree {
  import opened Strings

  /** A file's front matter (string values only) and its body after the front matter. */
  datatype FileData = FileData(frontmatter: map<string, string>, body: string)

  datatype Entry =
    | File(name: string, data: FileData)
    | Dir(name: string, entries: seq<Entry>)

  /** A markdown file reached by a walk: the directory names leading to it, its name, its data. */
  datatype Found = Found(dirs: seq<string>, name: string, data: FileData)

  /** The file's path relative to the content root. */
  function PathOf(f: Found): string {
    Join(f.dirs + [f.name], '/')
  }

  /** `name.endsWith(".mdx") || name.endsWith(".md")`. */
  predicate IsMarkdown(name: string) {
    EndsWith(name, ".mdx") || EndsWith(name, ".md")
  }

  /**
   * `name.replace(/\.(mdx|md)$/, "")` (equivalently `/\.(mdx?|md)$/`): the markdown
   * extension at the very end is removed; anything else is unchanged.
   */
  function StripExtension(name: string): (r: string)
    ensures EndsWith(name, ".mdx") ==> r + ".mdx" == name
    ensures !EndsWith(name, ".mdx") && EndsWith(name, ".md") ==> r + ".md" == name
    ensures !IsMarkdown(name) ==> r == name
  {
    if EndsWith(name, ".mdx") then name[..|name| - 4]
    else if EndsWith(name, ".md") then name[..|name| - 3]
    else name
  }

  /** The markdown files under `entries` (reached through `dirs`), depth-first in listing order. */
  function MarkdownFiles(entries: seq<Entry>, dirs: seq<string>): seq<Found>
    decreases entries
  {
    if |entries| == 0 then []
    else
      (match entries[0]
       case File(n, d) => if IsMarkdown(n) then [Found(dirs, n, d)] else []
       case Dir(n, es) => MarkdownFiles(es, dirs + [n]))
      + MarkdownFiles(entries[1..], dirs)
  }

  /** The files contributed by one entry at its place in the listing. */
  function EntryFiles(e: Entry, dirs: seq<string>): seq<Found> {
    MarkdownFiles([e], dirs)
  }

  lemma {:induction false} MarkdownFilesConcat(a: seq<Entry>, b: seq<Entry>, dirs: seq<string>)
    ensures MarkdownFiles(a + b, dirs) == MarkdownFiles(a, dirs) + MarkdownFiles(b, dirs)
    decreases |a|
  {
    if |a| == 0 {
      assert a + b == b;
    } else {
      assert (a + b)[0] == a[0];
      assert (a + b)[1..] == a[1..] + b;
      MarkdownFilesConcat(a[1..], b, dirs);
    }
  }

  /** Extending a listing by one entry appends that entry's files. */
  lemma MarkdownFilesSnoc(entries: seq<Entry>, i: nat, dirs: seq<string>)
    requires i < |entries|
    ensures MarkdownFiles(entries[..i + 1], dirs) == MarkdownFiles(entries[..i], dirs) + EntryFiles(entries[i], dirs)
  {
    assert entries[..i + 1] == entries[..i] + [entries[i]];
    MarkdownFilesConcat(entries[..i], [entries[i]], dirs);
  }

  lemma EntryFilesOfDir(n: string, es: seq<Entry>, dirs: seq<string>)
    ensures EntryFiles(Dir(n, es), dirs) == MarkdownFiles(es, dirs + [n])
  {
    assert [Dir(n, es)][1..] == [];
    assert MarkdownFiles([Dir(n, es)], dirs) == MarkdownFiles(es, dirs + [n]) + MarkdownFiles([], dirs);
  }

  lemma EntryFilesOfFile(n: string, d: FileData, dirs: seq<string>)
    ensures EntryFiles(File(n, d), dirs) == if IsMarkdown(n) then [Found(dirs, n, d)] else []
  {
    assert [File(n, d)][1..] == [];
    assert MarkdownFiles([File(n, d)], dirs) == (if IsMarkdown(n) then [Found(dirs, n, d)] else []) + MarkdownFiles([], dirs);
  }

  /**
   * Depth-first order: a sub-directory's files are emitted where the sub-directory appears
   * among its siblings, and a non-markdown file contributes nothing.
   */
  lemma DepthFirstOrder(before: seq<Entry>, e: Entry, after: seq<Entry>, dirs: seq<string>)
    ensures MarkdownFiles(before + [e] + after, dirs)
            == MarkdownFiles(before, dirs)
               + (if e.File? then (if IsMarkdown(e.name) then [Found(dirs, e.name, e.data)] else [])
                  else MarkdownFiles(e.entries, dirs + [e.name]))
               + MarkdownFiles(after, dirs)
  {
    MarkdownFilesConcat(before + [e], after, dirs);
    MarkdownFilesConcat(before, [e], dirs);
    assert [e][1..] == [];
  }

  /** Every file found is markdown and lies below the directory the walk started in. */
  lemma {:induction false} FoundBelow(entries: seq<Entry>, dirs: seq<string>)
    ensures AllBelow(MarkdownFiles(entries, dirs), dirs)
    decreases entries
  {
    if |entries| > 0 {
      MarkdownFilesCons(entries, dirs);
      FoundBelow(entries[1..], dirs);
      match entries[0]
      case File(n, d) =>
        EntryFilesOfFile(n, d, dirs);
      case Dir(n, es) =>
        EntryFilesOfDir(n, es, dirs);
        FoundBelow(es, dirs + [n]);
        AllBelowParent(MarkdownFiles(es, dirs + [n]), dirs, n);
      AllBelowConcat(EntryFiles(entries[0], dirs), MarkdownFiles(entries[1..], dirs), dirs);
    }
  }

  lemma MarkdownFilesCons(entries: seq<Entry>, dirs: seq<string>)
    requires |entries| > 0
    ensures MarkdownFiles(entries, dirs) == EntryFiles(entries[0], dirs) + MarkdownFiles(entries[1..], dirs)
  {
    assert entries == [entries[0]] + entries[1..];
    MarkdownFilesConcat([entries[0]], entries[1..], dirs);
  }

  /** Every file is markdown and lies under `dirs`. */
  predicate AllBelow(fs: seq<Found>, dirs: seq<string>) {
    forall f :: f in fs ==> IsMarkdown(f.name) && |dirs| <= |f.dirs| && f.dirs[..|dirs|] == dirs
  }

  lemma AllBelowConcat(a: seq<Found>, b: seq<Found>, dirs: seq<string>)
    requires AllBelow(a, dirs) && AllBelow(b, dirs)
    ensures AllBelow(a + b, dirs)
  {
    forall f | f in a + b
      ensures IsMarkdown(f.name) && |dirs| <= |f.dirs| && f.dirs[..|dirs|] == dirs
    {
      if f in a {} else { assert f in b; }
    }
  }

  lemma AllBelowParent(fs: seq<Found>, dirs: seq<string>, n: string)
    requires AllBelow(fs, dirs + [n])
    ensures AllBelow(fs, dirs)
  {
    forall f | f in fs
      ensures IsMarkdown(f.name) && |dirs| <= |f.dirs| && f.dirs[..|dirs|] == dirs
    {
      assert f.dirs[..|dirs| + 1][..|dirs|] == f.dirs[..|dirs|];
      assert (dirs + [n])[..|dirs|] == dirs;
    }
  }

  /** Removing the extension of a file's path removes it from the file's name. */
  lemma StripExtensionOfPath(dirs: seq<string>, name: string)
    requires IsMarkdown(name)
    ensures StripExtension(Join(dirs + [name], '/')) == Join(dirs + [StripExtension(name)], '/')
  {
    var stem := StripExtension(name);
    var ext := if EndsWith(name, ".mdx") then ".mdx" else ".md";
    assert stem + ext == name;
    JoinExtendLast(dirs, stem, ext, '/');
    assert dirs + [stem + ext] == dirs + [name];
    var j := Join(dirs + [stem], '/');
    var path := j + ext;
    assert path[..|path| - |ext|] == j;
    assert path[|path| - |ext|..] == ext;
    assert path[|path| - 1] == ext[|ext| - 1];
  }
}
