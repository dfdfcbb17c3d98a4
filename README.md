# Lito documentation template: the path, content and search core in Dafny

This project models the logic of the Lito Next.js documentation template that is more than
presentation:

- **Version paths** (`Versioning`). Reading the version of a URL path, stripping the version
  segment, rebuilding a path for another version (the default version has no prefix), and
  filling in the version banner message.
- **Locale paths and interface strings** (`I18n`). Reading the locale segment, re-prefixing a
  path for a locale, and looking up `t` with its English-then-key fallback.
- **Search documents** (`SearchText`, `SearchIndex`):
  - `extractHeadings` is the `exec` loop of a multiline regular expression.
  - `stripMdx` is the fixed chain of eight markup passes, then the whitespace collapse and
    the trim. Each regular expression is a hand-written scanner.
  - Each file gets its slug, its title and description fallbacks, and the 1000-character content
    cut.
- **Content resolution and slug enumeration** (`Content`, over the directory tree of
  `FileTree`). `getDocBySlug` tries four candidate paths. The `walkDir` loops emit slugs and
  metadata depth-first, with the `index` rule.
- **Sidebar conversion and previous/next navigation** (`Sidebar`, `PrevNext`).
- **Breadcrumbs and the edit-page link** (`Breadcrumbs`, `EditLink`).
- **The search dialog** (`SearchDialog`). A class whose methods are the dialog's state updates:
  opening it, typing, the arrow, Enter and Escape keys, hovering, clicking a result and
  clicking the backdrop.
- **The "last updated" line** (`LastUpdated`), with its relative day buckets.

`Strings` gives the JavaScript string operations these use:

- `split` and `join`;
- `filter(Boolean)`;
- `replace` of a first occurrence;
- trimming;
- `String(n)`.

`Wrappers` gives `Option`.

**Form of the model:**

- Pure code is functions and lemmas.
- Code that loops and pushes into an array is a method with a loop. Each such method is proved
  equal to a function, and the promised properties are lemmas about that function. These
  methods are `generateBreadcrumbs`, both `walkDir`s, `getDocBySlug`, `getFilesRecursively`,
  `generateSearchIndex`, the `exec` loop of `extractHeadings`, `flattenSidebar` and the group
  loop of `PrevNextNav`.
- The dialog's React state is the fields of `SearchDialog.Dialog`.

**Behaviour of the code that the proofs make explicit:**

- `index/index.md` and the root `index.md` both get the empty search slug
  (`SearchIndex.NestedIndexSharesRootSlug`).
- A modification date up to a day in the future reads "-1 days ago"
  (`LastUpdated.SlightlyFuture`).
- 30 to 59 days read "1 months ago" (`LastUpdated.ThirtyDays`).
- An image with alt text loses only its link part and leaves `!alt` in the search text
  (`SearchText.ImageWithAltBecomesBangAlt`).
- `isDefaultVersion` compares against the configured id, not the fallback version, so the two
  disagree when that id names no version (`Versioning.FallbackIsDefaultIff`).

## Model

| member | source | states |
|---|---|---|
| Versioning.FindByPath | lib/utils/versioning.ts:23 | the index of the first version with the given path, or none exactly when no version has it |
| Versioning.FindById | lib/utils/versioning.ts:30 | the index of the first version with the given id, or none exactly when no version has it |
| Versioning.GetDefaultVersion | lib/utils/versioning.ts:28-32 | none exactly when versioning is off or has no versions; otherwise the first version whose id is `defaultVersion`, else the first version |
| Versioning.GetVersionFromPath | lib/utils/versioning.ts:18-26 | none when inactive; otherwise always a configured version: the first whose path is the first segment after trimming slashes, else the default version |
| Versioning.GetPathWithinVersion | lib/utils/versioning.ts:48-57 | the path unchanged when inactive or when its first segment names no version; otherwise "/" + the remaining segments joined |
| Versioning.BuildVersionedPath | lib/utils/versioning.ts:39-46 | the path unchanged when disabled; otherwise a result that starts with "/" and is "/" or has no trailing slash |
| Versioning.LatestLabel | lib/utils/versioning.ts:60 | never empty; the default version's label when it has a non-empty one |
| Versioning.FormatBannerMessage | lib/utils/versioning.ts:59-61 | the first `{version}` becomes the current label, then the first `{latest}` of the result becomes the latest label; a pass whose placeholder does not occur changes nothing |
| Versioning.BannerMessageFilled | lib/utils/versioning.ts:59-61 | `{version}` then `{latest}`, with no brace before them: each becomes its label and the rest is untouched |
| Versioning.BannerLatestOnly | lib/utils/versioning.ts:59-61 | a message whose only placeholder is `{latest}` gets the latest label there and is otherwise untouched |
| Versioning.BannerReversedOrder | lib/utils/versioning.ts:59-61 | `{latest}` before `{version}`, with no brace before them: each becomes its label in place |
| Versioning.FallbackIsDefaultIff | lib/utils/versioning.ts:28-37 | `isDefaultVersion` of the version `getDefaultVersion` picks is true exactly when `defaultVersion` names a configured version |
| Versioning.ReadsBack | lib/utils/versioning.ts:18-26 | a path whose first segment is the path of a uniquely-pathed version reads as that version |
| Versioning.BuildForOther | lib/utils/versioning.ts:39-46 | building for a non-default version gives "/" + its path + "/" + the cleaned inner path, trailing slash removed |
| Versioning.StripsSegment | lib/utils/versioning.ts:48-57 | a path whose split begins with a version segment loses exactly that segment |
| Versioning.VersionRoundTrip | lib/utils/versioning.ts:18-57 | a path built for a non-default, uniquely-pathed version reads back as that version, and stripping it gives "/" + the original's cleaned inner path |
| Versioning.BuildForDefault | lib/utils/versioning.ts:43-44 | building for the default version gives "/" + the cleaned inner path |
| Versioning.Unversioned | lib/utils/versioning.ts:18-57 | a path whose first segment names no version reads as the default version and is left unstripped |
| Versioning.DefaultVersionRoundTrip | lib/utils/versioning.ts:18-57 | a path built for the default version is unprefixed, and reads back as the default version unless its inner path starts with a version segment |
| I18n.T | lib/utils/i18n.ts:40-42 | the lookup is empty only for the empty key |
| I18n.TranslateFallback | lib/utils/i18n.ts:40-42 | the locale's own string wins; a key the locale lacks reads as in English, and a key English lacks stands for itself |
| I18n.TranslateIdentityIff | lib/utils/i18n.ts:40-42 | a key is returned as itself exactly when English does not define it |
| I18n.TranslateUnknownLocale | lib/utils/i18n.ts:40-42 | a locale without a table translates every key as English does |
| I18n.EnglishOnlyKey | lib/utils/i18n.ts:1-42 | the table of contents title is English-only, so every locale shows "On this page" |
| I18n.TableKeys | lib/utils/i18n.ts:1-38 | every key a locale defines is also defined in English; locales outside the table define nothing |
| I18n.TableStrings | lib/utils/i18n.ts:1-38 | no built-in string equals its own key |
| I18n.GetLocaleFromPath | lib/utils/i18n.ts:44-49 | the first non-empty segment when it is one of the locales, and none exactly when there is no segment or the first is not a locale |
| I18n.LocaleDisplayNames | lib/utils/i18n.ts:51-53 | every locale with a table has a non-empty name, and ja, zh, ko and pt are listed |
| I18n.LocalizedPath | lib/utils/i18n.ts:55-67 | the result starts with "/"; for the unprefixed default locale its segments are those of the path without its locale |
| I18n.WithoutLocaleSegments | lib/utils/i18n.ts:56-63 | with locales given and a locale found, the first segment is dropped, otherwise the segments are kept |
| I18n.LocalizedSegments | lib/utils/i18n.ts:55-67 | the segments of a localized path are the locale, unless it is the unprefixed default, followed by the path's segments without the old locale |
| I18n.LocalizedRoundTrip | lib/utils/i18n.ts:44-67 | a path localized with a prefix to one of the site's locales reads back as that locale |
| I18n.SwitchLocale | lib/utils/i18n.ts:55-67 | localizing an already localized path has the same segments as localizing the original: prefixes replace, not stack |
| FileTree.StripExtension | lib/content/index.ts:74 | a trailing `.mdx`, else `.md`, is removed; other names are unchanged |
| FileTree.DepthFirstOrder | lib/content/index.ts:64-82 | a sub-directory's files appear where it stands among its siblings, a markdown file as itself, anything else as nothing |
| FileTree.FoundBelow | lib/search/index.ts:46-64 | every file the walk finds is markdown and lies below the directory it started in |
| Content.Candidates | lib/content/index.ts:36-41 | exactly four candidates |
| Content.FirstExisting | lib/content/index.ts:43-49 | the first candidate that exists, none exactly when none does |
| Content.GetDocBySlug | lib/content/index.ts:32-52 | the loop over the candidates returns the document of the first that exists, or none |
| Content.LookupKeyRoundTrip | lib/content/index.ts:33 | a non-empty slug of proper segments is recovered by splitting its lookup key |
| Content.ResolveNoneIff | lib/content/index.ts:43-51 | no document is found exactly when none of the four candidates exists |
| Content.ResolvePriority | lib/content/index.ts:36-49 | `key.mdx` beats every other candidate, `key/index.mdx` beats `key.md`, `key.md` beats `key/index.md` |
| Content.DocSlugs | lib/content/index.ts:73-79 | one slug per markdown file, in the same order |
| Content.WalkDir | lib/content/index.ts:64-82 | the recursive walk appends to the slugs so far exactly the slugs of the markdown files below, in walk order |
| Content.GetAllDocSlugs | lib/content/index.ts:57-86 | no slugs without a content root, otherwise the slugs of every markdown file in depth-first order |
| Content.IndexRule | lib/content/index.ts:74-79 | `index.md`/`index.mdx` gives its directories (the root gives []), any other `name.md`/`name.mdx` its directories then `name` |
| Content.SlugsUnderBase | lib/content/index.ts:64-82 | every slug emitted in a walk started at `base` extends `base` |
| Content.EnumeratedSlugsResolve | lib/content/index.ts:32-86 | when every markdown file of the tree is stored under its path, every enumerated slug resolves to a document |
| Content.FoundResolves | lib/content/index.ts:33-49 | the file behind a slug is one of that slug's candidates |
| Content.DocMetas | lib/content/index.ts:107-121 | one metadata record per markdown file, in the same order |
| Content.MetaFilePath | lib/content/index.ts:107-121 | a record's file path without its extension is its slug; an index file's keeps `index` as a last segment (`guide/index` for `guide`, `index` for the root) |
| Content.WalkDocs | lib/content/index.ts:98-124 | the recursive walk appends exactly the records of the markdown files below, in walk order |
| Content.AddFile | lib/content/index.ts:105-122 | one listing entry appends its record when it is markdown and nothing otherwise |
| Content.GetAllDocs | lib/content/index.ts:91-128 | no records without a content root, otherwise one per markdown file in depth-first order |
| Content.DocsMatchSlugs | lib/content/index.ts:57-128 | `getAllDocs` and `getAllDocSlugs` agree file by file: each record's slug is the "/"-join of the enumerated slug |
| SearchText.MatchComponentBlock | lib/search/index.ts:27 | a match is non-empty, fits the input, starts with `<` and is removed |
| SearchText.MatchSelfClosing | lib/search/index.ts:28 | a match is non-empty, fits the input, starts with `<` and is removed |
| SearchText.MatchFence | lib/search/index.ts:30 | a match is non-empty, fits the input, starts with a backtick and is removed |
| SearchText.MatchInlineCode | lib/search/index.ts:32 | a match is non-empty, fits the input, starts with a backtick and is removed |
| SearchText.MatchLink | lib/search/index.ts:34 | a match is non-empty, fits the input, starts with `[` and is replaced by a non-empty label |
| SearchText.MatchImage | lib/search/index.ts:36 | a match is non-empty, fits the input, starts with `!` and is removed |
| SearchText.MatchEmphasis | lib/search/index.ts:38 | a match is non-empty, fits the input, starts with `*` or `_` and is replaced by non-empty text |
| SearchText.MatchHeadingMarker | lib/search/index.ts:40 | a match is non-empty, fits the input, starts with `#` and is removed |
| SearchText.RewriteUntouched | lib/search/index.ts:27-38 | a global replace leaves text in which no match can begin unchanged |
| SearchText.LineRewriteUntouched | lib/search/index.ts:40 | the same for the line-anchored heading-marker replace |
| SearchText.Collapse | lib/search/index.ts:42 | the result has no two adjacent whitespace characters and only plain spaces, is empty only for empty input, and starts with whitespace exactly when the input does |
| SearchText.CollapseKeeps | lib/search/index.ts:42 | already single-spaced text with plain spaces is left as it is |
| SearchText.StripMdx | lib/search/index.ts:25-44 | the stripped text has no leading or trailing whitespace, no two whitespace characters in a row, and only plain spaces |
| SearchText.PlainTextUntouched | lib/search/index.ts:27-42 | text with none of `<`, backtick, `[`, `!`, `*`, `_`, `#` comes back as its collapsed, trimmed self |
| SearchText.FencedCodeRemoved | lib/search/index.ts:27-42 | a fenced code block is removed with its fences, so the result equals that of the text with the block cut out |
| SearchText.LinkKeepsLabel | lib/search/index.ts:34 | `[label](url)` becomes its label |
| SearchText.ImageWithAltBecomesBangAlt | lib/search/index.ts:34-36 | because links go first, `![alt](url)` with non-empty alt becomes `!alt` |
| SearchText.ImageWithoutAltRemoved | lib/search/index.ts:34-36 | `![](url)` is removed entirely |
| SearchText.BoldUnwrapped | lib/search/index.ts:38-40 | `**text**` becomes its text |
| SearchText.HeadingAt | lib/search/index.ts:16 | a heading match starts with `#`, fits the input, and captures non-empty text within one line |
| SearchText.NextLineMatch | lib/search/index.ts:19 | one `exec` finds a non-empty match at or after `lastIndex` and inside the text |
| SearchText.NextLineMatchFound | lib/search/index.ts:16-19 | what `exec` finds stands at a line start and is a match of the expression there |
| SearchText.ExecCaptures | lib/search/index.ts:18-21 | the `while` loop over `exec` collects the captures of the successive matches, each search resuming where the last ended |
| SearchText.ExtractHeadings | lib/search/index.ts:15-23 | `extractHeadings` is that loop with the heading expression |
| SearchText.HeadingsAreLineText | lib/search/index.ts:15-23 | every extracted heading is non-empty and lies within one line |
| SearchText.CapturesShift | lib/search/index.ts:18-21 | the text after a line end yields the same captures whatever precedes it |
| SearchText.HeadingLineThenRest | lib/search/index.ts:15-23 | a heading line contributes its heading, then the scan goes on with the next line |
| SearchText.PlainLineThenRest | lib/search/index.ts:15-23 | any other line, unless it is only a marker, contributes nothing |
| SearchText.HeadingsOfLines | lib/search/index.ts:15-23 | for text made of lines each ended by a line feed, none of which is only a marker, the headings are, in order, the text after one to six `#` and whitespace on each heading line |
| SearchText.LastLineHeadings | lib/search/index.ts:15-23 | a single line without a line end yields its heading if it makes one, and nothing otherwise |
| SearchText.HeadingsOfLinesThenLast | lib/search/index.ts:15-23 | the same when the last line has no line end: that line's heading is found as well |
| SearchText.HeadingCrlfLineThenRest | lib/search/index.ts:16 | a heading line ended by "\r\n": `.+` stops at the carriage return, so the capture holds no `\r`, and the scan goes on with the next line |
| SearchText.PlainCrlfLineThenRest | lib/search/index.ts:15-23 | any other line ended by "\r\n", unless it is only a marker, contributes nothing |
| SearchText.HeadingsOfCrlfLinesThenLast | lib/search/index.ts:15-23 | text with "\r\n" line ends, the last line ended or not, yields the same headings as with "\n" line ends |
| SearchText.DanglingMarkerAtEnd | lib/search/index.ts:16 | `#` and two spaces at the very end of the text yield a heading of one space, as the engine gives back whitespace |
| SearchText.SevenHashesNoHeading | lib/search/index.ts:16 | a line starting with seven `#` is no heading |
| SearchText.DanglingMarkerTakesNextLine | lib/search/index.ts:16 | a line of `#` alone takes the next line as its heading, since `\s+` crosses the line end |
| SearchText.FencedHeadingStillCounts | lib/search/index.ts:15-23 | headings are scanned in the raw body, so a `#` line inside a fenced block counts |
| SearchText.FencedHeadingStripped | lib/search/index.ts:25-44 | the stripped text of that body drops the whole block, heading included |
| SearchIndex.GetFilesRecursively | lib/search/index.ts:46-64 | an absent directory yields nothing; otherwise the markdown files below it, depth-first in listing order |
| SearchIndex.FrontmatterOr | lib/search/index.ts:82-83 | the front-matter value when present and non-empty, else the fallback |
| SearchIndex.BuildDocument | lib/search/index.ts:71-86 | the loop body builds the document one file defines |
| SearchIndex.DocumentsForAt | lib/search/index.ts:70-87 | one document per file, the i-th that of the i-th file |
| SearchIndex.GenerateSearchIndex | lib/search/index.ts:66-90 | `generateSearchIndex` yields the documents of the files `getFilesRecursively` lists, in that order |
| SearchIndex.ContentIsBoundedPrefix | lib/search/index.ts:84 | the content is the first min(length, 1000) characters of the stripped body |
| SearchIndex.ContentSpacing | lib/search/index.ts:42-84 | the content never starts with whitespace and has no two whitespace characters in a row |
| SearchIndex.Fallbacks | lib/search/index.ts:82-83 | the title falls back to the slug before the root rewrite, the description to the empty string |
| SearchIndex.RootIndexDocument | lib/search/index.ts:72-82 | the root `index.md`/`index.mdx` gets the empty slug and, without a title, the title "index" |
| SearchIndex.NestedIndexStem | lib/search/index.ts:74 | a nested index file loses its `/index` and keeps its directories |
| SearchIndex.PlainStem | lib/search/index.ts:74 | a file not named `index` keeps its whole path |
| SearchIndex.SearchSlugAgreesWithContent | lib/search/index.ts:72-81 | the search slug is the content module's slug string for the same file, with the root rule applied on top |
| SearchIndex.NestedIndexSharesRootSlug | lib/search/index.ts:72-81 | `index/index.md` and the root `index.md` both get the empty search slug, although their content slugs are "index" and "" |
| Sidebar.ItemHref | lib/utils/sidebar.ts:17 | the item's own href when non-empty, else "/docs/" + slug when the slug is non-empty, else none |
| Sidebar.ConvertItem | lib/utils/sidebar.ts:15-20 | the label becomes the title, the icon is copied, and children are present exactly when configured |
| Sidebar.ConvertSidebarItems | lib/utils/sidebar.ts:14-21 | the same number of items in the same order |
| Sidebar.ConvertSidebar | lib/utils/sidebar.ts:7-12 | the same groups in the same order, each titled by its label with its items converted |
| Sidebar.ConvertKeepsShape | lib/utils/sidebar.ts:14-21 | at every depth the converted tree has the configured labels, icons and nesting, in order |
| Sidebar.ConvertKeepsLinks | lib/utils/sidebar.ts:14-21 | the converted tree's links, in pre-order, are exactly the configured items' links |
| Sidebar.ReplacePlaceholders | lib/utils/sidebar.ts:33-35 | text without `{year}` is unchanged; otherwise only the first `{year}` is replaced by the year |
| Sidebar.FirstPlaceholderReplaced | lib/utils/sidebar.ts:33-35 | later `{year}` placeholders stay |
| PrevNext.FlattenSidebar | components/layout/PrevNextNav.tsx:13-22 | the loop gives the pre-order entries of the items |
| PrevNext.PreOrder | components/layout/PrevNextNav.tsx:13-22 | an item's entry comes after its earlier siblings' and before its descendants'; later siblings come after those |
| PrevNext.FlattenItemParts | components/layout/PrevNextNav.tsx:15-20 | an item contributes its own entry, then its children's even when it has no link |
| PrevNext.OwnEntryIsSidebarLink | components/layout/PrevNextNav.tsx:16-17 | an item has an entry exactly when it has a non-empty slug or href, with href before "/docs/" + slug, as in the sidebar |
| PrevNext.FlattenFollowsSidebar | components/layout/PrevNextNav.tsx:13-22 | the previous/next order is exactly the order of the sidebar's links |
| PrevNext.CollectItems | components/layout/PrevNextNav.tsx:30-35 | the group loop concatenates each group's entries, in group order |
| PrevNext.FindIndex | components/layout/PrevNextNav.tsx:37 | the first entry whose href is the pathname, none exactly when there is none |
| PrevNext.PrevNextRule | components/layout/PrevNextNav.tsx:37-43 | nothing is shown exactly when the page is absent or the only entry; prev is the entry before exactly when there is one, next the entry after |
| PrevNext.NextThenPrev | components/layout/PrevNextNav.tsx:37-41 | with distinct hrefs, each entry's next has that entry as its prev |
| Breadcrumbs.Undash | components/layout/Breadcrumbs.tsx:75 | every `-` becomes a space, every other character stays |
| Breadcrumbs.FormatSegment | components/layout/Breadcrumbs.tsx:73-77 | same length, no dash; each dash becomes a space, each word-initial character (a word character not after one, in the dashed or undashed text alike) is upper-cased, every other character is unchanged; no word starts lower-case |
| Breadcrumbs.FormatSegmentIdempotent | components/layout/Breadcrumbs.tsx:73-77 | a formatted title formats to itself |
| Breadcrumbs.FormatSegmentFixes | components/layout/Breadcrumbs.tsx:73-77 | a segment is left as it is exactly when it has no dash and no word starting lower-case |
| Breadcrumbs.GenerateBreadcrumbs | components/layout/Breadcrumbs.tsx:57-71 | the loop builds the crumb list of the pathname's segments |
| Breadcrumbs.CrumbPerSegment | components/layout/Breadcrumbs.tsx:58-68 | one crumb per non-empty segment, in order, titled by its formatted segment |
| Breadcrumbs.CrumbHref | components/layout/Breadcrumbs.tsx:61-67 | crumb k links to "/" + the first k+1 segments joined by "/" |
| Breadcrumbs.HrefExtendsPrevious | components/layout/Breadcrumbs.tsx:61-67 | each href is the previous one + "/" + the next segment, so it has the previous as a prefix |
| Breadcrumbs.CrumbHrefSegments | components/layout/Breadcrumbs.tsx:58-67 | splitting a crumb's href gives the segments up to its own |
| Breadcrumbs.LastCrumbIsPage | components/layout/Breadcrumbs.tsx:58-68 | the last crumb links to the pathname with its empty segments removed |
| Breadcrumbs.LastCrumbOfCleanPath | components/layout/Breadcrumbs.tsx:58-68 | for a clean pathname that is the pathname itself |
| Breadcrumbs.Shown | components/layout/Breadcrumbs.tsx:16-24 | given items are used as they are, otherwise generated crumbs; nothing is shown exactly when there is at most one crumb |
| Breadcrumbs.EmptyItemsHide | components/layout/Breadcrumbs.tsx:20-24 | an explicitly given empty list hides the trail |
| Breadcrumbs.ShallowPageHidden | components/layout/Breadcrumbs.tsx:20-24 | the root and pages one level deep show no trail |
| EditLink.TrimOuterSlash | components/layout/EditPageLink.tsx:17 | at most one character comes off each end |
| EditLink.TrimOuterSlashCases | components/layout/EditPageLink.tsx:17 | exactly one leading and one trailing slash come off, and a path without outer slashes is unchanged |
| EditLink.CleanPath | components/layout/EditPageLink.tsx:17 | never empty: the trimmed path, or `index` when nothing is left |
| EditLink.FilePath | components/layout/EditPageLink.tsx:18 | the clean path followed by `.mdx` |
| EditLink.ActivePattern | components/layout/EditPageLink.tsx:15 | a pattern exactly when the feature is enabled and the pattern is non-empty |
| EditLink.EditUrl | components/layout/EditPageLink.tsx:15-19 | none exactly when inactive; the pattern unchanged without `{path}`; otherwise only the first `{path}` is replaced by the file path |
| EditLink.EditUrlOfPage | components/layout/EditPageLink.tsx:15-19 | for `pre{path}post` and a page's segments, the URL is pre + the joined segments + `.mdx` + post |
| EditLink.EditUrlOfRoot | components/layout/EditPageLink.tsx:15-19 | the home page edits `index.mdx` |
| SearchDialog.ResultsFor | components/search/SearchDialog.tsx:62-69 | no results for a blank query; otherwise the first min(8, n) ranked documents |
| SearchDialog.IsBlank | components/search/SearchDialog.tsx:63 | trimming to the empty string is the same as being all whitespace |
| SearchDialog.ArrowDownIndex | components/search/SearchDialog.tsx:79 | one row down, capped at the last row; stays within the rows when it started there, and is -1 with no rows |
| SearchDialog.ArrowUpIndex | components/search/SearchDialog.tsx:83 | one row up, never below 0 |
| SearchDialog.Selected | components/search/SearchDialog.tsx:87-88 | the highlighted document exactly when the index is a row |
| SearchDialog.Target | components/search/SearchDialog.tsx:89 | always under `/docs`, and exactly `/docs` for the empty slug |
| SearchDialog.TargetSegments | components/search/SearchDialog.tsx:89 | the target's segments are `docs` followed by the slug's |
| SearchDialog.DownTimesClamps | components/search/SearchDialog.tsx:79 | pressing ArrowDown n times moves n rows, then stays on the last row |
| SearchDialog.UpTimesClamps | components/search/SearchDialog.tsx:83 | pressing ArrowUp n times moves n rows, then stays on the first row |
| SearchDialog.UpUndoesDown | components/search/SearchDialog.tsx:79-83 | away from the ends, each arrow undoes the other |
| SearchDialog.NoRowsNoNavigation | components/search/SearchDialog.tsx:79-92 | with no rows ArrowDown drives the highlight to -1 and Enter then goes nowhere |
| SearchDialog.Dialog.constructor | components/search/SearchDialog.tsx:15-18 | closed, empty query and results, highlight 0 |
| SearchDialog.Dialog.Open | components/search/SearchDialog.tsx:52-59 | afterwards open; opening a closed dialog clears the query, results and highlight, while an already open one keeps all three, as the `[isOpen]` effect runs only on a change; the invariant is kept |
| SearchDialog.Dialog.SetQuery | components/search/SearchDialog.tsx:62-71 | the results become those of the query; a blank query keeps the highlight, any other resets it to 0 |
| SearchDialog.Dialog.KeyDown | components/search/SearchDialog.tsx:74-100 | the arrows move the highlight as specified; Enter goes to the highlighted result's target and closes only when there is one; Escape closes without navigating; the query and results stay and the invariant holds |
| SearchDialog.Dialog.Hover | components/search/SearchDialog.tsx:158 | pointing at a row highlights it and changes nothing else |
| SearchDialog.Dialog.Click | components/search/SearchDialog.tsx:154-157 | clicking a row goes to its target and closes |
| SearchDialog.Dialog.BackdropClick | components/search/SearchDialog.tsx:103-107 | a click on the backdrop closes the dialog, a click inside it does not |
| LastUpdated.FormatOf | components/layout/LastUpdated.tsx:13 | the configured format, `long` when absent |
| LastUpdated.DiffDays | components/layout/LastUpdated.tsx:17 | the greatest whole number of days not exceeding the difference (floor division) |
| LastUpdated.LastUpdatedDisplay | components/layout/LastUpdated.tsx:9-28 | shown exactly when enabled with a non-empty modification date; for the relative format exactly, the relative phrase of the whole days since then; otherwise a calendar date in the configured style |
| LastUpdated.RelativePhrase | components/layout/LastUpdated.tsx:18-22 | "today" exactly for 0 days, "yesterday" exactly for 1; a count of days exactly below 30 otherwise (negative counts included), of months exactly from 30 to 364, of years exactly from 365 |
| LastUpdated.TodayAndYesterday | components/layout/LastUpdated.tsx:17-19 | less than a day ago is "today", one to two days ago "yesterday" |
| LastUpdated.SlightlyFuture | components/layout/LastUpdated.tsx:17-20 | a date up to a day ahead reads "-1 days ago" |
| LastUpdated.DaysBucket | components/layout/LastUpdated.tsx:20 | below 30 days, other than 0 and 1, the count itself in days, negative counts included |
| LastUpdated.MonthsBucket | components/layout/LastUpdated.tsx:21 | from 30 to 364 days, the completed 30-day months, 1 to 12, with no singular |
| LastUpdated.YearsBucket | components/layout/LastUpdated.tsx:22 | from 365 days, the completed 365-day years |
| LastUpdated.ThirtyDays | components/layout/LastUpdated.tsx:21 | 30 and 59 days both read "1 months ago" |
| Strings.Segments | components/layout/Breadcrumbs.tsx:58 | `split("/").filter(Boolean)`: non-empty, slash-free segments |
| Strings.SplitJoin | lib/utils/versioning.ts:21-54 | splitting a join of separator-free parts gives back the parts |
| Strings.JoinSplit | lib/utils/versioning.ts:21-54 | joining the parts of a split gives back the string |
| Strings.SegmentsJoin | lib/utils/i18n.ts:59-60 | re-splitting joined segments gives the same segments |
| Strings.ReplaceFirst | components/layout/EditPageLink.tsx:19 | `replace` with a string pattern: unchanged without an occurrence, otherwise only the first occurrence replaced |
| Strings.TrimSlashes | lib/utils/versioning.ts:20 | the result neither starts nor ends with "/", and a string without outer slashes is unchanged |
| Strings.TrimSlashesOf | lib/utils/versioning.ts:20 | any run of leading and trailing slashes comes off, down to the clean middle |
| Strings.Trim | components/search/SearchDialog.tsx:63 | no whitespace at either end; empty exactly for an all-whitespace input |
| Strings.NatToString | components/layout/LastUpdated.tsx:20-22 | decimal digits, no leading zero, denoting the number |
| Strings.IntToString | components/layout/LastUpdated.tsx:20 | starts with a minus sign exactly for a negative number; after it, decimal digits without a leading zero that denote the magnitude |
| Strings.ToUpper | components/layout/Breadcrumbs.tsx:76 | a-z become A-Z, everything else is unchanged |

## Left out

- The Fuse.js ranking (`components/search/SearchDialog.tsx`, lines 22-48) is an external
  library. The dialog takes it as a given function `rank` from a query to ranked documents,
  fixed for the dialog's lifetime, so rebuilding the index when `documents` changes is not
  modelled.
- The file-system calls (`existsSync`, `readdirSync`, `statSync`, `readFileSync`) are I/O. A
  directory is a tree of ordered entries, and the files that exist are a map from relative path
  to parsed file.
- gray-matter front-matter parsing is a foreign call. Each file carries its parsed front matter
  (string values only) and its body. `getContentDir` and `contentDirExists` become whether the
  tree is present.
- Paths are relative to the content root. The absolute `CONTENT_DIR` prefix and
  `path.relative` are not modelled.
- Content.Resolve, Content.GetDocBySlug: `path.join` is modelled as joining with `/`, without
  its normalisation of empty, `.` and `..` segments. They match the source only for slugs whose
  segments are non-empty and neither `.` nor `..`. With normalisation, `[""]` finds the root
  `index.mdx`, `["guide", ""]` finds `guide/index.mdx`, and `..` leaves the content root.
- Windows backslash paths are assumed absent. The backslash rewrite is modelled, but the lemmas
  about slugs assume names without backslashes.
- I18n.Entry, I18n.T: the translation tables are modelled as maps of their own entries. A key
  that names an `Object.prototype` member (`constructor`, `toString`, `__proto__`) reads an
  inherited value in the source, and that is not modelled.
- The clock, date parsing and `toLocaleDateString` are left out. The current time and the
  modification time are integers in milliseconds. A calendar date is shown only as the style used
  to format it. An unparseable date, which gives NaN, is not modelled.
- `getCurrentYear` becomes the year, passed as a parameter.
- Configuration loading and caching (lib/config/index.ts) are not part of this model. The
  configuration records enter as parameters.
- Rendering is left out: the home icon, which crumb is a link, the "No results" text, focus
  handling and `preventDefault`. Only the values the components draw are modelled.
- The dialog's `isOpen` prop and its `onClose` callback are one field, which closing sets to
  false. Navigation is the returned target path rather than a router call.
- `String.replace` substitution patterns (`$1`, `$&` in a replacement string) are not
  interpreted. Replacement strings are taken literally.
- Strings are sequences of characters. UTF-16 surrogate pairs and Unicode case mapping are not
  modelled; `toUpperCase` changes only a-z, which matches its effect on `\w` characters.
- The version banner's `enabled` flag and the `deprecated` field are carried as data but used by
  nothing in the modelled functions.
- Versioning.IsDefaultVersion: no contract of its own. It is stated through
  `FallbackIsDefaultIff`.
- SearchText.HeadingsOfLines: covers texts in which no line is only a `#` marker. For those lines
  the heading expression reaches into the next line, which `DanglingMarkerTakesNextLine` states for
  one such case. At the very end of the text such a marker can yield a heading of whitespace
  (`DanglingMarkerAtEnd`). The line-by-line lemmas cover "\n" and "\r\n" line ends, not a lone
  "\r" nor U+2028 and U+2029, which the engine also treats as line ends.
- SearchText.FencedCodeRemoved: requires no `<` or backtick before or inside the block. Other
  passes could otherwise consume part of it first.
- Sidebar.ReplacePlaceholders: the year is any integer, written as `String` of it, not a
  four-digit calendar year.
