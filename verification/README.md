# A verified model of the `build.mjs` static-site generator

`build.mjs` turns a tree of markdown notes (`writes/**/*.md`) into a small
static site. The steps for each note are:

- Read its metadata from two optional leading blocks. One is lines of
  `<!-- key: value -->`; the other is a `---` front-matter block.
- Skip the note if its merged metadata says `private: true`.
- Derive its title, summary, date and category.
- Render the markdown to HTML, using a renderer that is a parameter here.
- Remove an `<h1>` that repeats the title.
- Give every `<img>` tag `loading="lazy"`.
- Give every `<h1>`–`<h3>` heading an id, and build a nested table of contents from those ids.
- Fill the article template's `{{…}}` placeholders.
- Write the page under a flat file name.

After all notes:

- The post records are sorted by date, newest first.
- The records are listed on the home page, next to the list of programs.
- The home page gets its style sheet inlined.

The Dafny modules follow these stages:

| module | file | what it holds |
|---|---|---|
| `Text` | `text.dfy` | JavaScript's white space, `trim`, ASCII `toLowerCase`, `split`/`join` on one character, substring search, `String.prototype.replace` with its `$` patterns and a verbatim variant |
| `Meta` | `meta.dfy` | `parseHtmlCommentMeta` and `parseFrontmatter` as loops proved against scan specifications; merging; privacy |
| `Derive` | `derive.dfy` | first heading, title fallback chain, `path.basename`/`extname`/`dirname`, date normalisation, category, summary |
| `Html` | `html.dfy` | tag and entity stripping, `slugifyHeading`, `stripDuplicateTopTitle`, `addLazyLoadingToImages` (as written and corrected), the highlighter's escape fallback |
| `Toc` | `toc.dfy` | `buildTocAndAnchorize`: the heading scan, the anchoring loop and the nested-list loop, each proved against a function |
| `Page` | `page.dfy` | flat output names, post paths, the placeholder chain |
| `Order` | `order.dfy` | the date comparator, a stable insertion sort in place on an array, and the proof that the sorted list is unique |
| `Index` | `index.dfy` | the program and post list markup, the three single-match replacements of the home page |
| `Build` | `build.dfy` | one note's processing, the loop over the notes, the sort and the home page |

Every regular expression of the script is written as an explicit scan over
`seq<char>`. The comment on each scan explains why backtracking cannot change
the result, where that matters.

The markdown renderer (markdown-it with highlight.js) is a function parameter
`render: string -> string`.

Behaviour notes where the code differs from a plain reading of its intent.
The model follows the code:

- A note directly under `writes/` gets the category `.`, not
  `uncategorized`. For such a note `dirname(rel)` is `.`, and its one segment
  is `.` (`Derive.TopLevelCategory`).
- Flat output names are not collision-free. `a/b-c.md` and `a-b/c.md` both
  become `a-b-c.html` (`Page.FlatNamesCollide`). The later file's page
  replaces the earlier one's, and both posts stay in the list
  (`Build.LastPageWins`, `Build.PostsOfPublicDocuments`). For paths whose
  names hold no `-` and end in the lower-case `.md`, flat naming is
  injective (`Page.FlatNameInjective`).
- The listing accepts `.md` in any case, but `basename(rel, '.md')` is
  case-sensitive. `a.MD` keeps its extension and is written as
  `a.MD.html`, the same file as `a.MD.md`
  (`Page.UpperCaseExtensionCollides`). A top-level note named `.md` is
  written as `.html` (`Page.BareMdName`).
- Only comment keys are lower-cased. Front-matter keys keep their case.
- The metadata objects are plain objects. Assigning the key `__proto__`
  stores nothing, so such a line is dropped from the data. A comment block
  whose only key is `__proto__` leaves the note unchanged, comment line
  included (`Meta.ProtoKeyNeverStored`, `Meta.ProtoCommentKept`).
- Metadata values are always strings, so only the exact text `true` makes a
  note private; `True` or `yes` do not.
- The post list is written even when there are no posts: an empty
  `<ul id="posts-list">`. Only the program list becomes empty.
- A table of contents whose first heading is deeper than a later one writes
  a `</ul>` it never opened (`Toc.ShallowerHeadingClosesEarly`). With no
  heading shallower than the first, the list is balanced and well nested
  (`Toc.TocNested`).

## Model

| member | source | states |
|---|---|---|
| `Text.TrimFacts` | build.mjs:43 | `trim()` returns a contiguous slice of its input whose first and last characters are not white space |
| `Text.TrimIdempotent` | build.mjs:43 | trimming twice is trimming once |
| `Text.ToLowerFacts` | build.mjs:47 | lower-casing leaves no ASCII capital, and text without capitals is unchanged |
| `Text.JoinSplit` | build.mjs:39-53 | joining the lines of `split('\n')` with `'\n'` gives back the text |
| `Text.SplitJoin` | build.mjs:39-53 | splitting a join of separator-free parts gives back the parts |
| `Text.SplitHasNoSeparator` | build.mjs:39 | no line of a split contains the separator |
| `Text.NatToStringValue` | build.mjs:94 | the decimal text of the `section-N` counter reads back as the number |
| `Text.ReplaceAllAbsent` | build.mjs:251-258 | a global replace of an absent pattern leaves the text unchanged |
| `Text.VerbatimSubstitution` | build.mjs:251-258 | a single occurrence of the pattern is replaced by the value and nothing else changes |
| `Text.PatternSubstitution` | build.mjs:251-258 | with JavaScript's semantics the inserted text is the value with `$$`, `$&`, `` $` ``, `$'` expanded |
| `Text.ModesAgreeWithoutDollar` | build.mjs:251-258 | for a value without `$`, JavaScript's replace and verbatim insertion agree |
| `Text.ExpandAfterPattern` | build.mjs:318-319 | a `$'` inside an otherwise plain replacement is expanded into the text after the match |
| `Meta.ParseHtmlCommentMeta` | build.mjs:38-55 | the loop's content and data are those of the scan specification `CommentMeta`, which returns the markdown unchanged when no key was stored |
| `Meta.ScanCommentLines` | build.mjs:42-51 | the loop stops at the first non-blank line that is not a comment line; its data collects the entries of the lines before it, except `__proto__`, which a plain object does not store |
| `Meta.NoCommentNoChange` | build.mjs:52 | when only blank lines are consumed the markdown is returned unchanged with empty data |
| `Meta.ProtoOnlyCommentNoChange` | build.mjs:49-52 | when the consumed comment lines only set `__proto__`, nothing is stored and the markdown is returned unchanged |
| `Meta.ProtoCommentKept` | build.mjs:49-52 | `<!-- __proto__: x -->` followed by `# T` comes back whole, with empty data |
| `Meta.ProtoKeyNeverStored` | build.mjs:49-69 | neither parser's data has the key `__proto__` |
| `Meta.CommentKeysNormalised` | build.mjs:45-49 | every key is trimmed, is its own lower case, has no ASCII capital and no colon, and is not `__proto__`; every value is trimmed and on one line |
| `Meta.CommentContentIsSuffix` | build.mjs:53 | the content is a suffix of the markdown |
| `Meta.CollectLastWins` | build.mjs:49 | a key takes the value of its last entry |
| `Meta.ParseFrontmatter` | build.mjs:57-73 | the method's content and data are those of the specification `Frontmatter` |
| `Meta.CollectFrontmatterLines` | build.mjs:63-71 | the data are the entries of all body lines, later ones overwriting earlier ones, with `__proto__` lines dropped |
| `Meta.NoBlockNoChange` | build.mjs:58-59 | without a leading `---\n` and a later `\n---` the markdown is unchanged and the data empty |
| `Meta.BlockContentIsSuffix` | build.mjs:61 | the content is exactly the markdown after the block, at least eight characters shorter |
| `Meta.BodyIsShortest` | build.mjs:58 | the block closes at the first `\n---` after its opening |
| `Meta.FrontmatterKeysWellFormed` | build.mjs:64-69 | every key comes from a body line that starts with it, has only `[A-Za-z0-9_-]` characters, is followed by `:` and is not `__proto__` |
| `Meta.UnquoteRoundTrip` | build.mjs:68 | a value wrapped in double or single quotes loses exactly the quotes, and an unquoted value is kept |
| `Meta.Merge` | build.mjs:217 | the keys are the union, comment values win, front-matter values fill in the rest |
| `Meta.NoMetadataNoChange` | build.mjs:215-224 | a note with neither block keeps all its text and has no metadata |
| `Meta.PrivacyPrecedence` | build.mjs:217-222 | a note is private iff its comment block says `private: true`, or it has no comment `private` and its front matter says `true` |
| `Derive.HeadingIsTrimmedLine` | build.mjs:22-25 | the first heading is trimmed and holds no line break |
| `Derive.EnsureLeadingHashDropsMarker` | build.mjs:17-20 | the leading run of `#` and following white space is dropped and the rest trimmed |
| `Derive.HeadingOfFirstLine` | build.mjs:22-25 | `# t` on the first line gives the trimmed `t` |
| `Derive.NoHashNoHeading` | build.mjs:23 | text without `#` has no heading |
| `Derive.TitleNonEmpty` | build.mjs:226-227 | a file with a non-empty base name always gets a non-empty title |
| `Derive.StemIsPrefix` | build.mjs:227 | `basename(rel, extname(rel))` is a prefix of the base name, empty exactly when the base name is |
| `Derive.StemOfMarkdown` | build.mjs:227 | `basename(rel, extname(rel))` of `dir/name.md` is `name` |
| `Derive.DateNormalised` | build.mjs:230-232 | a given date is trimmed, keeps its length and has every `.` turned into `-`; an empty one falls back to the modification day |
| `Derive.DateIdempotent` | build.mjs:230-231 | normalising a normalised date changes nothing |
| `Derive.CategoryNonEmpty` | build.mjs:234-235 | the category is never empty |
| `Derive.TopLevelCategory` | build.mjs:234-235 | a note without a `/` in its path and without a category gets `.` |
| `Derive.FolderCategory` | build.mjs:234-235 | a note `folder/name` without a category gets `folder` |
| `Derive.SummaryShape` | build.mjs:27-36 | the summary has at most 140 characters and no newline; a longer first paragraph is cut to 139 characters followed by `…` |
| `Derive.TruncateFacts` | build.mjs:35 | truncation keeps short text and cuts long text to 139 characters followed by `…` |
| `Derive.NoFenceNoChange` | build.mjs:28 | text without a backtick loses no code fences |
| `Derive.SummaryOfFirstParagraph` | build.mjs:30-35 | the summary of a plain paragraph followed by a blank line is that paragraph, trimmed and truncated |
| `Derive.SummaryOfOneLine` | build.mjs:30-35 | the summary of one plain line is that line, trimmed and truncated |
| `Html.StripTagsTagFree` | build.mjs:92 | removing tags leaves no tag |
| `Html.StripTagsIdempotent` | build.mjs:120 | removing tags twice is removing them once |
| `Html.EntityRemoved` | build.mjs:81 | an entity `&name;` is removed entirely |
| `Html.SlugifyShape` | build.mjs:75-86 | a slug has only `a-z`, `0-9`, U+4E00–U+9FA5 and `-`, no leading or trailing `-` and no `--` |
| `Html.SlugHasNoSpace` | build.mjs:83 | a slug holds no white space |
| `Html.SlugifyIdempotent` | build.mjs:75-86 | slugifying a slug gives the same slug |
| `Html.SlugShapedUnchanged` | build.mjs:75-86 | every text of slug shape is its own slug |
| `Html.MatchTextFirstAt` | build.mjs:118-122 | the first occurrence of the matched `<h1>` text is the match itself, so replacing the text removes that heading |
| `Html.StripTitleEffect` | build.mjs:116-126 | the first `<h1>` is removed exactly when its tag-free trimmed text is non-empty and equals the trimmed title; otherwise the HTML is unchanged |
| `Html.DuplicateTitleRemoved` | build.mjs:116-126 | `<h1>t</h1>rest` with title `t` becomes `rest` |
| `Html.AsWrittenRewritesInsideTag` | build.mjs:164-169 | the script's rewrite changes an `<img>` nested in the attribute of an `<img>` that already says `loading=` |
| `Html.LazyLoadingKeepsNestedImg` | build.mjs:164-169 | the corrected rewrite leaves that input alone |
| `Html.LazyTagShape` | build.mjs:167 | a tag without `loading=` becomes one that declares it |
| `Html.LazyOverLoadingTag` | build.mjs:165-166 | a tag that declares `loading=` is kept and the scan goes on after it |
| `Html.NoCloseUnchanged` | build.mjs:165 | text with no `>` after its first four characters is unchanged |
| `Html.LazyLoadingIdempotent` | build.mjs:164-169 | the corrected rewrite applied twice is the rewrite applied once |
| `Html.LazyLoadingAgrees` | build.mjs:164-169 | when no `<img` starts inside an `<img …>` tag that declares `loading=`, the corrected rewrite gives what the script's rewrite gives |
| `Html.EscapeRoundTrip` | build.mjs:155 | the escape fallback leaves no `<` or `>` and unescapes back to the source text |
| `Toc.ScanLossless` | build.mjs:91 | the heading scan loses no character |
| `Toc.AnchorHeadings` | build.mjs:88-97 | the anchoring loop's HTML and entries are those of the specification `AnchorAll` over the scanned pieces |
| `Toc.AnchorCount` | build.mjs:91-95 | there is one entry per heading, and the counter ends at the number of headings with an empty slug |
| `Toc.AnchorEntry` | build.mjs:92-95 | the k-th entry is made from the k-th heading and the count of empty-slug headings up to it |
| `Toc.SectionIdsDistinct` | build.mjs:94 | two headings with empty slugs get different `section-N` ids |
| `Toc.IdsAreSlugs` | build.mjs:93-94 | every id is a non-empty text of slug shape |
| `Toc.AnchoredHtml` | build.mjs:96 | the HTML is the scanned text with the k-th heading carrying the k-th entry's id |
| `Toc.NoHeadingsUnchanged` | build.mjs:91-101 | without headings the HTML is unchanged and the entry list empty |
| `Toc.AppendEntry` | build.mjs:105-107 | one step of the list loop appends the level moves and the item, and the level becomes the item's |
| `Toc.RenderToc` | build.mjs:99-111 | the list loop's text is the specification `TocHtml`, and it is empty exactly when there are no entries |
| `Toc.TocBalanced` | build.mjs:100-111 | sub-list openings and closings balance exactly when the last heading is no shallower than the first |
| `Toc.TocNested` | build.mjs:100-111 | with no heading shallower than the first, the list is well nested and ends at depth zero |
| `Toc.ShallowerHeadingClosesEarly` | build.mjs:105-109 | an `h2` followed by an `h1` closes a sub-list that was never opened |
| `Page.FlatNameOfPath` | build.mjs:242-244 | `d1/…/dn/name.md` is written as `d1-…-dn-name.html` |
| `Page.PostPathsOfPath` | build.mjs:262-269 | a post's `path` is `writes/` and its flat name, and its `originPath` is `writes/` and its relative path |
| `Page.FlatNamesCollide` | build.mjs:242-244 | two different paths can share a flat name |
| `Page.FlatNameInjective` | build.mjs:242-244 | without `-` in directory and file names, different paths ending in the lower-case `.md` have different flat names |
| `Page.FlatNameTopLevel` | build.mjs:242-244 | a top-level file is written under `basename(rel, '.md')` plus `.html` |
| `Page.BareMdName` | build.mjs:242-244 | a top-level note named `.md` is written as `.html` and linked as `writes/.html` |
| `Page.UpperCaseExtensionCollides` | build.mjs:242-244 | a top-level listed name whose `.md` ending is not all lower-case keeps its extension and shares its output file with the same name plus `.md` |
| `Page.PlaceholdersDistinct` | build.mjs:251-258 | the eight placeholders are pairwise different |
| `Page.SoleSlot` | build.mjs:251-258 | a placeholder between placeholder-free texts is replaced and those texts kept |
| `Page.FillPageFillsTemplate` | build.mjs:248-258 | every placeholder of the template is replaced by its value and the template's text is kept |
| `Page.FillModesAgree` | build.mjs:251-258 | when no value holds `$`, the script's chain and verbatim filling give the same page |
| `Page.AsWrittenExpandsDollar` | build.mjs:258 | as written, a body `$'` puts the rest of the template in its place |
| `Order.BelowIrreflexive` | build.mjs:274 | no date comes before itself |
| `Order.BelowTransitive` | build.mjs:274 | the string order of dates is transitive |
| `Order.BelowTotal` | build.mjs:274 | two different dates are ordered one way, and never both ways |
| `Order.CompareConsistent` | build.mjs:274 | the comparator is antisymmetric and returns 0 exactly for equal dates |
| `Order.SortPosts` | build.mjs:274 | sorting the array in place leaves the specification `SortByDate` of its old contents |
| `Order.InsertAt` | build.mjs:274 | one insertion step puts element i into the sorted prefix before it and leaves the rest alone |
| `Order.SortSorts` | build.mjs:274 | the result is newest first |
| `Order.SortPermutes` | build.mjs:274 | the result has the same posts |
| `Order.SortStable` | build.mjs:274 | posts with equal dates keep their input order |
| `Order.SortedStableUnique` | build.mjs:274 | two newest-first lists that agree on the posts of every date are equal, so any stable sort gives the same list |
| `Index.ProgramsUlEmpty` | build.mjs:306 | the program list is empty exactly when there are no programs |
| `Index.PostItemOneLine` | build.mjs:314 | a post's list item has no line break when its fields have none |
| `Index.PostsUlLines` | build.mjs:308-315 | the post list's lines are the opening tag, one item per post in order, and the closing tag |
| `Index.FirstMatchIsLeftmost` | build.mjs:289 | a non-global replace acts on the leftmost match |
| `Index.FirstMatchNone` | build.mjs:289 | with no match the text is unchanged |
| `Index.ReplaceFirstModesAgree` | build.mjs:318-319 | for a list without `$`, the script's replace and verbatim insertion agree |
| `Index.MarkerCommentMatches` | build.mjs:318-319 | `<!--`, white space, the marker name, white space, `-->` is matched, and exactly that |
| `Index.MarkerReplaced` | build.mjs:318-319 | the first marker comment is replaced by the list and the rest of the template kept |
| `Index.AsWrittenMarkerExpandsDollar` | build.mjs:318-319 | as written, a `$'` in the list text brings the rest of the template into the list |
| `Index.StylesheetTagMatches` | build.mjs:289 | a `<link rel="stylesheet" … href="index.css" …>` tag is matched, and exactly that |
| `Index.StylesheetInlined` | build.mjs:289 | that tag is replaced by `<style>` with the style sheet, and the rest of the template kept |
| `Build.RenderDocument` | build.mjs:211-270 | one note's steps give its page name, page and post, or nothing when it is private |
| `Build.RenderAll` | build.mjs:210-271 | the loop writes the pages and collects the posts of the public notes in order |
| `Build.SortCollected` | build.mjs:274 | the collected posts come back newest first, as a permutation, equal to `SortByDate` |
| `Build.BuildSite` | build.mjs:171-279 | the build's pages, sorted posts and home page follow from the notes |
| `Build.PostsOfPublicDocuments` | build.mjs:220-270 | every public note has a post, and every post comes from a public note |
| `Build.PageNames` | build.mjs:244-260 | a page is written under a name exactly when a public note has that flat name |
| `Build.LastPageWins` | build.mjs:245-260 | the page under a name is that of the last public note with that name |
| `Build.PostTitleShown` | build.mjs:312 | a listed note's post has a non-empty title, so the home page never shows the `未命名` placeholder for it |
| `Build.PostLinksToPage` | build.mjs:242-269 | the post of `dirs/name.md` links to `writes/` and the note's flat name, and records `writes/` and its path |

## Left out

- Reading and writing files is not modelled. That covers `ensureDir`, `rm`,
  `listMdFiles`, `copyAssets` and the highlight CSS copy. The notes arrive
  as a sequence of (relative path, text, modification day). The site's
  style sheets, templates and program list arrive as values. A file that
  cannot be read is the empty string, or `None` for `index.css`.
- The listing's order is not modelled: the files come in the order given.
  Its `.md` test, which ignores case, is `Page.IsMarkdownName`; the build
  takes every path it is given.
- `serve.mjs` is not part of this model. It is an HTTP file server.
- The markdown renderer, highlight.js and its language detection are a
  function parameter. The escape fallback of the highlighter is modelled on
  its own (`Html.EscapeHtml`).
- The modification date is not modelled (`stat`, `toISOString().slice(0, 10)`).
  The day is an input string.
- `writes.json` and `programs.json` are not serialized or parsed. Programs
  are records of three strings, with a missing field as the empty string.
  Metadata values are strings, so `data.private === true` can only arise as
  the text `true`.
- A missing index template makes the build throw. This is not modelled:
  the template is an input.
- Characters are Dafny characters, not UTF-16 code units. The 140-character
  limit and every index count characters.
- `toLowerCase` is modelled on ASCII letters only.
- Paths are POSIX paths (`/`). Backslashes are still replaced where the
  script replaces them.
- The lemmas about anchoring take the slug function as a parameter. The
  build itself uses `Html.Slugify`.
- The closing loop's `toc[0]?.level || 1` fallback is not modelled. The list
  is only built when there is at least one entry, whose level is 1 to 3.
- `Order.SortPosts`: the engine's sort algorithm is not modelled. It is
  specified as a stable insertion sort on an array. `Order.SortedStableUnique`
  shows that every stable sort by this comparator gives the same list.
- `Page.FillPageFillsTemplate` assumes that neither the template text nor
  the values contain `{{`. It also assumes neither ends in `{`. Otherwise a
  value could complete a placeholder for a later replacement. The chain
  itself (`Page.FillPage`) is modelled for all inputs.
- `Build.RenderDocument` uses both corrections (see Findings). It fills the
  page verbatim, not with `Page.FillPageAsWritten`. It runs
  `Html.LazyLoading`, not the script's `Html.LazyLoadingAsWritten`. The two
  fills agree when no value holds `$` (`Page.FillModesAgree`). The two
  lazy-loading scans agree when no `<img` starts inside an `<img …>` tag
  that declares `loading=` (`Html.LazyLoadingAgrees`).
- `Build.RenderAll` inherits both corrections through `Build.Process`, the
  function `Build.RenderDocument` is proved against.
- `Build.BuildSite` inherits both corrections for the pages. It also
  inserts the home page's lists verbatim, where the script uses
  `Index.IndexHtml` with `JsPatterns`. The two agree when no list holds `$`
  (`Index.ReplaceFirstModesAgree`).

## Findings

| source | as written | input that shows it | evidently intended | confidence | as-written member | corrected member |
|---|---|---|---|---|---|---|
| build.mjs:164-169 | the regex restarts one character after a tag whose look-ahead found `loading=`, so an `<img` inside that tag's attribute is matched and rewritten | `<img loading=x<img>`, or any `<img ` + `loading=` + text + `<img>` | each `<img …>` tag is handled once: a tag that declares `loading=` is kept whole, and the rewrite is idempotent | medium, not executed | `Html.AsWrittenRewritesInsideTag` | `Html.LazyLoadingIdempotent` |
| build.mjs:251-258 | `.replace` with a string value expands `$$`, `$&`, `` $` `` and `$'` in the title, the table of contents and the body | a note whose body HTML is `$'` gets the rest of the template in place of `{{CONTENT}}` | the values are inserted verbatim | high, not executed | `Page.AsWrittenExpandsDollar` | `Page.FillPageFillsTemplate` |
| build.mjs:318-319 | the post list goes through the same `$` patterns when it replaces its marker | a post whose title or summary holds `$'` duplicates the rest of the home page into the list | the list is inserted verbatim | high, not executed | `Index.AsWrittenMarkerExpandsDollar` | `Index.MarkerReplaced` |
