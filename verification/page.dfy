/** The page of one document: the name of its output file (build.mjs:242-244),
    the paths recorded for it in the post list (build.mjs:262-269), and the
    article template with its placeholders filled in (build.mjs:246-258). */
module Page {
  import opened Text
  import opened Derive

  // ---------------------------------------------------------------------
  // Flat output names (build.mjs:242-244)
  // ---------------------------------------------------------------------

  /** `basename(rel, '.md')`: the base name without a trailing `.md`, and
      the empty string when the whole argument is the suffix, as for a
      top-level file named `.md`. The comparison is case-sensitive, so
      `Note.MD` keeps its extension. */
  function MdBase(rel: string): string
  {
    if rel == ".md" then [] else StripSuffix(Basename(rel), ".md")
  }

  /** `rel` with backslashes turned into slashes and split on `/` gives the
      path parts; every part but the last, then `basename(rel, '.md')`, are
      joined with `-`, and `.html` is appended. */
  function FlatName(rel: string): string
  {
    var parts := Split(ReplaceChar(rel, '\\', '/'), '/');
    JoinWith(parts[..|parts| - 1] + [MdBase(rel)], "-") + ".html"
  }

  /** `'writes/' + flatName`, as recorded in the post's `path`. */
  function WebPath(rel: string): string
  {
    ReplaceChar("writes/" + FlatName(rel), '\\', '/')
  }

  /** `('writes/' + rel)` with backslashes turned into slashes: the post's `originPath`. */
  function OriginPath(rel: string): string
  {
    ReplaceChar("writes/" + rel, '\\', '/')
  }

  /** A directory or file name as the listing returns it: not empty, no separator. */
  predicate PathSegment(s: string) {
    s != [] && '/' !in s && '\\' !in s
  }

  /** The relative path of a markdown file `name.md` inside the directories `dirs`. */
  function MarkdownPath(dirs: seq<string>, name: string): string
  {
    JoinWith(dirs + [name + ".md"], "/")
  }

  /** Pieces free of `c`, joined by a separator free of `c`, are free of `c`. */
  lemma {:induction false} JoinWithAvoids(parts: seq<string>, sep: string, c: char)
    requires c !in sep
    requires forall k :: 0 <= k < |parts| ==> c !in parts[k]
    ensures c !in JoinWith(parts, sep)
    decreases |parts|
  {
    if |parts| >= 2 {
      JoinWithAvoids(parts[1..], sep, c);
    }
  }

  /** The base name of a path whose last part is `b` is `b`. */
  lemma {:induction false} BasenameOfJoin(dirs: seq<string>, b: string)
    requires '/' !in b
    ensures Basename(JoinWith(dirs + [b], "/")) == b
  {
    if dirs == [] {
      assert dirs + [b] == [b];
      assert [] + b == b;
      BasenameAfterSlash([], b);
    } else {
      JoinWithSnoc(dirs, b, "/");
      BasenameAfterSlash(JoinWith(dirs, "/") + "/", b);
    }
  }

  /** A markdown file `name.md` in the directories `dirs` is written to
      the directories and the name joined with `-`, plus `.html`:
      `notes/2024/hello.md` becomes `notes-2024-hello.html`. */
  lemma {:induction false} FlatNameOfPath(dirs: seq<string>, name: string)
    requires forall k :: 0 <= k < |dirs| ==> PathSegment(dirs[k])
    requires PathSegment(name)
    ensures FlatName(MarkdownPath(dirs, name)) == JoinWith(dirs + [name], "-") + ".html"
  {
    var b := name + ".md";
    var segs := dirs + [b];
    var rel := JoinWith(segs, "/");
    MarkdownSegments(dirs, name);
    NoBackslashKept(rel);
    SplitJoin(segs, '/');
    InitOfSnoc(dirs, b);
    BasenameOfJoin(dirs, b);
    StripMd(name);
  }

  /** The parts of a markdown path are path segments, and it has no backslash. */
  lemma {:induction false} MarkdownSegments(dirs: seq<string>, name: string)
    requires forall k :: 0 <= k < |dirs| ==> PathSegment(dirs[k])
    requires PathSegment(name)
    ensures forall k :: 0 <= k < |dirs + [name + ".md"]| ==> PathSegment((dirs + [name + ".md"])[k])
    ensures '\\' !in MarkdownPath(dirs, name)
  {
    var segs := dirs + [name + ".md"];
    assert PathSegment(name + ".md") by {
      assert ".md"[0] == '.' && ".md"[1] == 'm' && ".md"[2] == 'd';
    }
    assert forall k :: 0 <= k < |segs| ==> PathSegment(segs[k]) by {
      forall k | 0 <= k < |segs| ensures PathSegment(segs[k]) {
        if k < |dirs| {
          assert segs[k] == dirs[k];
        }
      }
    }
    JoinWithAvoids(segs, "/", '\\');
  }

  lemma {:induction false} InitOfSnoc<T>(xs: seq<T>, x: T)
    ensures (xs + [x])[..|xs|] == xs
  {
  }

  /** The paths recorded for a post: `path` names the page written for it,
      and `originPath` the markdown file, both under `writes/`. */
  lemma {:induction false} PostPathsOfPath(dirs: seq<string>, name: string)
    requires forall k :: 0 <= k < |dirs| ==> PathSegment(dirs[k])
    requires PathSegment(name)
    ensures WebPath(MarkdownPath(dirs, name)) == "writes/" + FlatName(MarkdownPath(dirs, name))
    ensures OriginPath(MarkdownPath(dirs, name)) == "writes/" + MarkdownPath(dirs, name)
  {
    var rel := MarkdownPath(dirs, name);
    MarkdownSegments(dirs, name);
    FlatNameOfPath(dirs, name);
    FlatNameFree(dirs, name);
    LiteralsFree();
    NoBackslashKept("writes/" + FlatName(rel));
    NoBackslashKept("writes/" + rel);
  }

  /** The dashed name has no backslash either. */
  lemma {:induction false} FlatNameFree(dirs: seq<string>, name: string)
    requires forall k :: 0 <= k < |dirs| ==> PathSegment(dirs[k])
    requires PathSegment(name)
    ensures '\\' !in JoinWith(dirs + [name], "-") + ".html"
  {
    var ds := dirs + [name];
    forall k | 0 <= k < |ds| ensures '\\' !in ds[k] {
      if k < |dirs| {
        assert ds[k] == dirs[k];
      }
    }
    JoinWithAvoids(ds, "-", '\\');
    LiteralsFree();
  }

  lemma {:induction false} LiteralsFree()
    ensures '\\' !in "writes/" && '\\' !in ".html" && '\\' !in "-"
  {
  }

  lemma {:induction false} NoBackslashKept(s: string)
    requires '\\' !in s
    ensures ReplaceChar(s, '\\', '/') == s
  {
  }

  /** Two different files can share an output file: `a/b-c.md` and
      `a-b/c.md` are both written to `a-b-c.html`, the later one replacing
      the earlier. */
  lemma {:induction false} FlatNamesCollide(a: string, b: string, c: string)
    requires PathSegment(a) && PathSegment(b) && PathSegment(c)
    ensures MarkdownPath([a], b + "-" + c) != MarkdownPath([a + "-" + b], c)
    ensures FlatName(MarkdownPath([a], b + "-" + c)) == FlatName(MarkdownPath([a + "-" + b], c))
  {
    var n1, d2 := b + "-" + c, a + "-" + b;
    assert PathSegment(n1) && PathSegment(d2);
    FlatNameOfPath([a], n1);
    FlatNameOfPath([d2], c);
    JoinPair(a, n1 + ".md", "/");
    JoinPair(d2, c + ".md", "/");
    var r1, r2 := MarkdownPath([a], n1), MarkdownPath([d2], c);
    assert r1[|a|] == '/' && r2[|a|] == '-';
    JoinPair(a, n1, "-");
    JoinPair(d2, c, "-");
    DashGroups(a, b, c, n1, d2);
  }

  lemma {:induction false} JoinPair(x: string, y: string, sep: string)
    ensures JoinWith([x] + [y], sep) == x + sep + y
  {
    assert [x] + [y] == [x, y];
    assert [x, y][1..] == [y];
  }

  lemma {:induction false} DashGroups(a: string, b: string, c: string, n1: string, d2: string)
    requires n1 == b + "-" + c && d2 == a + "-" + b
    ensures a + "-" + n1 == d2 + "-" + c
  {
  }

  /** A file name without a directory becomes the name `basename(rel, '.md')` gives it, plus `.html`. */
  lemma {:induction false} FlatNameTopLevel(rel: string)
    requires PathSegment(rel)
    ensures FlatName(rel) == MdBase(rel) + ".html"
  {
    NoBackslashKept(rel);
    SplitJoin([rel], '/');
    assert [rel][..0] + [MdBase(rel)] == [MdBase(rel)];
  }

  /** A top-level file named `.md` passes the listing's test and is written
      as `.html`, since `basename('.md', '.md')` is empty. */
  lemma {:induction false} BareMdName()
    ensures FlatName(".md") == ".html"
    ensures WebPath(".md") == "writes/.html"
  {
    assert PathSegment(".md") by {
      assert ".md"[0] == '.' && ".md"[1] == 'm' && ".md"[2] == 'd';
    }
    FlatNameTopLevel(".md");
    LiteralsFree();
    NoBackslashKept("writes/.html");
  }

  /** The listing's test (build.mjs:136): the path ends in `.md` in any mix of cases. */
  predicate IsMarkdownName(rel: string) {
    |rel| >= 3 && ToLower(rel[|rel| - 3..]) == ".md"
  }

  /** The listing accepts `.MD` in any case, but `basename(rel, '.md')` is
      case-sensitive: `a.MD` keeps its extension and shares its output file
      with `a.MD.md`. */
  lemma {:induction false} UpperCaseExtensionCollides(x: string)
    requires PathSegment(x) && IsMarkdownName(x) && x[|x| - 3..] != ".md"
    ensures IsMarkdownName(x + ".md") && x + ".md" != x
    ensures FlatName(x) == x + ".html" && FlatName(x + ".md") == x + ".html"
  {
    MdAppended(x);
    KeptExtension(x);
    StrippedExtension(x);
  }

  /** Appending `.md` to a path segment gives a listed path segment. */
  lemma {:induction false} MdAppended(x: string)
    requires PathSegment(x)
    ensures PathSegment(x + ".md") && IsMarkdownName(x + ".md") && x + ".md" != x
  {
    var y := x + ".md";
    assert y[|y| - 3..] == ".md";
    assert ToLower(".md") == ".md";
    assert y[|x|] == '.';
    assert forall i :: |x| <= i < |y| ==> y[i] == ".md"[i - |x|];
  }

  /** A top-level name not ending in the lower-case `.md` keeps its whole name. */
  lemma {:induction false} KeptExtension(x: string)
    requires PathSegment(x) && |x| >= 3 && x[|x| - 3..] != ".md"
    ensures FlatName(x) == x + ".html"
  {
    FlatNameTopLevel(x);
    BasenameAfterSlash([], x);
    assert [] + x == x;
  }

  /** A top-level `x.md` loses its `.md`. */
  lemma {:induction false} StrippedExtension(x: string)
    requires PathSegment(x)
    ensures FlatName(x + ".md") == x + ".html"
  {
    var y := x + ".md";
    MdAppended(x);
    FlatNameTopLevel(y);
    BasenameAfterSlash([], y);
    assert [] + y == y;
    StripMd(x);
  }

  /** Without `-` in any name, different files whose names end in the
      lower-case `.md` get different output files. */
  lemma {:induction false} FlatNameInjective(d1: seq<string>, n1: string, d2: seq<string>, n2: string)
    requires forall k :: 0 <= k < |d1| ==> PathSegment(d1[k]) && '-' !in d1[k]
    requires forall k :: 0 <= k < |d2| ==> PathSegment(d2[k]) && '-' !in d2[k]
    requires PathSegment(n1) && '-' !in n1 && PathSegment(n2) && '-' !in n2
    requires FlatName(MarkdownPath(d1, n1)) == FlatName(MarkdownPath(d2, n2))
    ensures d1 == d2 && n1 == n2
  {
    FlatNameOfPath(d1, n1);
    FlatNameOfPath(d2, n2);
    var p1, p2 := d1 + [n1], d2 + [n2];
    var j1, j2 := JoinWith(p1, "-"), JoinWith(p2, "-");
    assert j1 == j2 by {
      assert |j1| == |j2|;
      assert (j1 + ".html")[..|j1|] == j1 && (j2 + ".html")[..|j2|] == j2;
    }
    assert forall k :: 0 <= k < |p1| ==> '-' !in p1[k];
    assert forall k :: 0 <= k < |p2| ==> '-' !in p2[k];
    SplitJoin(p1, '-');
    SplitJoin(p2, '-');
    assert p1 == p2;
    assert d1 == p1[..|d1|] && d2 == p2[..|d2|];
  }

  // ---------------------------------------------------------------------
  // Filling the article template (build.mjs:246-258)
  // ---------------------------------------------------------------------

  /** The eight placeholders of the article template. */
  datatype Slot = IndexCss | ArticleCss | HighlightLink | PageTitle | PageDate | CategorySuffix | TocList | Content

  /** `{{`, a name without braces, `}}`. */
  predicate SlotShaped(p: string) {
    && |p| >= 5
    && p[0] == '{' && p[1] == '{' && p[|p| - 2] == '}' && p[|p| - 1] == '}'
    && forall i :: 2 <= i < |p| - 2 ==> p[i] != '{' && p[i] != '}'
  }

  function Placeholder(s: Slot): (p: string)
    ensures SlotShaped(p)
  {
    match s
    case IndexCss => "{{INDEX_CSS}}"
    case ArticleCss => "{{ARTICLE_CSS}}"
    case HighlightLink => "{{HL_CSS_LINK}}"
    case PageTitle => "{{TITLE}}"
    case PageDate => "{{DATE}}"
    case CategorySuffix => "{{CATEGORY_SUFFIX}}"
    case TocList => "{{TOC}}"
    case Content => "{{CONTENT}}"
  }

  /** The order of the `.replace` calls. */
  const FillOrder: seq<Slot> := [IndexCss, ArticleCss, HighlightLink, PageTitle, PageDate, CategorySuffix, TocList, Content]

  /** What each placeholder is replaced by. */
  datatype PageValues = PageValues(
    siteCss: string, articleCss: string, hlLink: string, title: string,
    date: string, categorySuffix: string, tocHtml: string, content: string)

  function Value(v: PageValues, s: Slot): string
  {
    match s
    case IndexCss => v.siteCss
    case ArticleCss => v.articleCss
    case HighlightLink => v.hlLink
    case PageTitle => v.title
    case PageDate => v.date
    case CategorySuffix => v.categorySuffix
    case TocList => v.tocHtml
    case Content => v.content
  }

  /** `` category ? ` · ${category}` : '' ``. */
  function CategorySuffixOf(category: string): string
  {
    if category != [] then " · " + category else []
  }

  /** The stylesheet link for the code highlighting, when its file was copied. */
  function HighlightLinkOf(href: string): string
  {
    if href != [] then "<link rel=\"stylesheet\" href=\"" + href + "\">" else []
  }

  /** The values the build puts into a page. */
  function PageValuesOf(siteCss: string, articleCss: string, hlCssHref: string, title: string,
                        date: string, category: string, tocHtml: string, content: string): PageValues
  {
    PageValues(siteCss, articleCss, HighlightLinkOf(hlCssHref), title, date, CategorySuffixOf(category), tocHtml, content)
  }

  /** The chain of `.replace(/\{\{NAME\}\}/g, value)` calls over `slots`, in order. */
  function FillSlots(page: string, slots: seq<Slot>, v: PageValues, mode: ReplaceMode): string
    decreases |slots|
  {
    if slots == [] then page
    else
      var last := slots[|slots| - 1];
      ReplaceAll(FillSlots(page, slots[..|slots| - 1], v, mode), Placeholder(last), Value(v, last), mode)
  }

  /** The page as the build writes it: each value goes through JavaScript's
      replacement patterns. */
  function FillPageAsWritten(template: string, v: PageValues): string
  {
    FillSlots(template, FillOrder, v, JsPatterns)
  }

  /** The page with each value inserted as it is. */
  function FillPage(template: string, v: PageValues): string
  {
    FillSlots(template, FillOrder, v, Verbatim)
  }

  // A template seen as literal text and placeholders

  datatype Part = Lit(text: string) | Hole(slot: Slot)

  /** The text of a part once the slots in `filled` have been replaced. */
  function PartText(p: Part, filled: seq<Slot>, v: PageValues): string
  {
    match p
    case Lit(t) => t
    case Hole(s) => if s in filled then Value(v, s) else Placeholder(s)
  }

  function Show(parts: seq<Part>, filled: seq<Slot>, v: PageValues): string
    decreases |parts|
  {
    if parts == [] then [] else PartText(parts[0], filled, v) + Show(parts[1..], filled, v)
  }

  /** The template with every placeholder replaced by its value. */
  function Instantiate(parts: seq<Part>, v: PageValues): string
    decreases |parts|
  {
    if parts == [] then []
    else
      var t := match parts[0] case Lit(t) => t case Hole(s) => Value(v, s);
      t + Instantiate(parts[1..], v)
  }

  /** No `{{` occurs in the text, nor a `{` at its end: a placeholder can
      neither occur in it nor begin in it. */
  predicate Inert(s: string) {
    forall i :: 0 <= i < |s| && s[i] == '{' ==> i + 1 < |s| && s[i + 1] != '{'
  }

  predicate InertParts(parts: seq<Part>) {
    forall k :: 0 <= k < |parts| && parts[k].Lit? ==> Inert(parts[k].text)
  }

  predicate InertValues(v: PageValues) {
    forall s: Slot :: Inert(Value(v, s))
  }

  /** An occurrence in `y` is an occurrence in `x + y`, shifted by `|x|`. */
  lemma {:induction false} AtShift(x: string, y: string, p: string, f: nat)
    ensures At(x + y, |x| + f, p) == At(y, f, p)
  {
    if f + |p| <= |y| {
      assert (x + y)[|x| + f..|x| + f + |p|] == y[f..f + |p|];
    }
  }

  /** One step of the scan over `y` and over `x + y` at the same place. */
  lemma {:induction false} ShiftStep(x: string, y: string, p: string, v: string, f: nat, n: nat)
    requires |p| > 0 && f < |y|
    requires n == if At(y, f, p) then f + |p| else f + 1
    requires ReplaceAllFrom(x + y, p, v, Verbatim, |x| + n) == ReplaceAllFrom(y, p, v, Verbatim, n)
    ensures ReplaceAllFrom(x + y, p, v, Verbatim, |x| + f) == ReplaceAllFrom(y, p, v, Verbatim, f)
  {
    AtShift(x, y, p, f);
    assert (x + y)[|x| + f] == y[f];
  }

  /** Inserting values verbatim, the replacement of a suffix does not depend on what precedes it. */
  lemma {:induction false} ReplaceShift(x: string, y: string, p: string, v: string, f: nat)
    requires |p| > 0 && f <= |y|
    ensures ReplaceAllFrom(x + y, p, v, Verbatim, |x| + f) == ReplaceAllFrom(y, p, v, Verbatim, f)
    decreases |y| - f
  {
    if f < |y| {
      var n := if At(y, f, p) then f + |p| else f + 1;
      ReplaceShift(x, y, p, v, n);
      ShiftStep(x, y, p, v, f, n);
    }
  }

  /** A prefix in which no occurrence begins is copied through. */
  lemma {:induction false} ReplacePrefixFree(x: string, y: string, p: string, v: string)
    requires |p| > 0
    requires forall k :: 0 <= k < |x| ==> !At(x + y, k, p)
    ensures ReplaceAll(x + y, p, v, Verbatim) == x + ReplaceAll(y, p, v, Verbatim)
  {
    CopyUntil(x + y, p, v, Verbatim, 0, |x|);
    ReplaceShift(x, y, p, v, 0);
    assert (x + y)[0..|x|] == x;
  }

  /** An occurrence at the start is replaced, and the rest is processed on its own. */
  lemma {:induction false} ReplaceLeading(p: string, y: string, v: string)
    requires |p| > 0
    ensures ReplaceAll(p + y, p, v, Verbatim) == v + ReplaceAll(y, p, v, Verbatim)
  {
    assert (p + y)[0..|p|] == p;
    assert At(p + y, 0, p);
    ReplaceShift(p, y, p, v, 0);
  }

  /** No placeholder begins inside an inert text. */
  lemma {:induction false} NoSlotInInert(x: string, y: string, q: string)
    requires Inert(x) && SlotShaped(q)
    ensures forall k :: 0 <= k < |x| ==> !At(x + y, k, q)
  {
    forall k | 0 <= k < |x| ensures !At(x + y, k, q) {
      AtStart(x + y, k, q);
      assert (x + y)[k] == x[k];
      assert k + 1 < |x| ==> (x + y)[k + 1] == x[k + 1];
    }
  }

  /** The first two characters of an occurrence. */
  lemma {:induction false} AtStart(s: string, k: nat, q: string)
    requires |q| >= 2
    ensures At(s, k, q) ==> s[k] == q[0] && s[k + 1] == q[1]
  {
    if At(s, k, q) {
      assert s[k..k + |q|][0] == s[k] && s[k..k + |q|][1] == s[k + 1];
    }
  }

  /** An occurrence at the start of `r + y` and `r` agree on their common length. */
  lemma {:induction false} AtPrefix(r: string, y: string, q: string)
    ensures At(r + y, 0, q) && |q| <= |r| ==> q == r[..|q|]
    ensures At(r + y, 0, q) && |q| > |r| ==> r == q[..|r|]
  {
    if At(r + y, 0, q) {
      if |q| <= |r| {
        assert (r + y)[0..|q|] == r[..|q|];
      } else {
        assert q[..|r|] == (r + y)[0..|q|][..|r|];
      }
    }
  }

  /** A placeholder that starts another placeholder is that placeholder. */
  lemma {:induction false} SlotPrefix(q: string, r: string)
    requires SlotShaped(q) && SlotShaped(r)
    ensures |q| <= |r| && q == r[..|q|] ==> q == r
  {
    if |q| <= |r| && q == r[..|q|] {
      assert r[|q| - 1] == q[|q| - 1] && r[|q| - 2] == q[|q| - 2];
    }
  }

  /** One placeholder does not begin inside a different one. */
  lemma {:induction false} SlotsApart(q: string, r: string, y: string)
    requires SlotShaped(q) && SlotShaped(r) && q != r
    ensures forall k :: 0 <= k < |r| ==> !At(r + y, k, q)
  {
    SlotPrefix(q, r);
    SlotPrefix(r, q);
    AtPrefix(r, y, q);
    forall k | 0 <= k < |r| ensures !At(r + y, k, q) {
      AtStart(r + y, k, q);
      assert (r + y)[k] == r[k];
      assert k + 1 < |r| ==> (r + y)[k + 1] == r[k + 1];
    }
  }

  /** Different slots have different placeholders. */
  lemma {:induction false} PlaceholdersDistinct(s: Slot, t: Slot)
    ensures s != t ==> Placeholder(s) != Placeholder(t)
  {
    if s != t && |Placeholder(s)| == |Placeholder(t)| {
      assert Placeholder(s)[2] != Placeholder(t)[2];
    }
  }

  /** Replacing slot `s` in the text of one part and whatever follows it. */
  lemma {:induction false} HeadReplaced(p: Part, filled: seq<Slot>, v: PageValues, s: Slot, y: string)
    requires p.Lit? ==> Inert(p.text)
    requires InertValues(v)
    ensures ReplaceAll(PartText(p, filled, v) + y, Placeholder(s), Value(v, s), Verbatim)
         == PartText(p, filled + [s], v) + ReplaceAll(y, Placeholder(s), Value(v, s), Verbatim)
  {
    var q := Placeholder(s);
    var x := PartText(p, filled, v);
    if p.Lit? || p.slot in filled {
      assert Inert(x);
      NoSlotInInert(x, y, q);
      ReplacePrefixFree(x, y, q, Value(v, s));
    } else if p.slot == s {
      ReplaceLeading(q, y, Value(v, s));
    } else {
      PlaceholdersDistinct(s, p.slot);
      SlotsApart(q, x, y);
      ReplacePrefixFree(x, y, q, Value(v, s));
    }
  }

  /** One `.replace` call over a shown template marks its slot as filled. */
  lemma {:induction false} FillStep(parts: seq<Part>, filled: seq<Slot>, v: PageValues, s: Slot)
    requires InertParts(parts) && InertValues(v)
    ensures ReplaceAll(Show(parts, filled, v), Placeholder(s), Value(v, s), Verbatim) == Show(parts, filled + [s], v)
    decreases |parts|
  {
    if parts != [] {
      FillStep(parts[1..], filled, v, s);
      HeadReplaced(parts[0], filled, v, s, Show(parts[1..], filled, v));
    }
  }

  /** The whole chain of calls over a shown template marks all its slots as filled. */
  lemma {:induction false} FillSlotsShow(parts: seq<Part>, filled: seq<Slot>, slots: seq<Slot>, v: PageValues)
    requires InertParts(parts) && InertValues(v)
    ensures FillSlots(Show(parts, filled, v), slots, v, Verbatim) == Show(parts, filled + slots, v)
    decreases |slots|
  {
    if slots != [] {
      FillSlotsShow(parts, filled, slots[..|slots| - 1], v);
      FillSlotsStep(parts, filled, slots, v);
    } else {
      assert filled + slots == filled;
    }
  }

  lemma {:induction false} FillSlotsStep(parts: seq<Part>, filled: seq<Slot>, slots: seq<Slot>, v: PageValues)
    requires InertParts(parts) && InertValues(v) && slots != []
    requires FillSlots(Show(parts, filled, v), slots[..|slots| - 1], v, Verbatim) == Show(parts, filled + slots[..|slots| - 1], v)
    ensures FillSlots(Show(parts, filled, v), slots, v, Verbatim) == Show(parts, filled + slots, v)
  {
    var init := slots[..|slots| - 1];
    var last := slots[|slots| - 1];
    var page := Show(parts, filled, v);
    assert FillSlots(page, slots, v, Verbatim) == ReplaceAll(FillSlots(page, init, v, Verbatim), Placeholder(last), Value(v, last), Verbatim);
    FillStep(parts, filled + init, v, last);
    AppendLast(filled, slots);
  }

  lemma {:induction false} AppendLast<T>(filled: seq<T>, slots: seq<T>)
    requires slots != []
    ensures filled + slots[..|slots| - 1] + [slots[|slots| - 1]] == filled + slots
  {
    assert slots[..|slots| - 1] + [slots[|slots| - 1]] == slots;
  }

  /** Every slot is in the order of the calls. */
  lemma {:induction false} InFillOrder(s: Slot)
    ensures s in FillOrder
  {
    match s
    case IndexCss => assert FillOrder[0] == s;
    case ArticleCss => assert FillOrder[1] == s;
    case HighlightLink => assert FillOrder[2] == s;
    case PageTitle => assert FillOrder[3] == s;
    case PageDate => assert FillOrder[4] == s;
    case CategorySuffix => assert FillOrder[5] == s;
    case TocList => assert FillOrder[6] == s;
    case Content => assert FillOrder[7] == s;
  }

  /** Once every slot is filled, the shown template is its instantiation. */
  lemma {:induction false} ShowAllFilled(parts: seq<Part>, filled: seq<Slot>, v: PageValues)
    requires forall s: Slot :: s in filled
    ensures Show(parts, filled, v) == Instantiate(parts, v)
    decreases |parts|
  {
    if parts != [] {
      ShowAllFilled(parts[1..], filled, v);
    }
  }

  /** Filling a page replaces every placeholder of the template by its value
      and leaves the rest of the template as it is, provided neither the
      template's text nor a value contains `{{`. */
  lemma {:induction false} FillPageFillsTemplate(parts: seq<Part>, v: PageValues)
    requires InertParts(parts) && InertValues(v)
    ensures FillPage(Show(parts, [], v), v) == Instantiate(parts, v)
  {
    FillSlotsShow(parts, [], FillOrder, v);
    assert [] + FillOrder == FillOrder;
    forall s: Slot ensures s in FillOrder {
      InFillOrder(s);
    }
    ShowAllFilled(parts, FillOrder, v);
  }

  /** With no `$` in the values, the chain of calls does not depend on the mode. */
  lemma {:induction false} FillSlotsModesAgree(page: string, slots: seq<Slot>, v: PageValues)
    requires forall k :: 0 <= k < |slots| ==> '$' !in Value(v, slots[k])
    ensures FillSlots(page, slots, v, JsPatterns) == FillSlots(page, slots, v, Verbatim)
    decreases |slots|
  {
    if slots != [] {
      var last := slots[|slots| - 1];
      FillSlotsModesAgree(page, slots[..|slots| - 1], v);
      ModesAgreeWithoutDollar(FillSlots(page, slots[..|slots| - 1], v, Verbatim), Placeholder(last), Value(v, last), 0);
    }
  }

  /** The page as written equals the corrected page whenever no value holds a `$`. */
  lemma {:induction false} FillModesAgree(template: string, v: PageValues)
    requires forall s: Slot :: '$' !in Value(v, s)
    ensures FillPageAsWritten(template, v) == FillPage(template, v)
  {
    FillSlotsModesAgree(template, FillOrder, v);
  }

  /** No placeholder begins inside an inert suffix. */
  lemma {:induction false} NoSlotAfter(x: string, b: string, q: string)
    requires Inert(b) && SlotShaped(q)
    ensures forall j :: |x| <= j < |x| + |b| ==> !At(x + b, j, q)
  {
    NoSlotInInert(b, [], q);
    assert b + [] == b;
    forall j | |x| <= j < |x| + |b| ensures !At(x + b, j, q) {
      AtShift(x, b, q, j - |x|);
    }
  }

  /** A placeholder that occurs once, between inert texts, is replaced once,
      in either mode. */
  lemma {:induction false} SoleSlot(a: string, q: string, b: string, rep: string, mode: ReplaceMode)
    requires Inert(a) && Inert(b) && SlotShaped(q)
    ensures At(a + q + b, |a|, q)
    ensures ReplaceAll(a + q + b, q, rep, mode) == a + Substitute(a + q + b, |a|, q, rep, mode) + b
  {
    var t := a + q + b;
    SlotBefore(a, q, b, rep, mode);
    SlotAfter(a, q, b, rep, mode);
    Join3(ReplaceAll(t, q, rep, mode), a, ReplaceAllFrom(t, q, rep, mode, |a|),
          Substitute(t, |a|, q, rep, mode), ReplaceAllFrom(t, q, rep, mode, |a| + |q|), b);
  }

  /** The inert text before the placeholder is copied. */
  lemma {:induction false} SlotBefore(a: string, q: string, b: string, rep: string, mode: ReplaceMode)
    requires Inert(a) && SlotShaped(q)
    ensures ReplaceAll(a + q + b, q, rep, mode) == a + ReplaceAllFrom(a + q + b, q, rep, mode, |a|)
  {
    var t := a + q + b;
    assert t == a + (q + b);
    NoSlotInInert(a, q + b, q);
    CopyUntil(t, q, rep, mode, 0, |a|);
    assert t[0..|a|] == a;
  }

  /** The placeholder is replaced and the inert text after it is copied. */
  lemma {:induction false} SlotAfter(a: string, q: string, b: string, rep: string, mode: ReplaceMode)
    requires Inert(b) && SlotShaped(q)
    ensures At(a + q + b, |a|, q)
    ensures ReplaceAllFrom(a + q + b, q, rep, mode, |a|) == Substitute(a + q + b, |a|, q, rep, mode) + ReplaceAllFrom(a + q + b, q, rep, mode, |a| + |q|)
    ensures ReplaceAllFrom(a + q + b, q, rep, mode, |a| + |q|) == b
  {
    var t := a + q + b;
    assert t[|a|..|a| + |q|] == q;
    NoSlotAfter(a + q, b, q);
    CopyUntil(t, q, rep, mode, |a| + |q|, |t|);
    assert t[|a| + |q|..|t|] == b;
  }

  /** Every slot but the content, in the order of the calls. */
  const SlotsBeforeContent: seq<Slot> := [IndexCss, ArticleCss, HighlightLink, PageTitle, PageDate, CategorySuffix, TocList]

  /** The calls before the content's leave a template whose only placeholder is
      the content's as it is, in either mode. */
  lemma {:induction false} BeforeContent(a: string, b: string, v: PageValues)
    requires Inert(a) && Inert(b) && InertValues(v)
    requires forall s: Slot :: s != Content ==> '$' !in Value(v, s)
    ensures FillSlots(a + Placeholder(Content) + b, SlotsBeforeContent, v, JsPatterns) == a + Placeholder(Content) + b
    ensures FillSlots(a + Placeholder(Content) + b, SlotsBeforeContent, v, Verbatim) == a + Placeholder(Content) + b
  {
    var parts := [Lit(a), Hole(Content), Lit(b)];
    assert InertParts(parts);
    assert Show(parts[2..], [], v) == b;
    assert Show(parts, [], v) == a + Placeholder(Content) + b;
    assert Show(parts[2..], SlotsBeforeContent, v) == b;
    assert Show(parts, SlotsBeforeContent, v) == a + Placeholder(Content) + b;
    FillSlotsShow(parts, [], SlotsBeforeContent, v);
    assert [] + SlotsBeforeContent == SlotsBeforeContent;
    FillSlotsModesAgree(a + Placeholder(Content) + b, SlotsBeforeContent, v);
  }

  /** A template whose only placeholder is the content's, filled with the content
      `$'`: the corrected page holds `$'`, while the page as written holds the rest
      of the template a second time in its place, since JavaScript reads `$'` as
      the text after the match. */
  lemma {:induction false} AsWrittenExpandsDollar(a: string, b: string, v: PageValues)
    requires Inert(a) && Inert(b) && InertValues(v)
    requires v.content == "$'"
    requires forall s: Slot :: s != Content ==> '$' !in Value(v, s)
    ensures FillPage(a + Placeholder(Content) + b, v) == a + "$'" + b
    ensures FillPageAsWritten(a + Placeholder(Content) + b, v) == a + b + b
  {
    var q := Placeholder(Content);
    var t := a + q + b;
    assert FillOrder[..|FillOrder| - 1] == SlotsBeforeContent;
    BeforeContent(a, b, v);
    SoleSlot(a, q, b, "$'", JsPatterns);
    SoleSlot(a, q, b, "$'", Verbatim);
    assert t[..|a|] == a;
    assert t[|a| + |q|..] == b;
    assert Expand("$'", q, a, b) == b;
  }
}
