/** The build (build.mjs:171-279): each markdown file is turned into a page
    and a post record, private documents are skipped, the pages are written
    under their flat names, the posts are sorted by date and listed on the
    home page. The file system, the markdown renderer and the clock are
    inputs: the files arrive as their paths relative to `writes/`, their
    texts and the day each was last modified, and the renderer is a
    function. */
module Build {
  import opened Text
  import opened Meta
  import opened Derive
  import opened Html
  import opened Toc
  import opened Page
  import opened Order
  import opened Index

  /** A markdown file as the listing found it. */
  datatype SourceFile = SourceFile(rel: string, markdown: string, modifiedDay: string)

  /** What the build reads besides the markdown files; a file that cannot
      be read is the empty string, as the build's `catch` blocks leave it,
      except `index.css`, whose absence also turns off its inlining into the
      home page. */
  datatype Site = Site(
    indexCss: Option<string>, articleCss: string, hlCssHref: string,
    articleTemplate: string, indexTemplate: string, programs: seq<Program>)

  /** What one document produces: the name of its page, the page, and its post. */
  datatype Output = Output(name: string, page: string, post: Post)

  /** `data.summary || extractSummary(content)`. */
  function Summary(data: map<string, string>, content: string): string
  {
    var given := Field(data, "summary");
    if given != [] then given else ExtractSummary(content)
  }

  function SiteCss(site: Site): string
  {
    match site.indexCss
    case None => []
    case Some(c) => c
  }

  /** The body of the loop over the files (build.mjs:211-270) for one
      document, or nothing when it is private. */
  function Process(f: SourceFile, render: string -> string, site: Site): Option<Output>
  {
    var meta := ExtractMetadata(f.markdown);
    if IsPrivate(meta.data) then None
    else
      var content := meta.content;
      var title := Title(meta.data, content, f.rel);
      var date := NormalizeDate(meta.data, f.modifiedDay);
      var category := Category(meta.data, f.rel);
      var body := LazyLoading(StripDuplicateTopTitle(render(content), title));
      var anchored := AnchorAll(Scan(body), Slugify);
      var values := PageValuesOf(SiteCss(site), site.articleCss, site.hlCssHref, title, date, category,
                                 TocHtml(anchored.toc), anchored.html);
      var post := Post(title, Summary(meta.data, content), date, category, WebPath(f.rel), OriginPath(f.rel));
      Some(Output(FlatName(f.rel), FillPage(site.articleTemplate, values), post))
  }

  /** What each file produces, in the order of the files. */
  function Results(files: seq<SourceFile>, render: string -> string, site: Site): (outs: seq<Option<Output>>)
    ensures |outs| == |files|
    ensures forall k :: 0 <= k < |files| ==> outs[k] == Process(files[k], render, site)
  {
    seq(|files|, k requires 0 <= k < |files| => Process(files[k], render, site))
  }

  /** The posts of the public documents, in the order of the files. */
  function PostsFrom(outs: seq<Option<Output>>): seq<Post>
    decreases |outs|
  {
    if outs == [] then []
    else
      var init := PostsFrom(outs[..|outs| - 1]);
      match outs[|outs| - 1]
      case None => init
      case Some(o) => init + [o.post]
  }

  /** The pages written, by file name; a later page replaces an earlier one
      with the same name. */
  function PagesFrom(outs: seq<Option<Output>>): map<string, string>
    decreases |outs|
  {
    if outs == [] then map[]
    else
      var init := PagesFrom(outs[..|outs| - 1]);
      match outs[|outs| - 1]
      case None => init
      case Some(o) => init[o.name := o.page]
  }

  /** One more file: its page and its post are added to those of the files before it. */
  lemma {:induction false} FromStep(outs: seq<Option<Output>>, i: nat)
    requires i < |outs|
    ensures PagesFrom(outs[..i + 1]) ==
              if outs[i].Some? then PagesFrom(outs[..i])[outs[i].value.name := outs[i].value.page] else PagesFrom(outs[..i])
    ensures PostsFrom(outs[..i + 1]) ==
              if outs[i].Some? then PostsFrom(outs[..i]) + [outs[i].value.post] else PostsFrom(outs[..i])
  {
    assert outs[..i + 1][..i] == outs[..i];
  }

  /** One document, step by step as the loop body does it. */
  method RenderDocument(f: SourceFile, render: string -> string, site: Site) returns (out: Option<Output>)
    ensures out == Process(f, render, site)
  {
    var c1, d1 := ParseHtmlCommentMeta(f.markdown);
    var content, d2 := ParseFrontmatter(c1);
    var data := Merge(d2, d1);
    if IsPrivate(data) {
      return None;
    }
    var title := Title(data, content, f.rel);
    var summary := Summary(data, content);
    var date := NormalizeDate(data, f.modifiedDay);
    var category := Category(data, f.rel);
    var htmlBody := render(content);
    htmlBody := StripDuplicateTopTitle(htmlBody, title);
    htmlBody := LazyLoading(htmlBody);
    var anchoredHtml, toc := AnchorHeadings(htmlBody);
    var tocHtml := RenderToc(toc);
    var flatName := FlatName(f.rel);
    var values := PageValuesOf(SiteCss(site), site.articleCss, site.hlCssHref, title, date, category, tocHtml, anchoredHtml);
    var page := FillPage(site.articleTemplate, values);
    out := Some(Output(flatName, page, Post(title, summary, date, category, WebPath(f.rel), OriginPath(f.rel))));
  }

  /** The loop over the files (build.mjs:210-271): the pages written so far
      and the posts collected so far, in the order of the files. */
  method RenderAll(files: seq<SourceFile>, render: string -> string, site: Site)
    returns (pages: map<string, string>, found: seq<Post>)
    ensures pages == PagesFrom(Results(files, render, site))
    ensures found == PostsFrom(Results(files, render, site))
  {
    ghost var outs := Results(files, render, site);
    pages := map[];
    found := [];
    for i := 0 to |files|
      invariant pages == PagesFrom(outs[..i])
      invariant found == PostsFrom(outs[..i])
    {
      FromStep(outs, i);
      var out := RenderDocument(files[i], render, site);
      assert out == outs[i];
      if out.Some? {
        pages := pages[out.value.name := out.value.page];
        found := found + [out.value.post];
      }
    }
    assert outs[..|files|] == outs;
  }

  /** The collected posts copied into an array and sorted in place
      (build.mjs:274). */
  method SortCollected(found: seq<Post>) returns (posts: seq<Post>)
    ensures posts == SortByDate(found)
    ensures SortedByDate(posts) && multiset(posts) == multiset(found)
  {
    var a := new Post[|found|](k requires 0 <= k < |found| => found[k]);
    assert a[..] == found;
    SortPosts(a);
    posts := a[..];
    SortSorts(found);
    SortPermutes(found);
  }

  /** `build()`: the pages by name, the sorted posts, and the home page. */
  method BuildSite(files: seq<SourceFile>, render: string -> string, site: Site)
    returns (pages: map<string, string>, posts: seq<Post>, indexHtml: string)
    ensures pages == PagesFrom(Results(files, render, site))
    ensures posts == SortByDate(PostsFrom(Results(files, render, site)))
    ensures SortedByDate(posts) && multiset(posts) == multiset(PostsFrom(Results(files, render, site)))
    ensures indexHtml == IndexHtml(site.indexTemplate, site.indexCss, site.programs, posts, Verbatim)
  {
    var found;
    pages, found := RenderAll(files, render, site);
    posts := SortCollected(found);
    indexHtml := IndexHtml(site.indexTemplate, site.indexCss, site.programs, posts, Verbatim);
  }

  // ---------------------------------------------------------------------
  // What the build promises
  // ---------------------------------------------------------------------

  /** Every public document has a post, and every post comes from a public document. */
  lemma {:induction false} PostsOfPublicDocuments(outs: seq<Option<Output>>)
    ensures forall k :: 0 <= k < |outs| && outs[k].Some? ==> outs[k].value.post in PostsFrom(outs)
    ensures forall p :: p in PostsFrom(outs) ==> exists k :: 0 <= k < |outs| && outs[k].Some? && outs[k].value.post == p
    decreases |outs|
  {
    if outs != [] {
      var init := outs[..|outs| - 1];
      PostsOfPublicDocuments(init);
      forall k | 0 <= k < |init| ensures outs[k] == init[k] { }
    }
  }

  /** A page is written under a name exactly when a public document has that name. */
  lemma {:induction false} PageNames(outs: seq<Option<Output>>, name: string)
    ensures name in PagesFrom(outs) <==> exists k :: 0 <= k < |outs| && outs[k].Some? && outs[k].value.name == name
    decreases |outs|
  {
    if outs != [] {
      var init := outs[..|outs| - 1];
      PageNames(init, name);
      forall k | 0 <= k < |init| ensures outs[k] == init[k] { }
    }
  }

  /** The page under a name is the one of the last public document with that name. */
  lemma {:induction false} LastPageWins(outs: seq<Option<Output>>, k: nat)
    requires k < |outs| && outs[k].Some?
    requires forall j :: k < j < |outs| ==> outs[j].None? || outs[j].value.name != outs[k].value.name
    ensures outs[k].value.name in PagesFrom(outs) && PagesFrom(outs)[outs[k].value.name] == outs[k].value.page
    decreases |outs|
  {
    var init := outs[..|outs| - 1];
    if k < |outs| - 1 {
      assert init[k] == outs[k];
      forall j | k < j < |init| ensures init[j] == outs[j] { }
      LastPageWins(init, k);
    }
  }

  /** A listed file has a base name, so its post always has a title and
      the home page never shows the `未命名` placeholder for it. */
  lemma {:induction false} PostTitleShown(f: SourceFile, render: string -> string, site: Site)
    requires Basename(f.rel) != [] && Process(f, render, site).Some?
    ensures Process(f, render, site).value.post.title != []
    ensures DisplayTitle(Process(f, render, site).value.post) == Process(f, render, site).value.post.title
  {
    var meta := ExtractMetadata(f.markdown);
    TitleNonEmpty(meta.data, meta.content, f.rel);
  }

  /** The link of a post is the page written for it: for a file
      `dirs/name.md`, `path` is `writes/` and the page's name. */
  lemma {:induction false} PostLinksToPage(dirs: seq<string>, name: string, f: SourceFile, render: string -> string, site: Site)
    requires forall k :: 0 <= k < |dirs| ==> PathSegment(dirs[k])
    requires PathSegment(name)
    requires f.rel == MarkdownPath(dirs, name)
    requires Process(f, render, site).Some?
    ensures Process(f, render, site).value.post.path == "writes/" + Process(f, render, site).value.name
    ensures Process(f, render, site).value.post.originPath == "writes/" + f.rel
  {
    PostPathsOfPath(dirs, name);
  }
}
