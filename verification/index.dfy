/** The home page (build.mjs:281-319): the stylesheet link to `index.css`
    is replaced by the inlined style sheet, the list of programs and the
    list of posts are built as markup, and each list replaces its marker
    comment in the template. */
module Index {
  import opened Text
  import opened Order

  // ---------------------------------------------------------------------
  // List markup (build.mjs:300-315)
  // ---------------------------------------------------------------------

  /** One entry of `programs.json`; a missing field is the empty string. */
  datatype Program = Program(title: string, link: string, summary: string)

  /** `p.link || '#'`. */
  function ProgramLink(p: Program): string
  {
    if p.link == [] then "#" else p.link
  }

  /** The list item of one program (it spans four lines). */
  function ProgramItem(p: Program): string
  {
    "        <li>\n          <a class=\"link\" target=\"_blank\" href=\"" + ProgramLink(p) + "\">" + p.title
      + "</a>: \n          <small>" + p.summary + "</small>\n        </li>"
  }

  function ProgramItems(ps: seq<Program>): (r: seq<string>)
    ensures |r| == |ps|
  {
    seq(|ps|, k requires 0 <= k < |ps| => ProgramItem(ps[k]))
  }

  /** The program list, or nothing when there are no programs. */
  function ProgramsUl(ps: seq<Program>): string
  {
    if |ps| > 0 then "      <ul class=\"list\">\n" + JoinWith(ProgramItems(ps), "\n") + "\n      </ul>" else ""
  }

  /** `p.title || '未命名'`. */
  function DisplayTitle(p: Post): string
  {
    if p.title == [] then "未命名" else p.title
  }

  /** The list item of one post, on one line. */
  function PostItem(p: Post): string
  {
    "        <li><span class=\"category " + p.category + "\">" + p.category + "</span><time>" + p.date
      + "</time><a class=\"link\" target=\"_blank\" href=\"" + p.path + "\" class=\"title\"><span>"
      + DisplayTitle(p) + "</span></a><small class=\"summary\">" + p.summary + "</small></li>"
  }

  function PostItems(ps: seq<Post>): (r: seq<string>)
    ensures |r| == |ps|
  {
    seq(|ps|, k requires 0 <= k < |ps| => PostItem(ps[k]))
  }

  const PostsOpen: string := "      <ul id=\"posts-list\">"
  const PostsClose: string := "      </ul>"

  /** The post list; it is there even when there are no posts. */
  function PostsUl(ps: seq<Post>): string
  {
    PostsOpen + "\n" + JoinWith(PostItems(ps), "\n") + "\n" + PostsClose
  }

  /** The program list is empty exactly when there are no programs. */
  lemma {:induction false} ProgramsUlEmpty(ps: seq<Program>)
    ensures ProgramsUl(ps) == [] <==> ps == []
  {
  }

  predicate NoBreak(s: string) {
    forall i :: 0 <= i < |s| ==> s[i] != '\n'
  }

  lemma {:induction false} NoBreakJoin(a: string, b: string)
    requires NoBreak(a) && NoBreak(b)
    ensures NoBreak(a + b)
  {
    forall i | 0 <= i < |a + b| ensures (a + b)[i] != '\n' {
      if i >= |a| {
        assert (a + b)[i] == b[i - |a|];
      }
    }
  }

  /** A post whose fields hold no line break. */
  predicate OneLine(p: Post) {
    NoBreak(p.title) && NoBreak(p.summary) && NoBreak(p.date) && NoBreak(p.category) && NoBreak(p.path)
  }

  /** The literal parts of a post's list item hold no line break. */
  lemma {:induction false} ItemTextOneLineA()
    ensures NoBreak("        <li><span class=\"category ")
    ensures NoBreak("\">")
    ensures NoBreak("</span><time>")
  {
  }

  lemma {:induction false} ItemTextOneLineB()
    ensures NoBreak("</time><a class=\"link\" target=\"_blank\" href=\"")
    ensures NoBreak("\" class=\"title\"><span>")
  {
    NoBreakJoin("</time><a class=\"link\" ", "target=\"_blank\" href=\"");
  }

  lemma {:induction false} ItemTextOneLineC()
    ensures NoBreak("</span></a><small class=\"summary\">")
    ensures NoBreak("</small></li>")
    ensures NoBreak("未命名")
  {
  }

  /** A post whose fields hold no line break is listed on one line. */
  lemma {:induction false} PostItemOneLine(p: Post)
    requires OneLine(p)
    ensures NoBreak(PostItem(p))
  {
    var t := DisplayTitle(p);
    ItemTextOneLineA();
    ItemTextOneLineB();
    ItemTextOneLineC();
    var s := "        <li><span class=\"category ";
    NoBreakJoin(s, p.category); s := s + p.category;
    NoBreakJoin(s, "\">"); s := s + "\">";
    NoBreakJoin(s, p.category); s := s + p.category;
    NoBreakJoin(s, "</span><time>"); s := s + "</span><time>";
    NoBreakJoin(s, p.date); s := s + p.date;
    NoBreakJoin(s, "</time><a class=\"link\" target=\"_blank\" href=\""); s := s + "</time><a class=\"link\" target=\"_blank\" href=\"";
    NoBreakJoin(s, p.path); s := s + p.path;
    NoBreakJoin(s, "\" class=\"title\"><span>"); s := s + "\" class=\"title\"><span>";
    NoBreakJoin(s, t); s := s + t;
    NoBreakJoin(s, "</span></a><small class=\"summary\">"); s := s + "</span></a><small class=\"summary\">";
    NoBreakJoin(s, p.summary); s := s + p.summary;
    NoBreakJoin(s, "</small></li>"); s := s + "</small></li>";
  }

  lemma {:induction false} ListEndsOneLine()
    ensures NoBreak(PostsOpen) && NoBreak(PostsClose)
  {
  }

  /** The lines between the opening and the closing tag of the post list. */
  function PostLines(ps: seq<Post>): seq<string>
  {
    if ps == [] then [""] else PostItems(ps)
  }

  lemma {:induction false} PostsUlJoined(ps: seq<Post>)
    ensures PostsUl(ps) == JoinWith([PostsOpen] + PostLines(ps) + [PostsClose], "\n")
  {
    var mid := PostLines(ps);
    assert JoinWith(mid, "\n") == JoinWith(PostItems(ps), "\n");
    JoinWithSnoc([PostsOpen] + mid, PostsClose, "\n");
    assert ([PostsOpen] + mid)[1..] == mid;
  }

  /** The post list, line by line: its opening tag, one line per post in the
      order of `ps` (a blank line when there is none), and its closing tag. */
  lemma {:induction false} PostsUlLines(ps: seq<Post>)
    requires forall k :: 0 <= k < |ps| ==> OneLine(ps[k])
    ensures Lines(PostsUl(ps)) == [PostsOpen] + PostLines(ps) + [PostsClose]
  {
    var parts := [PostsOpen] + PostLines(ps) + [PostsClose];
    PostsUlJoined(ps);
    forall k | 0 <= k < |ps| ensures NoBreak(PostItems(ps)[k]) {
      PostItemOneLine(ps[k]);
    }
    ListEndsOneLine();
    forall k | 0 <= k < |parts| ensures '\n' !in parts[k] {
      if 0 < k < |parts| - 1 {
        assert parts[k] == PostLines(ps)[k - 1];
      }
      assert NoBreak(parts[k]);
    }
    SplitJoin(parts, '\n');
  }

  // ---------------------------------------------------------------------
  // The regular expressions (build.mjs:289, 318-319)
  // ---------------------------------------------------------------------

  /** The two marker comments. */
  datatype Marker = ProgramsMarker | WritesMarker

  function MarkerName(m: Marker): (name: string)
    ensures |name| > 0 && !IsSpace(name[0])
  {
    match m
    case ProgramsMarker => "programs.json"
    case WritesMarker => "writes.json"
  }

  /** The patterns the home page is edited with. */
  datatype Pattern =
    | StylesheetLink  // `<link\s+rel="stylesheet"[^>]*href="index\.css"[^>]*>`
    | Comment(m: Marker)  // `<!--\s*name\s*-->`

  const RelStylesheet: string := "rel=\"stylesheet\""
  const HrefIndexCss: string := "href=\"index.css\""

  /** Where a match of `p` that begins at `i` ends, if one does. No
      backtracking changes the outcome: a `\s` run is always followed by a
      character outside `\s` (`r`, the marker's name or `-`), so it is taken
      whole, and `[^>]*` cannot cross a `>`, so the link tag ends at the
      first `>` after `rel="stylesheet"`, and matches when `href="index.css"`
      lies before that `>`. */
  function MatchEnd(s: string, i: nat, p: Pattern): (r: Option<nat>)
    requires i <= |s|
    ensures r.Some? ==> i < r.value <= |s|
  {
    match p
    case StylesheetLink =>
      if At(s, i, "<link") && i + 5 < |s| && IsSpace(s[i + 5]) then
        var j := SkipSpaces(s, i + 5);
        if At(s, j, RelStylesheet) then
          match IndexOf(s, '>', j + |RelStylesheet|)
          case None => None
          case Some(g) => if Find(s[..g], HrefIndexCss, j + |RelStylesheet|).Some? then Some(g + 1) else None
        else None
      else None
    case Comment(m) =>
      if At(s, i, "<!--") then
        var j := SkipSpaces(s, i + 4);
        if At(s, j, MarkerName(m)) then
          var k := SkipSpaces(s, j + |MarkerName(m)|);
          if At(s, k, "-->") then Some(k + 3) else None
        else None
      else None
  }

  /** The leftmost match of `p` at or after `from`: its start and its end. */
  function FirstMatch(s: string, p: Pattern, from: nat): (r: Option<(nat, nat)>)
    requires from <= |s|
    ensures r.Some? ==> from <= r.value.0 < r.value.1 <= |s| && MatchEnd(s, r.value.0, p) == Some(r.value.1)
    decreases |s| - from
  {
    match MatchEnd(s, from, p)
    case Some(e) => Some((from, e))
    case None => if from == |s| then None else FirstMatch(s, p, from + 1)
  }

  /** `s.replace(regex, rep)` for a regex without the `g` flag: only the
      leftmost match is replaced. */
  function ReplaceFirstMatch(s: string, p: Pattern, rep: string, mode: ReplaceMode): string
  {
    match FirstMatch(s, p, 0)
    case None => s
    case Some((i, e)) =>
      s[..i] + (match mode case Verbatim => rep case JsPatterns => Expand(rep, s[i..e], s[..i], s[e..])) + s[e..]
  }

  /** No match of `p` begins before `n`. */
  predicate NoMatchBefore(s: string, p: Pattern, n: nat)
    requires n <= |s|
  {
    forall i :: 0 <= i < n ==> MatchEnd(s, i, p).None?
  }

  /** The first match is the leftmost one. */
  lemma {:induction false} FirstMatchIsLeftmost(s: string, p: Pattern, from: nat, i: nat, e: nat)
    requires from <= i <= |s|
    requires forall k :: from <= k < i ==> MatchEnd(s, k, p).None?
    requires MatchEnd(s, i, p) == Some(e)
    ensures FirstMatch(s, p, from) == Some((i, e))
    decreases i - from
  {
    if from < i {
      FirstMatchIsLeftmost(s, p, from + 1, i, e);
    }
  }

  /** Without a match the text is left as it is. */
  lemma {:induction false} FirstMatchNone(s: string, p: Pattern, from: nat)
    requires from <= |s|
    requires forall k :: from <= k <= |s| ==> MatchEnd(s, k, p).None?
    ensures FirstMatch(s, p, from).None?
    decreases |s| - from
  {
    if from < |s| {
      FirstMatchNone(s, p, from + 1);
    }
  }

  // ---------------------------------------------------------------------
  // The home page
  // ---------------------------------------------------------------------

  /** The home page: the style sheet is inlined when `index.css` could be
      read, then the program list and the post list replace their markers. */
  function IndexHtml(template: string, css: Option<string>, programs: seq<Program>, posts: seq<Post>,
                     mode: ReplaceMode): string
  {
    var inlined := match css
      case None => template
      case Some(c) => ReplaceFirstMatch(template, StylesheetLink, "<style>\n" + c + "\n</style>", mode);
    var withPrograms := ReplaceFirstMatch(inlined, Comment(ProgramsMarker), ProgramsUl(programs), mode);
    ReplaceFirstMatch(withPrograms, Comment(WritesMarker), PostsUl(posts), mode)
  }

  /** The two modes agree when the inserted text holds no `$`. */
  lemma {:induction false} ReplaceFirstModesAgree(s: string, p: Pattern, rep: string)
    requires '$' !in rep
    ensures ReplaceFirstMatch(s, p, rep, JsPatterns) == ReplaceFirstMatch(s, p, rep, Verbatim)
  {
    match FirstMatch(s, p, 0)
    case None =>
    case Some((i, e)) => ExpandWithoutDollar(rep, s[i..e], s[..i], s[e..]);
  }

  // ---------------------------------------------------------------------
  // What a marker comment and a stylesheet link look like
  // ---------------------------------------------------------------------

  predicate AllSpace(s: string) {
    forall k :: 0 <= k < |s| ==> IsSpace(s[k])
  }

  /** `\s*` passes a run of white space that ends before a character outside `\s`. */
  lemma {:induction false} SkipRun(s: string, i: nat, sp: string, y: string)
    requires i <= |s| && s[i..] == sp + y
    requires AllSpace(sp) && (y == [] || !IsSpace(y[0]))
    ensures SkipSpaces(s, i) == i + |sp| && s[i + |sp|..] == y
    decreases |sp|
  {
    if sp != [] {
      assert s[i] == sp[0];
      assert s[i + 1..] == s[i..][1..];
      SkipRun(s, i + 1, sp[1..], y);
    } else {
      assert i == |s| || s[i] == y[0];
    }
  }

  /** A text occurs where it was put. */
  lemma {:induction false} AtFront(s: string, i: nat, q: string, y: string)
    requires i <= |s| && s[i..] == q + y
    ensures At(s, i, q) && s[i + |q|..] == y
  {
    assert s[i..i + |q|] == s[i..][..|q|];
    assert s[i + |q|..] == s[i..][|q|..];
  }

  /** What follows a prefix. */
  lemma {:induction false} AfterPrefix(a: string, c: string, b: string)
    ensures (a + c + b)[|a|..] == c + b
  {
  }

  /** The marker comment `<!--`, white space, the name, white space, `-->`. */
  function MarkerComment(m: Marker, sp1: string, sp2: string): string
  {
    "<!--" + sp1 + MarkerName(m) + sp2 + "-->"
  }

  /** A marker comment matches, and the match covers exactly the comment. */
  lemma {:induction false} MarkerCommentMatches(a: string, m: Marker, sp1: string, sp2: string, b: string)
    requires AllSpace(sp1) && AllSpace(sp2)
    ensures MatchEnd(a + MarkerComment(m, sp1, sp2) + b, |a|, Comment(m)) == Some(|a| + |MarkerComment(m, sp1, sp2)|)
  {
    var c := MarkerComment(m, sp1, sp2);
    AfterPrefix(a, c, b);
    Regroup5("<!--", sp1, MarkerName(m), sp2, "-->", b);
    CommentMatches(a + c + b, |a|, m, MarkerName(m), sp1, sp2, b);
    MarkerCommentLength(m, sp1, sp2);
  }

  lemma {:induction false} MarkerCommentLength(m: Marker, sp1: string, sp2: string)
    ensures |MarkerComment(m, sp1, sp2)| == 4 + |sp1| + |MarkerName(m)| + |sp2| + 3
  {
  }

  lemma {:induction false} CommentMatches(s: string, i: nat, m: Marker, name: string, sp1: string, sp2: string, b: string)
    requires name == MarkerName(m)
    requires i <= |s| && s[i..] == "<!--" + (sp1 + (name + (sp2 + ("-->" + b))))
    requires AllSpace(sp1) && AllSpace(sp2)
    ensures MatchEnd(s, i, Comment(m)) == Some(i + 4 + |sp1| + |name| + |sp2| + 3)
  {
    var j := i + 4 + |sp1|;
    var k := j + |name| + |sp2|;
    CommentSteps(s, i, j, k, name, sp1, sp2, b);
    CommentMatchEnd(s, i, m, j, k);
  }

  /** The facts each step of the comment's match needs. */
  lemma {:induction false} CommentSteps(s: string, i: nat, j: nat, k: nat, name: string, sp1: string, sp2: string, b: string)
    requires i <= |s| && s[i..] == "<!--" + (sp1 + (name + (sp2 + ("-->" + b))))
    requires AllSpace(sp1) && AllSpace(sp2) && |name| > 0 && !IsSpace(name[0])
    requires j == i + 4 + |sp1| && k == j + |name| + |sp2|
    ensures i + 4 <= |s| && At(s, i, "<!--") && SkipSpaces(s, i + 4) == j
    ensures j + |name| <= |s| && At(s, j, name) && SkipSpaces(s, j + |name|) == k
    ensures At(s, k, "-->")
  {
    CommentHead(s, i, sp1, name, sp2 + ("-->" + b));
    CommentTail(s, j + |name|, sp2, b);
  }

  lemma {:induction false} CommentMatchEnd(s: string, i: nat, m: Marker, j: nat, k: nat)
    requires i + 4 <= |s| && At(s, i, "<!--") && SkipSpaces(s, i + 4) == j
    requires j + |MarkerName(m)| <= |s| && At(s, j, MarkerName(m)) && SkipSpaces(s, j + |MarkerName(m)|) == k
    requires At(s, k, "-->")
    ensures MatchEnd(s, i, Comment(m)) == Some(k + 3)
  {
  }

  lemma {:induction false} Regroup5(p1: string, p2: string, p3: string, p4: string, p5: string, b: string)
    ensures p1 + p2 + p3 + p4 + p5 + b == p1 + (p2 + (p3 + (p4 + (p5 + b))))
  {
  }

  /** The comment's match up to the name. */
  lemma {:induction false} CommentHead(s: string, i: nat, sp1: string, name: string, rest: string)
    requires i <= |s| && s[i..] == "<!--" + (sp1 + (name + rest))
    requires AllSpace(sp1) && |name| > 0 && !IsSpace(name[0])
    ensures At(s, i, "<!--")
    ensures SkipSpaces(s, i + 4) == i + 4 + |sp1|
    ensures At(s, i + 4 + |sp1|, name)
    ensures s[i + 4 + |sp1| + |name|..] == rest
  {
    AtFront(s, i, "<!--", sp1 + (name + rest));
    SkipRun(s, i + 4, sp1, name + rest);
    AtFront(s, i + 4 + |sp1|, name, rest);
  }

  /** The comment's match after the name. */
  lemma {:induction false} CommentTail(s: string, k: nat, sp2: string, b: string)
    requires k <= |s| && s[k..] == sp2 + ("-->" + b)
    requires AllSpace(sp2)
    ensures SkipSpaces(s, k) == k + |sp2|
    ensures At(s, k + |sp2|, "-->")
  {
    assert !IsSpace('-');
    SkipRun(s, k, sp2, "-->" + b);
    AtFront(s, k + |sp2|, "-->", b);
  }

  /** The first marker comment is replaced by the list, and the rest of the
      template is kept. */
  lemma {:induction false} MarkerReplaced(a: string, m: Marker, sp1: string, sp2: string, b: string, rep: string)
    requires AllSpace(sp1) && AllSpace(sp2)
    requires NoMatchBefore(a + MarkerComment(m, sp1, sp2) + b, Comment(m), |a|)
    ensures ReplaceFirstMatch(a + MarkerComment(m, sp1, sp2) + b, Comment(m), rep, Verbatim) == a + rep + b
  {
    MarkerFirstMatch(a, m, sp1, sp2, b);
  }

  /** The first match is the marker comment placed after `a`. */
  lemma {:induction false} MarkerFirstMatch(a: string, m: Marker, sp1: string, sp2: string, b: string)
    requires AllSpace(sp1) && AllSpace(sp2)
    requires NoMatchBefore(a + MarkerComment(m, sp1, sp2) + b, Comment(m), |a|)
    ensures var s := a + MarkerComment(m, sp1, sp2) + b;
            var e := |a| + |MarkerComment(m, sp1, sp2)|;
            e <= |s| && FirstMatch(s, Comment(m), 0) == Some((|a|, e)) && s[..|a|] == a && s[e..] == b
  {
    var c := MarkerComment(m, sp1, sp2);
    var s := a + c + b;
    MarkerCommentMatches(a, m, sp1, sp2, b);
    FirstMatchIsLeftmost(s, Comment(m), 0, |a|, |a| + |c|);
    assert s[..|a|] == a;
    assert s[|a| + |c|..] == b;
  }

  /** As written, the list text goes through JavaScript's replacement
      patterns: a `$'` in it (in a post's title or summary, say) is replaced
      by the rest of the template, which then appears twice. */
  lemma {:induction false} AsWrittenMarkerExpandsDollar(a: string, m: Marker, sp1: string, sp2: string, b: string, x: string, y: string)
    requires AllSpace(sp1) && AllSpace(sp2)
    requires NoMatchBefore(a + MarkerComment(m, sp1, sp2) + b, Comment(m), |a|)
    requires '$' !in x && '$' !in y
    ensures ReplaceFirstMatch(a + MarkerComment(m, sp1, sp2) + b, Comment(m), x + "$'" + y, JsPatterns) == a + x + b + y + b
  {
    MarkerFirstMatch(a, m, sp1, sp2, b);
    ExpandedAt(a + MarkerComment(m, sp1, sp2) + b, Comment(m), |a|, |a| + |MarkerComment(m, sp1, sp2)|, a, b, x, y);
  }

  /** The first match replaced by a text with one `$'`, as JavaScript does it. */
  lemma {:induction false} ExpandedAt(s: string, p: Pattern, i: nat, e: nat, a: string, b: string, x: string, y: string)
    requires FirstMatch(s, p, 0) == Some((i, e)) && s[..i] == a && s[e..] == b
    requires '$' !in x && '$' !in y
    ensures ReplaceFirstMatch(s, p, x + "$'" + y, JsPatterns) == a + x + b + y + b
  {
    var rep := x + "$'" + y;
    ExpandAfterPattern(x, y, s[i..e], s[..i], s[e..]);
    assert ReplaceFirstMatch(s, p, rep, JsPatterns) == s[..i] + Expand(rep, s[i..e], s[..i], s[e..]) + s[e..];
  }

  /** A stylesheet link to `index.css`: `<link`, white space, `rel="stylesheet"`,
      other attributes, `href="index.css"`, other attributes, `>`. */
  function StylesheetTag(sp: string, x: string, y: string): string
  {
    "<link" + sp + RelStylesheet + x + HrefIndexCss + y + ">"
  }

  /** Such a link matches, and the match covers exactly the tag. */
  lemma {:induction false} StylesheetTagMatches(a: string, sp: string, x: string, y: string, b: string)
    requires sp != [] && AllSpace(sp) && '>' !in x && '>' !in y
    ensures MatchEnd(a + StylesheetTag(sp, x, y) + b, |a|, StylesheetLink) == Some(|a| + |StylesheetTag(sp, x, y)|)
  {
    var c := StylesheetTag(sp, x, y);
    AfterPrefix(a, c, b);
    Regroup7("<link", sp, RelStylesheet, x, HrefIndexCss, y, ">", b);
    LinkMatches(a + c + b, |a|, sp, x, y, b);
    StylesheetTagLength(sp, x, y);
  }

  lemma {:induction false} StylesheetTagLength(sp: string, x: string, y: string)
    ensures |StylesheetTag(sp, x, y)| == 5 + |sp| + |RelStylesheet| + |x| + |HrefIndexCss| + |y| + 1
  {
  }

  lemma {:induction false} LinkMatches(s: string, i: nat, sp: string, x: string, y: string, b: string)
    requires i <= |s| && s[i..] == "<link" + (sp + (RelStylesheet + (x + (HrefIndexCss + (y + (">" + b))))))
    requires sp != [] && AllSpace(sp) && '>' !in x && '>' !in y
    ensures MatchEnd(s, i, StylesheetLink) == Some(i + 5 + |sp| + |RelStylesheet| + |x| + |HrefIndexCss| + |y| + 1)
  {
    var r := i + 5 + |sp| + |RelStylesheet|;
    var g := r + |x| + |HrefIndexCss| + |y|;
    LinkSteps(s, i, r, g, sp, x, y, b);
    LinkMatchEnd(s, i, r, g);
  }

  /** The facts each step of the link's match needs. */
  lemma {:induction false} LinkSteps(s: string, i: nat, r: nat, g: nat, sp: string, x: string, y: string, b: string)
    requires i <= |s| && s[i..] == "<link" + (sp + (RelStylesheet + (x + (HrefIndexCss + (y + (">" + b))))))
    requires sp != [] && AllSpace(sp) && '>' !in x && '>' !in y
    requires r == i + 5 + |sp| + |RelStylesheet| && g == r + |x| + |HrefIndexCss| + |y|
    ensures i + 5 < |s| && At(s, i, "<link") && IsSpace(s[i + 5])
    ensures r >= |RelStylesheet| && SkipSpaces(s, i + 5) == r - |RelStylesheet| && At(s, r - |RelStylesheet|, RelStylesheet)
    ensures IndexOf(s, '>', r) == Some(g) && Find(s[..g], HrefIndexCss, r).Some?
  {
    LinkAt(s, i, sp, x, y, b);
    TagBody(s, r, g, x, y, b);
  }

  lemma {:induction false} LinkMatchEnd(s: string, i: nat, r: nat, g: nat)
    requires i + 5 < |s| && At(s, i, "<link") && IsSpace(s[i + 5])
    requires r >= |RelStylesheet| && SkipSpaces(s, i + 5) == r - |RelStylesheet| && At(s, r - |RelStylesheet|, RelStylesheet)
    requires IndexOf(s, '>', r) == Some(g) && Find(s[..g], HrefIndexCss, r).Some?
    ensures MatchEnd(s, i, StylesheetLink) == Some(g + 1)
  {
  }

  lemma {:induction false} Regroup7(p1: string, p2: string, p3: string, p4: string, p5: string, p6: string, p7: string, b: string)
    ensures p1 + p2 + p3 + p4 + p5 + p6 + p7 + b == p1 + (p2 + (p3 + (p4 + (p5 + (p6 + (p7 + b))))))
  {
  }

  /** The steps of the link's match up to `rel="stylesheet"`. */
  lemma {:induction false} LinkAt(s: string, i: nat, sp: string, x: string, y: string, b: string)
    requires i <= |s| && s[i..] == "<link" + (sp + (RelStylesheet + (x + (HrefIndexCss + (y + (">" + b))))))
    requires sp != [] && AllSpace(sp)
    ensures At(s, i, "<link") && i + 5 < |s| && IsSpace(s[i + 5])
    ensures SkipSpaces(s, i + 5) == i + 5 + |sp|
    ensures At(s, i + 5 + |sp|, RelStylesheet)
    ensures s[i + 5 + |sp| + |RelStylesheet|..] == x + (HrefIndexCss + (y + (">" + b)))
  {
    AtFront(s, i, "<link", sp + (RelStylesheet + (x + (HrefIndexCss + (y + (">" + b))))));
    assert s[i + 5] == sp[0];
    SkipRun(s, i + 5, sp, RelStylesheet + (x + (HrefIndexCss + (y + (">" + b)))));
    AtFront(s, i + 5 + |sp|, RelStylesheet, x + (HrefIndexCss + (y + (">" + b))));
  }

  /** After `rel="stylesheet"`: the first `>` closes the tag, and `href="index.css"` comes before it. */
  lemma {:induction false} TagBody(s: string, r: nat, g: nat, x: string, y: string, b: string)
    requires r <= |s| && s[r..] == x + (HrefIndexCss + (y + (">" + b)))
    requires '>' !in x && '>' !in y && g == r + |x| + |HrefIndexCss| + |y|
    ensures g < |s| && IndexOf(s, '>', r) == Some(g)
    ensures Find(s[..g], HrefIndexCss, r).Some?
  {
    var t := x + (HrefIndexCss + y);
    assert s[r..g] == t && s[g] == '>' by {
      assert s[r..][..|t|] == t;
      assert s[r..][|t|] == '>';
    }
    assert '>' !in HrefIndexCss;
    forall k | r <= k < g ensures s[k] != '>' {
      assert s[k] == t[k - r];
    }
    IndexOfFirst(s, '>', r, g);
    assert s[..g][r + |x|..r + |x| + |HrefIndexCss|] == t[|x|..|x| + |HrefIndexCss|];
    FindFrom(s[..g], HrefIndexCss, r, r + |x|);
  }

  /** When the pattern occurs at or after `from`, the search finds an occurrence. */
  lemma {:induction false} FindFrom(s: string, p: string, from: nat, j: nat)
    requires from <= j && At(s, j, p)
    ensures Find(s, p, from).Some?
    decreases j - from
  {
    if from < j && !At(s, from, p) {
      FindFrom(s, p, from + 1, j);
    }
  }

  /** The first stylesheet link to `index.css` is replaced by the style sheet. */
  lemma {:induction false} StylesheetInlined(a: string, sp: string, x: string, y: string, b: string, css: string)
    requires sp != [] && AllSpace(sp) && '>' !in x && '>' !in y
    requires NoMatchBefore(a + StylesheetTag(sp, x, y) + b, StylesheetLink, |a|)
    ensures ReplaceFirstMatch(a + StylesheetTag(sp, x, y) + b, StylesheetLink, "<style>\n" + css + "\n</style>", Verbatim)
         == a + "<style>\n" + css + "\n</style>" + b
  {
    var c := StylesheetTag(sp, x, y);
    var s := a + c + b;
    StylesheetTagMatches(a, sp, x, y, b);
    FirstMatchIsLeftmost(s, StylesheetLink, 0, |a|, |a| + |c|);
    assert s[..|a|] == a;
    assert s[|a| + |c|..] == b;
  }
}
