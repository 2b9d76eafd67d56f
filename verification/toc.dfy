/** Heading anchors and the table of contents (build.mjs:88-114). Every
    `<h1>`, `<h2>` and `<h3>` element of the rendered page gets an `id`: its
    slug, or `section-N` from one counter shared by all levels when the slug
    is empty. Each such heading also gets an entry in the contents, and the
    entries become a nested list whose depth follows the heading levels. */
module Toc {
  import opened Text
  import opened Html

  // ---------------------------------------------------------------------
  // The heading scan: `/<h([1-3])>([\s\S]*?)<\/h\1>/g`
  // ---------------------------------------------------------------------

  type HeadingLevel = l: nat | 1 <= l <= 3 witness 1

  /** A heading element the scan matched: its level and the markup between its tags. */
  datatype Heading = Heading(level: HeadingLevel, inner: string)

  /** What the global scan sees in turn: a character it passes over or a whole heading. */
  datatype Piece = Char(c: char) | Head(h: Heading)

  /** `s` starts with `<h1>`, `<h2>` or `<h3>`; the pattern is case-sensitive. */
  predicate OpensHeading(s: string) {
    |s| >= 4 && s[0] == '<' && s[1] == 'h' && '1' <= s[2] <= '3' && s[3] == '>'
  }

  /** The closing tag `</hd>` (the back-reference `\1`) starts at `j`. */
  predicate ClosesHeading(s: string, j: nat, d: char) {
    j + 5 <= |s| && s[j] == '<' && s[j + 1] == '/' && s[j + 2] == 'h' && s[j + 3] == d && s[j + 4] == '>'
  }

  /** The lazy `[\s\S]*?` stops at the first closing tag of the same level. */
  function FindClose(s: string, d: char, from: nat): (r: Option<nat>)
    ensures r.Some? ==> from <= r.value && ClosesHeading(s, r.value, d)
    decreases |s| - from
  {
    if from + 5 > |s| then None
    else if ClosesHeading(s, from, d) then Some(from)
    else FindClose(s, d, from + 1)
  }

  /** Where the closing tag of the heading that opens `s` starts, if the pattern matches here. */
  function HeadingClose(s: string): (r: Option<nat>)
    ensures r.Some? ==> OpensHeading(s) && 4 <= r.value && ClosesHeading(s, r.value, s[2])
  {
    if OpensHeading(s) then FindClose(s, s[2], 4) else None
  }

  /** `Number(level)` for the captured digit. */
  function LevelOf(d: char): HeadingLevel
    requires '1' <= d <= '3'
  {
    d as int - '0' as int
  }

  /** The global scan: a match is consumed whole and the scan goes on after
      it; elsewhere the scan moves one character on. */
  function Scan(s: string): seq<Piece>
    decreases |s|
  {
    if s == [] then []
    else
      var e := HeadingClose(s);
      if e.Some? then [Head(Heading(LevelOf(s[2]), s[4..e.value]))] + Scan(s[e.value + 5..])
      else [Char(s[0])] + Scan(s[1..])
  }

  /** The markup of a heading element, with `attrs` inside its opening tag. */
  function HeadingMarkup(level: HeadingLevel, attrs: string, inner: string): string {
    "<h" + [DigitChar(level)] + attrs + ">" + inner + "</h" + [DigitChar(level)] + ">"
  }

  function PieceMarkup(p: Piece): string {
    match p
    case Char(c) => [c]
    case Head(h) => HeadingMarkup(h.level, [], h.inner)
  }

  /** The text a sequence of pieces was scanned from. */
  function Flatten(ps: seq<Piece>): string {
    if ps == [] then [] else Flatten(ps[..|ps| - 1]) + PieceMarkup(ps[|ps| - 1])
  }

  /** The headings among the pieces, in document order. */
  function Heads(ps: seq<Piece>): seq<Heading> {
    if ps == [] then []
    else
      var last := ps[|ps| - 1];
      Heads(ps[..|ps| - 1]) + (if last.Head? then [last.h] else [])
  }

  lemma {:induction false} FlattenCons(p: Piece, ps: seq<Piece>)
    ensures Flatten([p] + ps) == PieceMarkup(p) + Flatten(ps)
    decreases |ps|
  {
    var qs := [p] + ps;
    if ps != [] {
      var ps' := ps[..|ps| - 1];
      assert qs[..|qs| - 1] == [p] + ps' && qs[|qs| - 1] == ps[|ps| - 1];
      FlattenCons(p, ps');
      Regroup(Flatten(qs), Flatten([p] + ps'), PieceMarkup(ps[|ps| - 1]), PieceMarkup(p), Flatten(ps'), Flatten(ps));
    } else {
      assert qs[..0] == [];
    }
  }

  /** Re-associating a three-part concatenation given through its parts. */
  lemma {:induction false} Regroup(l: string, x: string, m: string, p: string, f': string, f: string)
    requires l == x + m && x == p + f' && f == f' + m
    ensures l == p + f
  {
  }

  lemma {:induction false} SplitAt(s: string, k: nat)
    requires k <= |s|
    ensures s[..k] + s[k..] == s
    ensures k == 1 ==> [s[0]] + s[1..] == s
  {
  }

  /** A matched heading is exactly the markup of the piece the scan makes of it. */
  lemma {:induction false} HeadingMarkupAt(s: string, j: nat)
    requires OpensHeading(s) && 4 <= j && ClosesHeading(s, j, s[2])
    ensures s[..j + 5] == HeadingMarkup(LevelOf(s[2]), [], s[4..j])
  {
    var d := s[2];
    assert DigitChar(LevelOf(d)) == d;
    var m := HeadingMarkup(LevelOf(d), [], s[4..j]);
    assert m == "<h" + [d] + ">" + s[4..j] + "</h" + [d] + ">";
    assert |m| == j + 5;
    forall k | 0 <= k < j + 5 ensures m[k] == s[k] {
      if 4 <= k < j {
        assert m[k] == s[4..j][k - 4];
      }
    }
  }

  /** The scan loses nothing: its pieces spell out the text it scanned. */
  lemma {:induction false} ScanLossless(s: string)
    ensures Flatten(Scan(s)) == s
    decreases |s|
  {
    if s != [] {
      var e := HeadingClose(s);
      if e.Some? {
        var j := e.value;
        ScanLossless(s[j + 5..]);
        FlattenCons(Head(Heading(LevelOf(s[2]), s[4..j])), Scan(s[j + 5..]));
        HeadingMarkupAt(s, j);
        SplitAt(s, j + 5);
      } else {
        ScanLossless(s[1..]);
        FlattenCons(Char(s[0]), Scan(s[1..]));
        SplitAt(s, 1);
      }
    }
  }

  // ---------------------------------------------------------------------
  // Anchoring (build.mjs:89-98)
  // ---------------------------------------------------------------------

  datatype TocEntry = TocEntry(level: HeadingLevel, id: string, text: string)

  /** The state of the replacement: the text so far, the entries pushed and the counter `idx`. */
  datatype Anchored = Anchored(html: string, toc: seq<TocEntry>, count: nat)

  /** The entry text: the heading's markup with tags removed, trimmed. */
  function HeadText(inner: string): string {
    Trim(StripTags(inner))
  }

  /** A heading whose slug is empty takes a numbered id. The slug function
      is a parameter of the anchoring model, so that what is proved here
      holds whatever it computes; the page uses `Slugify`. */
  predicate Unnamed(h: Heading, slug: string -> string) {
    slug(HeadText(h.inner)) == []
  }

  function SectionId(n: nat): string {
    "section-" + NatToString(n)
  }

  /** The entry for heading `h` when the counter reads `n` after it. */
  function EntryFor(h: Heading, n: nat, slug: string -> string): TocEntry {
    var text := HeadText(h.inner);
    TocEntry(h.level, if Unnamed(h, slug) then SectionId(n) else slug(text), text)
  }

  /** `<hN id="id">inner</hN>`. */
  function AnchoredMarkup(h: Heading, id: string): string {
    HeadingMarkup(h.level, " id=\"" + id + "\"", h.inner)
  }

  /** One step of the replacement: a character is copied, a heading is
      rewritten with its id and its entry is pushed. */
  function Step(a: Anchored, p: Piece, slug: string -> string): Anchored {
    match p
    case Char(c) => a.(html := a.html + [c])
    case Head(h) =>
      var n := if Unnamed(h, slug) then a.count + 1 else a.count;
      var e := EntryFor(h, n, slug);
      Anchored(a.html + AnchoredMarkup(h, e.id), a.toc + [e], n)
  }

  /** The replacement over the scanned pieces, in order. */
  function AnchorAll(ps: seq<Piece>, slug: string -> string): Anchored {
    if ps == [] then Anchored([], [], 0) else Step(AnchorAll(ps[..|ps| - 1], slug), ps[|ps| - 1], slug)
  }

  /** The first half of `buildTocAndAnchorize`: the replace callback pushes
      an entry and bumps `idx` for each heading the scan matches. */
  method AnchorHeadings(html: string) returns (replaced: string, toc: seq<TocEntry>)
    ensures replaced == AnchorAll(Scan(html), Slugify).html
    ensures toc == AnchorAll(Scan(html), Slugify).toc
  {
    var pieces := Scan(html);
    replaced, toc := [], [];
    var idx := 0;
    var i := 0;
    while i < |pieces|
      invariant 0 <= i <= |pieces|
      invariant AnchorAll(pieces[..i], Slugify) == Anchored(replaced, toc, idx)
    {
      assert pieces[..i + 1][..i] == pieces[..i];
      match pieces[i] {
        case Char(c) =>
          replaced := replaced + [c];
        case Head(h) =>
          var text := Trim(StripTags(h.inner));
          var id := Slugify(text);
          if id == [] {
            idx := idx + 1;
            id := "section-" + NatToString(idx);
          }
          toc := toc + [TocEntry(h.level, id, text)];
          replaced := replaced + AnchoredMarkup(h, id);
      }
      i := i + 1;
    }
    assert pieces[..i] == pieces;
  }

  /** How many of the headings take a numbered id. */
  function CountUnnamed(hs: seq<Heading>, slug: string -> string): nat {
    if hs == [] then 0
    else CountUnnamed(hs[..|hs| - 1], slug) + (if Unnamed(hs[|hs| - 1], slug) then 1 else 0)
  }

  /** One entry per heading, and the counter ends at the number of unnamed headings. */
  lemma {:induction false} AnchorCount(ps: seq<Piece>, slug: string -> string)
    ensures |AnchorAll(ps, slug).toc| == |Heads(ps)|
    ensures AnchorAll(ps, slug).count == CountUnnamed(Heads(ps), slug)
    decreases |ps|
  {
    if ps != [] {
      var ps' := ps[..|ps| - 1];
      AnchorCount(ps', slug);
      var hs := Heads(ps);
      if ps[|ps| - 1].Head? {
        assert hs[..|hs| - 1] == Heads(ps');
      } else {
        assert hs == Heads(ps');
      }
    }
  }

  /** The k-th entry belongs to the k-th heading, in document order, with
      its level and text; the counter behind it is the number of unnamed
      headings up to and including the k-th, so the n-th unnamed heading of
      any level gets `section-n`. */
  lemma {:induction false} AnchorEntry(ps: seq<Piece>, k: nat, slug: string -> string)
    requires k < |Heads(ps)|
    ensures |AnchorAll(ps, slug).toc| == |Heads(ps)|
    ensures AnchorAll(ps, slug).toc[k] == EntryFor(Heads(ps)[k], CountUnnamed(Heads(ps)[..k + 1], slug), slug)
    decreases |ps|
  {
    var ps' := ps[..|ps| - 1];
    AnchorCount(ps', slug);
    if k < |Heads(ps')| {
      AnchorEntry(ps', k, slug);
      AnchorEntryEarlier(ps, k, slug);
    } else {
      AnchorEntryLast(ps, k, slug);
    }
    AnchorCount(ps, slug);
  }

  /** A later piece leaves an earlier entry as it is. */
  lemma {:induction false} AnchorEntryEarlier(ps: seq<Piece>, k: nat, slug: string -> string)
    requires ps != [] && k < |Heads(ps[..|ps| - 1])|
    requires |AnchorAll(ps[..|ps| - 1], slug).toc| == |Heads(ps[..|ps| - 1])|
    requires AnchorAll(ps[..|ps| - 1], slug).toc[k] ==
               EntryFor(Heads(ps[..|ps| - 1])[k], CountUnnamed(Heads(ps[..|ps| - 1])[..k + 1], slug), slug)
    ensures k < |Heads(ps)| && k < |AnchorAll(ps, slug).toc|
    ensures AnchorAll(ps, slug).toc[k] == EntryFor(Heads(ps)[k], CountUnnamed(Heads(ps)[..k + 1], slug), slug)
  {
    var ps' := ps[..|ps| - 1];
    var hs', hs := Heads(ps'), Heads(ps);
    assert hs[..k + 1] == hs'[..k + 1];
  }

  /** The entry of the last heading, numbered by all the unnamed headings. */
  lemma {:induction false} AnchorEntryLast(ps: seq<Piece>, k: nat, slug: string -> string)
    requires ps != [] && k == |Heads(ps[..|ps| - 1])| && k < |Heads(ps)|
    requires |AnchorAll(ps[..|ps| - 1], slug).toc| == k
    requires AnchorAll(ps[..|ps| - 1], slug).count == CountUnnamed(Heads(ps[..|ps| - 1]), slug)
    ensures k < |AnchorAll(ps, slug).toc|
    ensures AnchorAll(ps, slug).toc[k] == EntryFor(Heads(ps)[k], CountUnnamed(Heads(ps)[..k + 1], slug), slug)
  {
    var hs', hs := Heads(ps[..|ps| - 1]), Heads(ps);
    assert hs[..k + 1] == hs;
    assert hs[..|hs| - 1] == hs';
  }

  /** The counter only grows, and each unnamed heading moves it on. */
  lemma {:induction false} CountUnnamedGrows(hs: seq<Heading>, i: nat, j: nat, slug: string -> string)
    requires i < j <= |hs| && Unnamed(hs[j - 1], slug)
    ensures CountUnnamed(hs[..i], slug) < CountUnnamed(hs[..j], slug)
    decreases j
  {
    var t := hs[..j];
    assert t[..j - 1] == hs[..j - 1];
    if i < j - 1 {
      CountUnnamedAtMost(hs, i, j - 1, slug);
    }
  }

  lemma {:induction false} CountUnnamedAtMost(hs: seq<Heading>, i: nat, j: nat, slug: string -> string)
    requires i <= j <= |hs|
    ensures CountUnnamed(hs[..i], slug) <= CountUnnamed(hs[..j], slug)
    decreases j
  {
    if i < j {
      var t := hs[..j];
      assert t[..j - 1] == hs[..j - 1];
      CountUnnamedAtMost(hs, i, j - 1, slug);
    }
  }

  /** Decimal section numbers read back as the number, so distinct counters give distinct ids. */
  lemma {:induction false} SectionIdInjective(m: nat, n: nat)
    requires SectionId(m) == SectionId(n)
    ensures m == n
  {
    var a, b := SectionId(m), SectionId(n);
    assert a[8..] == NatToString(m) && b[8..] == NatToString(n);
    NatToStringValue(m);
    NatToStringValue(n);
  }

  /** Two unnamed headings never share a `section-N` id. */
  lemma {:induction false} SectionIdsDistinct(ps: seq<Piece>, i: nat, j: nat, slug: string -> string)
    requires i < j < |Heads(ps)|
    requires Unnamed(Heads(ps)[i], slug) && Unnamed(Heads(ps)[j], slug)
    ensures |AnchorAll(ps, slug).toc| == |Heads(ps)|
    ensures AnchorAll(ps, slug).toc[i].id != AnchorAll(ps, slug).toc[j].id
  {
    AnchorEntry(ps, i, slug);
    AnchorEntry(ps, j, slug);
    NumberedEntriesDiffer(Heads(ps), i, j, slug);
  }

  lemma {:induction false} NumberedEntriesDiffer(hs: seq<Heading>, i: nat, j: nat, slug: string -> string)
    requires i < j < |hs| && Unnamed(hs[i], slug) && Unnamed(hs[j], slug)
    ensures EntryFor(hs[i], CountUnnamed(hs[..i + 1], slug), slug).id
         != EntryFor(hs[j], CountUnnamed(hs[..j + 1], slug), slug).id
  {
    var m, n := CountUnnamed(hs[..i + 1], slug), CountUnnamed(hs[..j + 1], slug);
    CountUnnamedGrows(hs, i + 1, j + 1, slug);
    if SectionId(m) == SectionId(n) {
      SectionIdInjective(m, n);
    }
  }

  /** A numbered id is itself slug-shaped. */
  lemma {:induction false} SectionIdShaped(n: nat)
    ensures SectionId(n) != [] && SlugShaped(SectionId(n))
  {
    var d := NatToString(n);
    var s := SectionId(n);
    assert s == "section-" + d;
    forall i | 0 <= i < |s| ensures IsSlugChar(s[i]) {
      if i >= 8 {
        assert s[i] == d[i - 8];
      }
    }
    forall i | 0 <= i < |s| - 1 ensures !(s[i] == '-' && s[i + 1] == '-') {
      if i >= 7 {
        assert s[i + 1] == d[i + 1 - 8];
      }
    }
    assert s[|s| - 1] == d[|d| - 1];
  }

  /** Every id is a non-empty slug. */
  lemma {:induction false} IdsAreSlugs(ps: seq<Piece>, k: nat)
    requires k < |AnchorAll(ps, Slugify).toc|
    ensures AnchorAll(ps, Slugify).toc[k].id != [] && SlugShaped(AnchorAll(ps, Slugify).toc[k].id)
  {
    AnchorCount(ps, Slugify);
    var h := Heads(ps)[k];
    AnchorEntry(ps, k, Slugify);
    if Unnamed(h, Slugify) {
      SectionIdShaped(CountUnnamed(Heads(ps)[..k + 1], Slugify));
    } else {
      SlugifyShape(HeadText(h.inner));
    }
  }

  /** The pieces written out again, the k-th heading carrying the k-th entry's id. */
  function Emit(ps: seq<Piece>, toc: seq<TocEntry>): string
    requires |toc| == |Heads(ps)|
  {
    if ps == [] then []
    else
      var ps' := ps[..|ps| - 1];
      match ps[|ps| - 1]
      case Char(c) => Emit(ps', toc) + [c]
      case Head(h) => Emit(ps', toc[..|toc| - 1]) + AnchoredMarkup(h, toc[|toc| - 1].id)
  }

  /** The rewritten text is the scanned text with each heading carrying the id of its own entry. */
  lemma {:induction false} AnchoredHtml(ps: seq<Piece>, slug: string -> string)
    ensures |AnchorAll(ps, slug).toc| == |Heads(ps)|
    ensures AnchorAll(ps, slug).html == Emit(ps, AnchorAll(ps, slug).toc)
    decreases |ps|
  {
    AnchorCount(ps, slug);
    if ps != [] {
      var ps' := ps[..|ps| - 1];
      AnchoredHtml(ps', slug);
      var toc := AnchorAll(ps, slug).toc;
      if ps[|ps| - 1].Head? {
        assert toc[..|toc| - 1] == AnchorAll(ps', slug).toc;
      }
    }
  }

  /** Without headings, writing the pieces out gives back their text. */
  lemma {:induction false} EmitWithoutHeads(ps: seq<Piece>)
    requires Heads(ps) == []
    ensures Emit(ps, []) == Flatten(ps)
    decreases |ps|
  {
    if ps != [] {
      var ps' := ps[..|ps| - 1];
      assert Heads(ps') == [];
      EmitWithoutHeads(ps');
    }
  }

  /** A page without `<h1>`–`<h3>` headings is left as it is and has no entries. */
  lemma {:induction false} NoHeadingsUnchanged(html: string, slug: string -> string)
    requires Heads(Scan(html)) == []
    ensures AnchorAll(Scan(html), slug).html == html
    ensures AnchorAll(Scan(html), slug).toc == []
  {
    var ps := Scan(html);
    AnchoredHtml(ps, slug);
    EmitWithoutHeads(ps);
    ScanLossless(html);
  }

  // ---------------------------------------------------------------------
  // The nested list (build.mjs:100-111)
  // ---------------------------------------------------------------------

  /** What the list builder appends, one piece at a time: a sub-list
      opening, a closing `</ul>`, or an entry's list item. */
  datatype Token = Open | Close | Item(entry: TocEntry)

  function Repeat(t: Token, n: nat): seq<Token> {
    if n == 0 then [] else Repeat(t, n - 1) + [t]
  }

  /** What the two `while` loops append to move the level counter from `prev` to `level`. */
  function Moves(prev: nat, level: nat): seq<Token> {
    if level > prev then Repeat(Open, level - prev) else Repeat(Close, prev - level)
  }

  /** The level counter after the entries `es`, starting from `first`. */
  function LevelAfter(es: seq<TocEntry>, first: nat): nat {
    if es == [] then first else es[|es| - 1].level
  }

  /** The tokens the `for` loop appends for the entries `es`, starting from level `first`. */
  function Walk(es: seq<TocEntry>, first: nat): seq<Token> {
    if es == [] then []
    else
      var es' := es[..|es| - 1];
      Walk(es', first) + Moves(LevelAfter(es', first), es[|es| - 1].level) + [Item(es[|es| - 1])]
  }

  /** All tokens: the walk, then the final loop's closings down to the first level. */
  function Tokens(toc: seq<TocEntry>): seq<Token> {
    if toc == [] then []
    else
      var first := toc[0].level;
      var last := LevelAfter(toc, first);
      Walk(toc, first) + Repeat(Close, if last > first then last - first else 0)
  }

  const ListOpen: string := "<ul class=\"toc-list\">\n"
  const ListClose: string := "\n</ul>"
  const SubListOpen: string := "<ul class=\"toc-sub\">"
  const SubListClose: string := "</ul>"

  /** `<li class="toc-item level-N"><a href="#id">text</a></li>`. */
  function ItemMarkup(e: TocEntry): string {
    "<li class=\"toc-item level-" + NatToString(e.level) + "\"><a href=\"#" + e.id + "\">" + e.text + "</a></li>"
  }

  function TokenMarkup(t: Token): string {
    match t
    case Open => SubListOpen
    case Close => SubListClose
    case Item(e) => ItemMarkup(e)
  }

  function Render(ts: seq<Token>): string {
    if ts == [] then [] else Render(ts[..|ts| - 1]) + TokenMarkup(ts[|ts| - 1])
  }

  /** `tocHtml`: empty without entries, else the outer list around the tokens. */
  function TocHtml(toc: seq<TocEntry>): string {
    if toc == [] then [] else ListOpen + Render(Tokens(toc)) + ListClose
  }

  lemma {:induction false} RenderAppend(a: seq<Token>, b: seq<Token>)
    ensures Render(a + b) == Render(a) + Render(b)
    decreases |b|
  {
    if b == [] {
      assert a + b == a;
    } else {
      var b' := b[..|b| - 1];
      assert (a + b)[..|a + b| - 1] == a + b';
      RenderAppend(a, b');
      Regroup(Render(a + b), Render(a + b'), TokenMarkup(b[|b| - 1]), Render(a), Render(b'), Render(b));
    }
  }

  /** What the two inner loops leave behind is the markup of `Moves`. */
  lemma {:induction false} MovesMarkup(p0: nat, p1: nat, level: nat)
    requires level > p0 ==> p1 == level
    requires level <= p0 ==> p1 == p0
    requires p0 <= p1 && level <= p1
    ensures Render(Repeat(Open, p1 - p0)) + Render(Repeat(Close, p1 - level)) == Render(Moves(p0, level))
  {
  }

  /** One more entry: the walk grows by the moves to its level and its item. */
  lemma {:induction false} WalkStep(toc: seq<TocEntry>, i: nat, first: nat)
    requires i < |toc|
    ensures Render(Walk(toc[..i + 1], first))
         == Render(Walk(toc[..i], first)) + Render(Moves(LevelAfter(toc[..i], first), toc[i].level)) + ItemMarkup(toc[i])
  {
    var es := toc[..i + 1];
    assert es[..i] == toc[..i];
    var w, m := Walk(toc[..i], first), Moves(LevelAfter(toc[..i], first), toc[i].level);
    RenderAppend(w + m, [Item(toc[i])]);
    RenderAppend(w, m);
    assert [Item(toc[i])][..0] == [];
  }

  /** Appending `m` to a text that is `pre + r` extends `r`. */
  lemma {:induction false} Extend(x: string, pre: string, r: string, m: string, r': string)
    requires x == pre + r && r' == r + m
    ensures x + m == pre + r'
  {
  }

  /** `h` followed by `n` copies of `m`: what a loop appending `m` leaves after `n` rounds. */
  function Appended(h: string, m: string, n: nat): string {
    if n == 0 then h else Appended(h, m, n - 1) + m
  }

  /** `n` rounds appending a token's markup append the markup of `n` such tokens. */
  lemma {:induction false} AppendedRepeat(h: string, t: Token, n: nat)
    ensures Appended(h, TokenMarkup(t), n) == h + Render(Repeat(t, n))
  {
    AppendedPrefix(h, TokenMarkup(t), n);
    RenderRepeat(t, n);
  }

  /** The markup of `n` copies of a token is its markup appended `n` times. */
  lemma {:induction false} RenderRepeat(t: Token, n: nat)
    ensures Render(Repeat(t, n)) == Appended([], TokenMarkup(t), n)
    decreases n
  {
    if n > 0 {
      RenderRepeat(t, n - 1);
      var r := Repeat(t, n);
      assert r[..|r| - 1] == Repeat(t, n - 1);
    }
  }

  /** What the rounds append does not depend on the text they start from. */
  lemma {:induction false} AppendedPrefix(h: string, m: string, n: nat)
    ensures Appended(h, m, n) == h + Appended([], m, n)
    decreases n
  {
    if n > 0 {
      AppendedPrefix(h, m, n - 1);
      assert h + Appended([], m, n - 1) + m == h + (Appended([], m, n - 1) + m);
    } else {
      assert h + [] == h;
    }
  }

  /** The body of the `for` loop: move the level counter to the entry's
      level, opening or closing sub-lists on the way, then append its item. */
  method AppendEntry(html: string, prev: nat, item: TocEntry) returns (html': string, prev': nat)
    ensures prev' == item.level
    ensures html' == html + Render(Moves(prev, item.level)) + ItemMarkup(item)
  {
    var h, p := html, prev;
    while item.level > p
      invariant prev <= p && (p == prev || p <= item.level)
      invariant h == Appended(html, SubListOpen, p - prev)
    {
      h := h + SubListOpen;
      p := p + 1;
    }
    ghost var middle, p1 := h, p;
    while item.level < p
      invariant item.level <= p <= p1
      invariant h == Appended(middle, SubListClose, p1 - p)
    {
      h := h + SubListClose;
      p := p - 1;
    }
    MovesShape(html, middle, h, prev, p1, item.level);
    html', prev' := h + ItemMarkup(item), p;
  }

  /** What the two inner loops append is the markup of `Moves`. */
  lemma {:induction false} MovesShape(html: string, middle: string, h: string, p0: nat, p1: nat, level: nat)
    requires level > p0 ==> p1 == level
    requires level <= p0 ==> p1 == p0
    requires p0 <= p1 && level <= p1
    requires middle == Appended(html, SubListOpen, p1 - p0)
    requires h == Appended(middle, SubListClose, p1 - level)
    ensures h == html + Render(Moves(p0, level))
  {
    AppendedRepeat(html, Open, p1 - p0);
    AppendedRepeat(middle, Close, p1 - level);
    MovesMarkup(p0, p1, level);
    Extend(middle, html, Render(Repeat(Open, p1 - p0)), Render(Repeat(Close, p1 - level)), Render(Moves(p0, level)));
  }

  /** The text after one more entry, given through its parts. */
  lemma {:induction false} EntryShape(x: string, before: string, lo: string, rw: string, rm: string, im: string, rn: string)
    requires before == lo + rw && x == before + rm + im && rn == rw + rm + im
    ensures x == lo + rn
  {
  }

  /** The closings the last loop appends complete the tokens. */
  lemma {:induction false} ClosingShape(toc: seq<TocEntry>, walked: string, h: string, last: nat, prev: nat)
    requires toc != [] && last == LevelAfter(toc, toc[0].level)
    requires walked == ListOpen + Render(Walk(toc, toc[0].level))
    requires last > toc[0].level ==> prev == toc[0].level
    requires last <= toc[0].level ==> prev == last
    requires h == Appended(walked, SubListClose, last - prev)
    ensures h + ListClose == TocHtml(toc)
  {
    var first := toc[0].level;
    var closings := Repeat(Close, if last > first then last - first else 0);
    assert Repeat(Close, last - prev) == closings;
    AppendedRepeat(walked, Close, last - prev);
    RenderAppend(Walk(toc, first), closings);
    Extend(walked, ListOpen, Render(Walk(toc, first)), Render(closings), Render(Tokens(toc)));
  }

  /** `buildTocAndAnchorize`'s list builder: the `for` loop over the
      entries, then a last loop closing the lists opened below the first
      level. */
  method RenderToc(toc: seq<TocEntry>) returns (tocHtml: string)
    ensures tocHtml == TocHtml(toc)
    ensures tocHtml == [] <==> toc == []
  {
    if toc == [] {
      return [];
    }
    var h := ListOpen;
    var first: nat := toc[0].level;
    var prev: nat := first;
    var i := 0;
    while i < |toc|
      invariant 0 <= i <= |toc|
      invariant prev == LevelAfter(toc[..i], first)
      invariant h == ListOpen + Render(Walk(toc[..i], first))
    {
      ghost var before := h;
      WalkStep(toc, i, first);
      h, prev := AppendEntry(h, prev, toc[i]);
      EntryShape(h, before, ListOpen, Render(Walk(toc[..i], first)),
                 Render(Moves(LevelAfter(toc[..i], first), toc[i].level)), ItemMarkup(toc[i]),
                 Render(Walk(toc[..i + 1], first)));
      i := i + 1;
    }
    assert toc[..i] == toc;
    ghost var walked, last := h, prev;
    while prev > first
      invariant last > first ==> first <= prev <= last
      invariant last <= first ==> prev == last
      invariant h == Appended(walked, SubListClose, last - prev)
    {
      h := h + SubListClose;
      prev := prev - 1;
    }
    ClosingShape(toc, walked, h, last, prev);
    tocHtml := h + ListClose;
  }

  // ---------------------------------------------------------------------
  // How the sub-lists nest
  // ---------------------------------------------------------------------

  /** The sub-list openings among the tokens. */
  function Opens(ts: seq<Token>): nat {
    if ts == [] then 0 else Opens(ts[..|ts| - 1]) + (if ts[|ts| - 1].Open? then 1 else 0)
  }

  /** The `</ul>` closings among the tokens. */
  function Closes(ts: seq<Token>): nat {
    if ts == [] then 0 else Closes(ts[..|ts| - 1]) + (if ts[|ts| - 1].Close? then 1 else 0)
  }

  /** How many sub-lists are open after the tokens. */
  function Depth(ts: seq<Token>): int {
    Opens(ts) - Closes(ts)
  }

  /** No prefix closes more sub-lists than it opened: the list stays well nested. */
  predicate Nested(ts: seq<Token>) {
    forall n :: 0 <= n <= |ts| ==> Closes(ts[..n]) <= Opens(ts[..n])
  }

  /** After a prefix at depth `d`, no prefix of `ts` takes the depth below zero. */
  predicate NestedFrom(ts: seq<Token>, d: int) {
    forall n :: 0 <= n <= |ts| ==> d + Depth(ts[..n]) >= 0
  }

  lemma {:induction false} CountsAppend(a: seq<Token>, b: seq<Token>)
    ensures Opens(a + b) == Opens(a) + Opens(b)
    ensures Closes(a + b) == Closes(a) + Closes(b)
    decreases |b|
  {
    if b == [] {
      assert a + b == a;
    } else {
      var b' := b[..|b| - 1];
      assert (a + b)[..|a + b| - 1] == a + b';
      CountsAppend(a, b');
    }
  }

  lemma {:induction false} RepeatCounts(t: Token, n: nat)
    ensures Opens(Repeat(t, n)) == (if t.Open? then n else 0)
    ensures Closes(Repeat(t, n)) == (if t.Close? then n else 0)
  {
    if n > 0 {
      var r := Repeat(t, n);
      assert r[..|r| - 1] == Repeat(t, n - 1);
      RepeatCounts(t, n - 1);
    }
  }

  lemma {:induction false} RepeatLength(t: Token, n: nat)
    ensures |Repeat(t, n)| == n
  {
    if n > 0 {
      RepeatLength(t, n - 1);
    }
  }

  lemma {:induction false} RepeatPrefix(t: Token, n: nat, m: nat)
    requires m <= n
    ensures |Repeat(t, n)| == n && Repeat(t, n)[..m] == Repeat(t, m)
  {
    RepeatLength(t, n);
    if m < n {
      var r := Repeat(t, n);
      assert r[..n - 1] == Repeat(t, n - 1);
      RepeatPrefix(t, n - 1, m);
      assert r[..m] == r[..n - 1][..m];
    } else {
      assert Repeat(t, n)[..m] == Repeat(t, n);
    }
  }

  /** The moves change the depth by the difference of the levels. */
  lemma {:induction false} MovesDepth(prev: nat, level: nat)
    ensures Depth(Moves(prev, level)) == level - prev
  {
    RepeatCounts(Open, if level > prev then level - prev else 0);
    RepeatCounts(Close, if level > prev then 0 else prev - level);
  }

  /** The depth after the walk is the last level less the first. */
  lemma {:induction false} WalkDepth(es: seq<TocEntry>, first: nat)
    ensures Depth(Walk(es, first)) == LevelAfter(es, first) - first
    decreases |es|
  {
    if es != [] {
      var es' := es[..|es| - 1];
      var w, m := Walk(es', first), Moves(LevelAfter(es', first), es[|es| - 1].level);
      WalkDepth(es', first);
      MovesDepth(LevelAfter(es', first), es[|es| - 1].level);
      CountsAppend(w, m);
      CountsAppend(w + m, [Item(es[|es| - 1])]);
      assert [Item(es[|es| - 1])][..0] == [];
    }
  }

  /** Sub-list openings and closings balance exactly when the last heading
      is not shallower than the first; the final loop then brings the level
      counter back to the first heading's level. */
  lemma {:induction false} TocBalanced(toc: seq<TocEntry>)
    requires toc != []
    ensures Opens(Tokens(toc)) == Closes(Tokens(toc)) <==> toc[|toc| - 1].level >= toc[0].level
  {
    var first: nat, last: nat := toc[0].level, toc[|toc| - 1].level;
    var k := if last > first then last - first else 0;
    WalkDepth(toc, first);
    RepeatCounts(Close, k);
    CountsAppend(Walk(toc, first), Repeat(Close, k));
  }

  lemma {:induction false} NestedConcat(a: seq<Token>, b: seq<Token>)
    requires Nested(a) && NestedFrom(b, Depth(a))
    ensures Nested(a + b)
  {
    forall n | 0 <= n <= |a + b| ensures Closes((a + b)[..n]) <= Opens((a + b)[..n]) {
      if n <= |a| {
        assert (a + b)[..n] == a[..n];
      } else {
        assert (a + b)[..n] == a + b[..n - |a|];
        CountsAppend(a, b[..n - |a|]);
      }
    }
  }

  lemma {:induction false} RepeatNestedFrom(t: Token, n: nat, d: int)
    requires !t.Item?
    requires d >= 0 && (t.Close? ==> d >= n)
    ensures NestedFrom(Repeat(t, n), d)
  {
    RepeatLength(t, n);
    forall m | 0 <= m <= n ensures d + Depth(Repeat(t, n)[..m]) >= 0 {
      RepeatPrefix(t, n, m);
      RepeatCounts(t, m);
    }
  }

  lemma {:induction false} ItemNestedFrom(e: TocEntry, d: int)
    requires d >= 0
    ensures NestedFrom([Item(e)], d)
  {
    var t := [Item(e)];
    SingleCounts(Item(e));
    assert t[..0] == [] && t[..1] == t;
  }

  lemma {:induction false} SingleCounts(t: Token)
    ensures Opens([t]) == (if t.Open? then 1 else 0)
    ensures Closes([t]) == (if t.Close? then 1 else 0)
  {
    assert [t][..0] == [];
  }

  /** Walking entries none of which is shallower than `first` keeps the list well nested. */
  lemma {:induction false} WalkNested(es: seq<TocEntry>, first: nat)
    requires forall k :: 0 <= k < |es| ==> es[k].level >= first
    ensures Nested(Walk(es, first))
    decreases |es|
  {
    if es == [] {
      var e: seq<Token> := [];
      assert e[..0] == e;
    } else {
      var es' := es[..|es| - 1];
      var p, l := LevelAfter(es', first), es[|es| - 1].level;
      var w, m := Walk(es', first), Moves(p, l);
      assert forall k :: 0 <= k < |es'| ==> es'[k] == es[k];
      WalkNested(es', first);
      WalkDepth(es', first);
      RepeatNestedFrom(if l > p then Open else Close, if l > p then l - p else p - l, Depth(w));
      NestedConcat(w, m);
      MovesDepth(p, l);
      CountsAppend(w, m);
      ItemNestedFrom(es[|es| - 1], Depth(w + m));
      NestedConcat(w + m, [Item(es[|es| - 1])]);
    }
  }

  /** When no heading is shallower than the first, the list is well nested
      and every sub-list it opens is closed. */
  lemma {:induction false} TocNested(toc: seq<TocEntry>)
    requires toc != []
    requires forall k :: 0 <= k < |toc| ==> toc[k].level >= toc[0].level
    ensures Nested(Tokens(toc)) && Depth(Tokens(toc)) == 0
  {
    var first: nat, last: nat := toc[0].level, toc[|toc| - 1].level;
    var w := Walk(toc, first);
    WalkNested(toc, first);
    WalkDepth(toc, first);
    RepeatNestedFrom(Close, last - first, Depth(w));
    NestedConcat(w, Repeat(Close, last - first));
    RepeatCounts(Close, last - first);
    CountsAppend(w, Repeat(Close, last - first));
  }

  /** The tokens for an `<h2>` entry followed by an `<h1>` entry. */
  lemma {:induction false} ShallowerSecondTokens(a: TocEntry, b: TocEntry)
    requires a.level == 2 && b.level == 1
    ensures Tokens([a, b]) == [Item(a), Close, Item(b)]
  {
    var toc := [a, b];
    assert toc[..1] == [a] && [a][..0] == [];
    assert Walk([a], 2) == [Item(a)] by {
      assert Walk([], 2) == [];
    }
    assert Moves(2, 1) == [Close];
  }

  /** An item, a closing, an item: one `</ul>` and no opening. */
  lemma {:induction false} ItemCloseItemCounts(x: Token, y: Token, ts: seq<Token>)
    requires x.Item? && y.Item? && ts == [x, Close, y]
    ensures Opens(ts[..2]) == 0 && Closes(ts[..2]) == 1
    ensures Opens(ts) == 0 && Closes(ts) == 1
  {
    assert ts[..2] == [x] + [Close];
    SingleCounts(x);
    SingleCounts(Close);
    CountsAppend([x], [Close]);
    assert ts == ts[..2] + [y];
    SingleCounts(y);
    CountsAppend(ts[..2], [y]);
  }

  /** A second heading shallower than the first closes a list that was
      never opened: for `<h2>` then `<h1>` the builder writes the first item,
      a `</ul>`, then the second item, which ends the outer list early. */
  lemma {:induction false} ShallowerHeadingClosesEarly(a: TocEntry, b: TocEntry)
    requires a.level == 2 && b.level == 1
    ensures Tokens([a, b]) == [Item(a), Close, Item(b)]
    ensures !Nested(Tokens([a, b]))
    ensures Opens(Tokens([a, b])) != Closes(Tokens([a, b]))
  {
    ShallowerSecondTokens(a, b);
    ItemCloseItemCounts(Item(a), Item(b), Tokens([a, b]));
  }
}
