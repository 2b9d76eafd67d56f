/** What the build derives for a document besides its body: the first
    heading, the title, the summary, the date and the category
    (build.mjs:17-36, 226-235), with the POSIX file-name helpers of
    Node's `path` module that those steps use. */
module Derive {
  import opened Text

  // ---------------------------------------------------------------------
  // The first heading (build.mjs:17-25)
  // ---------------------------------------------------------------------

  /** `ensureLeadingHash`: drops a leading run of `#` with the white space
      after it (the regex `^#+\s*`), then trims; an empty title stays empty. The
      white space after the hashes is dropped by the trim as well, so the
      model only drops the hashes before trimming. */
  function EnsureLeadingHash(title: string): string
  {
    if title == [] then []
    else Trim(title[RunEnd(title, '#', 0)..])
  }

  /** `p` is where a line starts: the beginning of the text, or just after a
      line terminator (where `^` matches in multiline mode). */
  predicate IsLineStart(s: string, p: nat)
    requires p <= |s|
  {
    p == 0 || IsLineTerminator(s[p - 1])
  }

  /** The index of the first line terminator at or after `i`, or the end of
      the text (where `$` matches in multiline mode). */
  function LineEnd(s: string, i: nat): (e: nat)
    requires i <= |s|
    ensures i <= e <= |s|
    decreases |s| - i
  {
    if i == |s| || IsLineTerminator(s[i]) then i else LineEnd(s, i + 1)
  }

  /** What `/^\s*#\s+(.+)$/m` captures when it is tried at line start `p`.
      `\s*` cannot give back a `#`, so the only candidate is the `#` after
      the maximal white-space run; `\s+` then needs at least one white-space
      character, and the group runs to the end of that line. When only white
      space follows the `#` the regex may fail here, but then it fails at
      every later line start too, and either way the heading is empty: the
      model then reports an empty group. */
  function HeadingAt(s: string, p: nat): Option<string>
    requires p <= |s|
  {
    var q := SkipSpaces(s, p);
    if q < |s| && s[q] == '#' then
      var r := SkipSpaces(s, q + 1);
      if r == q + 1 then None
      else if r < |s| then Some(s[r..LineEnd(s, r)])
      else Some([])
    else None
  }

  /** The group of the first match of the heading regex at or after `p`. */
  function FirstHeadingFrom(s: string, p: nat): Option<string>
    requires p <= |s|
    decreases |s| - p
  {
    if IsLineStart(s, p) && HeadingAt(s, p).Some? then HeadingAt(s, p)
    else if p == |s| then None
    else FirstHeadingFrom(s, p + 1)
  }

  /** `extractFirstHeading`. */
  function ExtractFirstHeading(markdown: string): string
  {
    var m := FirstHeadingFrom(markdown, 0);
    if m.Some? then EnsureLeadingHash(m.value) else []
  }

  /** A heading group stays on one line. */
  lemma {:induction false} FirstHeadingOneLine(s: string, p: nat)
    requires p <= |s|
    requires FirstHeadingFrom(s, p).Some?
    ensures NoLineTerminator(FirstHeadingFrom(s, p).value)
    decreases |s| - p
  {
    if IsLineStart(s, p) && HeadingAt(s, p).Some? {
      var q := SkipSpaces(s, p);
      var r := SkipSpaces(s, q + 1);
      if r < |s| {
        LineEndFacts(s, r);
      }
    } else if p < |s| {
      FirstHeadingOneLine(s, p + 1);
    }
  }

  /** `LineEnd` stops at the first line terminator. */
  lemma {:induction false} LineEndFacts(s: string, i: nat)
    requires i <= |s|
    ensures forall j :: i <= j < LineEnd(s, i) ==> !IsLineTerminator(s[j])
    decreases |s| - i
  {
    if i < |s| && !IsLineTerminator(s[i]) {
      LineEndFacts(s, i + 1);
    }
  }

  /** A string without line terminators has none after trimming either. */
  lemma {:induction false} TrimKeepsOneLine(s: string)
    requires NoLineTerminator(s)
    ensures NoLineTerminator(Trim(s))
  {
    TrimFacts(s);
  }

  /** The extracted heading is a trimmed, single-line string. */
  lemma {:induction false} HeadingIsTrimmedLine(markdown: string)
    ensures var h := ExtractFirstHeading(markdown);
            Trim(h) == h && NoLineTerminator(h)
  {
    var m := FirstHeadingFrom(markdown, 0);
    if m.Some? && m.value != [] {
      var g := m.value;
      FirstHeadingOneLine(markdown, 0);
      var rest := g[RunEnd(g, '#', 0)..];
      assert NoLineTerminator(rest);
      TrimKeepsOneLine(rest);
      TrimIdempotent(rest);
    }
  }

  /** A heading written `#` followed by hashes and spaces loses them:
      `### Title ` becomes `Title`. */
  lemma {:induction false} EnsureLeadingHashDropsMarker(hashes: string, t: string)
    requires |hashes| > 0 && forall j :: 0 <= j < |hashes| ==> hashes[j] == '#'
    requires t == [] || t[0] != '#'
    ensures EnsureLeadingHash(hashes + t) == Trim(t)
  {
    var s := hashes + t;
    HashRunPrefix(s, hashes, 0);
  }

  /** Over a prefix of hashes `RunEnd` reaches its end. */
  lemma {:induction false} HashRunPrefix(s: string, hashes: string, i: nat)
    requires i <= |hashes| <= |s| && s[..|hashes|] == hashes
    requires forall j :: 0 <= j < |hashes| ==> hashes[j] == '#'
    requires |hashes| == |s| || s[|hashes|] != '#'
    ensures RunEnd(s, '#', i) == |hashes|
    decreases |hashes| - i
  {
    if i < |hashes| {
      assert s[i] == hashes[i];
      HashRunPrefix(s, hashes, i + 1);
    }
  }

  /** A document that opens with `# t` has `t`, trimmed, as its heading. */
  lemma {:induction false} HeadingOfFirstLine(t: string, rest: string)
    requires |t| > 0 && !IsSpace(t[0]) && t[0] != '#' && NoLineTerminator(t)
    ensures ExtractFirstHeading("# " + t + "\n" + rest) == Trim(t)
  {
    var s := "# " + t + "\n" + rest;
    assert s[0] == '#' && s[1] == ' ' && s[2] == t[0];
    assert SkipSpaces(s, 0) == 0;
    assert SkipSpaces(s, 2) == 2;
    assert SkipSpaces(s, 1) == 2;
    LineEndAt(s, 2, 2 + |t|);
    assert s[2..2 + |t|] == t;
    assert HeadingAt(s, 0) == Some(t);
    assert EnsureLeadingHash(t) == Trim(t[0..]);
    assert t[0..] == t;
  }

  /** `LineEnd` from `i` reaches `e` when no line terminator lies in between and one is at `e`. */
  lemma {:induction false} LineEndAt(s: string, i: nat, e: nat)
    requires i <= e < |s| && IsLineTerminator(s[e])
    requires forall j :: i <= j < e ==> !IsLineTerminator(s[j])
    ensures LineEnd(s, i) == e
    decreases e - i
  {
    if i < e {
      LineEndAt(s, i + 1, e);
    }
  }

  /** Without a `#` there is no heading. */
  lemma {:induction false} NoHashNoHeading(s: string, p: nat)
    requires p <= |s|
    requires '#' !in s
    ensures FirstHeadingFrom(s, p).None?
    decreases |s| - p
  {
    if p < |s| {
      NoHashNoHeading(s, p + 1);
    }
  }

  // ---------------------------------------------------------------------
  // Node's `path` helpers (POSIX), for the relative paths the build lists
  // ---------------------------------------------------------------------

  /** The index of the last occurrence of `c` in `s[..n]`. */
  function LastIndexOf(s: string, c: char, n: nat): (r: Option<nat>)
    requires n <= |s|
    ensures r.Some? ==> r.value < n && s[r.value] == c
  {
    if n == 0 then None
    else if s[n - 1] == c then Some(n - 1)
    else LastIndexOf(s, c, n - 1)
  }

  /** `LastIndexOf` finds the last occurrence: `c` does not occur after it, nor at all when it fails. */
  lemma {:induction false} LastIndexOfSkips(s: string, c: char, n: nat, j: nat)
    requires j < n <= |s|
    requires LastIndexOf(s, c, n).None? || LastIndexOf(s, c, n).value < j
    ensures s[j] != c
  {
    if j < n - 1 {
      LastIndexOfSkips(s, c, n - 1, j);
    }
  }

  /** `path.basename(p)`: the text after the last `/`. */
  function Basename(p: string): string
  {
    var k := LastIndexOf(p, '/', |p|);
    if k.Some? then p[k.value + 1..] else p
  }

  /** `path.extname(base)`: from the last `.` on, unless that dot opens the
      name, or the name is `..`. */
  function ExtName(base: string): string
  {
    var d := LastIndexOf(base, '.', |base|);
    if d.Some? && d.value > 0 && base != ".." then base[d.value..] else []
  }

  /** The suffix rule `path.basename(p, suffix)` applies to the base name:
      the suffix is cut when the name ends with it and is longer than it (a
      base name equal to the suffix, as in `dir/.md`, is kept whole). Node
      also returns the empty string when the suffix equals the whole
      argument `p`; `Page.MdBase` adds that case where it can arise. */
  function StripSuffix(base: string, suffix: string): (r: string)
  {
    if 0 < |suffix| < |base| && base[|base| - |suffix|..] == suffix
    then base[..|base| - |suffix|] else base
  }

  /** `basename(rel, extname(rel))`: the file name without its extension. */
  function Stem(rel: string): string
  {
    var b := Basename(rel);
    StripSuffix(b, ExtName(b))
  }

  /** `path.dirname(p)` for a path that does not end with `/`: everything
      before the last `/`, `/` for a file in the root, `.` without a `/`. */
  function Dirname(p: string): string
  {
    var k := LastIndexOf(p, '/', |p|);
    if k.None? then "."
    else if k.value == 0 then "/"
    else p[..k.value]
  }

  /** `dirname(rel).split(/\\|\//).filter(Boolean).pop()`: the last
      non-empty segment of the directory, split on either slash. */
  function ParentDir(rel: string): Option<string>
  {
    LastSegment(Dirname(rel))
  }

  predicate IsSlash(c: char) { c == '/' || c == '\\' }

  /** The last non-empty run of characters that are not slashes. */
  function LastSegment(d: string): (r: Option<string>)
    ensures r.Some? ==> r.value != []
    decreases |d|
  {
    var e := TrailingSlashes(d, |d|);
    if e == 0 then None
    else
      var b := SegmentStart(d, e);
      Some(d[b..e])
  }

  /** The end of `d[..n]` once its trailing slashes are dropped. */
  function TrailingSlashes(d: string, n: nat): (e: nat)
    requires n <= |d|
    ensures e <= n && (e == 0 || !IsSlash(d[e - 1]))
  {
    if n > 0 && IsSlash(d[n - 1]) then TrailingSlashes(d, n - 1) else n
  }

  /** The start of the segment that ends at `e`. */
  function SegmentStart(d: string, e: nat): (b: nat)
    requires e <= |d|
    ensures b <= e && (b == 0 || IsSlash(d[b - 1]))
  {
    if e > 0 && !IsSlash(d[e - 1]) then SegmentStart(d, e - 1) else e
  }

  // ---------------------------------------------------------------------
  // Title, date and category (build.mjs:226-235)
  // ---------------------------------------------------------------------

  /** `data[key] || ''`: a missing key reads as the empty string. */
  function Field(data: map<string, string>, key: string): string
  {
    if key in data then data[key] else []
  }

  /** `data.title || extractFirstHeading(content) || basename(rel, extname(rel))`. */
  function Title(data: map<string, string>, content: string, rel: string): string
  {
    var given := Field(data, "title");
    if given != [] then given
    else
      var h := ExtractFirstHeading(content);
      if h != [] then h else Stem(rel)
  }

  /** A file with a name always has a title: the stem of a non-empty base
      name is a non-empty prefix of it, so the chain never ends empty. */
  lemma {:induction false} TitleNonEmpty(data: map<string, string>, content: string, rel: string)
    requires Basename(rel) != []
    ensures Title(data, content, rel) != []
  {
    StemIsPrefix(rel);
  }

  /** `basename(rel, extname(rel))` is a prefix of the base name, and empty only when the base name is. */
  lemma {:induction false} StemIsPrefix(rel: string)
    ensures |Stem(rel)| <= |Basename(rel)| && Stem(rel) == Basename(rel)[..|Stem(rel)|]
    ensures Stem(rel) == [] <==> Basename(rel) == []
  {
    var b := Basename(rel);
    var x := ExtName(b);
    if 0 < |x| < |b| && b[|b| - |x|..] == x {
      assert Stem(rel) == b[..|b| - |x|];
    } else {
      assert Stem(rel) == b;
    }
  }

  /** The stem of a markdown file keeps everything but `.md`:
      `notes/hello.md` has title `hello`. */
  lemma {:induction false} StemOfMarkdown(dir: string, name: string)
    requires dir == [] || dir[|dir| - 1] == '/'
    requires '/' !in name && '.' !in name && |name| > 0
    ensures Stem(dir + name + ".md") == name
  {
    var b := name + ".md";
    assert dir + name + ".md" == dir + b;
    BasenameAfterSlash(dir, b);
    ExtNameOfMd(name);
    StripMd(name);
  }

  /** The extension of `name.md`, when `name` has no dot, is `.md`. */
  lemma {:induction false} ExtNameOfMd(name: string)
    requires '.' !in name && |name| > 0
    ensures ExtName(name + ".md") == ".md"
  {
    var b := name + ".md";
    assert b[|name|] == '.';
    forall j | |name| < j < |b| ensures b[j] != '.' {
      assert b[j] == ".md"[j - |name|];
    }
    LastIndexOfFrom(b, '.', |name|, |b|);
    assert b[|name|..] == ".md";
  }

  lemma {:induction false} StripMd(name: string)
    requires |name| > 0
    ensures StripSuffix(name + ".md", ".md") == name
  {
    var b := name + ".md";
    assert b[|b| - 3..] == ".md" && b[..|b| - 3] == name;
  }

  /** The base name of `dir + b`, where `dir` is empty or ends with `/` and `b` has no `/`, is `b`. */
  lemma {:induction false} BasenameAfterSlash(dir: string, b: string)
    requires dir == [] || dir[|dir| - 1] == '/'
    requires '/' !in b
    ensures Basename(dir + b) == b
  {
    var p := dir + b;
    if dir == [] {
      assert p == b;
      LastSlashInSuffix(dir, b, '/');
    } else {
      forall j | |dir| - 1 < j < |p| ensures p[j] != '/' {
        assert p[j] == b[j - |dir|];
      }
      LastIndexOfFrom(p, '/', |dir| - 1, |p|);
      assert p[|dir|..] == b;
    }
  }

  /** The last occurrence of `c` in `a + b`, when `c` does not occur in `b`, is the last in `a`. */
  lemma {:induction false} LastSlashInSuffix(a: string, b: string, c: char)
    requires c !in b
    ensures var k := LastIndexOf(a + b, c, |a + b|);
            (k.None? ==> c !in a) && (k.Some? ==> k.value < |a| && (a + b)[k.value + 1..] == a[k.value + 1..] + b)
  {
    var s := a + b;
    var k := LastIndexOf(s, c, |s|);
    if k.None? {
      forall j | 0 <= j < |a| ensures a[j] != c {
        LastIndexOfSkips(s, c, |s|, j);
        assert s[j] == a[j];
      }
    } else {
      forall j | |a| <= j < |s| ensures s[j] != c {
        assert s[j] == b[j - |a|];
      }
    }
  }

  /** With a `c` at `n` and none after it up to `m`, the last `c` before `m` is at `n`. */
  lemma {:induction false} LastIndexOfFrom(s: string, c: char, n: nat, m: nat)
    requires n < m <= |s| && s[n] == c
    requires forall j :: n < j < m ==> s[j] != c
    ensures LastIndexOf(s, c, m) == Some(n)
    decreases m
  {
    if m - 1 != n {
      LastIndexOfFrom(s, c, n, m - 1);
    }
  }

  /** `(data.date || '').trim()`, with dots turned into dashes when it is
      not empty, and otherwise the day the file was last modified
      (`modifiedDay`, the first ten characters of the ISO time stamp). */
  function NormalizeDate(data: map<string, string>, modifiedDay: string): string
  {
    var d := Trim(Field(data, "date"));
    if d != [] then ReplaceChar(d, '.', '-') else modifiedDay
  }

  /** A given date keeps its length and loses its dots, `2024.01.05`
      becoming `2024-01-05`; only an empty or blank date falls back to the
      modification day. */
  lemma {:induction false} DateNormalised(data: map<string, string>, modifiedDay: string)
    ensures var d := Trim(Field(data, "date"));
            var r := NormalizeDate(data, modifiedDay);
            && (d == [] ==> r == modifiedDay)
            && (d != [] ==>
                  |r| == |d| && '.' !in r && Trim(r) == r &&
                  forall i :: 0 <= i < |d| && d[i] != '.' ==> r[i] == d[i])
  {
    var d := Trim(Field(data, "date"));
    if d != [] {
      GivenDate(Field(data, "date"));
    }
  }

  lemma {:induction false} GivenDate(raw: string)
    requires Trim(raw) != []
    ensures var d := Trim(raw);
            var r := ReplaceChar(d, '.', '-');
            |r| == |d| && '.' !in r && Trim(r) == r &&
            forall i :: 0 <= i < |d| && d[i] != '.' ==> r[i] == d[i]
  {
    var r := ReplaceChar(Trim(raw), '.', '-');
    TrimFacts(raw);
    assert !IsSpace(r[0]) && !IsSpace(r[|r| - 1]);
    TrimOfTrimmed(r);
  }

  /** Normalising a date that is already normalised changes nothing. */
  lemma {:induction false} DateIdempotent(data: map<string, string>, modifiedDay: string)
    requires Trim(Field(data, "date")) != []
    ensures var r := NormalizeDate(data, modifiedDay);
            NormalizeDate(data["date" := r], modifiedDay) == r
  {
    var r := NormalizeDate(data, modifiedDay);
    DateNormalised(data, modifiedDay);
    assert ReplaceChar(r, '.', '-') == r;
  }

  /** `data.category || parentDir || 'uncategorized'`. */
  function Category(data: map<string, string>, rel: string): string
  {
    var given := Field(data, "category");
    if given != [] then given
    else
      var p := ParentDir(rel);
      if p.Some? then p.value else "uncategorized"
  }

  /** The category is never empty, so every page gets a ` · category` suffix. */
  lemma {:induction false} CategoryNonEmpty(data: map<string, string>, rel: string)
    ensures Category(data, rel) != []
  {
  }

  /** A top-level file without a category in its metadata is filed under
      `.`, because `dirname` of a bare file name is `.`, which survives the
      split as a segment: the `uncategorized` fallback is never reached for
      such a path. */
  lemma {:induction false} TopLevelCategory(data: map<string, string>, rel: string)
    requires Field(data, "category") == []
    requires '/' !in rel
    ensures Category(data, rel) == "."
  {
    var k := LastIndexOf(rel, '/', |rel|);
    assert k.None?;
    assert Dirname(rel) == ".";
    assert TrailingSlashes(".", 1) == 1;
    assert SegmentStart(".", 1) == 0 by {
      assert SegmentStart(".", 0) == 0;
    }
  }

  /** A file in a folder without slashes in its name is filed under that folder. */
  lemma {:induction false} FolderCategory(data: map<string, string>, folder: string, name: string)
    requires Field(data, "category") == []
    requires |folder| > 0 && forall j :: 0 <= j < |folder| ==> !IsSlash(folder[j])
    requires '/' !in name
    ensures Category(data, folder + "/" + name) == folder
  {
    var rel := folder + "/" + name;
    LastSlashInSuffix(folder + "/", name, '/');
    var k := LastIndexOf(rel, '/', |rel|);
    assert rel[|folder|] == '/';
    LastIndexOfFrom(rel, '/', |folder|, |rel|);
    assert Dirname(rel) == folder;
    SegmentStartOfRun(folder, |folder|);
  }

  /** Over a run with no slashes `SegmentStart` goes back to the beginning. */
  lemma {:induction false} SegmentStartOfRun(d: string, e: nat)
    requires e <= |d|
    requires forall j :: 0 <= j < e ==> !IsSlash(d[j])
    ensures SegmentStart(d, e) == 0
  {
    if e > 0 {
      SegmentStartOfRun(d, e - 1);
    }
  }

  // ---------------------------------------------------------------------
  // The summary (build.mjs:27-36)
  // ---------------------------------------------------------------------

  /** The default `maxLen`, the only one the build uses. */
  const SummaryMaxLen: nat := 140

  /** `s.replace(/```[\s\S]*?```/g, '')` from index `from`: each fence
      opener removes the text up to the next fence marker; an opener
      without a closer ends the matching and stays. */
  function StripFences(s: string, from: nat): string
    requires from <= |s|
    decreases |s| - from
  {
    var i := Find(s, "```", from);
    if i.None? then s[from..]
    else
      var j := Find(s, "```", i.value + 3);
      if j.None? then s[from..]
      else s[from..i.value] + StripFences(s, j.value + 3)
  }

  /** The end of a `^---[\s\S]*?---\s*` match at `p`, if one starts there. */
  function DashBlockAt(s: string, p: nat): Option<nat>
    requires p <= |s|
  {
    if IsLineStart(s, p) && At(s, p, "---") then
      var j := Find(s, "---", p + 3);
      if j.Some? then Some(SkipSpaces(s, j.value + 3)) else None
    else None
  }

  /** The first `^---…---\s*` block at or after `p`, as `(start, end)`. */
  function FirstDashBlock(s: string, p: nat): (r: Option<(nat, nat)>)
    requires p <= |s|
    ensures r.Some? ==> r.value.0 <= r.value.1 <= |s|
    decreases |s| - p
  {
    var m := DashBlockAt(s, p);
    if m.Some? then Some((p, m.value))
    else if p == |s| then None
    else FirstDashBlock(s, p + 1)
  }

  /** `s.replace(re, '')` with the multiline regex `^---[\s\S]*?---\s*`: only the first block goes. */
  function StripDashBlock(s: string): string
  {
    var m := FirstDashBlock(s, 0);
    if m.Some? then s[..m.value.0] + s[m.value.1..] else s
  }

  /** The end of a `\n\s*\n` separator that starts at `i`, if one does:
      `\s*` backs off to the last newline of the white-space run after the
      first one. */
  function SeparatorAt(s: string, i: nat): (r: Option<nat>)
    requires i < |s|
    ensures r.Some? ==> i + 2 <= r.value <= |s|
  {
    if s[i] != '\n' then None
    else
      var r := SkipSpaces(s, i + 1);
      var k := LastIndexOf(s[..r], '\n', r);
      if k.Some? && k.value > i then Some(k.value + 1) else None
  }

  /** `s.split(/\n\s*\n/)` for the piece that starts at `start`, scanning from `i`. */
  function Paragraphs(s: string, start: nat, i: nat): (r: seq<string>)
    requires start <= i <= |s|
    ensures |r| >= 1
    decreases |s| - i
  {
    if i == |s| then [s[start..]]
    else
      var e := SeparatorAt(s, i);
      if e.Some? then [s[start..i]] + Paragraphs(s, e.value, e.value)
      else Paragraphs(s, start, i + 1)
  }

  /** `.replace(/\n/g, ' ').trim()` on one paragraph. */
  function CleanParagraph(p: string): string
  {
    Trim(ReplaceChar(p, '\n', ' '))
  }

  /** `.map(clean).filter(Boolean)[0] || ''`: the first paragraph that is
      not blank, cleaned. */
  function FirstParagraph(ps: seq<string>): string
  {
    if ps == [] then []
    else
      var c := CleanParagraph(ps[0]);
      if c != [] then c else FirstParagraph(ps[1..])
  }

  /** The `text.length > maxLen ? text.slice(0, maxLen - 1) + '…' : text` step. */
  function Truncate(text: string): string
  {
    if |text| > SummaryMaxLen then text[..SummaryMaxLen - 1] + "…" else text
  }

  /** `extractSummary(markdown)` with the default length. */
  function ExtractSummary(markdown: string): string
  {
    var text := StripDashBlock(StripFences(markdown, 0));
    Truncate(FirstParagraph(Paragraphs(text, 0, 0)))
  }

  /** A cleaned paragraph has no newline. */
  lemma {:induction false} FirstParagraphOneLine(ps: seq<string>)
    ensures '\n' !in FirstParagraph(ps)
  {
    if ps != [] {
      var c := CleanParagraph(ps[0]);
      if c != [] {
        if '\n' in c {
          TrimKeepsChars(ReplaceChar(ps[0], '\n', ' '), '\n');
        }
      } else {
        FirstParagraphOneLine(ps[1..]);
      }
    }
  }

  /** Truncation: short text is kept whole; longer text keeps its first
      139 characters and ends with an ellipsis, 140 characters in all. */
  lemma {:induction false} TruncateFacts(text: string)
    ensures var r := Truncate(text);
            && |r| <= SummaryMaxLen
            && (|text| <= SummaryMaxLen ==> r == text)
            && (|text| > SummaryMaxLen ==>
                  |r| == SummaryMaxLen && r[SummaryMaxLen - 1] == '…' &&
                  r[..SummaryMaxLen - 1] == text[..SummaryMaxLen - 1])
  {
  }

  /** The summary is at most 140 characters long and on one line, and a
      cut summary is the start of the first paragraph followed by `…`. */
  lemma {:induction false} SummaryShape(markdown: string)
    ensures var r := ExtractSummary(markdown);
            var text := FirstParagraph(Paragraphs(StripDashBlock(StripFences(markdown, 0)), 0, 0));
            && |r| <= SummaryMaxLen && '\n' !in r
            && (|text| <= SummaryMaxLen ==> r == text)
            && (|text| > SummaryMaxLen ==> r == text[..SummaryMaxLen - 1] + "…")
  {
    var text := FirstParagraph(Paragraphs(StripDashBlock(StripFences(markdown, 0)), 0, 0));
    FirstParagraphOneLine(Paragraphs(StripDashBlock(StripFences(markdown, 0)), 0, 0));
    if |text| > SummaryMaxLen {
      var r := text[..SummaryMaxLen - 1] + "…";
      forall i | 0 <= i < |r| ensures r[i] != '\n' {
        if i < SummaryMaxLen - 1 {
          assert r[i] == text[i];
        }
      }
    }
  }

  /** `Find` fails when the pattern has a character the text lacks. */
  lemma {:induction false} FindMissingChar(s: string, p: string, from: nat, c: char)
    requires c in p && c !in s
    ensures Find(s, p, from).None?
    decreases |s| - from
  {
    if from + |p| <= |s| {
      var k :| 0 <= k < |p| && p[k] == c;
      assert s[from..from + |p|][k] != c;
      FindMissingChar(s, p, from + 1, c);
    }
  }

  /** Without a backquote there is no fence to strip. */
  lemma {:induction false} NoFenceNoChange(s: string)
    requires '`' !in s
    ensures StripFences(s, 0) == s
  {
    FindMissingChar(s, "```", 0, '`');
  }

  /** Without a dash there is no dashed block to strip. */
  lemma {:induction false} NoDashNoBlock(s: string, p: nat)
    requires p <= |s| && '-' !in s
    ensures FirstDashBlock(s, p).None?
    decreases |s| - p
  {
    if p + 3 <= |s| {
      assert s[p..p + 3][0] != '-';
    }
    if p < |s| {
      NoDashNoBlock(s, p + 1);
    }
  }

  /** The first piece of the split runs to the first separator. */
  lemma {:induction false} ParagraphsUpTo(s: string, i: nat, e: nat)
    requires i <= e < |s|
    requires forall j :: i <= j < e ==> s[j] != '\n'
    requires SeparatorAt(s, e).Some?
    ensures Paragraphs(s, 0, i)[0] == s[..e]
    decreases e - i
  {
    if i < e {
      ParagraphsUpTo(s, i + 1, e);
    }
  }

  /** A text with no newline is a single paragraph. */
  lemma {:induction false} ParagraphsOfLine(s: string, i: nat)
    requires i <= |s| && '\n' !in s
    ensures Paragraphs(s, 0, i) == [s]
    decreases |s| - i
  {
    if i < |s| {
      ParagraphsOfLine(s, i + 1);
    }
  }

  /** A document whose first line is ordinary prose followed by a blank
      line is summarised by that line, trimmed (and cut at 140). */
  lemma {:induction false} SummaryOfFirstParagraph(p: string, rest: string)
    requires '`' !in p + rest && '-' !in p + rest && '\n' !in p
    requires Trim(p) != []
    ensures ExtractSummary(p + "\n\n" + rest) == Truncate(Trim(p))
  {
    var s := p + "\n\n" + rest;
    NoFenceNoChange(s);
    NoDashNoBlock(s, 0);
    assert StripDashBlock(StripFences(s, 0)) == s;
    assert s[|p|] == '\n' && s[|p| + 1] == '\n';
    var r := SkipSpaces(s, |p| + 1);
    assert r >= |p| + 2 by {
      assert IsSpace(s[|p| + 1]);
    }
    assert s[..r][|p| + 1] == '\n';
    var k := LastIndexOf(s[..r], '\n', r);
    LastIndexOfAtLeast(s[..r], '\n', r, |p| + 1);
    assert SeparatorAt(s, |p|).Some?;
    ParagraphsUpTo(s, 0, |p|);
    assert s[..|p|] == p;
    var ps := Paragraphs(s, 0, 0);
    assert ReplaceChar(p, '\n', ' ') == p;
  }

  /** A text with a `c` at `j` has its last `c` at or after `j`. */
  lemma {:induction false} LastIndexOfAtLeast(s: string, c: char, n: nat, j: nat)
    requires j < n <= |s| && s[j] == c
    ensures LastIndexOf(s, c, n).Some? && LastIndexOf(s, c, n).value >= j
  {
    if s[n - 1] != c {
      LastIndexOfAtLeast(s, c, n - 1, j);
    }
  }

  /** A single line of prose, without fences or dashes, is its own summary
      once trimmed (and cut at 140). */
  lemma {:induction false} SummaryOfOneLine(p: string)
    requires '`' !in p && '-' !in p && '\n' !in p
    ensures ExtractSummary(p) == Truncate(Trim(p))
  {
    NoFenceNoChange(p);
    NoDashNoBlock(p, 0);
    assert StripDashBlock(StripFences(p, 0)) == p;
    ParagraphsOfLine(p, 0);
    assert ReplaceChar(p, '\n', ' ') == p;
    if Trim(p) == [] {
      assert FirstParagraph([p]) == FirstParagraph([]);
    }
  }
}
