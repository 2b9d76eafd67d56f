/** The text passes the build runs over rendered HTML: tag and entity
    stripping, heading slugs (build.mjs:75-86), removal of a top heading
    that repeats the title (build.mjs:116-126), lazy loading for images
    (build.mjs:164-169) and the escaping fallback of the code highlighter
    (build.mjs:155). */
module Html {
  import opened Text

  // ---------------------------------------------------------------------
  // Tags: `.replace(/<[^>]+>/g, '')`
  // ---------------------------------------------------------------------

  /** Where a tag that opens `s` ends: `[^>]+` needs at least one character
      that is not `>` after the `<`, then the first `>`. */
  function TagEnd(s: string): Option<nat>
    requires |s| > 0
  {
    var g := IndexOf(s, '>', 1);
    if s[0] == '<' && g.Some? && g.value > 1 then g else None
  }

  /** `s` starts with something `<[^>]+>` matches. */
  predicate OpensTag(s: string) {
    |s| > 0 && TagEnd(s).Some?
  }

  /** `s.replace(/<[^>]+>/g, '')`: every tag is removed, scanning left to
      right and going on after each removed tag. */
  function StripTags(s: string): string
    decreases |s|
  {
    if s == [] then []
    else
      var e := TagEnd(s);
      if e.Some? then StripTags(s[e.value + 1..]) else [s[0]] + StripTags(s[1..])
  }

  /** No tag starts anywhere in `s`. */
  predicate TagFree(s: string) {
    forall i :: 0 <= i < |s| ==> !OpensTag(s[i..])
  }

  /** Every character left by `StripTags` was in its input. */
  lemma {:induction false} StripTagsKeepsChars(s: string, c: char)
    requires c in StripTags(s)
    ensures c in s
    decreases |s|
  {
    var e := TagEnd(s);
    if e.Some? {
      StripTagsKeepsChars(s[e.value + 1..], c);
    } else if c != s[0] {
      StripTagsKeepsChars(s[1..], c);
    }
  }

  /** A text that does not start with `<` keeps its first character. */
  lemma {:induction false} StripTagsFirst(s: string)
    requires |s| > 0 && s[0] != '<'
    ensures StripTags(s) == [s[0]] + StripTags(s[1..])
  {
  }

  /** No tag is left after `StripTags`. */
  lemma {:induction false} StripTagsTagFree(s: string)
    ensures TagFree(StripTags(s))
    decreases |s|
  {
    if s != [] {
      var e := TagEnd(s);
      if e.Some? {
        StripTagsTagFree(s[e.value + 1..]);
      } else {
        var t := StripTags(s[1..]);
        var r := [s[0]] + t;
        StripTagsTagFree(s[1..]);
        assert !OpensTag(r) by {
          if s[0] == '<' {
            var g := IndexOf(s, '>', 1);
            if g.None? {
              assert '>' !in s[1..] by {
                forall j | 0 <= j < |s| - 1 ensures s[1..][j] != '>' {
                  IndexOfSkips(s, '>', 1, j + 1);
                }
              }
              assert '>' !in t by {
                if '>' in t {
                  StripTagsKeepsChars(s[1..], '>');
                }
              }
              forall k | 1 <= k < |r| ensures r[k] != '>' {
                assert r[k] == t[k - 1];
              }
              IndexOfNone(r, '>', 1);
            } else {
              assert g.value == 1 && s[1] == '>';
              StripTagsFirst(s[1..]);
              assert r[1] == '>';
              IndexOfFirst(r, '>', 1, 1);
            }
          }
        }
        forall i | 1 <= i < |r| ensures !OpensTag(r[i..]) {
          assert r[i..] == t[i - 1..];
        }
      }
    }
  }

  /** A text without tags is left as it is. */
  lemma {:induction false} TagFreeUnchanged(s: string)
    requires TagFree(s)
    ensures StripTags(s) == s
    decreases |s|
  {
    if s != [] {
      assert !OpensTag(s[0..]) && s[0..] == s;
      forall i | 0 <= i < |s[1..]| ensures !OpensTag(s[1..][i..]) {
        assert s[1..][i..] == s[i + 1..];
      }
      TagFreeUnchanged(s[1..]);
    }
  }

  /** Stripping tags twice is stripping them once. */
  lemma {:induction false} StripTagsIdempotent(s: string)
    ensures StripTags(StripTags(s)) == StripTags(s)
  {
    StripTagsTagFree(s);
    TagFreeUnchanged(StripTags(s));
  }

  /** A text without `<` holds no tag. */
  lemma {:induction false} NoAngleTagFree(s: string)
    requires '<' !in s
    ensures TagFree(s)
  {
    forall i | 0 <= i < |s| ensures !OpensTag(s[i..]) {
      assert s[i..][0] == s[i];
    }
  }

  // ---------------------------------------------------------------------
  // Entities: `.replace(/&[^;]+;?/g, '')`
  // ---------------------------------------------------------------------

  /** Where an entity that opens `s` ends: `&`, then a greedy run of
      characters other than `;` (at least one), then the `;` if there is
      one; with no `;` the match runs to the end of the text. */
  function EntityEnd(s: string): (r: Option<nat>)
    requires |s| > 0
    ensures r.Some? ==> 2 <= r.value <= |s|
  {
    if s[0] == '&' && |s| >= 2 && s[1] != ';' then
      var e := IndexOf(s, ';', 1);
      if e.Some? then Some(e.value + 1) else Some(|s|)
    else None
  }

  /** `s.replace(/&[^;]+;?/g, '')`. */
  function StripEntities(s: string): string
    decreases |s|
  {
    if s == [] then []
    else
      var e := EntityEnd(s);
      if e.Some? then StripEntities(s[e.value..]) else [s[0]] + StripEntities(s[1..])
  }

  /** Every character left by `StripEntities` was in its input. */
  lemma {:induction false} StripEntitiesKeepsChars(s: string, c: char)
    requires c in StripEntities(s)
    ensures c in s
    decreases |s|
  {
    var e := EntityEnd(s);
    if e.Some? {
      StripEntitiesKeepsChars(s[e.value..], c);
    } else if c != s[0] {
      StripEntitiesKeepsChars(s[1..], c);
    }
  }

  /** A text without `&` is left as it is. */
  lemma {:induction false} NoAmpersandUnchanged(s: string)
    requires '&' !in s
    ensures StripEntities(s) == s
    decreases |s|
  {
    if s != [] {
      NoAmpersandUnchanged(s[1..]);
    }
  }

  /** An entity is removed with its `;`, and the text after it is kept:
      `&amp;b` becomes `b`. */
  lemma {:induction false} EntityRemoved(name: string, rest: string)
    requires |name| > 0 && ';' !in name
    ensures StripEntities("&" + name + ";" + rest) == StripEntities(rest)
  {
    var s := "&" + name + ";" + rest;
    assert s[1] == name[0];
    assert s[|name| + 1] == ';';
    forall k | 1 <= k < |name| + 1 ensures s[k] != ';' {
      assert s[k] == name[k - 1];
    }
    IndexOfFirst(s, ';', 1, |name| + 1);
    assert s[|name| + 2..] == rest;
  }

  // ---------------------------------------------------------------------
  // Heading slugs (build.mjs:75-86)
  // ---------------------------------------------------------------------

  /** The characters a slug is made of: `[a-z0-9一-龥\-]`. */
  predicate IsSlugChar(c: char) {
    IsAsciiLower(c) || IsDigit(c) || ('一' <= c <= '龥') || c == '-'
  }

  /** `.replace(/[^a-z0-9一-龥\-\s]/g, '')`: keeps slug characters and white space. */
  function KeepSlugChars(s: string): string
    decreases |s|
  {
    if s == [] then []
    else if IsSlugChar(s[0]) || IsSpace(s[0]) then [s[0]] + KeepSlugChars(s[1..])
    else KeepSlugChars(s[1..])
  }

  /** `.replace(/\s+/g, '-')`: each run of white space becomes one `-`. */
  function SpacesToHyphens(s: string): string
    decreases |s|
  {
    if s == [] then []
    else if IsSpace(s[0]) then "-" + SpacesToHyphens(s[SkipSpaces(s, 0)..])
    else [s[0]] + SpacesToHyphens(s[1..])
  }

  /** `.replace(/-+/g, '-')`: each run of `-` becomes one. */
  function CollapseHyphens(s: string): string
    decreases |s|
  {
    if s == [] then []
    else if s[0] == '-' then "-" + CollapseHyphens(s[RunEnd(s, '-', 0)..])
    else [s[0]] + CollapseHyphens(s[1..])
  }

  /** Drops the leading run of `-`. */
  function DropLeadingHyphens(s: string): string
    decreases |s|
  {
    if |s| > 0 && s[0] == '-' then DropLeadingHyphens(s[1..]) else s
  }

  /** Drops the trailing run of `-`. */
  function DropTrailingHyphens(s: string): string
    decreases |s|
  {
    if |s| > 0 && s[|s| - 1] == '-' then DropTrailingHyphens(s[..|s| - 1]) else s
  }

  /** `.replace(/^-+|-+$/g, '')`: the first alternative takes the leading
      run; the second matches only the run that reaches the end. */
  function TrimHyphens(s: string): string
  {
    DropTrailingHyphens(DropLeadingHyphens(s))
  }

  /** `slugifyHeading(text)`; `toLowerCase` is modelled on ASCII letters. */
  function Slugify(text: string): string
  {
    var t := StripEntities(StripTags(ToLower(Trim(text))));
    TrimHyphens(CollapseHyphens(SpacesToHyphens(KeepSlugChars(t))))
  }

  /** What every slug looks like: slug characters only, no `--`, and no
      `-` at either end. */
  predicate SlugShaped(s: string) {
    && (forall i :: 0 <= i < |s| ==> IsSlugChar(s[i]))
    && NoDoubleHyphen(s)
    && (s == [] || (s[0] != '-' && s[|s| - 1] != '-'))
  }

  predicate NoDoubleHyphen(s: string) {
    forall i :: 0 <= i < |s| - 1 ==> !(s[i] == '-' && s[i + 1] == '-')
  }

  /** Only slug characters and white space survive `KeepSlugChars`. */
  lemma {:induction false} KeepSlugCharsFacts(s: string)
    ensures forall i :: 0 <= i < |KeepSlugChars(s)| ==>
              IsSlugChar(KeepSlugChars(s)[i]) || IsSpace(KeepSlugChars(s)[i])
    decreases |s|
  {
    if s != [] {
      KeepSlugCharsFacts(s[1..]);
    }
  }

  /** After `SpacesToHyphens`, a text of slug characters and white space has slug characters only. */
  lemma {:induction false} SpacesToHyphensFacts(s: string)
    requires forall i :: 0 <= i < |s| ==> IsSlugChar(s[i]) || IsSpace(s[i])
    ensures forall i :: 0 <= i < |SpacesToHyphens(s)| ==> IsSlugChar(SpacesToHyphens(s)[i])
    decreases |s|
  {
    if s != [] {
      if IsSpace(s[0]) {
        var k := SkipSpaces(s, 0);
        SpacesToHyphensFacts(s[k..]);
      } else {
        SpacesToHyphensFacts(s[1..]);
      }
    }
  }

  /** `CollapseHyphens` keeps a first character that is not `-`. */
  lemma {:induction false} CollapseHyphensFirst(s: string)
    requires |s| > 0 && s[0] != '-'
    ensures CollapseHyphens(s) == [s[0]] + CollapseHyphens(s[1..])
  {
  }

  /** After `CollapseHyphens` no two `-` are adjacent, and the characters stay slug characters. */
  lemma {:induction false} CollapseHyphensFacts(s: string)
    requires forall i :: 0 <= i < |s| ==> IsSlugChar(s[i])
    ensures var r := CollapseHyphens(s);
            && (forall i :: 0 <= i < |r| ==> IsSlugChar(r[i]))
            && NoDoubleHyphen(r)
    decreases |s|
  {
    if s != [] {
      var r := CollapseHyphens(s);
      if s[0] == '-' {
        var k := RunEnd(s, '-', 0);
        var t := CollapseHyphens(s[k..]);
        CollapseHyphensFacts(s[k..]);
        RunEndStops(s, '-', 0);
        if k < |s| {
          CollapseHyphensFirst(s[k..]);
        }
        assert r == "-" + t;
        forall i | 0 <= i < |r| - 1 ensures !(r[i] == '-' && r[i + 1] == '-') {
          if i > 0 {
            assert r[i] == t[i - 1] && r[i + 1] == t[i];
          }
        }
      } else {
        var t := CollapseHyphens(s[1..]);
        CollapseHyphensFacts(s[1..]);
        assert r == [s[0]] + t;
        forall i | 0 <= i < |r| - 1 ensures !(r[i] == '-' && r[i + 1] == '-') {
          if i > 0 {
            assert r[i] == t[i - 1] && r[i + 1] == t[i];
          }
        }
      }
    }
  }

  /** `DropLeadingHyphens` keeps a suffix that does not start with `-`. */
  lemma {:induction false} DropLeadingFacts(s: string)
    ensures var r := DropLeadingHyphens(s);
            |r| <= |s| && r == s[|s| - |r|..] && (r == [] || r[0] != '-')
    decreases |s|
  {
    if |s| > 0 && s[0] == '-' {
      DropLeadingFacts(s[1..]);
    }
  }

  /** `DropTrailingHyphens` keeps a prefix that does not end with `-`. */
  lemma {:induction false} DropTrailingFacts(s: string)
    ensures var r := DropTrailingHyphens(s);
            |r| <= |s| && r == s[..|r|] && (r == [] || r[|r| - 1] != '-')
    decreases |s|
  {
    if |s| > 0 && s[|s| - 1] == '-' {
      DropTrailingFacts(s[..|s| - 1]);
    }
  }

  /** A slice of a slug-character text without `--` keeps both properties. */
  lemma {:induction false} SliceKeepsSlugChars(s: string, a: nat, b: nat)
    requires a <= b <= |s|
    requires forall i :: 0 <= i < |s| ==> IsSlugChar(s[i])
    requires NoDoubleHyphen(s)
    ensures forall i :: 0 <= i < b - a ==> IsSlugChar(s[a..b][i])
    ensures NoDoubleHyphen(s[a..b])
  {
    forall i | 0 <= i < b - a - 1 ensures !(s[a..b][i] == '-' && s[a..b][i + 1] == '-') {
      assert s[a..b][i] == s[a + i] && s[a..b][i + 1] == s[a + i + 1];
    }
  }

  /** Every slug is slug-shaped: lower-case letters, digits, CJK
      ideographs and single inner hyphens; no white space. */
  lemma {:induction false} SlugifyShape(text: string)
    ensures SlugShaped(Slugify(text))
  {
    var t := StripEntities(StripTags(ToLower(Trim(text))));
    var k := KeepSlugChars(t);
    KeepSlugCharsFacts(t);
    var h := SpacesToHyphens(k);
    SpacesToHyphensFacts(k);
    var c := CollapseHyphens(h);
    CollapseHyphensFacts(h);
    var l := DropLeadingHyphens(c);
    DropLeadingFacts(c);
    SliceKeepsSlugChars(c, |c| - |l|, |c|);
    var r := DropTrailingHyphens(l);
    DropTrailingFacts(l);
    SliceKeepsSlugChars(l, 0, |r|);
    if r != [] {
      assert r[0] == l[0];
    }
  }

  /** A slug has no white space in it. */
  lemma {:induction false} SlugHasNoSpace(text: string)
    ensures forall i :: 0 <= i < |Slugify(text)| ==> !IsSpace(Slugify(text)[i])
  {
    SlugifyShape(text);
  }

  /** `KeepSlugChars` keeps a text made of slug characters. */
  lemma {:induction false} KeepSlugCharsUnchanged(s: string)
    requires forall i :: 0 <= i < |s| ==> IsSlugChar(s[i])
    ensures KeepSlugChars(s) == s
    decreases |s|
  {
    if s != [] {
      KeepSlugCharsUnchanged(s[1..]);
    }
  }

  /** `SpacesToHyphens` keeps a text without white space. */
  lemma {:induction false} SpacesToHyphensUnchanged(s: string)
    requires forall i :: 0 <= i < |s| ==> !IsSpace(s[i])
    ensures SpacesToHyphens(s) == s
    decreases |s|
  {
    if s != [] {
      SpacesToHyphensUnchanged(s[1..]);
    }
  }

  /** `CollapseHyphens` keeps a text without `--`. */
  lemma {:induction false} CollapseHyphensUnchanged(s: string)
    requires NoDoubleHyphen(s)
    ensures CollapseHyphens(s) == s
    decreases |s|
  {
    if s != [] {
      assert NoDoubleHyphen(s[1..]) by {
        forall i | 0 <= i < |s[1..]| - 1 ensures !(s[1..][i] == '-' && s[1..][i + 1] == '-') {
          assert s[1..][i] == s[i + 1];
        }
      }
      if s[0] == '-' {
        assert RunEnd(s, '-', 0) == 1 by {
          if |s| > 1 {
            assert s[1] != '-';
          }
        }
      }
      CollapseHyphensUnchanged(s[1..]);
    }
  }

  /** A slug is its own slug. */
  lemma {:induction false} SlugifyIdempotent(text: string)
    ensures Slugify(Slugify(text)) == Slugify(text)
  {
    var s := Slugify(text);
    SlugifyShape(text);
    SlugShapedUnchanged(s);
  }

  /** Slugifying a slug-shaped text changes nothing. */
  lemma {:induction false} SlugShapedUnchanged(s: string)
    requires SlugShaped(s)
    ensures Slugify(s) == s
  {
    SlugShapedCleaned(s);
    SlugShapedKept(s);
  }

  /** The first stages leave a slug-shaped text as it is. */
  lemma {:induction false} SlugShapedCleaned(s: string)
    requires SlugShaped(s)
    ensures StripEntities(StripTags(ToLower(Trim(s)))) == s
  {
    assert Trim(s) == s by {
      TrimOfTrimmed(s);
    }
    assert ToLower(s) == s by {
      ToLowerFacts(s);
    }
    assert StripTags(s) == s by {
      assert '<' !in s;
      NoAngleTagFree(s);
      TagFreeUnchanged(s);
    }
    assert StripEntities(s) == s by {
      assert '&' !in s;
      NoAmpersandUnchanged(s);
    }
  }

  /** The last stages leave a slug-shaped text as it is. */
  lemma {:induction false} SlugShapedKept(s: string)
    requires SlugShaped(s)
    ensures TrimHyphens(CollapseHyphens(SpacesToHyphens(KeepSlugChars(s)))) == s
  {
    assert KeepSlugChars(s) == s by {
      KeepSlugCharsUnchanged(s);
    }
    assert SpacesToHyphens(s) == s by {
      SpacesToHyphensUnchanged(s);
    }
    assert CollapseHyphens(s) == s by {
      CollapseHyphensUnchanged(s);
    }
  }

  // ---------------------------------------------------------------------
  // A top heading that repeats the title (build.mjs:116-126)
  // ---------------------------------------------------------------------

  predicate IsH(c: char) { c == 'h' || c == 'H' }

  /** `<h1`, in either case, at `i`. */
  predicate OpensH1(s: string, i: nat) {
    i + 3 <= |s| && s[i] == '<' && IsH(s[i + 1]) && s[i + 2] == '1'
  }

  /** `</h1>`, in either case, at `j`. */
  predicate ClosesH1(s: string, j: nat) {
    j + 5 <= |s| && s[j] == '<' && s[j + 1] == '/' && IsH(s[j + 2]) && s[j + 3] == '1' && s[j + 4] == '>'
  }

  /** The first `</h1>` at or after `from`. */
  function FindCloseH1(s: string, from: nat): (r: Option<nat>)
    ensures r.Some? ==> from <= r.value && ClosesH1(s, r.value)
    decreases |s| - from
  {
    if from + 5 > |s| then None
    else if ClosesH1(s, from) then Some(from)
    else FindCloseH1(s, from + 1)
  }

  /** A match of `/<h1[^>]*>([\s\S]*?)<\/h1>/i`: where it starts, and where
      its group starts and ends; the match ends 5 characters after the group. */
  datatype H1Match = H1Match(start: nat, innerStart: nat, innerEnd: nat)

  /** The match at `i`, if there is one: after `<h1`, `[^>]*>` runs to the
      first `>`, and the lazy group stops at the first `</h1>` after it. */
  function H1At(s: string, i: nat): (r: Option<H1Match>)
    ensures r.Some? ==> r.value.start == i && i + 4 <= r.value.innerStart <= r.value.innerEnd && ClosesH1(s, r.value.innerEnd)
  {
    if OpensH1(s, i) then
      var g := IndexOf(s, '>', i + 3);
      if g.Some? then
        var c := FindCloseH1(s, g.value + 1);
        if c.Some? then Some(H1Match(i, g.value + 1, c.value)) else None
      else None
    else None
  }

  /** The first match at or after `i`. */
  function FirstH1(s: string, i: nat): (r: Option<H1Match>)
    requires i <= |s|
    ensures r.Some? ==> i <= r.value.start && H1At(s, r.value.start) == r
    decreases |s| - i
  {
    if H1At(s, i).Some? then H1At(s, i)
    else if i == |s| then None
    else FirstH1(s, i + 1)
  }

  /** No match starts before the first one. */
  lemma {:induction false} FirstH1Skips(s: string, i: nat, j: nat)
    requires i <= j <= |s|
    requires FirstH1(s, i).None? || j < FirstH1(s, i).value.start
    ensures H1At(s, j).None?
    decreases |s| - i
  {
    if j > i {
      FirstH1Skips(s, i + 1, j);
    }
  }

  /** The text a match covers. */
  function MatchText(s: string, m: H1Match): string
    requires m.start <= m.innerEnd && ClosesH1(s, m.innerEnd)
  {
    s[m.start..m.innerEnd + 5]
  }

  /** `stripDuplicateTopTitle(html, title)`: when the first `<h1>`'s text,
      without tags and trimmed, is not empty and equals the trimmed title,
      `html.replace(m[0], '')` removes the first occurrence of the matched
      text. */
  function StripDuplicateTopTitle(html: string, title: string): string
  {
    var m := FirstH1(html, 0);
    if m.None? then html
    else
      var onlyText := Trim(StripTags(html[m.value.innerStart..m.value.innerEnd]));
      if onlyText != [] && title != [] && onlyText == Trim(title) then
        ReplaceFirst(html, MatchText(html, m.value), [], JsPatterns)
      else html
  }

  /** `IndexOf` finds some occurrence at or before a known one. */
  lemma {:induction false} IndexOfAtMost(s: string, c: char, from: nat, j: nat)
    requires from <= j < |s| && s[j] == c
    ensures IndexOf(s, c, from).Some? && IndexOf(s, c, from).value <= j
    decreases j - from
  {
    if from < j && s[from] != c {
      IndexOfAtMost(s, c, from + 1, j);
    }
  }

  /** `FindCloseH1` finds some closer at or before a known one. */
  lemma {:induction false} FindCloseAtMost(s: string, from: nat, j: nat)
    requires from <= j && ClosesH1(s, j)
    ensures FindCloseH1(s, from).Some? && FindCloseH1(s, from).value <= j
    decreases j - from
  {
    if from < j && !ClosesH1(s, from) {
      FindCloseAtMost(s, from + 1, j);
    }
  }

  /** Wherever the text of a match occurs, the regex matches there too. */
  lemma {:induction false} MatchTextMatches(s: string, m: H1Match, j: nat)
    requires H1At(s, m.start) == Some(m)
    requires At(s, j, MatchText(s, m))
    ensures H1At(s, j).Some?
  {
    var t := MatchText(s, m);
    var o: nat := m.innerStart - 1 - m.start;
    var e: nat := m.innerEnd - m.start;
    MatchTextShape(s, m);
    CopiedOpen(s, j, t);
    CopiedChar(s, j, t, o);
    IndexOfAtMost(s, '>', j + 3, j + o);
    CopiedClose(s, j, t, e);
    var g := IndexOf(s, '>', j + 3).value;
    FindCloseAtMost(s, g + 1, j + e);
  }

  /** The matched text opens an `h1`, holds its `>` and ends with the closer. */
  lemma {:induction false} MatchTextShape(s: string, m: H1Match)
    requires H1At(s, m.start) == Some(m)
    ensures var t := MatchText(s, m);
            OpensH1(t, 0) && m.innerStart - 1 - m.start < |t| && t[m.innerStart - 1 - m.start] == '>'
            && ClosesH1(t, m.innerEnd - m.start) && 3 <= m.innerStart - 1 - m.start < m.innerEnd - m.start
  {
    var t := MatchText(s, m);
    assert t[0] == s[m.start] && t[1] == s[m.start + 1] && t[2] == s[m.start + 2];
    assert t[m.innerStart - 1 - m.start] == s[m.innerStart - 1];
    var e := m.innerEnd - m.start;
    assert t[e] == s[m.innerEnd] && t[e + 1] == s[m.innerEnd + 1] && t[e + 2] == s[m.innerEnd + 2];
    assert t[e + 3] == s[m.innerEnd + 3] && t[e + 4] == s[m.innerEnd + 4];
  }

  lemma {:induction false} CopiedOpen(s: string, j: nat, t: string)
    requires At(s, j, t) && OpensH1(t, 0)
    ensures OpensH1(s, j)
  {
    assert s[j] == t[0] && s[j + 1] == t[1] && s[j + 2] == t[2];
  }

  lemma {:induction false} CopiedChar(s: string, j: nat, t: string, k: nat)
    requires At(s, j, t) && k < |t|
    ensures j + k < |s| && s[j + k] == t[k]
  {
  }

  lemma {:induction false} CopiedClose(s: string, j: nat, t: string, e: nat)
    requires At(s, j, t) && ClosesH1(t, e)
    ensures ClosesH1(s, j + e)
  {
    assert s[j + e] == t[e] && s[j + e + 1] == t[e + 1] && s[j + e + 2] == t[e + 2];
    assert s[j + e + 3] == t[e + 3] && s[j + e + 4] == t[e + 4];
  }

  /** The matched text first occurs where the regex matched it, so the
      string replacement removes exactly the match. */
  lemma {:induction false} MatchTextFirstAt(s: string)
    requires FirstH1(s, 0).Some?
    ensures var m := FirstH1(s, 0).value;
            Find(s, MatchText(s, m), 0) == Some(m.start)
  {
    var m := FirstH1(s, 0).value;
    var t := MatchText(s, m);
    forall j: nat | j < m.start ensures !At(s, j, t) {
      FirstH1Skips(s, 0, j);
      if At(s, j, t) {
        MatchTextMatches(s, m, j);
      }
    }
    FindFirstAt(s, t, 0, m.start);
  }

  /** Replacing the first occurrence of the matched text by nothing cuts out the match. */
  lemma {:induction false} RemoveFirstMatch(s: string)
    requires FirstH1(s, 0).Some?
    ensures var m := FirstH1(s, 0).value;
            ReplaceFirst(s, MatchText(s, m), [], JsPatterns) == s[..m.start] + s[m.innerEnd + 5..]
  {
    var m := FirstH1(s, 0).value;
    MatchTextFirstAt(s);
    var t := MatchText(s, m);
    assert Expand([], t, s[..m.start], s[m.start + |t|..]) == [];
  }

  /** An occurrence with none before it is the one `Find` returns. */
  lemma {:induction false} FindFirstAt(s: string, p: string, from: nat, j: nat)
    requires from <= j && At(s, j, p)
    requires forall k: nat :: from <= k < j ==> !At(s, k, p)
    ensures Find(s, p, from) == Some(j)
    decreases j - from
  {
    if from < j {
      assert !At(s, from, p);
      FindFirstAt(s, p, from + 1, j);
    }
  }

  /** The heading is removed exactly when its text matches the title, and
      then only the heading goes: the text around it is kept. */
  lemma {:induction false} StripTitleEffect(html: string, title: string)
    ensures var m := FirstH1(html, 0);
            var r := StripDuplicateTopTitle(html, title);
            && (m.None? ==> r == html)
            && (m.Some? ==>
                  var onlyText := Trim(StripTags(html[m.value.innerStart..m.value.innerEnd]));
                  if onlyText != [] && title != [] && onlyText == Trim(title)
                  then r == html[..m.value.start] + html[m.value.innerEnd + 5..]
                  else r == html)
  {
    if FirstH1(html, 0).Some? {
      RemoveFirstMatch(html);
    }
  }

  /** A page that opens with `<h1>t</h1>` whose text is the title loses that heading. */
  lemma {:induction false} DuplicateTitleRemoved(t: string, rest: string, title: string)
    requires '<' !in t && '>' !in t
    requires Trim(t) != [] && Trim(title) == Trim(t)
    ensures StripDuplicateTopTitle("<h1>" + t + "</h1>" + rest, title) == rest
  {
    var s := "<h1>" + t + "</h1>" + rest;
    assert OpensH1(s, 0);
    IndexOfFirst(s, '>', 3, 3);
    var n := 4 + |t|;
    assert ClosesH1(s, n) by {
      assert s[n..n + 5] == "</h1>";
    }
    forall k | 4 <= k < n ensures !ClosesH1(s, k) {
      assert s[k] == t[k - 4];
    }
    FindCloseFirst(s, 4, n);
    assert H1At(s, 0) == Some(H1Match(0, 4, n));
    assert s[4..n] == t;
    NoAngleTagFree(t);
    TagFreeUnchanged(t);
    StripTitleEffect(s, title);
    assert title != [];
    assert s[n + 5..] == rest;
  }

  /** A closer with none before it is the one `FindCloseH1` returns. */
  lemma {:induction false} FindCloseFirst(s: string, from: nat, j: nat)
    requires from <= j && ClosesH1(s, j)
    requires forall k :: from <= k < j ==> !ClosesH1(s, k)
    ensures FindCloseH1(s, from) == Some(j)
    decreases j - from
  {
    if from < j {
      FindCloseFirst(s, from + 1, j);
    }
  }

  // ---------------------------------------------------------------------
  // Lazy loading for images (build.mjs:164-169)
  // ---------------------------------------------------------------------

  /** `s` starts with `<img`. */
  predicate StartsImg(s: string) {
    |s| >= 4 && s[0] == '<' && s[1] == 'i' && s[2] == 'm' && s[3] == 'g'
  }

  /** The lookahead `(?![^>]*\bloading=)` fails at `<img`: some `loading=`
      comes before the first `>` after `<img`, right after a character that
      is not a word character (`\b`). The scan goes from `p` on. */
  function DeclaresLoadingFrom(s: string, p: nat): bool
    requires 4 <= p
    decreases |s| - p
  {
    if p >= |s| then false
    else if At(s, p, "loading=") && !IsWordChar(s[p - 1]) then true
    else if s[p] == '>' then false
    else DeclaresLoadingFrom(s, p + 1)
  }

  /** `tag.replace(/<img\s*` + `/i, '<img loading="lazy" ')` for a tag that
      starts with `<img`: the `<img` and the white space after it become
      `<img loading="lazy" `. */
  function AddLazy(tag: string): string
    requires 4 <= |tag|
  {
    LazyOpening + tag[SkipSpaces(tag, 4)..]
  }

  /** `<img loading="lazy" `. */
  const LazyOpening: string := "<img " + "loading=" + "\"lazy\" "

  /** The callback: a tag that already says `loading=` is kept, any other
      tag gains `loading="lazy"`. */
  function LazyTag(tag: string): string
    requires 4 <= |tag|
  {
    if Contains(tag, "loading=") then tag else AddLazy(tag)
  }

  /** Where the tag the as-written regex matches at the start of `s` ends:
      `<img`, a lookahead that passes, then up to the first `>`. */
  function AsWrittenTagEnd(s: string): (r: Option<nat>)
    ensures r.Some? ==> 4 <= r.value < |s|
  {
    if StartsImg(s) && !DeclaresLoadingFrom(s, 4) then IndexOf(s, '>', 4) else None
  }

  /** `addLazyLoadingToImages(html)` as written: where the lookahead fails,
      or no `>` follows, the scan moves on by one character, and so goes on
      inside that tag. */
  function LazyLoadingAsWritten(s: string): string
    decreases |s|
  {
    if s == [] then []
    else
      var g := AsWrittenTagEnd(s);
      if g.Some? then LazyTag(s[..g.value + 1]) + LazyLoadingAsWritten(s[g.value + 1..])
      else [s[0]] + LazyLoadingAsWritten(s[1..])
  }

  /** Where the `<img …>` tag at the start of `s` ends: the first `>`. */
  function ImgTagEnd(s: string): (r: Option<nat>)
    ensures r.Some? ==> 4 <= r.value < |s|
  {
    if StartsImg(s) then IndexOf(s, '>', 4) else None
  }

  /** The scan the rest of the model uses: each `<img …>` tag is taken as a
      whole, kept when it says `loading=` and given `loading="lazy"`
      otherwise, and the scan goes on after it. */
  function LazyLoading(s: string): string
    decreases |s|
  {
    if s == [] then []
    else
      var g := ImgTagEnd(s);
      if g.Some? then LazyTag(s[..g.value + 1]) + LazyLoading(s[g.value + 1..])
      else [s[0]] + LazyLoading(s[1..])
  }

  /** `p` does not occur at `i` when one of its characters differs. */
  lemma {:induction false} NotAtChar(s: string, i: nat, p: string, k: nat)
    requires k < |p| && (i + k >= |s| || s[i + k] != p[k])
    ensures !At(s, i, p)
  {
    if i + |p| <= |s| {
      assert s[i..i + |p|][k] == s[i + k];
    }
  }

  /** `p` occurs in `a + p + b` right after `a`. */
  lemma {:induction false} AtJoin(a: string, p: string, b: string)
    ensures At(a + p + b, |a|, p)
  {
    assert (a + p + b)[|a|..|a| + |p|] == p;
  }

  /** Some occurrence at or before a known one is found. */
  lemma {:induction false} FindAtMost(s: string, p: string, from: nat, j: nat)
    requires from <= j && At(s, j, p)
    ensures Find(s, p, from).Some? && Find(s, p, from).value <= j
    decreases j - from
  {
    if from < j && s[from..from + |p|] != p {
      FindAtMost(s, p, from + 1, j);
    }
  }

  /** Where no tag starts, the as-written scan copies one character and goes on. */
  lemma {:induction false} AsWrittenStep(s: string)
    requires |s| > 0 && s[0] != '<'
    ensures LazyLoadingAsWritten(s) == [s[0]] + LazyLoadingAsWritten(s[1..])
  {
    assert AsWrittenTagEnd(s).None?;
  }

  /** Putting a character back in front of a suffix's image. */
  lemma {:induction false} ConsShape(l: string, a: string, b: string, x: string)
    requires |x| > 0 && l == [x[0]] + a && a == x[1..] + b
    ensures l == x + b
  {
    assert x == [x[0]] + x[1..];
  }

  /** Text without `<` goes through the as-written scan unchanged. */
  lemma {:induction false} AsWrittenPlainPrefix(x: string, y: string)
    requires '<' !in x
    ensures LazyLoadingAsWritten(x + y) == x + LazyLoadingAsWritten(y)
    decreases |x|
  {
    if x != [] {
      var s := x + y;
      var x' := x[1..];
      assert s[0] == x[0] && s[1..] == x' + y;
      AsWrittenStep(s);
      assert '<' !in x' by {
        forall j | 0 <= j < |x'| ensures x'[j] != '<' {
          assert x'[j] == x[j + 1];
        }
      }
      AsWrittenPlainPrefix(x', y);
      ConsShape(LazyLoadingAsWritten(s), LazyLoadingAsWritten(x' + y), LazyLoadingAsWritten(y), x);
    } else {
      assert x + y == y;
    }
  }

  /** An `<img` tag whose `loading=` comes before its first `>`, right
      after a character that is not a word character, fails the lookahead. */
  lemma {:induction false} DeclaresAt(s: string, q: nat, p: nat)
    requires 4 <= q < p && At(s, p, "loading=") && !IsWordChar(s[p - 1])
    requires forall j :: q <= j < p ==> s[j] != '>'
    ensures DeclaresLoadingFrom(s, q)
    decreases p - q
  {
    if q + 1 < p {
      DeclaresAt(s, q + 1, p);
    }
  }

  /** The tag `<img loading=` + `mid` + `<img>`, an `<img` written inside
      the tag, for instance in an attribute value: with `mid` =
      `"eager" alt="` it is `<img loading="eager" alt="<img>`. */
  function NestedImg(mid: string): string
  {
    "<img " + "loading=" + mid + "<img>"
  }

  /** The as-written scan changes a tag that declares `loading=`: the
      lookahead fails at the outer `<img`, the scan steps into the tag, and
      the inner `<img>` is taken as a tag and given `loading="lazy"`. */
  lemma {:induction false} AsWrittenRewritesInsideTag(mid: string)
    requires '<' !in mid && '>' !in mid
    ensures Contains(NestedImg(mid), "loading=")
    ensures LazyLoadingAsWritten(NestedImg(mid)) == "<img " + "loading=" + mid + LazyOpening + ">"
    ensures LazyLoadingAsWritten(NestedImg(mid)) != NestedImg(mid)
  {
    var s := NestedImg(mid);
    var x := "img " + "loading=" + mid;
    var y := "<img>";
    OuterTagDeclares(mid);
    NestedTail(mid);
    AsWrittenPlainPrefix(x, y);
    InnerImgRewritten();
    RewrittenShape(LazyLoadingAsWritten(s), LazyLoadingAsWritten(x + y), LazyLoadingAsWritten(y), mid);
  }

  /** Past its `<`, the nested input is plain text followed by `<img>`. */
  lemma {:induction false} NestedTail(mid: string)
    requires '<' !in mid
    ensures NestedImg(mid)[1..] == ("img " + "loading=" + mid) + "<img>"
    ensures '<' !in "img " + "loading=" + mid
  {
    var x := "img " + "loading=" + mid;
    assert x == "img " + ("loading=" + mid);
  }

  /** Assembling the rewritten text from its three parts. */
  lemma {:induction false} RewrittenShape(l: string, a: string, b: string, mid: string)
    requires l == "<" + a && a == ("img " + "loading=" + mid) + b && b == LazyOpening + ">"
    ensures l == "<img " + "loading=" + mid + LazyOpening + ">"
    ensures l != NestedImg(mid)
  {
    OpeningSplit(mid);
    assert |l| != |NestedImg(mid)| by {
      LazyOpeningFacts();
    }
  }

  /** Splitting the outer tag's opening after its `<`. */
  lemma {:induction false} OpeningSplit(mid: string)
    ensures "<" + ("img " + "loading=" + mid) == "<img " + "loading=" + mid
  {
    var t := "<img " + "loading=" + mid;
    assert |t| == 13 + |mid|;
    forall j | 1 <= j < |t| ensures t[j] == ("img " + "loading=" + mid)[j - 1] { }
  }

  /** The outer tag fails the lookahead, so the scan steps into it. */
  lemma {:induction false} OuterTagDeclares(mid: string)
    ensures Contains(NestedImg(mid), "loading=")
    ensures LazyLoadingAsWritten(NestedImg(mid)) == "<" + LazyLoadingAsWritten(NestedImg(mid)[1..])
  {
    var s := NestedImg(mid);
    assert s == "<img " + "loading=" + (mid + "<img>");
    AtJoin("<img ", "loading=", mid + "<img>");
    FindAtMost(s, "loading=", 0, 5);
    assert s[4] == ' ';
    DeclaresAt(s, 4, 5);
    assert AsWrittenTagEnd(s).None?;
  }

  /** The inner `<img>` passes the lookahead and gains `loading="lazy"`. */
  lemma {:induction false} InnerImgRewritten()
    ensures LazyLoadingAsWritten("<img>") == LazyOpening + ">"
  {
    var y := "<img>";
    assert !DeclaresLoadingFrom(y, 4);
    IndexOfFirst(y, '>', 4, 4);
    assert AsWrittenTagEnd(y) == Some(4);
    assert y[..5] == y && y[5..] == [];
    assert Find(y, "loading=", 0).None?;
    assert SkipSpaces(y, 4) == 4;
  }

  /** `<img loading="lazy" ` is 20 characters long, opens with `<img`, has
      `loading=` at index 5 and no `>`. */
  lemma {:induction false} LazyOpeningFacts()
    ensures |LazyOpening| == 20 && StartsImg(LazyOpening) && '>' !in LazyOpening
    ensures forall r :: At(LazyOpening + r, 5, "loading=")
  {
    forall r ensures At(LazyOpening + r, 5, "loading=") {
      AtJoin("<img ", "loading=", "\"lazy\" " + r);
      assert LazyOpening + r == "<img " + "loading=" + ("\"lazy\" " + r);
    }
  }

  /** The corrected scan keeps that tag as it is. */
  lemma {:induction false} LazyLoadingKeepsNestedImg(mid: string)
    requires '<' !in mid && '>' !in mid
    ensures LazyLoading(NestedImg(mid)) == NestedImg(mid)
  {
    var s := NestedImg(mid);
    assert s == "<img " + "loading=" + (mid + "<img>");
    AtJoin("<img ", "loading=", mid + "<img>");
    FindAtMost(s, "loading=", 0, 5);
    var n := |s|;
    forall j | 4 <= j < n - 1 ensures s[j] != '>' {
      if 13 <= j < 13 + |mid| {
        assert s[j] == mid[j - 13];
      }
    }
    IndexOfFirst(s, '>', 4, n - 1);
    assert ImgTagEnd(s) == Some(n - 1);
    assert s[..n] == s && s[n..] == [];
  }

  /** One `<img …>` tag that declares `loading=`: what the corrected scan
      leaves behind for each tag. */
  predicate LoadingTag(t: string) {
    StartsImg(t) && IndexOf(t, '>', 4) == Some(|t| - 1) && Contains(t, "loading=")
  }

  /** Each tag comes out of the callback declaring `loading=`, as one tag. */
  lemma {:induction false} LazyTagShape(tag: string)
    requires StartsImg(tag) && IndexOf(tag, '>', 4) == Some(|tag| - 1)
    ensures LoadingTag(LazyTag(tag))
  {
    if !Contains(tag, "loading=") {
      var n := |tag|;
      var k := SkipSpaces(tag, 4);
      SkipSpacesFacts(tag, 4);
      assert tag[n - 1] == '>';
      assert k <= n - 1;
      var rest := tag[k..];
      var r := LazyOpening + rest;
      assert r == AddLazy(tag);
      AddLazyShape(tag, k, rest, r);
    }
  }

  /** The rewritten tag: `<img loading="lazy" ` then the rest of the tag. */
  lemma {:induction false} AddLazyShape(tag: string, k: nat, rest: string, r: string)
    requires StartsImg(tag) && IndexOf(tag, '>', 4) == Some(|tag| - 1)
    requires 4 <= k <= |tag| - 1 && rest == tag[k..] && r == LazyOpening + rest
    ensures LoadingTag(r)
  {
    LazyOpeningFacts();
    var n := |LazyOpening|;
    assert r[|r| - 1] == '>';
    forall j | 4 <= j < |r| - 1 ensures r[j] != '>' {
      if j >= n {
        assert r[j] == tag[k + j - n];
        IndexOfSkips(tag, '>', 4, k + j - n);
      } else {
        assert r[j] == LazyOpening[j];
      }
    }
    IndexOfFirst(r, '>', 4, |r| - 1);
    assert At(r, 5, "loading=");
    FindAtMost(r, "loading=", 0, 5);
  }

  /** A tag that declares `loading=` is copied as it is, and the scan goes on after it. */
  lemma {:induction false} LazyOverLoadingTag(t: string, rest: string)
    requires LoadingTag(t)
    ensures LazyLoading(t + rest) == t + LazyLoading(rest)
  {
    var s := t + rest;
    var n := |t|;
    forall j | 4 <= j < n - 1 ensures s[j] != '>' {
      IndexOfSkips(t, '>', 4, j);
    }
    IndexOfFirst(s, '>', 4, n - 1);
    assert ImgTagEnd(s) == Some(n - 1);
    assert s[..n] == t && s[n..] == rest;
  }

  /** The first `>` of `s` at or after `from` is also the first of the prefix that ends with it. */
  lemma {:induction false} IndexOfInPrefix(s: string, c: char, from: nat, g: nat)
    requires from <= |s| && IndexOf(s, c, from) == Some(g)
    ensures IndexOf(s[..g + 1], c, from) == Some(g)
  {
    var t := s[..g + 1];
    forall j | from <= j < g ensures t[j] != c {
      IndexOfSkips(s, c, from, j);
    }
    IndexOfFirst(t, c, from, g);
  }

  /** The scan keeps the first four characters of its input. */
  lemma {:induction false} LazyKeepsStart(x: string, k: nat)
    requires k <= 4 && k <= |x|
    ensures |LazyLoading(x)| >= k && LazyLoading(x)[..k] == x[..k]
    decreases |x|
  {
    if x != [] && k > 0 {
      if ImgTagEnd(x).Some? {
        LazyKeepsTagStart(x, k);
      } else {
        LazyKeepsStart(x[1..], k - 1);
        LazyKeepsStartStep(x, k);
      }
    }
  }

  lemma {:induction false} LazyKeepsTagStart(x: string, k: nat)
    requires 0 < k <= 4 && k <= |x| && ImgTagEnd(x).Some?
    ensures |LazyLoading(x)| >= k && LazyLoading(x)[..k] == x[..k]
  {
    var g := ImgTagEnd(x);
    var tag := x[..g.value + 1];
    IndexOfInPrefix(x, '>', 4, g.value);
    LazyTagShape(tag);
    var t := LazyTag(tag);
    assert t[..k] == x[..k];
    assert LazyLoading(x)[..k] == t[..k];
  }

  lemma {:induction false} LazyKeepsStartStep(x: string, k: nat)
    requires 0 < k <= 4 && k <= |x| && ImgTagEnd(x).None?
    requires |LazyLoading(x[1..])| >= k - 1 && LazyLoading(x[1..])[..k - 1] == x[1..][..k - 1]
    ensures |LazyLoading(x)| >= k && LazyLoading(x)[..k] == x[..k]
  {
    assert LazyLoading(x) == [x[0]] + LazyLoading(x[1..]);
  }

  /** With no `>` past the fourth character there is no tag, and nothing changes. */
  lemma {:induction false} NoCloseUnchanged(x: string)
    requires forall j :: 4 <= j < |x| ==> x[j] != '>'
    ensures LazyLoading(x) == x
    decreases |x|
  {
    if x != [] {
      if |x| >= 4 {
        IndexOfNone(x, '>', 4);
      }
      NoCloseUnchanged(x[1..]);
    }
  }

  /** Fewer than five characters cannot hold a tag. */
  lemma {:induction false} ShortUnchanged(x: string)
    requires |x| < 5
    ensures LazyLoading(x) == x
    decreases |x|
  {
    if x != [] {
      ShortUnchanged(x[1..]);
    }
  }

  /** Adding lazy loading twice is adding it once. */
  lemma {:induction false} LazyLoadingIdempotent(s: string)
    ensures LazyLoading(LazyLoading(s)) == LazyLoading(s)
    decreases |s|
  {
    if s != [] {
      var g := ImgTagEnd(s);
      if g.Some? {
        var tag := s[..g.value + 1];
        var rest := s[g.value + 1..];
        IndexOfInPrefix(s, '>', 4, g.value);
        LazyTagShape(tag);
        LazyOverLoadingTag(LazyTag(tag), LazyLoading(rest));
        LazyLoadingIdempotent(rest);
      } else if StartsImg(s) {
        forall j | 4 <= j < |s| ensures s[j] != '>' {
          IndexOfSkips(s, '>', 4, j);
        }
        NoCloseUnchanged(s);
      } else {
        LazyStepKeepsStart(s);
        LazyLoadingIdempotent(s[1..]);
      }
    }
  }

  /** When `s` does not start with `<img`, neither does its scan. */
  lemma {:induction false} LazyStepKeepsStart(s: string)
    requires |s| > 0 && !StartsImg(s)
    ensures LazyLoading(s) == [s[0]] + LazyLoading(s[1..])
    ensures !StartsImg(LazyLoading(s))
  {
    var u := LazyLoading(s);
    if |s| >= 4 {
      LazyKeepsStart(s, 4);
      assert u[0] == u[..4][0] && u[1] == u[..4][1] && u[2] == u[..4][2] && u[3] == u[..4][3];
    } else {
      ShortUnchanged(s);
    }
  }

  /** No `<img` starts strictly inside an `<img …>` tag that declares
      `loading=`: the only inputs on which the two scans part ways. */
  predicate NoImgInLoadingTag(s: string) {
    forall i :: 0 <= i < |s| && StartsImg(s[i..]) && DeclaresLoadingFrom(s[i..], 4) && ImgTagEnd(s[i..]).Some? ==>
      forall k :: i < k <= i + ImgTagEnd(s[i..]).value ==> !StartsImg(s[k..])
  }

  /** Where no `<img` nests inside a tag that declares `loading=`, the
      corrected scan gives what the script's scan gives. */
  lemma {:induction false} LazyLoadingAgrees(s: string)
    requires NoImgInLoadingTag(s)
    ensures LazyLoading(s) == LazyLoadingAsWritten(s)
    decreases |s|
  {
    if s != [] {
      var g := ImgTagEnd(s);
      if g.Some? && DeclaresLoadingFrom(s, 4) {
        var e := g.value;
        DeclaredTagKept(s, e);
        DeclaredTagSkipped(s, e);
        NoImgInSuffix(s, e + 1);
        LazyLoadingAgrees(s[e + 1..]);
      } else {
        NoImgInSuffix(s, if g.Some? then g.value + 1 else 1);
        LazyLoadingAgrees(s[if g.Some? then g.value + 1 else 1..]);
      }
    }
  }

  /** On a tag that declares `loading=`, the script's scan steps into the
      tag but, finding no `<img` there, copies it whole. */
  lemma {:induction false} DeclaredTagSkipped(s: string, e: nat)
    requires NoImgInLoadingTag(s) && StartsImg(s) && DeclaresLoadingFrom(s, 4) && ImgTagEnd(s) == Some(e)
    ensures LazyLoadingAsWritten(s) == s[..e + 1] + LazyLoadingAsWritten(s[e + 1..])
  {
    var x, y := s[1..e + 1], s[e + 1..];
    NoImgInsideTag(s, e, x, y);
    AsWrittenNoImgPrefix(x, y);
    assert AsWrittenTagEnd(s).None?;
    assert LazyLoadingAsWritten(s) == [s[0]] + LazyLoadingAsWritten(x + y);
    ConsShape(LazyLoadingAsWritten(s), LazyLoadingAsWritten(x + y), LazyLoadingAsWritten(y), s[..e + 1]);
  }

  lemma {:induction false} NoImgInsideTag(s: string, e: nat, x: string, y: string)
    requires NoImgInLoadingTag(s) && StartsImg(s) && DeclaresLoadingFrom(s, 4) && ImgTagEnd(s) == Some(e)
    requires x == s[1..e + 1] && y == s[e + 1..]
    ensures x + y == s[1..]
    ensures forall k :: 0 <= k < |x| ==> !StartsImg((x + y)[k..])
  {
    assert x + y == s[1..];
    assert s[0..] == s;
    forall k | 0 <= k < |x| ensures !StartsImg((x + y)[k..]) {
      assert (x + y)[k..] == s[k + 1..];
    }
  }

  /** The condition holds for every suffix. */
  lemma {:induction false} NoImgInSuffix(s: string, j: nat)
    requires j <= |s| && NoImgInLoadingTag(s)
    ensures NoImgInLoadingTag(s[j..])
  {
    var t := s[j..];
    forall i | 0 <= i < |t| && StartsImg(t[i..]) && DeclaresLoadingFrom(t[i..], 4) && ImgTagEnd(t[i..]).Some?
      ensures forall k :: i < k <= i + ImgTagEnd(t[i..]).value ==> !StartsImg(t[k..])
    {
      assert t[i..] == s[j + i..];
      forall k | i < k <= i + ImgTagEnd(t[i..]).value ensures !StartsImg(t[k..]) {
        assert t[k..] == s[j + k..];
      }
    }
  }

  /** A tag that declares `loading=` before its first `>` holds `loading=`, so the callback keeps it. */
  lemma {:induction false} DeclaredTagKept(s: string, e: nat)
    requires StartsImg(s) && DeclaresLoadingFrom(s, 4) && ImgTagEnd(s) == Some(e)
    ensures LazyTag(s[..e + 1]) == s[..e + 1]
  {
    forall j | 4 <= j < e ensures s[j] != '>' {
      IndexOfSkips(s, '>', 4, j);
    }
    var p := DeclaredAt(s, 4, e);
    assert At(s[..e + 1], p, "loading=") by {
      assert s[..e + 1][p..p + 8] == s[p..p + 8];
    }
    FindAtMost(s[..e + 1], "loading=", 0, p);
  }

  /** Where the lookahead fails before the `>` at `e`, a whole `loading=` lies before it. */
  lemma {:induction false} DeclaredAt(s: string, q: nat, e: nat) returns (p: nat)
    requires 4 <= q <= e < |s| && s[e] == '>' && DeclaresLoadingFrom(s, q)
    requires forall j :: q <= j < e ==> s[j] != '>'
    ensures q <= p && p + 8 <= e && At(s, p, "loading=")
    decreases e - q
  {
    if At(s, q, "loading=") && !IsWordChar(s[q - 1]) {
      p := q;
      forall j | q <= j < q + 8 ensures s[j] != '>' {
        assert s[j] == s[q..q + 8][j - q];
      }
    } else {
      p := DeclaredAt(s, q + 1, e);
    }
  }

  /** Text in which no `<img` starts goes through the as-written scan unchanged. */
  lemma {:induction false} AsWrittenNoImgPrefix(x: string, y: string)
    requires forall k :: 0 <= k < |x| ==> !StartsImg((x + y)[k..])
    ensures LazyLoadingAsWritten(x + y) == x + LazyLoadingAsWritten(y)
    decreases |x|
  {
    if x != [] {
      var s := x + y;
      var x' := x[1..];
      assert s[0..] == s && s[1..] == x' + y;
      assert AsWrittenTagEnd(s).None?;
      forall k | 0 <= k < |x'| ensures !StartsImg((x' + y)[k..]) {
        assert (x' + y)[k..] == s[k + 1..];
      }
      AsWrittenNoImgPrefix(x', y);
      ConsShape(LazyLoadingAsWritten(s), LazyLoadingAsWritten(x' + y), LazyLoadingAsWritten(y), x);
    } else {
      assert x + y == y;
    }
  }

  // ---------------------------------------------------------------------
  // The escaping fallback of the highlighter (build.mjs:155)
  // ---------------------------------------------------------------------

  /** The escape of one character. */
  function EscapeChar(c: char): string
  {
    if c == '&' then "&amp;" else if c == '<' then "&lt;" else if c == '>' then "&gt;" else [c]
  }

  /** `str.replace(/&/g, '&amp;').replace(/</g, '&lt;').replace(/>/g, '&gt;')`;
      the three passes compose into one character-by-character mapping, as
      the later passes do not meet the `&` an earlier one inserted. */
  function EscapeHtml(s: string): string
    decreases |s|
  {
    if s == [] then [] else EscapeChar(s[0]) + EscapeHtml(s[1..])
  }

  /** Reads the three entities `EscapeHtml` writes back as characters. */
  function UnescapeHtml(s: string): string
    decreases |s|
  {
    if s == [] then []
    else if At(s, 0, "&amp;") then "&" + UnescapeHtml(s[5..])
    else if At(s, 0, "&lt;") then "<" + UnescapeHtml(s[4..])
    else if At(s, 0, "&gt;") then ">" + UnescapeHtml(s[4..])
    else [s[0]] + UnescapeHtml(s[1..])
  }

  /** Unescaping reads one escaped character back. */
  lemma {:induction false} UnescapeStep(c: char, tail: string)
    ensures UnescapeHtml(EscapeChar(c) + tail) == [c] + UnescapeHtml(tail)
  {
    var h := EscapeChar(c);
    var e := h + tail;
    assert e[..|h|] == h && e[|h|..] == tail;
    if c == '&' {
      assert At(e, 0, "&amp;");
    } else if c == '<' {
      NotAtChar(e, 0, "&amp;", 1);
      assert At(e, 0, "&lt;");
    } else if c == '>' {
      NotAtChar(e, 0, "&amp;", 1);
      NotAtChar(e, 0, "&lt;", 1);
      assert At(e, 0, "&gt;");
    } else {
      NotAtChar(e, 0, "&amp;", 0);
      NotAtChar(e, 0, "&lt;", 0);
      NotAtChar(e, 0, "&gt;", 0);
    }
  }

  /** Escaped text holds no `<` or `>`, and unescaping gives the code back. */
  lemma {:induction false} EscapeRoundTrip(s: string)
    ensures '<' !in EscapeHtml(s) && '>' !in EscapeHtml(s)
    ensures UnescapeHtml(EscapeHtml(s)) == s
    decreases |s|
  {
    if s != [] {
      EscapeRoundTrip(s[1..]);
      UnescapeStep(s[0], EscapeHtml(s[1..]));
      assert s == [s[0]] + s[1..];
    }
  }
}
