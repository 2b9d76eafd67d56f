/** Metadata extraction: the leading `<!-- key: value -->` comment lines,
    the `---` front-matter block, and how the two maps are merged
    (build.mjs:38-73, 215-222). The two parsers are loops that fill a map,
    as in the script; each is proved equal to a specification function
    whose properties are stated as lemmas. */
module Meta {
  import opened Text

  datatype Entry = Entry(key: string, value: string)

  /** What a parser returns: the remaining text and the key/value map. */
  datatype Parsed = Parsed(content: string, data: map<string, string>)

  // ---------------------------------------------------------------------
  // Comment lines: /^<!--\s*([^:：]+?)\s*[:：]\s*(.*?)\s*-->$/
  // ---------------------------------------------------------------------

  predicate IsColon(c: char) { c == ':' || c == '：' }

  /** The first colon (ASCII or full-width) in `s[from..stop]`. */
  function FirstColon(s: string, from: nat, stop: nat): (r: Option<nat>)
    requires from <= stop <= |s|
    ensures r.Some? ==> from <= r.value < stop && IsColon(s[r.value])
    decreases stop - from
  {
    if from == stop then None
    else if IsColon(s[from]) then Some(from)
    else FirstColon(s, from + 1, stop)
  }

  /** No colon precedes the first one. */
  lemma {:induction false} FirstColonSkips(s: string, from: nat, stop: nat, j: nat)
    requires from <= j < stop <= |s|
    requires FirstColon(s, from, stop).None? || j < FirstColon(s, from, stop).value
    ensures !IsColon(s[j])
    decreases stop - from
  {
    if j > from {
      FirstColonSkips(s, from + 1, stop, j);
    }
  }

  /** Starts with `<!--` and ends with a separate `-->`. */
  predicate IsCommentShaped(line: string) {
    var n := |line|;
    && n >= 7
    && line[0] == '<' && line[1] == '!' && line[2] == '-' && line[3] == '-'
    && line[n - 3] == '-' && line[n - 2] == '-' && line[n - 1] == '>'
  }

  /** Matches one trimmed line against the comment pattern. The key group
      cannot hold a colon, so the colon the pattern uses is the first one
      after `<!--`, and at least one character must precede it; the key is
      what lies between `<!--` and that colon, trimmed and lower-cased (when
      that stretch is all white space the lazy group takes one white-space
      character, which trims to the empty key). The value is what lies
      between the colon and the final `-->`, trimmed; `.` does not cross a
      line terminator, so a value holding one does not match. */
  function MatchCommentLine(line: string): (r: Option<Entry>)
  {
    if IsCommentShaped(line) then
      match FirstColon(line, 4, |line| - 3)
      case None => None
      case Some(c) =>
        if c == 4 then None
        else
          var v := Trim(line[c + 1..|line| - 3]);
          if NoLineTerminator(v) then Some(Entry(ToLower(Trim(line[4..c])), v)) else None
    else None
  }

  /** A matching line is comment-shaped; its key is lower-case and holds no
      colon, and its value is trimmed and on one line. */
  lemma {:induction false} CommentLineFacts(line: string)
    requires MatchCommentLine(line).Some?
    ensures IsCommentShaped(line)
    ensures var e := MatchCommentLine(line).value;
      && (forall i :: 0 <= i < |e.key| ==> !IsAsciiUpper(e.key[i]) && !IsColon(e.key[i]))
      && Trim(e.key) == e.key
      && Trim(e.value) == e.value && NoLineTerminator(e.value)
  {
    var c := FirstColon(line, 4, |line| - 3).value;
    forall i | 0 <= i < c - 4 ensures !IsColon(line[4..c][i]) {
      FirstColonSkips(line, 4, |line| - 3, 4 + i);
    }
    TrimKeyHasNoColon(line[4..c]);
    TrimIdempotent(line[4..c]);
    ToLowerKeepsTrimmed(Trim(line[4..c]));
    TrimIdempotent(line[c + 1..|line| - 3]);
  }

  lemma {:induction false} TrimKeyHasNoColon(s: string)
    requires forall i :: 0 <= i < |s| ==> !IsColon(s[i])
    ensures forall i :: 0 <= i < |Trim(s)| ==> !IsColon(Trim(s)[i])
    ensures forall i :: 0 <= i < |ToLower(Trim(s))| ==> !IsColon(ToLower(Trim(s))[i])
  {
    var k := |s| - |TrimStart(s)|;
    TrimFacts(s);
    forall i | 0 <= i < |Trim(s)| ensures !IsColon(Trim(s)[i]) {
      assert Trim(s)[i] == s[k + i];
    }
  }

  /** A line the scan consumes: blank once trimmed, or a comment line. */
  predicate Consumed(line: string) {
    Trim(line) == "" || MatchCommentLine(Trim(line)).Some?
  }

  /** Which lines the scan may consume. */
  function ConsumedLines(lines: seq<string>): (cs: seq<bool>)
    ensures |cs| == |lines|
  {
    seq(|lines|, j requires 0 <= j < |lines| => Consumed(lines[j]))
  }

  /** Where the scan of the leading lines stops: the first line from `i` on
      that is neither blank nor a comment (or the end). */
  function ScanEnd(cs: seq<bool>, i: nat): (k: nat)
    requires i <= |cs|
    ensures i <= k <= |cs|
    ensures k < |cs| ==> !cs[k]
    decreases |cs| - i
  {
    if i == |cs| || !cs[i] then i else ScanEnd(cs, i + 1)
  }

  /** Every line before the stop is blank or a comment. */
  lemma {:induction false} ScanEndConsumed(cs: seq<bool>, i: nat, j: nat)
    requires i <= j < |cs| && j < ScanEnd(cs, i)
    ensures cs[j]
    decreases |cs| - i
  {
    if j > i {
      ScanEndConsumed(cs, i + 1, j);
    }
  }

  /** Where parseHtmlCommentMeta stops in a document. */
  function CommentEnd(markdown: string): nat
  {
    ScanEnd(ConsumedLines(Lines(markdown)), 0)
  }

  /** The comment entry each line yields once trimmed (`None` for a blank or other line). */
  function CommentEntries(lines: seq<string>): (ms: seq<Option<Entry>>)
    ensures |ms| == |lines|
  {
    seq(|lines|, j requires 0 <= j < |lines| => MatchCommentLine(Trim(lines[j])))
  }

  /** The one key a plain object does not store: `data['__proto__'] = value`
      calls the setter inherited from `Object.prototype`, which ignores a
      string, so the object keeps no own property of that name. */
  const ProtoKey: string := "__proto__"

  /** An entry that `data[key] = value` records as an own property. */
  predicate Stored(m: Option<Entry>) {
    m.Some? && m.value.key != ProtoKey
  }

  /** The map the first `n` entries build when each sets its key in turn,
      so that a later entry overrides an earlier one with the same key, and
      an entry for `__proto__` leaves the map as it was. Both parsers fill
      their map this way. */
  function Collect(ms: seq<Option<Entry>>, n: nat): map<string, string>
    requires n <= |ms|
  {
    if n == 0 then map[]
    else
      var d := Collect(ms, n - 1);
      if Stored(ms[n - 1]) then d[ms[n - 1].value.key := ms[n - 1].value.value] else d
  }

  /** One more entry: it sets its key, unless it is absent or `__proto__`. */
  lemma {:induction false} CollectStep(ms: seq<Option<Entry>>, i: nat, m: Option<Entry>)
    requires i < |ms| && ms[i] == m
    ensures Collect(ms, i + 1) == if Stored(m) then Collect(ms, i)[m.value.key := m.value.value] else Collect(ms, i)
  {
  }

  /** With no stored entry among the first `n`, the map is empty. */
  lemma {:induction false} CollectNothing(ms: seq<Option<Entry>>, n: nat)
    requires n <= |ms|
    requires forall j :: 0 <= j < n ==> !Stored(ms[j])
    ensures Collect(ms, n) == map[]
  {
    if n > 0 {
      CollectNothing(ms, n - 1);
    }
  }

  /** An entry that no later entry overrides is in the map with its value. */
  lemma {:induction false} CollectLastWins(ms: seq<Option<Entry>>, n: nat, j: nat)
    requires j < n <= |ms| && Stored(ms[j])
    requires forall j' :: j < j' < n ==> ms[j'].None? || ms[j'].value.key != ms[j].value.key
    ensures ms[j].value.key in Collect(ms, n)
    ensures Collect(ms, n)[ms[j].value.key] == ms[j].value.value
  {
    if j < n - 1 {
      CollectLastWins(ms, n - 1, j);
    }
  }

  /** Conversely, every key of the map, with its value, comes from an entry
      that no later entry overrides; `__proto__` is never a key. */
  lemma {:induction false} CollectFromEntry(ms: seq<Option<Entry>>, n: nat, key: string) returns (j: nat)
    requires n <= |ms| && key in Collect(ms, n)
    ensures j < n && ms[j] == Some(Entry(key, Collect(ms, n)[key]))
    ensures key != ProtoKey
    ensures forall j' :: j < j' < n ==> ms[j'].None? || ms[j'].value.key != key
  {
    if Stored(ms[n - 1]) && ms[n - 1].value.key == key {
      j := n - 1;
    } else {
      j := CollectFromEntry(ms, n - 1, key);
    }
  }

  /** What parseHtmlCommentMeta returns (build.mjs:38-55): with no comment
      line, the text unchanged and no data; otherwise the lines after the
      scanned prefix, and the collected entries. */
  function CommentMeta(markdown: string): Parsed
  {
    var lines := Lines(markdown);
    var k := CommentEnd(markdown);
    var data := Collect(CommentEntries(lines), k);
    if |data| == 0 then Parsed(markdown, map[]) else Parsed(Join(lines[k..]), data)
  }

  /** parseHtmlCommentMeta (build.mjs:38-55): splits the text into lines,
      scans them, and keeps the text as it was when no comment line was found. */
  method ParseHtmlCommentMeta(markdown: string) returns (content: string, data: map<string, string>)
    ensures Parsed(content, data) == CommentMeta(markdown)
  {
    var lines := Lines(markdown);
    var endIndex;
    data, endIndex := ScanCommentLines(lines);
    if |data| == 0 {
      return markdown, map[];
    }
    content := Join(lines[endIndex..]);
  }

  /** The loop of parseHtmlCommentMeta (build.mjs:42-52): skips blank lines,
      records comment lines, and stops at the first other line; `endIndex`
      is the index just past the last line consumed. */
  method ScanCommentLines(lines: seq<string>) returns (data: map<string, string>, endIndex: nat)
    ensures endIndex == ScanEnd(ConsumedLines(lines), 0)
    ensures data == Collect(CommentEntries(lines), endIndex)
  {
    ghost var ms := CommentEntries(lines);
    ghost var cs := ConsumedLines(lines);
    data := map[];
    endIndex := 0;
    var i := 0;
    while i < |lines|
      invariant i <= |lines| && ScanEnd(cs, i) == ScanEnd(cs, 0)
      invariant endIndex == i
      invariant data == Collect(ms, i)
    {
      var line := Trim(lines[i]);
      if line == "" {
        assert ms[i] == MatchCommentLine(line) == None;
        assert cs[i] && ScanEnd(cs, i) == ScanEnd(cs, i + 1);
        CollectStep(ms, i, None);
        endIndex := i + 1;
        i := i + 1;
        continue;
      }
      var m := MatchCommentLine(line);
      assert ms[i] == m;
      if m.None? {
        assert !cs[i];
        break;
      }
      assert cs[i] && ScanEnd(cs, i) == ScanEnd(cs, i + 1);
      CollectStep(ms, i, m);
      if Stored(m) {
        data := data[m.value.key := m.value.value];
      }
      endIndex := i + 1;
      i := i + 1;
    }
  }

  /** With no comment line before the first other line, the text comes back unchanged with no data. */
  lemma {:induction false} NoCommentNoChange(markdown: string)
    requires forall j :: 0 <= j < CommentEnd(markdown) ==> Trim(Lines(markdown)[j]) == ""
    ensures CommentMeta(markdown) == Parsed(markdown, map[])
  {
    var lines := Lines(markdown);
    var ms := CommentEntries(lines);
    forall j | 0 <= j < CommentEnd(markdown) ensures ms[j].None? {
      assert Trim(lines[j]) == "";
    }
    CollectNothing(ms, CommentEnd(markdown));
  }

  /** Every key of the comment block is the lower-cased, trimmed text of a
      comment line between `<!--` and its first colon; its value is the
      trimmed text after that colon on the last such line with that key. */
  lemma {:induction false} CommentKeysNormalised(markdown: string, key: string)
    requires key in CommentMeta(markdown).data
    ensures forall i :: 0 <= i < |key| ==> !IsAsciiUpper(key[i]) && !IsColon(key[i])
    ensures ToLower(key) == key && Trim(key) == key && key != ProtoKey
    ensures Trim(CommentMeta(markdown).data[key]) == CommentMeta(markdown).data[key]
    ensures NoLineTerminator(CommentMeta(markdown).data[key])
  {
    var lines := Lines(markdown);
    var ms := CommentEntries(lines);
    var j := CollectFromEntry(ms, CommentEnd(markdown), key);
    var m := MatchCommentLine(Trim(lines[j]));
    assert ms[j] == m;
    CommentLineFacts(Trim(lines[j]));
    ToLowerFacts(key);
  }

  /** A comment block whose only keys are `__proto__` stores nothing, so
      the document comes back whole, its comment lines included. */
  lemma {:induction false} ProtoOnlyCommentNoChange(markdown: string)
    requires forall j :: 0 <= j < CommentEnd(markdown) ==> !Stored(CommentEntries(Lines(markdown))[j])
    ensures CommentMeta(markdown) == Parsed(markdown, map[])
  {
    CollectNothing(CommentEntries(Lines(markdown)), CommentEnd(markdown));
  }

  /** `<!-- __proto__: x -->` followed by a heading: the comment is consumed
      by the scan, yet nothing is stored, so the text is returned unchanged. */
  lemma {:induction false} ProtoCommentKept()
    ensures CommentMeta("<!-- __proto__: x -->\n# T") == Parsed("<!-- __proto__: x -->\n# T", map[])
  {
    var md := "<!-- __proto__: x -->\n# T";
    ProtoLines(md);
    ProtoEntries(Lines(md));
    ProtoOnlyCommentNoChange(md);
  }

  lemma {:induction false} ProtoLines(md: string)
    requires md == "<!-- __proto__: x -->\n# T"
    ensures Lines(md) == ["<!-- __proto__: x -->", "# T"]
  {
    var l0, l1 := "<!-- __proto__: x -->", "# T";
    assert JoinWith([l0, l1], "\n") == md;
    SplitJoin([l0, l1], '\n');
  }

  lemma {:induction false} ProtoEntries(lines: seq<string>)
    requires lines == ["<!-- __proto__: x -->", "# T"]
    ensures forall j :: 0 <= j < |lines| ==> !Stored(CommentEntries(lines)[j])
  {
    var ms := CommentEntries(lines);
    ProtoLineMatches();
    assert ms[0] == Some(Entry(ProtoKey, "x"));
    ShortLineNoComment(lines[1]);
    assert ms[1].None?;
  }

  /** A line shorter than `<!--:-->` is no comment line. */
  lemma {:induction false} ShortLineNoComment(line: string)
    requires |line| < 7
    ensures MatchCommentLine(Trim(line)).None?
  {
    TrimFacts(line);
  }

  /** The comment line `<!-- __proto__: x -->` matches, with key `__proto__`. */
  lemma {:induction false} ProtoLineMatches()
    ensures MatchCommentLine(Trim("<!-- __proto__: x -->")) == Some(Entry(ProtoKey, "x"))
  {
    var l := "<!-- __proto__: x -->";
    TrimOfTrimmed(l);
    ProtoLineColon(l);
    ProtoLineParts(l);
    assert ToLower(ProtoKey) == ProtoKey by {
      ToLowerFacts(ProtoKey);
    }
    CommentLineWith(l, 14);
  }

  /** A comment-shaped line whose first colon after `<!--` is at `c > 4`,
      with a one-line value, matches with the trimmed, lower-cased key. */
  lemma {:induction false} CommentLineWith(l: string, c: nat)
    requires IsCommentShaped(l) && 4 < c < |l| - 3
    requires FirstColon(l, 4, |l| - 3) == Some(c)
    requires NoLineTerminator(Trim(l[c + 1..|l| - 3]))
    ensures MatchCommentLine(l) == Some(Entry(ToLower(Trim(l[4..c])), Trim(l[c + 1..|l| - 3])))
  {
  }

  lemma {:induction false} ProtoLineColon(l: string)
    requires l == "<!-- __proto__: x -->"
    ensures FirstColon(l, 4, 18) == Some(14)
  {
    forall j | 4 <= j < 14 ensures !IsColon(l[j]) { }
    FirstColonAt(l, 4, 18, 14);
  }

  lemma {:induction false} ProtoLineParts(l: string)
    requires l == "<!-- __proto__: x -->"
    ensures Trim(l[4..14]) == ProtoKey && Trim(l[15..18]) == "x" && NoLineTerminator("x")
  {
    assert l[4..14] == " __proto__" && l[15..18] == " x ";
    assert TrimStart(" __proto__") == ProtoKey;
    assert TrimStart(" x ") == "x ";
  }

  /** The first colon is at `c` when `s[c]` is one and none comes before it. */
  lemma {:induction false} FirstColonAt(s: string, from: nat, stop: nat, c: nat)
    requires from <= c < stop <= |s| && IsColon(s[c])
    requires forall j :: from <= j < c ==> !IsColon(s[j])
    ensures FirstColon(s, from, stop) == Some(c)
    decreases c - from
  {
    if from < c {
      FirstColonAt(s, from + 1, stop, c);
    }
  }

  /** The remaining content is always a suffix of the document. */
  lemma {:induction false} CommentContentIsSuffix(markdown: string)
    ensures |CommentMeta(markdown).content| <= |markdown|
    ensures CommentMeta(markdown).content == markdown[|markdown| - |CommentMeta(markdown).content|..]
  {
    JoinSplitTail(markdown, '\n', CommentEnd(markdown));
  }

  // ---------------------------------------------------------------------
  // Front matter: /^---\n([\s\S]*?)\n---\n?/
  // ---------------------------------------------------------------------

  /** A front-matter block: its body and the length of the whole match. */
  datatype Block = Block(body: string, len: nat)

  /** The block: `---\n` at the very start, then the shortest body up to the
      first `\n---` (which may be followed by anything), then an optional
      newline. */
  function FrontmatterBlock(s: string): (r: Option<Block>)
    ensures r.Some? ==> At(s, 0, "---\n") && 4 + |r.value.body| + 4 <= r.value.len <= |s|
    ensures r.Some? ==> s[4..4 + |r.value.body|] == r.value.body && At(s, 4 + |r.value.body|, "\n---")
    ensures r.None? ==> !At(s, 0, "---\n") || Find(s, "\n---", 4).None?
  {
    if !At(s, 0, "---\n") then None
    else match Find(s, "\n---", 4)
      case None => None
      case Some(j) =>
        Some(Block(s[4..j], if At(s, j + 4, "\n") then j + 5 else j + 4))
  }

  /** The body is the shortest one: it holds no `\n---` of its own, though it may hold `---` at its start. */
  lemma {:induction false} BodyIsShortest(s: string, p: nat)
    requires FrontmatterBlock(s).Some? && 4 <= p < 4 + |FrontmatterBlock(s).value.body|
    ensures !At(s, p, "\n---")
  {
    FindSkips(s, "\n---", 4, p);
  }

  predicate IsKeyChar(c: char) {
    IsAsciiUpper(c) || IsAsciiLower(c) || IsDigit(c) || c == '_' || c == '-'
  }

  /** End of the run of key characters starting at `i`. */
  function KeyEnd(line: string, i: nat): (k: nat)
    requires i <= |line|
    ensures i <= k <= |line|
    ensures k < |line| ==> !IsKeyChar(line[k])
    decreases |line| - i
  {
    if i < |line| && IsKeyChar(line[i]) then KeyEnd(line, i + 1) else i
  }

  /** Everything `KeyEnd` skips is a key character. */
  lemma {:induction false} KeyEndSkipsKeyChars(line: string, i: nat, j: nat)
    requires i <= j < |line| && j < KeyEnd(line, i)
    ensures IsKeyChar(line[j])
    decreases |line| - i
  {
    if j > i {
      KeyEndSkipsKeyChars(line, i + 1, j);
    }
  }

  /** `value.replace(/^q|q$/g, '')`: drops a leading and a trailing `q`
      (one character at most at each end; a lone `q` goes once). */
  function StripQuote(v: string, q: char): (r: string)
  {
    var v1 := if |v| > 0 && v[0] == q then v[1..] else v;
    if |v1| > 0 && v1[|v1| - 1] == q then v1[..|v1| - 1] else v1
  }

  /** Both quote kinds, double quotes first, as the script does. */
  function Unquote(v: string): string {
    StripQuote(StripQuote(v, '"'), '\'')
  }

  predicate Unquoted(x: string) {
    x == [] || (x[0] != '"' && x[0] != '\'' && x[|x| - 1] != '"' && x[|x| - 1] != '\'')
  }

  /** A value wrapped in either kind of quote loses exactly its quotes; an unquoted value is kept. */
  lemma {:induction false} UnquoteRoundTrip(x: string)
    requires Unquoted(x)
    ensures Unquote(x) == x
    ensures Unquote("\"" + x + "\"") == x
    ensures Unquote("'" + x + "'") == x
  {
    StripWrapped(x, '"');
    StripWrapped(x, '\'');
    var d := "\"" + x + "\"";
    var q := "'" + x + "'";
    assert d[0] == '"' && d[|d| - 1] == '"' && q[0] == '\'' && q[|q| - 1] == '\'';
  }

  lemma {:induction false} StripWrapped(x: string, q: char)
    ensures StripQuote([q] + x + [q], q) == x
  {
    var w := [q] + x + [q];
    assert w[1..] == x + [q];
    assert (x + [q])[..|x|] == x;
  }

  /** Matches one front-matter line against /^([A-Za-z0-9_\-]+):\s*(.*)$/:
      the key is the maximal run of key characters at the start and must be
      followed by `:`; after the white space that follows, the rest of the
      line must hold no line terminator (so a line ending in `\r` is
      dropped). The value is that rest, trimmed and unquoted. */
  function MatchFrontmatterLine(line: string): (r: Option<Entry>)
    ensures r.Some? ==> 1 <= |r.value.key| < |line| && r.value.key == line[..|r.value.key|]
    ensures r.Some? ==> line[|r.value.key|] == ':'
    ensures r.Some? ==> |r.value.key| == KeyEnd(line, 0)
  {
    var k := KeyEnd(line, 0);
    if k >= 1 && k < |line| && line[k] == ':' then
      var v := TrimStart(line[k + 1..]);
      if NoLineTerminator(v) then Some(Entry(line[..k], Unquote(Trim(v)))) else None
    else None
  }

  /** The front-matter entry each body line yields. */
  function FrontmatterEntries(lines: seq<string>): (ms: seq<Option<Entry>>)
    ensures |ms| == |lines|
  {
    seq(|lines|, j requires 0 <= j < |lines| => MatchFrontmatterLine(lines[j]))
  }

  /** What parseFrontmatter returns (build.mjs:57-73). */
  function Frontmatter(markdown: string): Parsed
  {
    match FrontmatterBlock(markdown)
    case None => Parsed(markdown, map[])
    case Some(b) =>
      var lines := Lines(b.body);
      Parsed(markdown[b.len..], Collect(FrontmatterEntries(lines), |lines|))
  }

  /** parseFrontmatter (build.mjs:57-73): finds the block, collects its
      lines, and returns the text after it. */
  method ParseFrontmatter(markdown: string) returns (content: string, data: map<string, string>)
    ensures Parsed(content, data) == Frontmatter(markdown)
  {
    var block := FrontmatterBlock(markdown);
    if block.None? {
      return markdown, map[];
    }
    var rest := markdown[block.value.len..];
    data := CollectFrontmatterLines(Lines(block.value.body));
    content := rest;
  }

  /** The `forEach` of parseFrontmatter (build.mjs:63-69): each matching line sets its key in turn. */
  method CollectFrontmatterLines(lines: seq<string>) returns (data: map<string, string>)
    ensures data == Collect(FrontmatterEntries(lines), |lines|)
  {
    ghost var ms := FrontmatterEntries(lines);
    data := map[];
    for i := 0 to |lines|
      invariant data == Collect(ms, i)
    {
      var m := MatchFrontmatterLine(lines[i]);
      CollectStep(ms, i, m);
      if Stored(m) {
        data := data[m.value.key := m.value.value];
      }
    }
  }

  /** Without the opening `---\n` and a closing `\n---`, nothing is consumed and there is no data. */
  lemma {:induction false} NoBlockNoChange(markdown: string)
    requires !At(markdown, 0, "---\n") || Find(markdown, "\n---", 4).None?
    ensures Frontmatter(markdown) == Parsed(markdown, map[])
  {
  }

  /** On a match, the content is the suffix after the block. */
  lemma {:induction false} BlockContentIsSuffix(markdown: string)
    requires FrontmatterBlock(markdown).Some?
    ensures Frontmatter(markdown).content == markdown[FrontmatterBlock(markdown).value.len..]
    ensures |Frontmatter(markdown).content| <= |markdown| - 8
  {
  }

  /** Every front-matter key is a non-empty run of `[A-Za-z0-9_-]` that
      starts one of the body lines and is followed there by a colon, and
      is not `__proto__`. */
  lemma {:induction false} FrontmatterKeysWellFormed(markdown: string, key: string) returns (line: string)
    requires key in Frontmatter(markdown).data
    ensures FrontmatterBlock(markdown).Some? && line in Lines(FrontmatterBlock(markdown).value.body)
    ensures |key| >= 1 && forall i :: 0 <= i < |key| ==> IsKeyChar(key[i])
    ensures key != ProtoKey
    ensures |key| < |line| && line[..|key|] == key && line[|key|] == ':'
  {
    var b := FrontmatterBlock(markdown).value;
    var lines := Lines(b.body);
    var ms := FrontmatterEntries(lines);
    var j := CollectFromEntry(ms, |lines|, key);
    line := lines[j];
    var m := MatchFrontmatterLine(line);
    assert ms[j] == m;
    forall i | 0 <= i < |key| ensures IsKeyChar(key[i]) {
      KeyEndSkipsKeyChars(line, 0, i);
    }
  }

  /** Neither parser ever yields `__proto__` as a key. */
  lemma {:induction false} ProtoKeyNeverStored(markdown: string)
    ensures ProtoKey !in CommentMeta(markdown).data
    ensures ProtoKey !in Frontmatter(markdown).data
  {
    var lines := Lines(markdown);
    if ProtoKey in CommentMeta(markdown).data {
      var j := CollectFromEntry(CommentEntries(lines), CommentEnd(markdown), ProtoKey);
    }
    if ProtoKey in Frontmatter(markdown).data {
      var b := FrontmatterBlock(markdown).value;
      var j := CollectFromEntry(FrontmatterEntries(Lines(b.body)), |Lines(b.body)|, ProtoKey);
    }
  }

  // ---------------------------------------------------------------------
  // Merging and privacy (build.mjs:215-222)
  // ---------------------------------------------------------------------

  /** `{ ...fm, ...comment }`: every key of either map, the comment value winning on a collision. */
  function Merge(fm: map<string, string>, comment: map<string, string>): (r: map<string, string>)
    ensures r.Keys == fm.Keys + comment.Keys
    ensures forall k :: k in comment ==> r[k] == comment[k]
    ensures forall k :: k in fm && k !in comment ==> r[k] == fm[k]
  {
    fm + comment
  }

  /** `data.private === 'true'`: metadata values are strings, so only the exact text `true` hides a document. */
  predicate IsPrivate(data: map<string, string>) {
    "private" in data && data["private"] == "true"
  }

  /** The text after both blocks and the merged metadata of a document (build.mjs:215-217, 224). */
  function ExtractMetadata(markdown: string): (r: Parsed)
  {
    var c := CommentMeta(markdown);
    var f := Frontmatter(c.content);
    Parsed(f.content, Merge(f.data, c.data))
  }

  /** A document with neither block has no metadata and keeps all of its text. */
  lemma {:induction false} NoMetadataNoChange(markdown: string)
    requires forall j :: 0 <= j < CommentEnd(markdown) ==> Trim(Lines(markdown)[j]) == ""
    requires !At(markdown, 0, "---\n")
    ensures ExtractMetadata(markdown) == Parsed(markdown, map[])
  {
    NoCommentNoChange(markdown);
  }

  /** Privacy is decided by the comment block when it names `private`, and by the front matter otherwise. */
  lemma {:induction false} PrivacyPrecedence(markdown: string)
    ensures var c := CommentMeta(markdown);
            var f := Frontmatter(c.content);
            IsPrivate(ExtractMetadata(markdown).data) <==>
              if "private" in c.data then c.data["private"] == "true" else IsPrivate(f.data)
  {
  }
}
