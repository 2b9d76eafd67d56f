/** Strings as the build script sees them: JavaScript's white-space class
    (what `\s` matches and `trim()` removes), line splitting and joining,
    substring search, decimal rendering of counters, and the two ways a
    placeholder can be replaced (JavaScript's `String.prototype.replace`
    with a string replacement, which expands `$` patterns, and verbatim). */
module Text {

  datatype Option<T> = None | Some(value: T)

  // ---------------------------------------------------------------------
  // Character classes
  // ---------------------------------------------------------------------

  /** JavaScript line terminators: `.` does not match these. */
  predicate IsLineTerminator(c: char) {
    c == '\n' || c == '\r' || c == '\U{2028}' || c == '\U{2029}'
  }

  /** JavaScript white space and line terminators: the class `\s`, and what `trim()` removes. */
  predicate IsSpace(c: char) {
    || IsLineTerminator(c)
    || c == ' ' || c == '\t' || c == '\U{000B}' || c == '\U{000C}'
    || c == '\U{00A0}' || c == '\U{1680}' || ('\U{2000}' <= c <= '\U{200A}')
    || c == '\U{202F}' || c == '\U{205F}' || c == '\U{3000}' || c == '\U{FEFF}'
  }

  predicate IsAsciiUpper(c: char) { 'A' <= c <= 'Z' }
  predicate IsAsciiLower(c: char) { 'a' <= c <= 'z' }
  predicate IsDigit(c: char) { '0' <= c <= '9' }

  /** The regular-expression word characters, used by `\b`. */
  predicate IsWordChar(c: char) {
    IsAsciiUpper(c) || IsAsciiLower(c) || IsDigit(c) || c == '_'
  }

  predicate NoLineTerminator(s: string) {
    forall i :: 0 <= i < |s| ==> !IsLineTerminator(s[i])
  }

  // ---------------------------------------------------------------------
  // trim()
  // ---------------------------------------------------------------------

  /** The end of the run of white space that starts at `i` (what `\s*` matches there). */
  function SkipSpaces(s: string, i: nat): (k: nat)
    requires i <= |s|
    ensures i <= k <= |s|
    decreases |s| - i
  {
    if i < |s| && IsSpace(s[i]) then SkipSpaces(s, i + 1) else i
  }

  /** The run `SkipSpaces` passes is white space, and it stops at a character that is not. */
  lemma {:induction false} SkipSpacesFacts(s: string, i: nat)
    requires i <= |s|
    ensures forall j :: i <= j < SkipSpaces(s, i) ==> IsSpace(s[j])
    ensures SkipSpaces(s, i) < |s| ==> !IsSpace(s[SkipSpaces(s, i)])
    decreases |s| - i
  {
    if i < |s| && IsSpace(s[i]) {
      SkipSpacesFacts(s, i + 1);
    }
  }

  /** The end of the run of `c` that starts at `i`. */
  function RunEnd(s: string, c: char, i: nat): (k: nat)
    requires i <= |s|
    ensures i <= k <= |s|
    decreases |s| - i
  {
    if i < |s| && s[i] == c then RunEnd(s, c, i + 1) else i
  }

  /** `RunEnd` stops at a character that is not `c`. */
  lemma {:induction false} RunEndStops(s: string, c: char, i: nat)
    requires i <= |s|
    ensures RunEnd(s, c, i) < |s| ==> s[RunEnd(s, c, i)] != c
    decreases |s| - i
  {
    if i < |s| && s[i] == c {
      RunEndStops(s, c, i + 1);
    }
  }

  /** Drops the leading white space (`trimStart()`). */
  function TrimStart(s: string): string
  {
    if |s| > 0 && IsSpace(s[0]) then TrimStart(s[1..]) else s
  }

  /** Drops the trailing white space (`trimEnd()`). */
  function TrimEnd(s: string): string
  {
    if |s| > 0 && IsSpace(s[|s| - 1]) then TrimEnd(s[..|s| - 1]) else s
  }

  /** `String.prototype.trim`: drops the white space at both ends. */
  function Trim(s: string): string
  {
    TrimEnd(TrimStart(s))
  }

  /** `TrimStart` keeps a suffix that does not start with white space, after a run of white space. */
  lemma {:induction false} TrimStartFacts(s: string)
    ensures |TrimStart(s)| <= |s| && TrimStart(s) == s[|s| - |TrimStart(s)|..]
    ensures TrimStart(s) == [] || !IsSpace(TrimStart(s)[0])
    ensures forall j :: 0 <= j < |s| - |TrimStart(s)| ==> IsSpace(s[j])
  {
    if |s| > 0 && IsSpace(s[0]) {
      TrimStartFacts(s[1..]);
      forall j | 1 <= j < |s| - |TrimStart(s)| ensures IsSpace(s[j]) {
        assert s[1..][j - 1] == s[j];
      }
    }
  }

  /** `TrimEnd` keeps a prefix that does not end with white space, before a run of white space. */
  lemma {:induction false} TrimEndFacts(s: string)
    ensures |TrimEnd(s)| <= |s| && TrimEnd(s) == s[..|TrimEnd(s)|]
    ensures TrimEnd(s) == [] || !IsSpace(TrimEnd(s)[|TrimEnd(s)| - 1])
    ensures forall j :: |TrimEnd(s)| <= j < |s| ==> IsSpace(s[j])
  {
    if |s| > 0 && IsSpace(s[|s| - 1]) {
      TrimEndFacts(s[..|s| - 1]);
    }
  }

  /** The trimmed text is the infix of `s` that follows the leading white
      space; it neither starts nor ends with white space. */
  lemma {:induction false} TrimFacts(s: string)
    ensures |Trim(s)| <= |TrimStart(s)| <= |s|
    ensures Trim(s) == s[|s| - |TrimStart(s)|..|s| - |TrimStart(s)| + |Trim(s)|]
    ensures Trim(s) == [] || (!IsSpace(Trim(s)[0]) && !IsSpace(Trim(s)[|Trim(s)| - 1]))
  {
    var t := TrimStart(s);
    TrimStartFacts(s);
    TrimEndFacts(t);
    if |Trim(s)| > 0 {
      assert Trim(s)[0] == t[0];
    }
  }

  /** A string without leading or trailing white space is its own trim. */
  lemma {:induction false} TrimOfTrimmed(s: string)
    requires s == [] || (!IsSpace(s[0]) && !IsSpace(s[|s| - 1]))
    ensures Trim(s) == s
  {
  }

  /** Trimming twice is trimming once. */
  lemma {:induction false} TrimIdempotent(s: string)
    ensures Trim(Trim(s)) == Trim(s)
  {
    TrimFacts(s);
    TrimOfTrimmed(Trim(s));
  }

  /** Every character of a trimmed string comes from the original. */
  lemma {:induction false} TrimKeepsChars(s: string, c: char)
    requires c in Trim(s)
    ensures c in s
  {
    var r := Trim(s);
    var k := |s| - |TrimStart(s)|;
    TrimFacts(s);
    var i :| 0 <= i < |r| && r[i] == c;
    assert s[k + i] == c;
  }

  // ---------------------------------------------------------------------
  // toLowerCase()
  // ---------------------------------------------------------------------

  function LowerChar(c: char): (r: char)
    ensures IsAsciiUpper(c) ==> IsAsciiLower(r)
    ensures !IsAsciiUpper(r)
  {
    if IsAsciiUpper(c) then (c as int + 32) as char else c
  }

  /** `String.prototype.toLowerCase` on the ASCII letters; every other character is kept. */
  function ToLower(s: string): (r: string)
    ensures |r| == |s|
  {
    seq(|s|, i requires 0 <= i < |s| => LowerChar(s[i]))
  }

  /** Lower-casing leaves no ASCII capital, and text without one is its own lower case. */
  lemma {:induction false} ToLowerFacts(s: string)
    ensures forall i :: 0 <= i < |s| ==> !IsAsciiUpper(ToLower(s)[i])
    ensures (forall i :: 0 <= i < |s| ==> !IsAsciiUpper(s[i])) ==> ToLower(s) == s
  {
  }

  /** Lower-casing keeps a trimmed text trimmed: no letter is white space. */
  lemma {:induction false} ToLowerKeepsTrimmed(t: string)
    requires Trim(t) == t
    ensures Trim(ToLower(t)) == ToLower(t)
  {
    TrimFacts(t);
    if t != [] {
      LowerCharKeepsSpace(t[0]);
      LowerCharKeepsSpace(t[|t| - 1]);
    }
    TrimOfTrimmed(ToLower(t));
  }

  /** A character is white space exactly when its lower case is. */
  lemma {:induction false} LowerCharKeepsSpace(c: char)
    ensures IsSpace(LowerChar(c)) == IsSpace(c)
  {
  }

  // ---------------------------------------------------------------------
  // split('\n') and join('\n')
  // ---------------------------------------------------------------------

  /** Index of the first occurrence of `c` in `s` at or after `from`. */
  function IndexOf(s: string, c: char, from: nat): (r: Option<nat>)
    requires from <= |s|
    ensures r.Some? ==> from <= r.value < |s| && s[r.value] == c
    decreases |s| - from
  {
    if from == |s| then None
    else if s[from] == c then Some(from)
    else IndexOf(s, c, from + 1)
  }

  /** `IndexOf` finds the first occurrence: `c` does not occur before it, nor at all when it fails. */
  lemma {:induction false} IndexOfSkips(s: string, c: char, from: nat, j: nat)
    requires from <= j < |s|
    requires IndexOf(s, c, from).None? || j < IndexOf(s, c, from).value
    ensures s[j] != c
    decreases |s| - from
  {
    if j > from {
      IndexOfSkips(s, c, from + 1, j);
    }
  }

  /** `s.split(sep)` for a one-character separator: the pieces between the
      separators; there is one more piece than there are separators. */
  function Split(s: string, sep: char): (r: seq<string>)
    ensures |r| >= 1
    decreases |s|
  {
    match IndexOf(s, sep, 0)
    case None => [s]
    case Some(i) => [s[..i]] + Split(s[i + 1..], sep)
  }

  /** `parts.join(sep)`. */
  function JoinWith(parts: seq<string>, sep: string): string
  {
    if |parts| == 0 then ""
    else if |parts| == 1 then parts[0]
    else parts[0] + sep + JoinWith(parts[1..], sep)
  }

  /** `s.split('\n')`. */
  function Lines(s: string): seq<string> {
    Split(s, '\n')
  }

  /** `lines.join('\n')`. */
  function Join(lines: seq<string>): string {
    JoinWith(lines, "\n")
  }

  /** Joining one more piece appends the separator and the piece. */
  lemma {:induction false} JoinWithSnoc(parts: seq<string>, x: string, sep: string)
    requires |parts| >= 1
    ensures JoinWith(parts + [x], sep) == JoinWith(parts, sep) + sep + x
    decreases |parts|
  {
    var p := parts + [x];
    if |parts| == 1 {
      assert p[1..] == [x];
    } else {
      assert p[1..] == parts[1..] + [x];
      JoinWithSnoc(parts[1..], x, sep);
      Regroup4(parts[0], sep, JoinWith(parts[1..], sep), x);
    }
  }

  lemma {:induction false} Regroup4(a: string, sep: string, m: string, x: string)
    ensures a + sep + (m + sep + x) == a + sep + m + sep + x
  {
  }

  /** No piece holds the separator. */
  lemma {:induction false} SplitHasNoSeparator(s: string, sep: char, k: nat)
    requires k < |Split(s, sep)|
    ensures sep !in Split(s, sep)[k]
    decreases |s|
  {
    var r := IndexOf(s, sep, 0);
    if r.None? {
      forall j | 0 <= j < |s| ensures s[j] != sep {
        IndexOfSkips(s, sep, 0, j);
      }
    } else if k == 0 {
      forall j | 0 <= j < r.value ensures s[j] != sep {
        IndexOfSkips(s, sep, 0, j);
      }
      assert Split(s, sep)[0] == s[..r.value];
    } else {
      var rest := Split(s[r.value + 1..], sep);
      assert Split(s, sep) == [s[..r.value]] + rest;
      SplitHasNoSeparator(s[r.value + 1..], sep, k - 1);
      assert Split(s, sep)[k] == rest[k - 1];
    }
  }

  /** Splitting and joining with the same separator gives the text back. */
  lemma {:induction false} JoinSplit(s: string, sep: char)
    ensures JoinWith(Split(s, sep), [sep]) == s
    decreases |s|
  {
    match IndexOf(s, sep, 0)
    case None =>
    case Some(i) =>
      JoinSplit(s[i + 1..], sep);
      assert s == s[..i] + [sep] + s[i + 1..];
  }

  /** Joining pieces free of the separator and splitting again gives the pieces back. */
  lemma {:induction false} SplitJoin(parts: seq<string>, sep: char)
    requires |parts| >= 1
    requires forall k :: 0 <= k < |parts| ==> sep !in parts[k]
    ensures Split(JoinWith(parts, [sep]), sep) == parts
    decreases |parts|
  {
    var s := JoinWith(parts, [sep]);
    var p := parts[0];
    if |parts| == 1 {
      IndexOfNone(p, sep, 0);
    } else {
      var rest := JoinWith(parts[1..], [sep]);
      assert s == p + [sep] + rest;
      IndexOfFirst(s, sep, 0, |p|);
      assert s[..|p|] == p && s[|p| + 1..] == rest;
      SplitJoin(parts[1..], sep);
    }
  }

  /** An occurrence with none before it is the one `IndexOf` returns. */
  lemma {:induction false} IndexOfFirst(s: string, c: char, from: nat, j: nat)
    requires from <= j < |s| && s[j] == c
    requires forall k :: from <= k < j ==> s[k] != c
    ensures IndexOf(s, c, from) == Some(j)
    decreases j - from
  {
    if from < j {
      IndexOfFirst(s, c, from + 1, j);
    }
  }

  /** Without an occurrence, `IndexOf` fails. */
  lemma {:induction false} IndexOfNone(s: string, c: char, from: nat)
    requires from <= |s|
    requires forall k :: from <= k < |s| ==> s[k] != c
    ensures IndexOf(s, c, from).None?
    decreases |s| - from
  {
    if from < |s| {
      IndexOfNone(s, c, from + 1);
    }
  }

  /** Joining any tail of the pieces of `s` gives a suffix of `s`. */
  lemma {:induction false} JoinSplitTail(s: string, sep: char, k: nat)
    requires k <= |Split(s, sep)|
    ensures |JoinWith(Split(s, sep)[k..], [sep])| <= |s|
    ensures JoinWith(Split(s, sep)[k..], [sep]) == s[|s| - |JoinWith(Split(s, sep)[k..], [sep])|..]
    decreases |s|
  {
    if k == 0 {
      JoinSplit(s, sep);
    } else {
      match IndexOf(s, sep, 0)
      case None =>
        assert Split(s, sep)[k..] == [];
      case Some(i) =>
        var rest := s[i + 1..];
        assert Split(s, sep)[k..] == Split(rest, sep)[k - 1..];
        JoinSplitTail(rest, sep, k - 1);
    }
  }

  // ---------------------------------------------------------------------
  // Substring search
  // ---------------------------------------------------------------------

  /** `p` occurs in `s` at index `i`. */
  predicate At(s: string, i: nat, p: string) {
    i + |p| <= |s| && s[i..i + |p|] == p
  }

  /** The leftmost occurrence of `p` in `s` at or after `from`: `s.indexOf(p, from)`. */
  function Find(s: string, p: string, from: nat): (r: Option<nat>)
    ensures r.Some? ==> from <= r.value && At(s, r.value, p)
    decreases |s| - from
  {
    if from + |p| > |s| then None
    else if s[from..from + |p|] == p then Some(from)
    else Find(s, p, from + 1)
  }

  /** `Find` returns the leftmost occurrence: there is none before it, and none at all when it fails. */
  lemma {:induction false} FindSkips(s: string, p: string, from: nat, j: nat)
    requires from <= j
    requires Find(s, p, from).None? || j < Find(s, p, from).value
    ensures !At(s, j, p)
    decreases |s| - from
  {
    if from + |p| <= |s| && s[from..from + |p|] != p && j > from {
      FindSkips(s, p, from + 1, j);
    }
  }

  /** `s.includes(p)`. */
  predicate Contains(s: string, p: string) {
    Find(s, p, 0).Some?
  }

  /** `s.replace(/a/g, b)` for single characters. */
  function ReplaceChar(s: string, a: char, b: char): (r: string)
    ensures |r| == |s|
    ensures forall i :: 0 <= i < |s| ==> r[i] == (if s[i] == a then b else s[i])
    ensures a != b ==> a !in r
  {
    seq(|s|, i requires 0 <= i < |s| => if s[i] == a then b else s[i])
  }

  // ---------------------------------------------------------------------
  // Decimal rendering of counters
  // ---------------------------------------------------------------------

  function DigitChar(d: nat): (c: char)
    requires d < 10
    ensures IsDigit(c)
  {
    ('0' as int + d) as char
  }

  /** The decimal text of `n`, as a template literal renders a number. */
  function NatToString(n: nat): (r: string)
    ensures |r| >= 1
    ensures forall i :: 0 <= i < |r| ==> IsDigit(r[i])
    ensures n >= 10 <==> |r| >= 2
    ensures |r| >= 2 ==> r[0] != '0'
  {
    if n < 10 then [DigitChar(n)] else NatToString(n / 10) + [DigitChar(n % 10)]
  }

  /** Reads a string of decimal digits back as a number. */
  function DigitsValue(s: string): int
    requires forall i :: 0 <= i < |s| ==> IsDigit(s[i])
  {
    if |s| == 0 then 0 else 10 * DigitsValue(s[..|s| - 1]) + (s[|s| - 1] as int - '0' as int)
  }

  /** Decimal rendering is injective: its text reads back as the number. */
  lemma {:induction false} NatToStringValue(n: nat)
    ensures DigitsValue(NatToString(n)) == n
  {
    if n >= 10 {
      NatToStringValue(n / 10);
      var r := NatToString(n);
      assert r[..|r| - 1] == NatToString(n / 10);
    }
  }

  // ---------------------------------------------------------------------
  // Replacing a placeholder
  // ---------------------------------------------------------------------

  /** How the replacement text is inserted: `JsPatterns` is what
      `String.prototype.replace` does with a string replacement (it expands
      `$$`, `$&`, `` $` `` and `$'`); `Verbatim` inserts the text as it is. */
  datatype ReplaceMode = JsPatterns | Verbatim

  /** The replacement text JavaScript inserts for one match (the abstract
      operation GetSubstitution with no capture groups): `$$` is `$`, `$&` the
      matched text, `` $` `` the text before the match, `$'` the text after it;
      any other `$` stays as it is. */
  function Expand(rep: string, matched: string, before: string, after: string): string
    decreases |rep|
  {
    if |rep| == 0 then ""
    else if rep[0] == '$' && |rep| >= 2 && rep[1] == '$' then "$" + Expand(rep[2..], matched, before, after)
    else if rep[0] == '$' && |rep| >= 2 && rep[1] == '&' then matched + Expand(rep[2..], matched, before, after)
    else if rep[0] == '$' && |rep| >= 2 && rep[1] == '`' then before + Expand(rep[2..], matched, before, after)
    else if rep[0] == '$' && |rep| >= 2 && rep[1] == '\'' then after + Expand(rep[2..], matched, before, after)
    else [rep[0]] + Expand(rep[1..], matched, before, after)
  }

  /** Without a `$`, JavaScript's expansion inserts the replacement unchanged. */
  lemma {:induction false} ExpandWithoutDollar(rep: string, matched: string, before: string, after: string)
    requires '$' !in rep
    ensures Expand(rep, matched, before, after) == rep
    decreases |rep|
  {
    if |rep| > 0 {
      ExpandWithoutDollar(rep[1..], matched, before, after);
    }
  }

  /** Text without a `$` in front of the rest is inserted as it is. */
  lemma {:induction false} ExpandPlainPrefix(x: string, rest: string, matched: string, before: string, after: string)
    requires '$' !in x
    ensures Expand(x + rest, matched, before, after) == x + Expand(rest, matched, before, after)
    decreases |x|
  {
    if x == [] {
      assert x + rest == rest;
    } else {
      assert (x + rest)[1..] == x[1..] + rest;
      ExpandPlainPrefix(x[1..], rest, matched, before, after);
    }
  }

  /** A `$'` in the replacement brings in the text after the match. */
  lemma {:induction false} ExpandAfterPattern(x: string, y: string, matched: string, before: string, after: string)
    requires '$' !in x && '$' !in y
    ensures Expand(x + "$'" + y, matched, before, after) == x + after + y
  {
    assert x + "$'" + y == x + ("$'" + y);
    ExpandPlainPrefix(x, "$'" + y, matched, before, after);
    assert ("$'" + y)[2..] == y;
    ExpandWithoutDollar(y, matched, before, after);
  }

  /** The text inserted for a match of `pat` at index `i` of `s`. */
  function Substitute(s: string, i: nat, pat: string, rep: string, mode: ReplaceMode): string
    requires At(s, i, pat)
  {
    match mode
    case Verbatim => rep
    case JsPatterns => Expand(rep, pat, s[..i], s[i + |pat|..])
  }

  /** `s.replace(/pat/g, rep)` from index `from` on: the matcher tries each
      position in turn; a match is replaced and the scan resumes after it,
      any other character is copied. */
  function ReplaceAllFrom(s: string, pat: string, rep: string, mode: ReplaceMode, from: nat): string
    requires |pat| > 0 && from <= |s|
    decreases |s| - from
  {
    if from == |s| then []
    else if At(s, from, pat) then Substitute(s, from, pat, rep, mode) + ReplaceAllFrom(s, pat, rep, mode, from + |pat|)
    else [s[from]] + ReplaceAllFrom(s, pat, rep, mode, from + 1)
  }

  /** `s.replace(/pat/g, rep)` for a literal pattern. */
  function ReplaceAll(s: string, pat: string, rep: string, mode: ReplaceMode): string
    requires |pat| > 0
  {
    ReplaceAllFrom(s, pat, rep, mode, 0)
  }

  /** A stretch in which no occurrence begins is copied as it is. */
  lemma {:induction false} CopyUntil(s: string, pat: string, rep: string, mode: ReplaceMode, from: nat, i: nat)
    requires |pat| > 0 && from <= i <= |s|
    requires forall j :: from <= j < i ==> !At(s, j, pat)
    ensures ReplaceAllFrom(s, pat, rep, mode, from) == s[from..i] + ReplaceAllFrom(s, pat, rep, mode, i)
    decreases i - from
  {
    if from < i {
      CopyUntil(s, pat, rep, mode, from + 1, i);
      CopyStep(s, pat, rep, mode, from, i);
    }
  }

  lemma {:induction false} CopyStep(s: string, pat: string, rep: string, mode: ReplaceMode, from: nat, i: nat)
    requires |pat| > 0 && from < i <= |s| && !At(s, from, pat)
    requires ReplaceAllFrom(s, pat, rep, mode, from + 1) == s[from + 1..i] + ReplaceAllFrom(s, pat, rep, mode, i)
    ensures ReplaceAllFrom(s, pat, rep, mode, from) == s[from..i] + ReplaceAllFrom(s, pat, rep, mode, i)
  {
    var tail := ReplaceAllFrom(s, pat, rep, mode, i);
    assert ReplaceAllFrom(s, pat, rep, mode, from) == [s[from]] + ReplaceAllFrom(s, pat, rep, mode, from + 1);
    assert s[from..i] == [s[from]] + s[from + 1..i];
    assert [s[from]] + (s[from + 1..i] + tail) == ([s[from]] + s[from + 1..i]) + tail;
  }

  /** A text without the placeholder comes through unchanged. */
  lemma {:induction false} ReplaceAllAbsent(s: string, pat: string, rep: string, mode: ReplaceMode)
    requires |pat| > 0 && Find(s, pat, 0).None?
    ensures ReplaceAll(s, pat, rep, mode) == s
  {
    forall j | 0 <= j < |s| ensures !At(s, j, pat) {
      FindSkips(s, pat, 0, j);
    }
    CopyUntil(s, pat, rep, mode, 0, |s|);
  }

  /** A placeholder occurring exactly once, at the end of `a`, is replaced by what the mode inserts for it. */
  lemma {:induction false} ReplaceOnce(a: string, pat: string, b: string, rep: string, mode: ReplaceMode)
    requires |pat| > 0
    requires Find(a + pat + b, pat, 0) == Some(|a|)
    requires Find(b, pat, 0).None?
    ensures ReplaceAll(a + pat + b, pat, rep, mode) == a + Substitute(a + pat + b, |a|, pat, rep, mode) + b
  {
    var s := a + pat + b;
    var k := |a| + |pat|;
    assert s[k..] == b;
    NoMatchInSuffix(s, pat, k, b);
    ReplaceSingle(s, pat, rep, mode, |a|);
    assert s[..|a|] == a;
  }

  lemma {:induction false} ReplaceSingle(s: string, pat: string, rep: string, mode: ReplaceMode, i: nat)
    requires |pat| > 0 && Find(s, pat, 0) == Some(i) && Find(s, pat, i + |pat|).None?
    ensures ReplaceAll(s, pat, rep, mode) == s[..i] + Substitute(s, i, pat, rep, mode) + s[i + |pat|..]
  {
    ReplaceHead(s, pat, rep, mode, i);
    ReplaceTail(s, pat, rep, mode, i);
    Join3(ReplaceAll(s, pat, rep, mode), s[..i], ReplaceAllFrom(s, pat, rep, mode, i),
          Substitute(s, i, pat, rep, mode), ReplaceAllFrom(s, pat, rep, mode, i + |pat|), s[i + |pat|..]);
  }

  /** Up to the first occurrence the text is copied. */
  lemma {:induction false} ReplaceHead(s: string, pat: string, rep: string, mode: ReplaceMode, i: nat)
    requires |pat| > 0 && Find(s, pat, 0) == Some(i)
    ensures i + |pat| <= |s|
    ensures ReplaceAll(s, pat, rep, mode) == s[..i] + ReplaceAllFrom(s, pat, rep, mode, i)
  {
    FindGap(s, pat, 0, i);
    CopyUntil(s, pat, rep, mode, 0, i);
  }

  /** The only occurrence is replaced, and the text after it is copied. */
  lemma {:induction false} ReplaceTail(s: string, pat: string, rep: string, mode: ReplaceMode, i: nat)
    requires |pat| > 0 && Find(s, pat, 0) == Some(i) && Find(s, pat, i + |pat|).None?
    ensures i + |pat| <= |s|
    ensures ReplaceAllFrom(s, pat, rep, mode, i) == Substitute(s, i, pat, rep, mode) + ReplaceAllFrom(s, pat, rep, mode, i + |pat|)
    ensures ReplaceAllFrom(s, pat, rep, mode, i + |pat|) == s[i + |pat|..]
  {
    var k := i + |pat|;
    FindGap(s, pat, k, |s|);
    CopyUntil(s, pat, rep, mode, k, |s|);
    assert s[k..|s|] == s[k..];
  }

  lemma {:induction false} Join3(l: string, a: string, m: string, sub: string, r: string, b: string)
    requires l == a + m && m == sub + r && r == b
    ensures l == a + sub + b
  {
  }

  /** No occurrence begins before the one `Find` returns. */
  lemma {:induction false} FindGap(s: string, pat: string, from: nat, e: nat)
    requires from <= e
    requires Find(s, pat, from).None? || e <= Find(s, pat, from).value
    ensures forall j :: from <= j < e ==> !At(s, j, pat)
  {
    forall j | from <= j < e ensures !At(s, j, pat) {
      FindSkips(s, pat, from, j);
    }
  }

  /** Inserted verbatim, a placeholder occurring exactly once is replaced by exactly the value. */
  lemma {:induction false} VerbatimSubstitution(a: string, pat: string, b: string, rep: string)
    requires |pat| > 0
    requires Find(a + pat + b, pat, 0) == Some(|a|)
    requires Find(b, pat, 0).None?
    ensures ReplaceAll(a + pat + b, pat, rep, Verbatim) == a + rep + b
  {
    ReplaceOnce(a, pat, b, rep, Verbatim);
  }

  /** With JavaScript's replacement patterns, the same placeholder is replaced by the expansion of the value. */
  lemma {:induction false} PatternSubstitution(a: string, pat: string, b: string, rep: string)
    requires |pat| > 0
    requires Find(a + pat + b, pat, 0) == Some(|a|)
    requires Find(b, pat, 0).None?
    ensures ReplaceAll(a + pat + b, pat, rep, JsPatterns) == a + Expand(rep, pat, a, b) + b
  {
    var s := a + pat + b;
    ReplaceOnce(a, pat, b, rep, JsPatterns);
    assert s[..|a|] == a;
    assert s[|a| + |pat|..] == b;
  }

  /** The two modes agree whenever the value holds no `$`. */
  lemma {:induction false} ModesAgreeWithoutDollar(s: string, pat: string, rep: string, from: nat)
    requires |pat| > 0 && from <= |s| && '$' !in rep
    ensures ReplaceAllFrom(s, pat, rep, JsPatterns, from) == ReplaceAllFrom(s, pat, rep, Verbatim, from)
    decreases |s| - from
  {
    if from < |s| {
      if At(s, from, pat) {
        ExpandWithoutDollar(rep, pat, s[..from], s[from + |pat|..]);
        ModesAgreeWithoutDollar(s, pat, rep, from + |pat|);
      } else {
        ModesAgreeWithoutDollar(s, pat, rep, from + 1);
      }
    }
  }

  /** A suffix of `s` that holds no occurrence is copied through unchanged. */
  lemma {:induction false} NoMatchInSuffix(s: string, pat: string, from: nat, b: string)
    requires |pat| > 0 && from <= |s| && b == s[from..] && Find(b, pat, 0).None?
    ensures Find(s, pat, from).None?
  {
    var r := Find(s, pat, from);
    if r.Some? {
      var j := r.value;
      assert b[j - from..j - from + |pat|] == s[j..j + |pat|];
      FindSkips(b, pat, 0, j - from);
      assert false;
    }
  }

  /** `s.replace(/pat/, rep)`: only the first occurrence. */
  function ReplaceFirst(s: string, pat: string, rep: string, mode: ReplaceMode): (r: string)
    requires |pat| > 0
    ensures Find(s, pat, 0).None? ==> r == s
  {
    match Find(s, pat, 0)
    case None => s
    case Some(i) => s[..i] + Substitute(s, i, pat, rep, mode) + s[i + |pat|..]
  }
}
