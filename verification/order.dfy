/** The post records and their order on the index (build.mjs:263-274): the
    posts are sorted in place with the comparator
    `(a, b) => a.date < b.date ? 1 : a.date > b.date ? -1 : 0`, so later
    dates come first, and `Array.prototype.sort` is stable, so posts with the
    same date keep the order in which their files were found. */
module Order {

  /** One entry of the index and of `writes.json`. */
  datatype Post = Post(title: string, summary: string, date: string, category: string,
                       path: string, originPath: string)

  // ---------------------------------------------------------------------
  // JavaScript's `<` on strings
  // ---------------------------------------------------------------------

  /** `a < b` on strings: lexicographic order of the code units, a proper
      prefix coming first. */
  predicate Below(a: string, b: string)
    decreases |a|
  {
    if a == [] then b != []
    else if b == [] then false
    else if a[0] != b[0] then a[0] < b[0]
    else Below(a[1..], b[1..])
  }

  lemma {:induction false} BelowIrreflexive(a: string)
    ensures !Below(a, a)
    decreases |a|
  {
    if a != [] {
      BelowIrreflexive(a[1..]);
    }
  }

  lemma {:induction false} BelowTransitive(a: string, b: string, c: string)
    requires Below(a, b) && Below(b, c)
    ensures Below(a, c)
    decreases |a|
  {
    if a != [] && b != [] && c != [] && a[0] == b[0] && b[0] == c[0] {
      BelowTransitive(a[1..], b[1..], c[1..]);
    }
  }

  /** Two different strings are ordered one way, and not both ways. */
  lemma {:induction false} BelowTotal(a: string, b: string)
    ensures a != b <==> Below(a, b) || Below(b, a)
    ensures !(Below(a, b) && Below(b, a))
    decreases |a|
  {
    if a != [] && b != [] && a[0] == b[0] {
      BelowTotal(a[1..], b[1..]);
      assert a == [a[0]] + a[1..] && b == [b[0]] + b[1..];
    } else if a == [] || b == [] {
      BelowIrreflexive(a);
    }
  }

  /** "Not below" is transitive too: it is the order "at least". */
  lemma {:induction false} AtLeastTransitive(a: string, b: string, c: string)
    requires !Below(a, b) && !Below(b, c)
    ensures !Below(a, c)
  {
    BelowTotal(a, b);
    BelowTotal(b, c);
    BelowTotal(a, c);
    if a != b && b != c {
      BelowTransitive(c, b, a);
    }
  }

  // ---------------------------------------------------------------------
  // The order of a stable sort by descending date
  // ---------------------------------------------------------------------

  /** The comparator's result: positive when `p` goes after `q`. */
  function Compare(p: Post, q: Post): int
  {
    if Below(p.date, q.date) then 1 else if Below(q.date, p.date) then -1 else 0
  }

  /** The comparator is consistent: swapping its arguments negates it, and
      it is zero exactly for posts of the same date. */
  lemma {:induction false} CompareConsistent(p: Post, q: Post)
    ensures Compare(p, q) == -Compare(q, p)
    ensures Compare(p, q) == 0 <==> p.date == q.date
  {
    BelowTotal(p.date, q.date);
  }

  /** No post has an earlier date than a post after it. */
  predicate SortedByDate(ps: seq<Post>) {
    forall i, j :: 0 <= i < j < |ps| ==> !Below(ps[i].date, ps[j].date)
  }

  /** The posts of `ps` dated `d`, in their order in `ps`. */
  function WithDate(ps: seq<Post>, d: string): seq<Post>
    decreases |ps|
  {
    if ps == [] then []
    else WithDate(ps[..|ps| - 1], d) + (if ps[|ps| - 1].date == d then [ps[|ps| - 1]] else [])
  }

  /** `x` inserted into `s` behind every post whose date is not earlier than its own. */
  function Insert(s: seq<Post>, x: Post): seq<Post>
    decreases |s|
  {
    if s == [] then [x]
    else if Below(s[|s| - 1].date, x.date) then Insert(s[..|s| - 1], x) + [s[|s| - 1]]
    else s + [x]
  }

  /** The sorted posts: each post in turn is inserted into the sorted posts before it. */
  function SortByDate(ps: seq<Post>): seq<Post>
    decreases |ps|
  {
    if ps == [] then [] else Insert(SortByDate(ps[..|ps| - 1]), ps[|ps| - 1])
  }

  lemma {:induction false} InsertPermutes(s: seq<Post>, x: Post)
    ensures multiset(Insert(s, x)) == multiset(s) + multiset{x}
    decreases |s|
  {
    if s != [] {
      assert s == s[..|s| - 1] + [s[|s| - 1]];
      if Below(s[|s| - 1].date, x.date) {
        InsertPermutes(s[..|s| - 1], x);
      }
    }
  }

  /** Sorting only reorders the posts. */
  lemma {:induction false} SortPermutes(ps: seq<Post>)
    ensures multiset(SortByDate(ps)) == multiset(ps)
    decreases |ps|
  {
    if ps != [] {
      SortPermutes(ps[..|ps| - 1]);
      InsertPermutes(SortByDate(ps[..|ps| - 1]), ps[|ps| - 1]);
      assert ps == ps[..|ps| - 1] + [ps[|ps| - 1]];
    }
  }

  /** Every post is at least as late as the last one of a sorted sequence. */
  lemma {:induction false} InsertSorted(s: seq<Post>, x: Post)
    requires SortedByDate(s)
    ensures SortedByDate(Insert(s, x))
    decreases |s|
  {
    if s != [] {
      var init, last := s[..|s| - 1], s[|s| - 1];
      if Below(last.date, x.date) {
        InsertSorted(init, x);
        InsertPermutes(init, x);
        BelowTotal(last.date, x.date);
        AppendLatest(Insert(init, x), init, x, last);
      } else {
        forall i | 0 <= i < |s| - 1 ensures !Below(s[i].date, x.date) {
          AtLeastTransitive(s[i].date, last.date, x.date);
        }
      }
    }
  }

  /** Appending a post that is not later than any other keeps a sequence sorted. */
  lemma {:induction false} AppendLatest(t: seq<Post>, init: seq<Post>, x: Post, last: Post)
    requires SortedByDate(t) && SortedByDate(init + [last]) && !Below(x.date, last.date)
    requires multiset(t) == multiset(init) + multiset{x}
    ensures SortedByDate(t + [last])
  {
    forall i | 0 <= i < |t| ensures !Below(t[i].date, last.date) {
      assert t[i] in multiset(t);
      if t[i] != x {
        assert t[i] in init;
        var k :| 0 <= k < |init| && init[k] == t[i];
        assert (init + [last])[k] == t[i];
        assert (init + [last])[|init|] == last;
      }
    }
  }

  /** The sort puts the posts in non-increasing date order. */
  lemma {:induction false} SortSorts(ps: seq<Post>)
    ensures SortedByDate(SortByDate(ps))
    decreases |ps|
  {
    if ps != [] {
      SortSorts(ps[..|ps| - 1]);
      InsertSorted(SortByDate(ps[..|ps| - 1]), ps[|ps| - 1]);
    }
  }

  lemma {:induction false} WithDateAppend(a: seq<Post>, b: seq<Post>, d: string)
    ensures WithDate(a + b, d) == WithDate(a, d) + WithDate(b, d)
    decreases |b|
  {
    if b != [] {
      WithDateAppend(a, b[..|b| - 1], d);
      assert (a + b)[..|a + b| - 1] == a + b[..|b| - 1];
    } else {
      assert a + b == a;
    }
  }

  /** Insertion puts `x` behind every post with its date. */
  lemma {:induction false} InsertStable(s: seq<Post>, x: Post, d: string)
    ensures WithDate(Insert(s, x), d) == WithDate(s, d) + WithDate([x], d)
    decreases |s|
  {
    var one := WithDate([x], d);
    assert one == (if x.date == d then [x] else []) by {
      assert [x][..0] == [];
    }
    if s == [] {
    } else {
      var init, last := s[..|s| - 1], s[|s| - 1];
      if Below(last.date, x.date) {
        InsertStable(init, x, d);
        WithDateAppend(Insert(init, x), [last], d);
        assert [last][..0] == [];
        BelowIrreflexive(x.date);
      } else {
        WithDateAppend(s, [x], d);
      }
    }
  }

  /** The sort is stable: the posts of each date keep their relative order. */
  lemma {:induction false} SortStable(ps: seq<Post>, d: string)
    ensures WithDate(SortByDate(ps), d) == WithDate(ps, d)
    decreases |ps|
  {
    if ps != [] {
      var init, last := ps[..|ps| - 1], ps[|ps| - 1];
      SortStable(init, d);
      InsertStable(SortByDate(init), last, d);
      assert [last][..0] == [];
    }
  }

  /** A sorted, stable reordering is unique: whatever stable algorithm
      `Array.prototype.sort` runs, its result is `SortByDate`. Two sorted
      sequences that hold the same posts of each date, in the same order, are
      equal. */
  lemma {:induction false} SortedStableUnique(t: seq<Post>, u: seq<Post>)
    requires SortedByDate(t) && SortedByDate(u)
    requires forall d :: WithDate(t, d) == WithDate(u, d)
    ensures t == u
    decreases |t| + |u|
  {
    if t == [] || u == [] {
      NonEmptyHasDate(t);
      NonEmptyHasDate(u);
      var d := if t != [] then t[|t| - 1].date else if u != [] then u[|u| - 1].date else [];
      assert WithDate(t, d) == WithDate(u, d);
    } else {
      var ti, ui := t[..|t| - 1], u[..|u| - 1];
      var dt, du := t[|t| - 1].date, u[|u| - 1].date;
      LastIsLatest(t, du, u);
      LastIsLatest(u, dt, t);
      BelowTotal(dt, du);
      assert dt == du;
      DropLast(t, dt);
      DropLast(u, dt);
      assert WithDate(t, dt) == WithDate(u, dt);
      assert t[|t| - 1] == WithDate(t, dt)[|WithDate(t, dt)| - 1];
      assert u[|u| - 1] == WithDate(u, dt)[|WithDate(u, dt)| - 1];
      forall d ensures WithDate(ti, d) == WithDate(ui, d) {
        DropLast(t, d);
        DropLast(u, d);
        assert WithDate(t, d) == WithDate(u, d);
        CancelRight(WithDate(ti, d), WithDate(ui, d), if dt == d then [t[|t| - 1]] else []);
      }
      SortedInit(t);
      SortedInit(u);
      SortedStableUnique(ti, ui);
      assert t == ti + [t[|t| - 1]];
      assert u == ui + [u[|u| - 1]];
    }
  }

  lemma {:induction false} CancelRight(x: seq<Post>, y: seq<Post>, a: seq<Post>)
    requires x + a == y + a
    ensures x == y
  {
    assert x == (x + a)[..|x|];
    assert y == (y + a)[..|y|];
  }

  /** A non-empty sequence holds a post of its last date. */
  lemma {:induction false} NonEmptyHasDate(t: seq<Post>)
    ensures t != [] ==> WithDate(t, t[|t| - 1].date) != []
  {
  }

  /** Removing the last post removes it from the posts of its date. */
  lemma {:induction false} DropLast(t: seq<Post>, d: string)
    requires t != []
    ensures WithDate(t, d) == WithDate(t[..|t| - 1], d) + (if t[|t| - 1].date == d then [t[|t| - 1]] else [])
  {
  }

  lemma {:induction false} SortedInit(t: seq<Post>)
    requires SortedByDate(t) && t != []
    ensures SortedByDate(t[..|t| - 1])
  {
  }

  /** When a sorted `t` holds a post dated `d`, its last post is not later than `d`. */
  lemma {:induction false} LastIsLatest(t: seq<Post>, d: string, u: seq<Post>)
    requires SortedByDate(t) && t != [] && u != [] && d == u[|u| - 1].date
    requires WithDate(t, d) == WithDate(u, d)
    ensures !Below(d, t[|t| - 1].date)
  {
    NonEmptyHasDate(u);
    var k := WithDateMember(t, d);
    if k < |t| - 1 {
      assert !Below(t[k].date, t[|t| - 1].date);
    } else {
      BelowIrreflexive(d);
    }
  }

  /** A post of the sequence that has date `d`, when there is one. */
  lemma {:induction false} WithDateMember(t: seq<Post>, d: string) returns (k: nat)
    requires WithDate(t, d) != []
    ensures k < |t| && t[k].date == d
    decreases |t|
  {
    if t[|t| - 1].date == d {
      k := |t| - 1;
    } else {
      k := WithDateMember(t[..|t| - 1], d);
    }
  }

  // ---------------------------------------------------------------------
  // The in-place sort
  // ---------------------------------------------------------------------

  /** `posts.sort(...)` on the array of posts, as an insertion sort; by
      `SortedStableUnique` every stable sort has this result. */
  method SortPosts(a: array<Post>)
    modifies a
    ensures a[..] == SortByDate(old(a[..]))
  {
    ghost var original := a[..];
    var i := 0;
    while i < a.Length
      invariant 0 <= i <= a.Length
      invariant a[..i] == SortByDate(original[..i])
      invariant a[i..] == original[i..]
    {
      InsertAt(a, i);
      assert original[..i + 1][..i] == original[..i];
      i := i + 1;
    }
    assert original[..a.Length] == original;
    assert a[..a.Length] == a[..];
  }

  /** Moves `a[i]` back into the sorted run `a[..i]`. */
  method InsertAt(a: array<Post>, i: nat)
    requires i < a.Length
    modifies a
    ensures a[..i + 1] == Insert(old(a[..i]), old(a[i]))
    ensures a[i + 1..] == old(a[i + 1..])
  {
    ghost var s, rest := a[..i], a[i + 1..];
    var x := a[i];
    var j := i;
    EmptyRest(s, x);
    ShiftStart(a[..], i);
    while j > 0 && Compare(a[j - 1], x) > 0
      invariant 0 <= j <= i
      invariant Shifting(a[..], s, i, j, rest)
      invariant Insert(s, x) == Insert(s[..j], x) + s[j..]
      decreases j
    {
      InsertShift(s, j, x);
      ghost var before := a[..];
      a[j] := a[j - 1];
      assert a[..] == before[j := before[j - 1]];
      ShiftOne(before, s, i, j, rest);
      j := j - 1;
    }
    InsertHere(s, j, x);
    ghost var before := a[..];
    a[j] := x;
    assert a[..] == before[j := x];
    ShiftDone(before, s, i, j, rest, x);
  }

  /** While `x` moves back: the posts before `j` are in place, those from
      `j` on have moved up by one, and nothing after `i` has changed. */
  ghost predicate Shifting<T>(b: seq<T>, s: seq<T>, i: nat, j: nat, rest: seq<T>) {
    |s| == i && j <= i && |b| == i + 1 + |rest|
    && b[..j] == s[..j] && b[j + 1..i + 1] == s[j..] && b[i + 1..] == rest
  }

  lemma {:induction false} ShiftStart<T>(b: seq<T>, i: nat)
    requires i < |b|
    ensures Shifting(b, b[..i], i, i, b[i + 1..])
  {
  }

  lemma {:induction false} ShiftOne<T>(b: seq<T>, s: seq<T>, i: nat, j: nat, rest: seq<T>)
    requires Shifting(b, s, i, j, rest) && 0 < j
    ensures Shifting(b[j := b[j - 1]], s, i, j - 1, rest)
  {
    var c := b[j := b[j - 1]];
    assert c[..j - 1] == b[..j - 1];
    assert c[j..i + 1] == [b[j - 1]] + b[j + 1..i + 1];
    assert s[j - 1..] == [s[j - 1]] + s[j..];
    assert c[i + 1..] == b[i + 1..];
  }

  lemma {:induction false} ShiftDone<T>(b: seq<T>, s: seq<T>, i: nat, j: nat, rest: seq<T>, x: T)
    requires Shifting(b, s, i, j, rest)
    ensures b[j := x][..i + 1] == s[..j] + [x] + s[j..]
    ensures b[j := x][i + 1..] == rest
  {
    var c := b[j := x];
    assert c[..j] == b[..j];
    assert c[j + 1..i + 1] == b[j + 1..i + 1];
    assert c[..i + 1] == c[..j] + [x] + c[j + 1..i + 1];
  }

  lemma {:induction false} EmptyRest(s: seq<Post>, x: Post)
    ensures Insert(s, x) == Insert(s[..|s|], x) + s[|s|..]
  {
    assert s[..|s|] == s;
    assert Insert(s, x) + [] == Insert(s, x);
  }

  lemma {:induction false} InsertShift(s: seq<Post>, j: nat, x: Post)
    requires 0 < j <= |s| && Compare(s[j - 1], x) > 0
    ensures Insert(s[..j], x) + s[j..] == Insert(s[..j - 1], x) + s[j - 1..]
  {
    assert s[..j][..j - 1] == s[..j - 1];
    assert s[j - 1..] == [s[j - 1]] + s[j..];
  }

  lemma {:induction false} InsertHere(s: seq<Post>, j: nat, x: Post)
    requires j <= |s| && (j == 0 || Compare(s[j - 1], x) <= 0)
    ensures Insert(s[..j], x) == s[..j] + [x]
  {
  }
}
