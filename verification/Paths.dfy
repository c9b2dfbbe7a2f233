/**
  Absolute paths, as text and as component lists.

  The kernel stores every path as a NUL-terminated string and edits it in place
  (source/lib/path.c, source/fs/filesystem.c). Here a path is a list of component
  names; `Render` gives its one canonical spelling, and the string operations of
  the source are proved to be the obvious operations on lists.
 */
module Paths {
  const PATH_MAX := 512  // ROOT_PATH_MAX, terminator included
  const NAME_MAX := 128  // ROOT_NAME_MAX, terminator included

  /** The text of a C string: one-byte characters, none of them the terminator. */
  predicate IsText(s: string) {
    forall i :: 0 <= i < |s| ==> 0 < s[i] as int < 256
  }

  /** A component as it can appear inside a canonical path. */
  predicate IsName(c: string) {
    c != [] && '/' !in c && c != "." && c != ".." && |c| < NAME_MAX && IsText(c)
  }

  type Path = seq<string>

  predicate IsPath(p: Path) {
    forall i :: 0 <= i < |p| ==> IsName(p[i])
  }

  function Parent(p: Path): Path
    requires p != []
  {
    p[..|p| - 1]
  }

  /** The concatenation of "/" + c over the components c. */
  function Tail(p: Path): string {
    if p == [] then "" else "/" + p[0] + Tail(p[1..])
  }

  /** The canonical spelling: "/" for the root, "/a/b" otherwise. */
  function Render(p: Path): string {
    if p == [] then "/" else Tail(p)
  }

  /** The path, with its terminator, fits in a ROOT_PATH_MAX buffer. */
  predicate Fits(p: Path) {
    |Render(p)| < PATH_MAX
  }

  /** Length of the longest prefix of s without a slash. */
  function Span(s: string): (n: nat)
    ensures n <= |s|
    ensures '/' !in s[..n]
    ensures n < |s| ==> s[n] == '/'
  {
    if s == [] || s[0] == '/' then 0 else
      var n := Span(s[1..]);
      assert s[..n + 1] == [s[0]] + s[1..][..n];
      n + 1
  }

  /** The non-empty slash-separated pieces of s. */
  function Components(s: string): seq<string>
    decreases |s|
  {
    if s == [] then [] else
    if s[0] == '/' then Components(s[1..]) else
    var n := Span(s);
    assert n > 0;
    [s[..n]] + Components(s[n..])
  }

  // ----------------------------------------------------------------
  // Render and Components are inverse
  // ----------------------------------------------------------------

  lemma {:induction false} TailAppend(p: Path, q: Path)
    ensures Tail(p + q) == Tail(p) + Tail(q)
  {
    if p == [] {
      assert p + q == q;
    } else {
      TailAppend(p[1..], q);
      assert (p + q)[1..] == p[1..] + q;
    }
  }

  lemma TailOne(c: string)
    ensures Tail([c]) == "/" + c
  {
  }

  lemma SpanOf(c: string, rest: string)
    requires '/' !in c
    requires rest == [] || rest[0] == '/'
    ensures Span(c + rest) == |c|
  {
    var s := c + rest;
    var n := Span(s);
    assert forall i :: 0 <= i < |c| ==> s[i] == c[i] != '/';
    assert forall i :: 0 <= i < n ==> s[i] == s[..n][i] != '/';
    assert rest != [] ==> s[|c|] == rest[0];
  }

  lemma {:induction false} ComponentsTail(p: Path)
    requires IsPath(p)
    ensures Components(Tail(p)) == p
  {
    if p != [] {
      var s := Tail(p);
      var rest := Tail(p[1..]);
      assert s[1..] == p[0] + rest;
      SpanOf(p[0], rest);
      assert (p[0] + rest)[..|p[0]|] == p[0];
      assert (p[0] + rest)[|p[0]|..] == rest;
      ComponentsTail(p[1..]);
    }
  }

  /** Splitting a rendered path gives the path back. */
  lemma {:induction false} RenderRoundTrip(p: Path)
    requires IsPath(p)
    ensures Components(Render(p)) == p
  {
    ComponentsTail(p);
    if p == [] {
      assert "/"[1..] == "";
      assert Components("/") == [];
    }
  }

  lemma {:induction false} SpanAppend(a: string, b: string)
    requires b == [] || b[0] == '/'
    ensures var s, n := a + b, Span(a); Span(s) == n && s[..n] == a[..n] && s[n..] == a[n..] + b
  {
    var n := Span(a);
    assert a + b == a[..n] + (a[n..] + b);
    SpanOf(a[..n], a[n..] + b);
  }

  lemma {:induction false} ComponentsAppend(a: string, b: string)
    requires b == [] || b[0] == '/'
    ensures Components(a + b) == Components(a) + Components(b)
    decreases |a|
  {
    var s := a + b;
    if a == [] {
      assert s == b;
    } else if a[0] == '/' {
      assert s[1..] == a[1..] + b;
      ComponentsAppend(a[1..], b);
    } else {
      SpanAppend(a, b);
      ComponentsAppend(a[Span(a)..], b);
    }
  }

  /** One piece without a slash is one component. */
  lemma ComponentsOne(c: string)
    requires c != [] && '/' !in c
    ensures Components("/" + c) == [c]
  {
    assert ("/" + c)[1..] == c && c + [] == c;
    SpanOf(c, []);
    assert c[..|c|] == c && c[|c|..] == [];
    assert Components(c) == [c] + Components([]) == [c];
  }

  /** Distinct paths have distinct spellings: comparing strings compares paths. */
  lemma RenderInjective(p: Path, q: Path)
    requires IsPath(p) && IsPath(q)
    ensures Render(p) == Render(q) <==> p == q
  {
    RenderRoundTrip(p);
    RenderRoundTrip(q);
  }

  lemma {:induction false} TailText(p: Path)
    requires IsPath(p)
    ensures IsText(Tail(p))
    ensures p != [] ==> |Tail(p)| >= 2 && Tail(p)[0] == '/'
    ensures |p| <= |Tail(p)|
  {
    if p != [] {
      TailText(p[1..]);
    }
  }

  // ----------------------------------------------------------------
  // path_is_inside, get_parent_path, rebasing
  // ----------------------------------------------------------------

  /** path_is_inside (filesystem.c): the string test. */
  predicate IsInside(base: string, candidate: string) {
    if base == "/" then
      candidate != [] && candidate[0] == '/'
    else
      base <= candidate && (|candidate| == |base| || candidate[|base|] == '/')
  }

  lemma {:induction false} InsidePrefix(p: Path, q: Path)
    requires IsPath(p) && IsPath(q)
    requires Tail(p) <= Tail(q)
    requires |Tail(p)| == |Tail(q)| || Tail(q)[|Tail(p)|] == '/'
    ensures p <= q
  {
    if p != [] {
      assert q != [];
      TailText(p[1..]);
      TailText(q[1..]);
      FirstStep(p[0], Tail(p[1..]), q[0], Tail(q[1..]), Tail(p), Tail(q));
      InsidePrefix(p[1..], q[1..]);
      PrefixCons(p, q);
    }
  }

  lemma PrefixCons(p: Path, q: Path)
    requires p != [] && q != [] && p[0] == q[0] && p[1..] <= q[1..]
    ensures p <= q
  {
    assert p == [p[0]] + p[1..] && q == [q[0]] + q[1..];
  }

  /** One component of two comparable path texts x and y. */
  lemma FirstStep(c: string, a: string, d: string, b: string, x: string, y: string)
    requires '/' !in c && '/' !in d && x == "/" + c + a && y == "/" + d + b
    requires (a == [] || a[0] == '/') && (b == [] || b[0] == '/')
    requires x <= y && (|x| == |y| || y[|x|] == '/')
    ensures c == d && a <= b && (|a| == |b| || b[|a|] == '/')
  {
    assert x[1..] == c + a && y[1..] == d + b;
    assert |x| < |y| ==> y[|x|] == (d + b)[|c + a|];
    FirstComponent(c, a, d, b);
    assert |a| < |b| ==> b[|a|] == y[|x|];
  }

  /** Two slash-free names that begin comparable strings are the same name. */
  lemma FirstComponent(c: string, a: string, d: string, b: string)
    requires '/' !in c && '/' !in d
    requires a == [] || a[0] == '/'
    requires b == [] || b[0] == '/'
    requires c + a <= d + b
    requires |c + a| == |d + b| || (d + b)[|c + a|] == '/'
    ensures c == d && a <= b
  {
    var x, y := c + a, d + b;
    assert forall i :: 0 <= i < |c| ==> c[i] == x[i] == y[i];
    assert forall i :: 0 <= i < |d| ==> d[i] == y[i];
    assert a != [] ==> x[|c|] == a[0] == y[|c|];
    assert b != [] ==> y[|d|] == b[0];
    assert |c| == |d|;
    assert x[|c|..] == a && y[|c|..] == b;
  }

  /** The string test decides the ancestor-or-self relation of paths. */
  lemma InsideIsPrefix(p: Path, q: Path)
    requires IsPath(p) && IsPath(q)
    ensures IsInside(Render(p), Render(q)) <==> p <= q
  {
    TailText(p);
    TailText(q);
    if p == [] {
      assert Render(q)[0] == '/';
    } else if p <= q {
      var rest := q[|p|..];
      assert q == p + rest;
      TailAppend(p, rest);
      TailText(rest);
      RenderNotRoot(p);
    } else {
      RenderNotRoot(p);
      if IsInside(Render(p), Render(q)) {
        assert q != [];
        InsidePrefix(p, q);
      }
    }
  }

  lemma RenderNotRoot(p: Path)
    requires IsPath(p)
    ensures p != [] ==> Render(p) != "/" && |Render(p)| >= 2
  {
  }

  /** What move and copy write into a node: the new base followed by the old suffix. */
  function Rebase(p: Path, src: Path, dst: Path): Path
    requires src <= p
  {
    dst + p[|src|..]
  }

  /** Cutting strlen(src) characters off a rendered path and prepending dst rebases it. */
  lemma RebaseText(p: Path, src: Path, dst: Path)
    requires IsPath(p) && IsPath(src) && IsPath(dst)
    requires src <= p && src != [] && dst != []
    ensures |Render(src)| <= |Render(p)|
    ensures Render(Rebase(p, src, dst)) == Render(dst) + Render(p)[|Render(src)|..]
    ensures IsPath(Rebase(p, src, dst))
  {
    var rest := p[|src|..];
    assert p == src + rest;
    TailAppend(src, rest);
    TailAppend(dst, rest);
    assert forall i :: 0 <= i < |rest| ==> rest[i] == p[|src| + i];
  }

  /** Everything up to the last slash of Render(p). */
  lemma ParentText(p: Path)
    requires IsPath(p) && p != []
    ensures Render(p) == Tail(Parent(p)) + "/" + p[|p| - 1]
    ensures '/' !in p[|p| - 1]
    ensures IsPath(Parent(p))
    ensures |Render(Parent(p))| < |Render(p)|
  {
    var c := p[|p| - 1];
    assert p == Parent(p) + [c];
    TailAppend(Parent(p), [c]);
    TailOne(c);
    assert IsName(c);
  }

  /** s is the spelling of the path p. */
  ghost predicate Spells(s: string, p: Path) {
    IsPath(p) && s == Render(p) && Components(s) == p && IsText(s)
  }

  lemma RenderSpells(p: Path)
    requires IsPath(p)
    ensures Spells(Render(p), p)
  {
    RenderRoundTrip(p);
    TailText(p);
  }

  /** A prefix of a path that fits also fits. */
  lemma PrefixFits(p: Path, q: Path)
    requires IsPath(q) && p <= q
    ensures IsPath(p) && |Render(p)| <= |Render(q)|
    ensures Fits(q) ==> Fits(p)
  {
    var rest := q[|p|..];
    assert q == p + rest;
    TailAppend(p, rest);
    TailText(rest);
    TailText(q);
  }
}
