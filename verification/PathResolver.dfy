/**
  root_path_resolve (source/lib/path.c): turns what the user typed into a canonical
  absolute path, one component at a time, inside one output buffer.
 */
module PathResolver {
  import opened Basics
  import opened Paths

  // ----------------------------------------------------------------
  // Reference: normalisation of component lists
  // ----------------------------------------------------------------

  function Step(p: Path, c: string): Path {
    if c == "." then p
    else if c == ".." then (if p == [] then [] else Parent(p))
    else p + [c]
  }

  function Normalise(p: Path, cs: seq<string>): Path
    decreases cs
  {
    if cs == [] then p else Normalise(Step(p, cs[0]), cs[1..])
  }

  /** Every component is short enough and every path on the way fits in size characters. */
  predicate AllFit(p: Path, cs: seq<string>, size: nat)
    decreases cs
  {
    |Render(p)| < size
    && (cs != [] ==> |cs[0]| < NAME_MAX && AllFit(Step(p, cs[0]), cs[1..], size))
  }

  function Home(): Path { ["home", "user"] }  // ROOTOS_DEFAULT_HOME

  /** "~" or "~/..." */
  predicate IsHomeInput(input: string) {
    input != [] && input[0] == '~' && (|input| == 1 || input[1] == '/')
  }

  function Base(cwd: Path, input: string): Path {
    if input != [] && input[0] == '/' then []
    else if IsHomeInput(input) then Home()
    else cwd
  }

  /** What is left to scan once the base is chosen. */
  function Rest(input: string): string {
    if IsHomeInput(input) then input[1..] else input
  }

  /** The meaning of an input: base directory, then each component in turn. */
  function Meaning(cwd: Path, input: string): Path {
    Normalise(Base(cwd, input), Components(Rest(input)))
  }

  /** The inputs that resolve. */
  predicate Resolvable(cwd: Path, input: string, size: nat) {
    size >= 2 && AllFit(Base(cwd, input), Components(Rest(input)), size)
  }

  // ----------------------------------------------------------------
  // Lemmas
  // ----------------------------------------------------------------

  /** What Components can produce from the text of a C string. */
  predicate IsPiece(c: string) {
    c != [] && '/' !in c && IsText(c)
  }

  lemma {:induction false} ComponentsArePieces(s: string, k: nat)
    requires IsText(s) && k < |Components(s)|
    ensures IsPiece(Components(s)[k])
    decreases |s|
  {
    if s[0] == '/' {
      ComponentsArePieces(s[1..], k);
    } else if k > 0 {
      ComponentsArePieces(s[Span(s)..], k - 1);
    }
  }

  lemma StepIsPath(p: Path, c: string)
    requires IsPath(p) && IsPiece(c) && |c| < NAME_MAX
    ensures IsPath(Step(p, c))
  {
  }

  lemma HomeIsPath()
    ensures IsPath(Home())
  {
  }

  lemma {:induction false} NormaliseIsPath(p: Path, cs: seq<string>, size: nat)
    requires IsPath(p) && AllFit(p, cs, size)
    requires forall k :: 0 <= k < |cs| ==> IsPiece(cs[k])
    ensures IsPath(Normalise(p, cs)) && |Render(Normalise(p, cs))| < size
    decreases cs
  {
    if cs != [] {
      StepIsPath(p, cs[0]);
      NormaliseIsPath(Step(p, cs[0]), cs[1..], size);
    }
  }

  /** A resolved input names a proper path that fits the buffer. */
  lemma MeaningIsPath(cwd: Path, input: string, size: nat)
    requires IsPath(cwd) && IsText(input) && Resolvable(cwd, input, size)
    ensures IsPath(Meaning(cwd, input))
    ensures |Render(Meaning(cwd, input))| < size
  {
    var rest := Rest(input);
    forall k | 0 <= k < |Components(rest)|
      ensures IsPiece(Components(rest)[k])
    {
      ComponentsArePieces(rest, k);
    }
    HomeIsPath();
    NormaliseIsPath(Base(cwd, input), Components(rest), size);
  }

  lemma {:induction false} NormaliseNames(p: Path, cs: Path, size: nat)
    requires IsPath(cs) && IsPath(p) && |Render(p + cs)| < size
    ensures Normalise(p, cs) == p + cs
    ensures AllFit(p, cs, size)
    decreases cs
  {
    PrefixFits(p, p + cs);
    if cs == [] {
      assert p + cs == p;
    } else {
      assert IsName(cs[0]);
      var q := p + [cs[0]];
      assert q + cs[1..] == p + cs;
      NormaliseNames(q, cs[1..], size);
    }
  }

  /** A canonical path resolves to itself, whatever the current directory. */
  lemma AbsoluteResolves(cwd: Path, p: Path, size: nat)
    requires IsPath(p) && |Render(p)| < size
    ensures Resolvable(cwd, Render(p), size)
    ensures Meaning(cwd, Render(p)) == p
  {
    RenderRoundTrip(p);
    TailText(p);
    assert [] + p == p;
    NormaliseNames([], p, size);
  }

  /** Resolving is idempotent: a resolved path resolves to itself from any directory. */
  lemma ResolveIdempotent(cwd: Path, cwd': Path, input: string, size: nat)
    requires IsPath(cwd) && IsText(input) && Resolvable(cwd, input, size)
    ensures var out := Render(Meaning(cwd, input));
            Resolvable(cwd', out, size) && Meaning(cwd', out) == Meaning(cwd, input)
  {
    MeaningIsPath(cwd, input, size);
    AbsoluteResolves(cwd', Meaning(cwd, input), size);
  }

  lemma {:induction false} NormaliseAppend(p: Path, a: seq<string>, b: seq<string>)
    ensures Normalise(p, a + b) == Normalise(Normalise(p, a), b)
    decreases a
  {
    if a == [] {
      assert a + b == b;
    } else {
      assert (a + b)[1..] == a[1..] + b;
      NormaliseAppend(Step(p, a[0]), a[1..], b);
    }
  }

  /** ".." after a name leads back to where the name was entered. */
  lemma DotDotUndoes(p: Path, cs: seq<string>, c: string)
    requires IsName(c)
    ensures Normalise(p, cs + [c, ".."]) == Normalise(p, cs)
  {
    NormaliseAppend(p, cs, [c, ".."]);
    var q := Normalise(p, cs);
    assert Step(q, c) == q + [c];
    assert Step(q + [c], "..") == q;
    assert [c, ".."][1..] == [".."] && [".."][1..] == [];
    assert Normalise(q, [c, ".."]) == Normalise(q + [c], [".."]);
  }

  /** "." changes nothing. */
  lemma DotStays(p: Path, cs: seq<string>)
    ensures Normalise(p, cs + ["."]) == Normalise(p, cs)
  {
    NormaliseAppend(p, cs, ["."]);
    assert ["."][1..] == [];
  }

  // ----------------------------------------------------------------
  // What a text means, without the choice of a base
  // ----------------------------------------------------------------

  /** A text that names nothing absolute: neither "/..." nor "~" nor "~/...". */
  predicate IsRelative(input: string) {
    !("/" <= input) && input != "~" && !("~/" <= input)
  }

  lemma BaseCases(cwd: Path, input: string)
    ensures IsRelative(input) ==> Base(cwd, input) == cwd && Rest(input) == input
    ensures "/" <= input ==> Base(cwd, input) == [] && Rest(input) == input
  {
  }

  /** Walking into the names of q from p is the same as starting at p + q. */
  lemma {:induction false} EnterNames(p: Path, q: Path, cs: seq<string>, size: nat)
    requires IsPath(p + q)
    ensures Normalise(p, q + cs) == Normalise(p + q, cs)
    ensures |Render(p)| < size ==> (AllFit(p, q + cs, size) <==> AllFit(p + q, cs, size))
    decreases |q|
  {
    if q == [] {
      assert q + cs == cs && p + q == p;
    } else {
      var r := p + [q[0]];
      assert IsName((p + q)[|p|]) && (q + cs)[1..] == q[1..] + cs && r + q[1..] == p + q;
      EnterNames(r, q[1..], cs, size);
      PrefixFits(r, p + q);
      if |Render(r)| >= size {
        TooLong(r, q[1..] + cs, size);
        TooLong(p + q, cs, size);
      }
    }
  }

  lemma TooLong(p: Path, cs: seq<string>, size: nat)
    requires |Render(p)| >= size
    ensures !AllFit(p, cs, size)
  {
  }

  lemma PartsUnder(q: Path, rest: string)
    requires IsPath(q) && (rest == [] || rest[0] == '/')
    ensures Components(Render(q) + rest) == q + Components(rest)
  {
    ComponentsAppend(Render(q), rest);
    RenderRoundTrip(q);
  }

  /** A relative text means, in the directory cwd, what it means behind the name of that directory. */
  lemma RelativeMeans(cwd: Path, input: string, size: nat)
    requires IsPath(cwd) && IsRelative(input)
    ensures Meaning(cwd, input) == Meaning([], Render(cwd) + "/" + input)
    ensures Resolvable(cwd, input, size) <==> Resolvable([], Render(cwd) + "/" + input, size)
  {
    var whole, rest := Render(cwd) + "/" + input, "/" + input;
    assert whole == Render(cwd) + rest && rest[1..] == input;
    PartsUnder(cwd, rest);
    TailText(cwd);
    assert whole[0] == '/' && [] + cwd == cwd;
    BaseCases(cwd, input);
    BaseCases([], whole);
    EnterNames([], cwd, Components(input), size);
  }

  lemma StartsRelative(c: string, rest: string)
    requires IsName(c) && c != "~" && (rest == [] || rest[0] == '/')
    ensures IsRelative(c + rest)
  {
    var s := c + rest;
    assert s[0] == c[0] && c[0] in c;
    assert |c| > 1 ==> s[1] == c[1] && c[1] in c;
    assert |c| == 1 ==> c == [c[0]];
  }

  lemma FirstName(s: string, c: string, rest: string)
    requires s == "/" + c + rest
    ensures s != [] && s[1..] == c + rest && Components(s) == Components(s[1..])
  {
  }

  lemma {:induction false} NamesText(names: Path)
    requires IsPath(names) && names != [] && names[0] != "~"
    ensures Tail(names) != [] && IsRelative(Tail(names)[1..]) && Components(Tail(names)[1..]) == names
  {
    ComponentsTail(names);
    TailText(names[1..]);
    assert IsName(names[0]);
    FirstName(Tail(names), names[0], Tail(names[1..]));
    StartsRelative(names[0], Tail(names[1..]));
  }

  /** Names joined by slashes lead from cwd straight down. */
  lemma NamesMean(cwd: Path, names: Path, size: nat)
    requires IsPath(cwd) && IsPath(names) && names != [] && names[0] != "~"
    ensures Meaning(cwd, Tail(names)[1..]) == cwd + names
    ensures size >= 2 ==> (Resolvable(cwd, Tail(names)[1..], size) <==> |Render(cwd + names)| < size)
  {
    var input := Tail(names)[1..];
    NamesText(names);
    BaseCases(cwd, input);
    EnterNames(cwd, names, [], size);
    assert names + [] == names;
    PrefixFits(cwd, cwd + names);
    if |Render(cwd)| >= size {
      TooLong(cwd, names, size);
    }
  }

  /** "~" is "/home/user", and "~/rest" is "/home/user/rest", from every directory. */
  lemma HomeMeans(cwd: Path, rest: string, size: nat)
    ensures Meaning(cwd, "~") == ["home", "user"] && Meaning(cwd, "~/" + rest) == Meaning(cwd, "/home/user/" + rest)
    ensures size >= 2 ==> (Resolvable(cwd, "~/" + rest, size) <==> Resolvable(cwd, "/home/user/" + rest, size))
  {
    var home, more := "/home/user/" + rest, "/" + rest;
    HomeIsPath();
    HomeText();
    assert home == Render(Home()) + more;
    PartsUnder(Home(), more);
    assert "~"[1..] == "" && ("~/" + rest)[1..] == more && [] + Home() == Home();
    EnterNames([], Home(), Components(more), size);
  }

  lemma HomeText()
    ensures Render(Home()) == "/home/user"
  {
    var p := Home();
    assert p[1..] == ["user"] && p[1..][1..] == [];
    assert Tail(p) == "/" + p[0] + Tail(p[1..]);
    TailOne("user");
  }

  /** An absolute text means the same in every directory. */
  lemma AbsoluteMeans(cwd: Path, cwd': Path, input: string, size: nat)
    requires "/" <= input
    ensures Meaning(cwd, input) == Meaning(cwd', input)
    ensures Resolvable(cwd, input, size) <==> Resolvable(cwd', input, size)
  {
    BaseCases(cwd, input);
    BaseCases(cwd', input);
  }

  lemma {:induction false} AllFitAppend(p: Path, cs: seq<string>, c: string, size: nat)
    ensures AllFit(p, cs + [c], size) <==>
            AllFit(p, cs, size) && |c| < NAME_MAX && |Render(Step(Normalise(p, cs), c))| < size
    decreases |cs|
  {
    if cs == [] {
      assert cs + [c] == [c] && [c][1..] == [];
    } else {
      assert (cs + [c])[1..] == cs[1..] + [c];
      AllFitAppend(Step(p, cs[0]), cs[1..], c, size);
    }
  }

  /** What one more component does to the meaning of a text, and when the longer text still resolves. */
  lemma OneMore(cwd: Path, input: string, c: string, size: nat)
    requires input != [] && c != [] && '/' !in c
    ensures Resolvable(cwd, input + "/" + c, size) <==>
            Resolvable(cwd, input, size) && |c| < NAME_MAX && |Render(Meaning(cwd, input + "/" + c))| < size
    ensures var p, q := Meaning(cwd, input), Meaning(cwd, input + "/" + c);
            && (c == "." ==> q == p)
            && (c == ".." ==> q == if p == [] then [] else p[..|p| - 1])
            && (c != "." && c != ".." ==> q == p + [c])
  {
    var more := "/" + c;
    var whole := input + more;
    assert whole == input + "/" + c;
    SameBase(cwd, input, more);
    ComponentsAppend(Rest(input), more);
    ComponentsOne(c);
    NormaliseAppend(Base(cwd, input), Components(Rest(input)), [c]);
    AllFitAppend(Base(cwd, input), Components(Rest(input)), c, size);
    assert [c][1..] == [];
  }

  lemma SameBase(cwd: Path, input: string, more: string)
    requires input != [] && more != [] && more[0] == '/'
    ensures Base(cwd, input + more) == Base(cwd, input) && Rest(input + more) == Rest(input) + more
  {
    var whole := input + more;
    assert whole[0] == input[0] && whole[1..] == input[1..] + more;
    assert |input| == 1 ==> whole[1] == more[0];
    assert |input| > 1 ==> whole[1] == input[1];
  }

  // ----------------------------------------------------------------
  // The imperative resolver
  // ----------------------------------------------------------------

  /** The loop of path_pop: one past the index of the last slash. */
  method CutPoint(path: string, ghost up: string, ghost last: string) returns (length: nat)
    requires path == up + "/" + last && '/' !in last
    ensures length == |up| + 1
  {
    assert forall i :: |up| + 1 <= i < |path| ==> path[i] == last[i - |up| - 1] != '/';
    assert path[|up|] == '/';
    length := |path|;
    while length > 1 && path[length - 1] != '/'
      invariant |up| + 1 <= length <= |path|
    {
      length := length - 1;
    }
  }

  /** path_pop: cut the buffer at its last slash. */
  method PathPop(path: string, ghost p: Path) returns (r: string)
    requires IsPath(p) && path == Render(p)
    ensures r == Render(Step(p, ".."))
  {
    RenderNotRoot(p);
    if |path| <= 1 {
      return "/";
    }
    ParentText(p);
    RenderNotRoot(Parent(p));
    var length := CutPoint(path, Tail(Parent(p)), p[|p| - 1]);
    if length <= 1 {
      return "/";
    }
    r := path[..length - 1];
  }

  /** path_append: refuse when the longer path and its terminator exceed the buffer. */
  method PathAppend(path: string, size: nat, component: string, ghost p: Path) returns (ok: bool, r: string)
    requires IsPath(p) && path == Render(p)
    ensures ok <==> |Render(p + [component])| < size
    ensures r == if ok then Render(p + [component]) else path
  {
    RenderNotRoot(p);
    TailAppend(p, [component]);
    TailOne(component);
    var root := |path| == 1 && path[0] == '/';
    assert root <==> p == [];
    var required := |path| + |component| + (if root then 0 else 1) + 1;
    if required > size {
      return false, path;
    }
    r := path;
    if !root {
      r := r + "/";
    }
    for i := 0 to |component|
      invariant r == path + (if root then "" else "/") + component[..i]
    {
      r := r + [component[i]];
    }
    assert component[..|component|] == component;
    ok := true;
  }

  /** while (*cursor == '/') cursor++; */
  method SkipSlashes(input: string, start: nat) returns (cursor: nat)
    requires start <= |input|
    ensures start <= cursor <= |input|
    ensures cursor == |input| || input[cursor] != '/'
    ensures Components(input[cursor..]) == Components(input[start..])
  {
    cursor := start;
    while cursor < |input| && input[cursor] == '/'
      invariant start <= cursor <= |input|
      invariant Components(input[cursor..]) == Components(input[start..])
    {
      assert input[cursor..][1..] == input[cursor + 1..];
      cursor := cursor + 1;
    }
  }

  /** Copies one component into a NAME_MAX buffer; fails exactly when it is too long. */
  method ScanComponent(input: string, start: nat) returns (ok: bool, component: string, cursor: nat)
    requires start < |input| && input[start] != '/'
    ensures start <= cursor <= |input|
    ensures Components(input[start..]) != []
    ensures ok <==> |Components(input[start..])[0]| < NAME_MAX
    ensures ok ==> start < cursor && component == Components(input[start..])[0]
    ensures ok ==> Components(input[start..])[1..] == Components(input[cursor..])
  {
    ghost var n := Span(input[start..]);
    ghost var s := input[start..];
    assert forall i :: 0 <= i < n ==> s[i] == s[..n][i] != '/';
    assert forall i :: 0 <= i < |s| ==> s[i] == input[start + i];
    ok, component, cursor := ScanWord(input, start, n);
    assert s[n..] == input[start + n..] && s[..n] == input[start..start + n];
  }

  /** The copying loop, over a word of n characters. */
  method ScanWord(input: string, start: nat, ghost n: nat) returns (ok: bool, word: string, cursor: nat)
    requires 0 < n && start + n <= |input| && forall i :: start <= i < start + n ==> input[i] != '/'
    requires start + n == |input| || input[start + n] == '/'
    ensures start <= cursor <= |input| && (ok <==> n < NAME_MAX)
    ensures ok ==> cursor == start + n && word == input[start..start + n]
  {
    word, cursor := "", start;
    while cursor < |input| && input[cursor] != '/'
      invariant start <= cursor <= start + n && word == input[start..cursor] && |word| < NAME_MAX
    {
      if |word| >= NAME_MAX - 1 {
        return false, word, cursor;
      }
      assert input[start..cursor + 1] == input[start..cursor] + [input[cursor]];
      word := word + [input[cursor]];
      cursor := cursor + 1;
    }
    assert cursor == start + n;
    ok := true;
  }

  /** The effect of one component on the buffer. */
  method Apply(output: string, size: nat, component: string, ghost p: Path) returns (ok: bool, r: string)
    requires IsPath(p) && output == Render(p) && |output| < size
    ensures ok <==> |Render(Step(p, component))| < size
    ensures ok ==> r == Render(Step(p, component))
  {
    if component == "." {
      return true, output;
    }
    if component == ".." {
      r := PathPop(output, p);
      if p != [] { PrefixFits(Parent(p), p); }
      return true, r;
    }
    ok, r := PathAppend(output, size, component, p);
  }

  /** The main loop of root_path_resolve. */
  method Walk(input: string, start: nat, output0: string, size: nat, ghost base: Path) returns (r: Option<string>)
    requires IsText(input) && start <= |input|
    requires IsPath(base) && output0 == Render(base) && |output0| < size
    ensures r.Some? <==> AllFit(base, Components(input[start..]), size)
    ensures r.Some? ==> r.value == Render(Normalise(base, Components(input[start..])))
  {
    var output, cursor := output0, start;
    ghost var p := base;
    ghost var all := Components(input[start..]);
    while cursor < |input|
      invariant cursor <= |input|
      invariant IsPath(p) && output == Render(p) && |output| < size
      invariant AllFit(base, all, size) == AllFit(p, Components(input[cursor..]), size)
      invariant Normalise(base, all) == Normalise(p, Components(input[cursor..]))
    {
      cursor := SkipSlashes(input, cursor);
      if cursor == |input| {
        break;
      }
      ghost var from := cursor;
      var ok, component;
      ok, component, cursor := ScanComponent(input, cursor);
      if !ok {
        return None;
      }
      ComponentsArePieces(input[from..], 0);
      StepIsPath(p, component);
      ok, output := Apply(output, size, component, p);
      if !ok {
        return None;
      }
      p := Step(p, component);
    }
    r := Some(output);
  }

  /**
    root_path_resolve. A missing input is the empty one. The result is absent exactly
    when some component or some intermediate path does not fit.
   */
  method Resolve(current: string, input: string, size: nat, ghost cwd: Path) returns (r: Option<string>)
    requires Spells(current, cwd) && IsText(input)
    ensures r.Some? <==> Resolvable(cwd, input, size)
    ensures r.Some? ==> Spells(r.value, Meaning(cwd, input)) && |r.value| < size
  {
    if size < 2 {
      return None;
    }
    HomeIsPath();
    assert input[0..] == input;
    var output, cursor := current, 0;
    if input == [] {
      return if |current| < size then Some(current) else None;
    }
    if input[0] == '/' {
      output := "/";
      cursor := SkipSlashes(input, 0);
    } else if input[0] == '~' && (|input| == 1 || input[1] == '/') {
      output := Render(Home());
      cursor := SkipSlashes(input, 1);
    }
    if |output| >= size {
      return None;
    }
    r := Walk(input, cursor, output, size, Base(cwd, input));
    if r.Some? {
      MeaningIsPath(cwd, input, size);
      RenderSpells(Meaning(cwd, input));
    }
  }

  /** Two names resolved one after the other; None as soon as one fails. */
  method ResolvePair(current: string, a: string, b: string, size: nat, ghost cwd: Path) returns (r: Option<(string, string)>)
    requires Spells(current, cwd) && IsText(a) && IsText(b)
    ensures r.Some? <==> Resolvable(cwd, a, size) && Resolvable(cwd, b, size)
    ensures r.Some? ==> Spells(r.value.0, Meaning(cwd, a)) && Spells(r.value.1, Meaning(cwd, b)) && |r.value.1| < size
  {
    var first := Resolve(current, a, size, cwd);
    if first.None? {
      return None;
    }
    var second := Resolve(current, b, size, cwd);
    if second.None? {
      return None;
    }
    return Some((first.value, second.value));
  }
}
