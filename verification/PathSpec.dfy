/**
 What it means to normalise an absolute path: split it on '/', resolve the
 components against a stack, and render the stack again.

 Nothing here mentions the in-place rewriting of `Path.dfy`; the laws of
 normalisation (idempotence, non-expansion, shape of the last component) are
 proved about these functions.
 */
module PathSpec {

  type Stack = seq<string>

  /** Index of the first '/' at or after `i`, or |s|. */
  function NextSlash(s: string, i: nat): (j: nat)
    requires i <= |s|
    ensures i <= j <= |s|
    ensures forall k :: i <= k < j ==> s[k] != '/'
    ensures j < |s| ==> s[j] == '/'
    decreases |s| - i
  {
    if i == |s| || s[i] == '/' then i else NextSlash(s, i + 1)
  }

  /** The components of `s` from index `i` on, empty ones included. */
  function SplitFrom(s: string, i: nat): (ts: seq<string>)
    requires i <= |s|
    ensures |ts| > 0
    ensures forall t :: t in ts ==> '/' !in t
    decreases |s| - i
  {
    var j := NextSlash(s, i);
    if j == |s| then [s[i..]] else [s[i..j]] + SplitFrom(s, j + 1)
  }

  function Split(s: string): (ts: seq<string>)
    ensures |ts| > 0
    ensures forall t :: t in ts ==> '/' !in t
  {
    SplitFrom(s, 0)
  }

  /** A component that names something: neither empty, "." nor "..". */
  predicate Plain(t: string) {
    t != "" && t != "." && t != ".."
  }

  function Step(stack: Stack, t: string): (r: Stack)
    ensures forall u :: u in r ==> u in stack || (u == t && Plain(u))
  {
    if t == ".." then (if stack == [] then [] else stack[..|stack| - 1])
    else if Plain(t) then stack + [t]
    else stack
  }

  /** The stack left after all components, oldest first; the root is the floor. */
  function Resolve(ts: seq<string>): (stack: Stack)
    ensures forall t :: t in stack ==> t in ts && Plain(t)
  {
    if ts == [] then [] else
    assert ts == ts[..|ts| - 1] + [ts[|ts| - 1]];
    Step(Resolve(ts[..|ts| - 1]), ts[|ts| - 1])
  }

  function Join(stack: Stack): (s: string)
    ensures stack != [] ==> |s| > 0 && s[0] == '/'
  {
    if stack == [] then "" else Join(stack[..|stack| - 1]) + "/" + stack[|stack| - 1]
  }

  function Render(stack: Stack): string {
    if stack == [] then "/" else Join(stack)
  }

  /** The canonical form of an absolute path. */
  function Normalize(s: string): string {
    Render(Resolve(Split(s)))
  }

  predicate Absolute(s: string) {
    |s| > 0 && s[0] == '/' && '\0' !in s
  }

  predicate EndsInSlash(s: string) {
    |s| > 0 && s[|s| - 1] == '/'
  }

  /** A stack the resolution of some path can leave. */
  predicate Clean(stack: Stack) {
    forall t :: t in stack ==> Plain(t) && '/' !in t && '\0' !in t
  }

  // ---------------------------------------------------------------------
  // Splitting and joining

  lemma {:induction false} SplitFromParts(s: string, i: nat, c: char)
    requires i <= |s| && c !in s
    ensures forall t :: t in SplitFrom(s, i) ==> c !in t
    decreases |s| - i
  {
    var j := NextSlash(s, i);
    if j < |s| {
      SplitFromParts(s, j + 1, c);
    }
  }

  lemma ResolveIsClean(s: string)
    requires '\0' !in s
    ensures Clean(Resolve(Split(s)))
  {
    SplitFromParts(s, 0, '\0');
  }

  /** A joined clean stack ends in its top component, whose slash is the last one. */
  lemma JoinTop(stack: Stack)
    requires stack != [] && '/' !in stack[|stack| - 1]
    ensures var w := |Join(stack[..|stack| - 1])|;
            && w < |Join(stack)| && Join(stack)[w] == '/'
            && Join(stack)[..w] == Join(stack[..|stack| - 1])
            && Join(stack)[w + 1..] == stack[|stack| - 1]
            && forall k :: w < k < |Join(stack)| ==> Join(stack)[k] != '/'
  {
  }

  lemma {:induction false} JoinNoNul(stack: Stack)
    requires Clean(stack)
    ensures '\0' !in Join(stack)
  {
    if stack != [] {
      JoinNoNul(stack[..|stack| - 1]);
    }
  }

  lemma {:induction false} JoinConcat(a: Stack, b: Stack)
    ensures Join(a + b) == Join(a) + Join(b)
  {
    if b == [] {
      assert a + b == a;
    } else {
      JoinConcat(a, b[..|b| - 1]);
      assert (a + b)[..|a + b| - 1] == a + b[..|b| - 1];
    }
  }

  lemma {:induction false} NextSlashIs(s: string, i: nat, j: nat)
    requires i <= j <= |s|
    requires forall k :: i <= k < j ==> s[k] != '/'
    requires j < |s| ==> s[j] == '/'
    ensures NextSlash(s, i) == j
    decreases j - i
  {
    if i < j {
      NextSlashIs(s, i + 1, j);
    }
  }

  /** One component between two slashes, or between a slash and the end. */
  lemma SplitOne(s: string, i: nat, j: nat)
    requires i <= j <= |s| && '/' !in s[i..j]
    requires j < |s| ==> s[j] == '/'
    ensures SplitFrom(s, i) == if j == |s| then [s[i..j]] else [s[i..j]] + SplitFrom(s, j + 1)
  {
    forall k | i <= k < j ensures s[k] != '/' {
      assert s[k] == s[i..j][k - i];
    }
    NextSlashIs(s, i, j);
    assert j == |s| ==> s[i..] == s[i..j];
  }

  lemma JoinSingle(t: string)
    ensures Join([t]) == "/" + t
  {
    var one: Stack := [t];
    assert one[..0] == [];
  }

  lemma JoinHead(stack: Stack)
    requires stack != []
    ensures Join(stack) == "/" + stack[0] + Join(stack[1..])
  {
    assert stack == [stack[0]] + stack[1..];
    JoinConcat([stack[0]], stack[1..]);
    JoinSingle(stack[0]);
  }

  /** Where the first component of a joined stack ends and the others begin. */
  lemma JoinedHead(s: string, i: nat, stack: Stack)
    requires i <= |s| && s[i..] == Join(stack) && stack != []
    ensures i < |s| && s[i] == '/'
    ensures var j := i + 1 + |stack[0]|; j <= |s| && s[i + 1..j] == stack[0] && s[j..] == Join(stack[1..])
  {
    JoinHead(stack);
    var j := i + 1 + |stack[0]|;
    assert s[i + 1..j] == s[i..][1..j - i];
    assert s[j..] == s[i..][j - i..];
  }

  /** Splitting a joined stack gives back its components. */
  lemma {:induction false} SplitJoin(s: string, i: nat, stack: Stack)
    requires i <= |s| && s[i..] == Join(stack)
    requires stack != [] && forall t :: t in stack ==> '/' !in t
    ensures i < |s| && SplitFrom(s, i + 1) == stack
    decreases |stack|
  {
    JoinedHead(s, i, stack);
    var j := i + 1 + |stack[0]|;
    SplitOne(s, i + 1, j);
    if stack[1..] == [] {
      assert stack == [stack[0]];
    } else {
      SplitJoin(s, j, stack[1..]);
      assert stack == [stack[0]] + stack[1..];
    }
  }

  lemma SingleResolve(t: string)
    ensures Resolve([t]) == Step([], t)
  {
    var one: Stack := [t];
    assert one[..0] == [];
  }

  /** A leading empty component changes nothing. */
  lemma {:induction false} ResolveSkip(ts: seq<string>)
    ensures Resolve([""] + ts) == Resolve(ts)
  {
    if ts == [] {
      assert [""] + ts == [""];
      SingleResolve("");
    } else {
      var us := [""] + ts;
      ResolveSkip(ts[..|ts| - 1]);
      assert us[..|us| - 1] == [""] + ts[..|ts| - 1];
      assert us[|us| - 1] == ts[|ts| - 1];
    }
  }

  lemma {:induction false} ResolvePlain(ts: seq<string>)
    requires forall t :: t in ts ==> Plain(t)
    ensures Resolve(ts) == ts
  {
    if ts != [] {
      ResolvePlain(ts[..|ts| - 1]);
      assert Plain(ts[|ts| - 1]);
      assert ts == ts[..|ts| - 1] + [ts[|ts| - 1]];
    }
  }

  /** Splitting an absolute path: one empty component, then the rest. */
  lemma SplitAbsolute(s: string)
    requires |s| > 0 && s[0] == '/'
    ensures Split(s) == [""] + SplitFrom(s, 1)
    ensures Resolve(Split(s)) == Resolve(SplitFrom(s, 1))
  {
    NextSlashIs(s, 0, 0);
    ResolveSkip(SplitFrom(s, 1));
  }

  lemma RootResolves()
    ensures Resolve(Split("/")) == []
  {
    SplitAbsolute("/");
    SplitOne("/", 1, 1);
    SingleResolve("");
  }

  lemma SplitRender(stack: Stack)
    requires Clean(stack)
    ensures Resolve(Split(Render(stack))) == stack
  {
    hide SplitFrom, Split, Resolve, Join;
    if stack == [] {
      RootResolves();
    } else {
      var s := Join(stack);
      assert s[0..] == s;
      SplitJoin(s, 0, stack);
      SplitAbsolute(s);
      ResolvePlain(stack);
    }
  }

  // ---------------------------------------------------------------------
  // The laws of normalisation

  /** Normalising twice is normalising once. */
  lemma NormalizeIdempotent(s: string)
    requires '\0' !in s
    ensures Normalize(Normalize(s)) == Normalize(s)
  {
    ResolveIsClean(s);
    SplitRender(Resolve(Split(s)));
  }

  /** Bytes a sequence of components takes, one slash each. */
  function Width(ts: seq<string>): nat {
    if ts == [] then 0 else Width(ts[..|ts| - 1]) + 1 + |ts[|ts| - 1]|
  }

  lemma SingleWidth(t: string)
    ensures Width([t]) == 1 + |t|
  {
    var one: Stack := [t];
    assert one[..0] == [];
  }

  lemma {:induction false} WidthConcat(a: seq<string>, b: seq<string>)
    ensures Width(a + b) == Width(a) + Width(b)
  {
    if b == [] {
      assert a + b == a;
    } else {
      WidthConcat(a, b[..|b| - 1]);
      assert (a + b)[..|a + b| - 1] == a + b[..|b| - 1];
    }
  }

  lemma {:induction false} WidthOfSplit(s: string, i: nat)
    requires i <= |s|
    ensures Width(SplitFrom(s, i)) == |s| - i + 1
    decreases |s| - i
  {
    hide Width;
    var j := NextSlash(s, i);
    if j == |s| {
      SingleWidth(s[i..]);
    } else {
      WidthOfSplit(s, j + 1);
      SingleWidth(s[i..j]);
      WidthConcat([s[i..j]], SplitFrom(s, j + 1));
    }
  }

  lemma {:induction false} JoinResolveFits(ts: seq<string>)
    ensures |Join(Resolve(ts))| <= Width(ts)
  {
    if ts != [] {
      JoinResolveFits(ts[..|ts| - 1]);
    }
  }

  /** The canonical form is never longer than the path. */
  lemma NormalizeNeverLengthens(s: string)
    requires Absolute(s)
    ensures |Normalize(s)| <= |s|
  {
    SplitAbsolute(s);
    JoinResolveFits(SplitFrom(s, 1));
    WidthOfSplit(s, 1);
  }

  /** The canonical form is a fixed point exactly when nothing needs resolving. */
  lemma NormalIffRendered(s: string)
    requires Absolute(s)
    ensures Normalize(s) == s <==> exists stack :: Clean(stack) && s == Render(stack)
  {
    ResolveIsClean(s);
    if Normalize(s) == s {
      assert s == Render(Resolve(Split(s)));
    }
    forall stack | Clean(stack) && s == Render(stack)
      ensures Normalize(s) == s
    {
      SplitRender(stack);
    }
  }

  // ---------------------------------------------------------------------
  // One component more

  lemma {:induction false} SplitLast(s: string, i: nat, t: string)
    requires i <= |s| && '/' !in t
    ensures SplitFrom(s + "/" + t, i) == SplitFrom(s, i) + [t]
    decreases |s| - i
  {
    hide NextSlash;
    var (u, j) := (s + "/" + t, NextSlash(s, i));
    assert u[i..j] == s[i..j];
    SplitOne(u, i, j);
    SplitOne(s, i, j);
    if j == |s| {
      assert u[|s| + 1..] == t && u[|s| + 1..|u|] == t;
      SplitOne(u, |s| + 1, |u|);
    } else {
      SplitLast(s, j + 1, t);
      assert [s[i..j]] + (SplitFrom(s, j + 1) + [t]) == [s[i..j]] + SplitFrom(s, j + 1) + [t];
    }
  }

  lemma ResolveLast(s: string, t: string)
    requires '/' !in t
    ensures Resolve(Split(s + "/" + t)) == Step(Resolve(Split(s)), t)
  {
    SplitLast(s, 0, t);
    assert (Split(s) + [t])[..|Split(s)|] == Split(s);
  }

  lemma RenderedRoot(stack: Stack)
    requires forall t :: t in stack ==> Plain(t)
    ensures Render(stack) == "/" <==> stack == []
  {
    if stack != [] {
      assert Plain(stack[|stack| - 1]);
    }
  }

  /** An empty component and "." change nothing; any other but ".." is appended. */
  lemma OneMoreComponent(s: string, t: string)
    requires '/' !in t
    ensures t == "" || t == "." ==> Normalize(s + "/" + t) == Normalize(s)
    ensures t != "" && t != "." && t != ".." ==>
              Normalize(s + "/" + t) == (if Normalize(s) == "/" then "" else Normalize(s)) + "/" + t
  {
    hide Split, Resolve;
    var stack := Resolve(Split(s));
    ResolveLast(s, t);
    RenderedRoot(stack);
    assert (stack + [t])[..|stack|] == stack;
  }

  /** ".." takes the last component away, and leaves the root alone. */
  lemma OneComponentLess(s: string, a: string, u: string)
    requires Normalize(s) == "/" || (Normalize(s) == a + "/" + u && '/' !in u)
    ensures Normalize(s + "/" + "..") == if Normalize(s) == "/" || a == "" then "/" else a
  {
    hide Split, Resolve;
    var stack := Resolve(Split(s));
    ResolveLast(s, "..");
    RenderedRoot(stack);
    if stack != [] {
      var (rest, top) := (stack[..|stack| - 1], stack[|stack| - 1]);
      assert top in Split(s);
      LastComponent(a, u, Join(rest), top);
    }
  }

  lemma LastComponent(a: string, u: string, b: string, v: string)
    requires a + "/" + u == b + "/" + v && '/' !in u && '/' !in v
    ensures a == b && u == v
  {
    var s := a + "/" + u;
    assert s[|a|] == '/' && s[|b|] == (b + "/" + v)[|b|] == '/';
    assert s[..|a|] == a && (b + "/" + v)[..|b|] == b;
    assert s[|a| + 1..] == u && (b + "/" + v)[|b| + 1..] == v;
  }
}
