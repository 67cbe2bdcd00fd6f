/**
 src/common/path.c: the in-place removal of "//", "." and ".." from an absolute
 path, and the last-token fix-up that follows it in `_utils_expand_path`.

 One array is read at `curr` and written at `w`; the loop is proved against the
 component stack of `PathSpec.dfy`.
 */
module Path {
  import opened PathSpec
  import opened Wrappers

  const LTTNG_PATH_MAX := 4096

  /** The C string stored in `m`: everything before the first NUL. */
  function CString(m: seq<char>): (s: string)
    requires '\0' in m
    ensures |s| < |m| && m[..|s|] == s && m[|s|] == '\0' && '\0' !in s
  {
    if m[0] == '\0' then "" else [m[0]] + CString(m[1..])
  }

  lemma {:induction false} CStringIs(m: seq<char>, n: nat)
    requires n < |m| && m[n] == '\0' && '\0' !in m[..n]
    ensures CString(m) == m[..n]
  {
    if n > 0 {
      assert m[1..][..n - 1] == m[..n][1..];
      assert m[0] == m[..n][0];
      CStringIs(m[1..], n - 1);
    }
  }

  // ---------------------------------------------------------------------
  // What the rewriting leaves in the array

  /** Where the write index stands once the components `ts` are processed. */
  function WriteIndex(ts: seq<string>): nat {
    |Join(Resolve(ts))|
  }

  /**
   The byte at index `i` once the components `ts` of `s` are processed: that of
   the most recent component copied over `i`, else the original one.
   */
  function ByteLeft(s: string, ts: seq<string>, i: nat): char
    requires i < |s|
    decreases |ts|
  {
    if ts == [] then s[i] else
    var before, t := ts[..|ts| - 1], ts[|ts| - 1];
    var w := WriteIndex(before);
    if Plain(t) && w <= i <= w + |t| then ("/" + t)[i - w] else ByteLeft(s, before, i)
  }

  /** The byte kept after the last component of a path ending in '/'. */
  function KeptByte(s: string): char
    requires WriteIndex(Split(s)) < |s|
  {
    ByteLeft(s, Split(s)[..|Split(s)| - 1], WriteIndex(Split(s)))
  }

  /** The string the rewriting produces. */
  function Expanded(s: string): string
    requires Absolute(s)
  {
    WriteIndexBehind(s);
    var stack := Resolve(Split(s));
    if EndsInSlash(s) then Join(stack) + [KeptByte(s)] else Render(stack)
  }

  lemma WriteIndexBehind(s: string)
    requires Absolute(s)
    ensures EndsInSlash(s) ==> WriteIndex(Split(s)) < |s|
  {
    SplitAbsolute(s);
    JoinResolveFits(SplitFrom(s, 1));
    WidthOfSplit(s, 1);
    if EndsInSlash(s) {
      SplitEndsEmpty(s, 1);
      var ts := SplitFrom(s, 1);
      assert Resolve(ts) == Resolve(ts[..|ts| - 1]);
      JoinResolveFits(ts[..|ts| - 1]);
    }
  }

  lemma {:induction false} SplitEndsEmpty(s: string, i: nat)
    requires i <= |s| && EndsInSlash(s)
    ensures var ts := SplitFrom(s, i); ts[|ts| - 1] == ""
    decreases |s| - i
  {
    if NextSlash(s, i) < |s| {
      SplitEndsEmpty(s, NextSlash(s, i) + 1);
    }
  }

  lemma Extend(s: string, done: seq<string>, t: string)
    ensures Resolve(done + [t]) == Step(Resolve(done), t)
    ensures forall i | 0 <= i < |s| :: ByteLeft(s, done + [t], i) ==
              var w := WriteIndex(done);
              if Plain(t) && w <= i <= w + |t| then ("/" + t)[i - w] else ByteLeft(s, done, i)
  {
    assert (done + [t])[..|done|] == done;
  }

  // ---------------------------------------------------------------------
  // The C library calls the loop makes

  method StrLen(path: array<char>) returns (n: nat)
    requires '\0' in path[..]
    ensures n < path.Length && path[n] == '\0' && path[..n] == CString(path[..])
  {
    ghost var z :| 0 <= z < path.Length && path[z] == '\0';
    n := 0;
    while path[n] != '\0'
      invariant n <= z
      invariant forall k :: 0 <= k < n ==> path[k] != '\0'
      decreases z - n
    {
      n := n + 1;
    }
    CStringIs(path[..], n);
  }

  /** memchr of '/' in path[from..to], or `to`. */
  method MemChr(path: array<char>, from: nat, to: nat) returns (j: nat)
    requires from <= to <= path.Length
    ensures from <= j <= to && forall k :: from <= k < j ==> path[k] != '/'
    ensures j < to ==> path[j] == '/'
  {
    j := from;
    while j < to && path[j] != '/'
      invariant from <= j <= to && forall k :: from <= k < j ==> path[k] != '/'
    {
      j := j + 1;
    }
  }

  /** memrchr of '/' in path[..n], or -1. */
  method MemRChr(path: array<char>, n: nat) returns (i: int)
    requires n <= path.Length
    ensures -1 <= i < n
    ensures 0 <= i ==> path[i] == '/'
    ensures forall k :: i < k < n ==> path[k] != '/'
  {
    i := n - 1;
    while i >= 0 && path[i] != '/'
      invariant -1 <= i < n
      invariant forall k :: i < k < n ==> path[k] != '/'
    {
      i := i - 1;
    }
  }

  /** `m'` is `m` with a slash and the `len` bytes from `curr` on written at `w`. */
  ghost predicate Copied(m: seq<char>, m': seq<char>, w: nat, curr: nat, len: nat)
    requires w < curr && curr + len <= |m|
  {
    && |m'| == |m|
    && (forall i | 0 <= i < |m| && (i < w || w + len < i) :: m'[i] == m[i])
    && m'[w] == '/'
    && forall i | w < i <= w + len :: m'[i] == m[curr + (i - w - 1)]
  }

  /** Write a slash at `w`, then move the token at `curr` behind it; the regions may overlap. */
  method CopyToken(path: array<char>, w: nat, curr: nat, len: nat) returns (end: nat)
    requires w < curr && curr + len <= path.Length
    modifies path
    ensures end == w + 1 + len
    ensures Copied(old(path[..]), path[..], w, curr, len)
  {
    path[w] := '/';
    forall i | 0 <= i < len {
      path[w + 1 + i] := path[curr + i];
    }
    end := w + 1 + len;
  }

  // ---------------------------------------------------------------------
  // expand_double_slashes_dot_and_dotdot

  /** Components `done` of `s` lie before index `curr`, the others from there on. */
  ghost predicate Pending(s: string, done: seq<string>, curr: nat) {
    && curr <= |s| + 1
    && (if curr <= |s| then done + SplitFrom(s, curr) == Split(s)
        else done == Split(s) && !EndsInSlash(s))
    && (0 < curr <= |s| ==> s[curr - 1] == '/')
    && (curr == 0 ==> done == [])
  }

  /** The array once the components `done` are processed. */
  ghost predicate Written(m: seq<char>, s: string, done: seq<string>, w: nat) {
    && |s| < |m|
    && w == WriteIndex(done) && w <= |m| && m[..w] == Join(Resolve(done))
    && forall i | 0 <= i < |s| :: m[i] == ByteLeft(s, done, i)
  }

  /** Nothing from `curr` on is written yet, and the write index is behind. */
  ghost predicate Ahead(m: seq<char>, s: string, curr: nat, w: nat) {
    && |s| < |m|
    && (if curr == 0 then w == 0 else w < curr)
    && forall i | curr <= i < |s| :: m[i] == s[i]
  }

  /** `next` is the first slash of the array at or after `curr`, or the end. */
  ghost predicate TokenAt(m: seq<char>, s: string, curr: nat, next: nat) {
    && curr < |s| < |m| && curr <= next <= |s|
    && (forall k :: curr <= k < next ==> m[k] != '/')
    && (next < |s| ==> m[next] == '/')
  }

  lemma TokenOf(m: seq<char>, s: string, curr: nat, w: nat, next: nat)
    requires Absolute(s) && Ahead(m, s, curr, w) && TokenAt(m, s, curr, next)
    ensures m[curr..next] == s[curr..next] && '/' !in s[curr..next]
    ensures next < |s| ==> s[next] == '/'
    ensures curr == 0 ==> next == 0
  {
  }

  lemma PendingStep(s: string, done: seq<string>, curr: nat, next: nat)
    requires curr < |s| && curr <= next <= |s| && Pending(s, done, curr)
    requires '/' !in s[curr..next] && (next < |s| ==> s[next] == '/')
    ensures Pending(s, done + [s[curr..next]], next + 1)
  {
    SplitOne(s, curr, next);
    if next < |s| {
      assert done + ([s[curr..next]] + SplitFrom(s, next + 1)) ==
             (done + [s[curr..next]]) + SplitFrom(s, next + 1);
    } else {
      assert s[|s| - 1] == s[curr..next][|s| - 1 - curr];
    }
  }

  lemma ResolvedParts(s: string, done: seq<string>, curr: nat)
    requires curr <= |s| && Pending(s, done, curr)
    ensures forall t :: t in Resolve(done) ==> '/' !in t
  {
    forall t | t in Resolve(done) ensures '/' !in t {
      assert t in done + SplitFrom(s, curr);
    }
  }

  /** Skipping an empty or "." component. */
  lemma WrittenSkip(m: seq<char>, s: string, done: seq<string>, w: nat, t: string)
    requires Written(m, s, done, w) && (t == "" || t == ".")
    ensures Written(m, s, done + [t], w)
  {
    Extend(s, done, t);
  }

  /** Popping on "..": the last slash of the written prefix is that of the top component. */
  lemma WrittenPop(m: seq<char>, s: string, done: seq<string>, w: nat, prev: int)
    requires Written(m, s, done, w)
    requires forall t :: t in Resolve(done) ==> '/' !in t
    requires -1 <= prev < w && (0 <= prev ==> m[prev] == '/')
    requires forall k :: prev < k < w ==> m[k] != '/'
    ensures Written(m, s, done + [".."], if prev < 0 then w else prev)
  {
    Extend(s, done, "..");
    var stack := Resolve(done);
    if stack != [] {
      JoinTop(stack);
      var top := |Join(stack[..|stack| - 1])|;
      assert m[..w][top] == '/' && (0 <= prev ==> m[..w][prev] == '/');
      assert prev == top;
      assert m[..prev] == m[..w][..prev];
    }
  }

  lemma JoinPush(stack: Stack, t: string)
    ensures Join(stack + [t]) == Join(stack) + "/" + t
  {
    assert (stack + [t])[..|stack|] == stack;
  }

  /** Copying a plain component behind the write index. */
  lemma WrittenCopy(m: seq<char>, m': seq<char>, s: string, done: seq<string>, w: nat, t: string)
    requires Written(m, s, done, w) && Plain(t) && w + 1 + |t| <= |s|
    requires |m'| == |m| && m'[..w] == m[..w] && m'[w] == '/' && m'[w + 1..w + 1 + |t|] == t
    requires forall i | w + |t| < i < |m| :: m'[i] == m[i]
    ensures Written(m', s, done + [t], w + 1 + |t|)
  {
    hide Join, Resolve, ByteLeft;
    Extend(s, done, t);
    JoinPush(Resolve(done), t);
    assert m'[..w + 1 + |t|] == m[..w] + "/" + t;
    forall i | 0 <= i < |s| ensures m'[i] == ByteLeft(s, done + [t], i) {
      if w <= i <= w + |t| {
        assert w < i ==> m'[i] == m'[w + 1..w + 1 + |t|][i - w - 1];
      } else {
        assert i < w ==> m'[i] == m'[..w][i] && m[i] == m[..w][i];
      }
    }
  }

  /** Everything the loop knows between two rounds. */
  ghost predicate Scan(m: seq<char>, s: string, done: seq<string>, curr: nat, w: nat) {
    Absolute(s) && Pending(s, done, curr) && Written(m, s, done, w) && Ahead(m, s, curr, w)
  }

  lemma ScanSkip(m: seq<char>, s: string, done: seq<string>, curr: nat, w: nat, next: nat)
    requires Scan(m, s, done, curr, w) && TokenAt(m, s, curr, next)
    requires next == curr || (next == curr + 1 && m[curr] == '.')
    ensures Scan(m, s, done + [s[curr..next]], next + 1, w)
  {
    TokenOf(m, s, curr, w, next);
    PendingStep(s, done, curr, next);
    WrittenSkip(m, s, done, w, s[curr..next]);
  }

  lemma ScanPop(m: seq<char>, s: string, done: seq<string>, curr: nat, w: nat, next: nat, prev: int)
    requires Scan(m, s, done, curr, w) && TokenAt(m, s, curr, next)
    requires next == curr + 2 && m[curr] == '.' && m[curr + 1] == '.'
    requires -1 <= prev < w && (0 <= prev ==> m[prev] == '/')
    requires forall k :: prev < k < w ==> m[k] != '/'
    ensures Scan(m, s, done + [s[curr..next]], next + 1, if prev < 0 then w else prev)
  {
    TokenOf(m, s, curr, w, next);
    PendingStep(s, done, curr, next);
    ResolvedParts(s, done, curr);
    assert m[curr..next] == "..";
    WrittenPop(m, s, done, w, prev);
  }

  lemma ScanCopy(m: seq<char>, m': seq<char>, s: string, done: seq<string>, curr: nat, w: nat, next: nat)
    requires Scan(m, s, done, curr, w) && TokenAt(m, s, curr, next) && w < curr < next
    requires next == curr + 1 ==> m[curr] != '.'
    requires next == curr + 2 ==> m[curr] != '.' || m[curr + 1] != '.'
    requires Copied(m, m', w, curr, next - curr)
    ensures Scan(m', s, done + [s[curr..next]], next + 1, w + 1 + (next - curr))
  {
    hide Written, Pending, Split, SplitFrom;
    TokenOf(m, s, curr, w, next);
    PendingStep(s, done, curr, next);
    var t := s[curr..next];
    assert t[0] == m[curr] && (|t| == 2 ==> t[1] == m[curr + 1]);
    assert m'[w + 1..w + 1 + |t|] == m[curr..next];
    assert m'[..w] == m[..w];
    WrittenCopy(m, m', s, done, w, t);
  }

  lemma ScanBounds(m: seq<char>, s: string, done: seq<string>, curr: nat, w: nat, next: nat)
    requires Scan(m, s, done, curr, w) && TokenAt(m, s, curr, next)
    ensures curr <= next <= |s| < |m| && w <= curr && (curr < next ==> w < curr)
  {
  }

  /**
   One round of the loop body on the token path[curr..next]: skip it, pop the
   previous component, or copy it behind the write index.
   */
  method ExpandToken(path: array<char>, w: nat, curr: nat, next: nat, ghost s: string, ghost done: seq<string>)
    returns (w': nat)
    requires Scan(path[..], s, done, curr, w) && TokenAt(path[..], s, curr, next)
    modifies path
    ensures Scan(path[..], s, done + [s[curr..next]], next + 1, w')
    ensures path[|s|..] == old(path[|s|..])
  {
    hide Scan, TokenAt;
    var len := next - curr;
    w' := w;
    ScanBounds(path[..], s, done, curr, w, next);
    if len == 0 || (len == 1 && path[curr] == '.') {
      ScanSkip(path[..], s, done, curr, w, next);
    } else if len == 2 && path[curr] == '.' && path[curr + 1] == '.' {
      var prev := MemRChr(path, w);
      ScanPop(path[..], s, done, curr, w, next, prev);
      if prev >= 0 {
        w' := prev;
      }
    } else {
      ghost var m := path[..];
      w' := CopyToken(path, w, curr, len);
      ScanCopy(m, path[..], s, done, curr, w, next);
    }
  }

  lemma ScanStart(m: seq<char>, n: nat)
    requires n < |m| && Absolute(m[..n])
    ensures Scan(m, m[..n], [], 0, 0)
  {
    assert [] + Split(m[..n]) == Split(m[..n]);
  }

  method ExpandDoubleSlashesDotAndDotDot(path: array<char>) returns (ret: int)
    requires '\0' in path[..]
    requires CString(path[..]) == "" || Absolute(CString(path[..]))
    modifies path
    ensures old(CString(path[..])) == "" ==> ret == -1 && path[..] == old(path[..])
    ensures old(CString(path[..])) != "" ==>
              ret == 0 && '\0' in path[..] && CString(path[..]) == Expanded(old(CString(path[..])))
    ensures ret == 0 && !EndsInSlash(old(CString(path[..]))) ==> CString(path[..]) == Normalize(old(CString(path[..])))
    ensures var n := |old(CString(path[..]))|; path[n + 1..] == old(path[n + 1..])
  {
    hide Scan, Expanded, Absolute, CString;
    ghost var s := CString(path[..]);
    var n := StrLen(path);
    if n == 0 {
      assert s == "";
      return -1;
    }
    ghost var done: seq<string> := [];
    var w: nat, curr: nat := 0, 0;
    assert path[..n] == s;
    ScanStart(path[..], n);
    while curr < n
      invariant |s| == n < path.Length && Scan(path[..], s, done, curr, w)
      invariant path[..][n..] == old(path[..])[n..]
      decreases n + 1 - curr
    {
      var next := MemChr(path, curr, n);
      w := ExpandToken(path, w, curr, next, s, done);
      done := done + [s[curr..next]];
      curr := next + 1;
    }
    ghost var m := path[..];
    FinishScan(m, s, done, curr, w);
    if curr == n {
      w := w + 1;
    }
    PastNul(m, old(path[..]), n);
    Terminate(path, n, w, s);
    if !EndsInSlash(s) {
      ExpandedIsNormal(s);
    }
    ret := 0;
  }

  lemma PastNul(a: seq<char>, b: seq<char>, n: nat)
    requires n < |a| == |b| && a[n..] == b[n..]
    ensures a[n + 1..] == b[n + 1..]
  {
    assert a[n + 1..] == a[n..][1..];
    assert b[n + 1..] == b[n..][1..];
  }

  /** The root of an empty result, and the final NUL. */
  method Terminate(path: array<char>, n: nat, end: nat, ghost s: string)
    requires Absolute(s) && |s| == n < path.Length && end <= n
    requires '\0' !in Expanded(s)
    requires Expanded(s) == if end == 0 then "/" else path[..end]
    modifies path
    ensures '\0' in path[..] && CString(path[..]) == Expanded(s)
    ensures path[n + 1..] == old(path[n + 1..])
  {
    var w := end;
    if w == 0 {
      path[w] := '/';
      w := w + 1;
    }
    path[w] := '\0';
    assert path[..w] == Expanded(s);
    CStringIs(path[..], w);
  }

  lemma {:induction false} ByteLeftNotNul(s: string, ts: seq<string>, i: nat)
    requires i < |s| && '\0' !in s && forall t :: t in ts ==> '\0' !in t
    ensures ByteLeft(s, ts, i) != '\0'
    decreases |ts|
  {
    if ts != [] {
      ByteLeftNotNul(s, ts[..|ts| - 1], i);
      assert '\0' !in "/" + ts[|ts| - 1];
    }
  }

  /** The end of the input: either the last component just ended, or the path ends in '/'. */
  lemma FinishScan(m: seq<char>, s: string, done: seq<string>, curr: nat, w: nat)
    requires Scan(m, s, done, curr, w) && curr >= |s|
    ensures (curr == |s|) == EndsInSlash(s)
    ensures '\0' !in Expanded(s)
    ensures var end := if curr == |s| then w + 1 else w;
            end <= |s| && Expanded(s) == if end == 0 then "/" else m[..end]
  {
    ResolveIsClean(s);
    JoinNoNul(Resolve(Split(s)));
    if curr == |s| {
      FinishSlash(m, s, done, w);
    }
  }

  lemma FinishSlash(m: seq<char>, s: string, done: seq<string>, w: nat)
    requires Scan(m, s, done, |s|, w)
    ensures EndsInSlash(s) && w < |s|
    ensures m[..w + 1] == Expanded(s) && '\0' !in Expanded(s)
  {
    hide Join, SplitFrom, Resolve, Split;
    LastEmpty(s, done);
    ResolveIsClean(s);
    JoinNoNul(Resolve(done));
    PartsNotNul(s);
    ByteLeftNotNul(s, done, w);
    assert m[..w + 1] == m[..w] + [m[w]];
  }

  lemma PartsNotNul(s: string)
    requires '\0' !in s
    ensures forall t :: t in Split(s) ==> '\0' !in t
  {
    SplitFromParts(s, 0, '\0');
  }

  lemma LastEmpty(s: string, done: seq<string>)
    requires Pending(s, done, |s|)
    ensures Split(s) == done + [""] && Split(s)[..|Split(s)| - 1] == done
    ensures Resolve(Split(s)) == Resolve(done)
    ensures forall t :: t in done ==> t in Split(s)
  {
    SplitOne(s, |s|, |s|);
    Extend(s, done, "");
  }

  // ---------------------------------------------------------------------
  // Paths that do not end in '/' are normalised; the others keep a byte

  lemma ExpandedIsNormal(s: string)
    requires Absolute(s) && !EndsInSlash(s)
    ensures Expanded(s) == Normalize(s)
  {
  }

  /** Rewriting a canonical path changes nothing. */
  lemma NormalIsFixed(s: string)
    requires Absolute(s)
    ensures Absolute(Normalize(s)) && Expanded(Normalize(s)) == Normalize(s)
  {
    hide Split, Resolve, Join;
    NormalizeIdempotent(s);
    ResolveIsClean(s);
    var stack := Resolve(Split(s));
    if stack == [] {
      RootIsFixed();
    } else {
      JoinNoNul(stack);
      JoinEnds(stack);
    }
  }

  lemma JoinEnds(stack: Stack)
    requires Clean(stack) && stack != []
    ensures !EndsInSlash(Join(stack))
  {
    JoinTop(stack);
    var n, top := Join(stack), stack[|stack| - 1];
    assert Plain(top);
    assert n[|n| - 1] == n[|n| - |top|..][|top| - 1];
  }

  /** The canonical form of a path, with one slash at its end. */
  function DirectoryForm(s: string): string {
    Join(Resolve(Split(s))) + "/"
  }

  /** Start of the most recent component copied over index `i`, if any. */
  function LatestOver(ts: seq<string>, i: nat): Option<nat>
    decreases |ts|
  {
    if ts == [] then None else
    var before, t := ts[..|ts| - 1], ts[|ts| - 1];
    var w := WriteIndex(before);
    if Plain(t) && w <= i <= w + |t| then Some(w) else LatestOver(before, i)
  }

  /** Whether a slash is what the rewriting finds after the last component. */
  predicate KeepsSlash(s: string) {
    var w := WriteIndex(Split(s));
    match LatestOver(Split(s), w)
    case None => w < |s| && s[w] == '/'
    case Some(start) => start == w
  }

  lemma {:induction false} SlashLeft(s: string, ts: seq<string>, i: nat)
    requires i < |s| && forall t :: t in ts ==> '/' !in t
    ensures ByteLeft(s, ts, i) == '/' <==>
              match LatestOver(ts, i)
              case None => s[i] == '/'
              case Some(start) => start == i
    decreases |ts|
  {
    if ts != [] {
      var t, w := ts[|ts| - 1], WriteIndex(ts[..|ts| - 1]);
      if Plain(t) && w <= i <= w + |t| {
        assert t in ts;
        assert w < i ==> ("/" + t)[i - w] == t[i - w - 1] && t[i - w - 1] in t;
      } else {
        SlashLeft(s, ts[..|ts| - 1], i);
      }
    }
  }

  /**
   A path ending in '/' comes out as its canonical form and one slash exactly
   when no stale byte sits at the write index.
   */
  lemma TrailingSlashExactly(s: string)
    requires Absolute(s) && EndsInSlash(s)
    ensures Expanded(s) == DirectoryForm(s) <==> KeepsSlash(s)
  {
    hide Join, SplitFrom, Resolve;
    WriteIndexBehind(s);
    SplitEndsEmpty(s, 0);
    var ts := Split(s);
    assert LatestOver(ts, WriteIndex(ts)) == LatestOver(ts[..|ts| - 1], WriteIndex(ts));
    SlashLeft(s, ts[..|ts| - 1], WriteIndex(ts));
    assert Expanded(s)[WriteIndex(ts)] == KeptByte(s);
  }

  /** Without "..", nothing beyond the write index has been written. */
  lemma {:induction false} UntouchedAhead(s: string, ts: seq<string>, i: nat)
    requires i < |s| && ".." !in ts && WriteIndex(ts) <= i
    ensures ByteLeft(s, ts, i) == s[i] && LatestOver(ts, i) == None
    decreases |ts|
  {
    if ts != [] {
      var before, t := ts[..|ts| - 1], ts[|ts| - 1];
      assert t in ts;
      if Plain(t) {
        JoinPush(Resolve(before), t);
      }
      UntouchedAhead(s, before, i);
    }
  }

  /** Without "..", the condition is about the input byte alone. */
  lemma TrailingSlashNoDotDot(s: string)
    requires Absolute(s) && EndsInSlash(s) && ".." !in Split(s)
    ensures WriteIndex(Split(s)) < |s|
    ensures Expanded(s) == DirectoryForm(s) <==> s[WriteIndex(Split(s))] == '/'
  {
    hide Join, SplitFrom, Resolve;
    WriteIndexBehind(s);
    TrailingSlashExactly(s);
    UntouchedAhead(s, Split(s), WriteIndex(Split(s)));
  }

  lemma SplitDoubleA()
    ensures Split("//a/") == [""] + ["", "a", ""]
    ensures Resolve(Split("//a/")) == ["a"]
  {
    hide Resolve;
    var s := "//a/";
    SplitAbsolute(s);
    SplitOne(s, 1, 1);
    SplitOne(s, 2, 3);
    SplitOne(s, 4, 4);
    assert s[2..3] == "a";
    var rest := ["a"] + [""];
    assert SplitFrom(s, 1) == [""] + rest;
    ResolveSkip(rest);
    Extend(s, ["a"], "");
    SingleResolve("a");
  }

  /** "//a/" is rewritten to "/aa". */
  lemma TrailingSlashCounterexample()
    ensures Normalize("//a/") == "/a" && Expanded("//a/") == "/aa"
  {
    hide Split, Resolve;
    SplitDoubleA();
    JoinSingle("a");
    var s := "//a/";
    var ts := Split(s);
    Extend(s, ts[..3], "");
    assert ts == ts[..3] + [""];
    assert WriteIndex(ts[..3]) == 2;
    UntouchedAhead(s, ts[..3], 2);
  }

  lemma RootIsFixed()
    ensures Expanded("/") == "/" && Normalize("/") == "/"
  {
    RootResolves();
    TrailingSlashNoDotDotRoot();
  }

  lemma TrailingSlashNoDotDotRoot()
    ensures ".." !in Split("/") && Expanded("/") == DirectoryForm("/")
  {
    SplitAbsolute("/");
    SplitOne("/", 1, 1);
    RootResolves();
    TrailingSlashNoDotDot("/");
  }

  /** A canonical path with a trailing slash is left as it is. */
  lemma NormalWithSlashIsFixed(stack: Stack)
    requires Clean(stack)
    ensures Absolute(Join(stack) + "/") && Expanded(Join(stack) + "/") == Join(stack) + "/"
  {
    var s := Join(stack) + "/";
    JoinNoNul(stack);
    JoinedWithSlash(stack);
    TrailingSlashNoDotDot(s);
  }

  lemma JoinedWithSlash(stack: Stack)
    requires Clean(stack)
    ensures var s := Join(stack) + "/";
            ".." !in Split(s) && Resolve(Split(s)) == stack
  {
    hide Join, Split, SplitFrom, Resolve;
    var s := Join(stack) + "/";
    if stack == [] {
      EmptyJoin();
      assert s == "/";
      TrailingSlashNoDotDotRoot();
      RootResolves();
    } else {
      assert s[0..] == s;
      SplitJoinSlash(s, 0, stack);
      SplitAbsolute(s);
      assert Split(s) == [""] + (stack + [""]);
      ResolvePlain(stack);
      Extend(s, stack, "");
    }
  }

  lemma EmptyJoin()
    ensures Join([]) == ""
  {
  }

  lemma JoinedHeadSlash(s: string, i: nat, stack: Stack)
    requires i <= |s| && s[i..] == Join(stack) + "/" && stack != []
    ensures var j := i + 1 + |stack[0]|;
            && j < |s| && s[i + 1..j] == stack[0] && s[j..] == Join(stack[1..]) + "/" && s[j] == '/'
            && (|stack| == 1 ==> j + 1 == |s|)
  {
    JoinHead(stack);
    var j, k := i + 1 + |stack[0]|, |s| - 1;
    var u := s[..k];
    assert u[i..] == s[i..][..k - i] == Join(stack);
    JoinedHead(u, i, stack);
    assert s[i + 1..j] == u[i + 1..j];
    assert s[j..] == u[j..] + [s[k]];
    assert s[k] == s[i..][k - i];
    assert s[j] == s[j..][0];
  }

  lemma {:induction false} SplitJoinSlash(s: string, i: nat, stack: Stack)
    requires i <= |s| && s[i..] == Join(stack) + "/"
    requires stack != [] && forall t :: t in stack ==> '/' !in t
    ensures i < |s| && SplitFrom(s, i + 1) == stack + [""]
    decreases |stack|
  {
    hide Join, SplitFrom;
    JoinedHeadSlash(s, i, stack);
    var j := i + 1 + |stack[0]|;
    SplitOne(s, i + 1, j);
    if stack[1..] == [] {
      SplitOne(s, j + 1, j + 1);
      assert stack == [stack[0]];
    } else {
      SplitJoinSlash(s, j, stack[1..]);
      assert stack == [stack[0]] + stack[1..];
    }
  }
}
