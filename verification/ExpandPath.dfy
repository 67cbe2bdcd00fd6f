/**
 `_utils_expand_path` of src/common/path.c: build an absolute path, rewrite it in
 place, then drop a last "." or ".." token. The last step never has anything
 to do.
 */
module ExpandPath {
  import opened PathSpec
  import opened Path
  import opened Wrappers

  // ---------------------------------------------------------------------
  // The last token

  function LastSlash(s: string): (i: nat)
    requires '/' in s
    ensures i < |s| && s[i] == '/' && '/' !in s[i + 1..]
  {
    if s[|s| - 1] == '/' then |s| - 1 else
    var init := s[..|s| - 1];
    assert '/' in init by {
      var k :| 0 <= k < |s| && s[k] == '/';
      assert init[k] == '/';
    }
    var i := LastSlash(init);
    assert s[i + 1..] == init[i + 1..] + [s[|s| - 1]];
    i
  }

  lemma LastSlashIs(s: string, i: nat)
    requires i < |s| && s[i] == '/' && forall k :: i < k < |s| ==> s[k] != '/'
    ensures '/' in s && LastSlash(s) == i
  {
    if i < |s| - 1 {
      LastSlashIs(s[..|s| - 1], i);
    }
  }

  /** What the last-token step makes of an absolute path other than "/..". */
  function DropLastDots(s: string): string
    requires Absolute(s) && s != "/.."
  {
    var i := LastSlash(s);
    if s[i..] == "/." then s[..i]
    else if s[i..] == "/.." then
      assert s[0..] == s;
      assert s[..i][0] == '/';
      var j := LastSlash(s[..i]);
      if j == 0 then s[..1] else s[..j]
    else s
  }

  lemma LastToken(a: string, t: string)
    requires '/' !in t
    ensures var s := a + "/" + t;
            '/' in s && LastSlash(s) == |a| && s[..|a|] == a && s[|a|..] == "/" + t
    ensures "/" + t == "/." <==> t == "."
    ensures "/" + t == "/.." <==> t == ".."
  {
    hide LastSlash;
    var s := a + "/" + t;
    assert forall k | |a| < k < |s| :: s[k] == t[k - |a| - 1];
    LastSlashIs(s, |a|);
    Prefixed(t);
  }

  lemma Prefixed(t: string)
    ensures "/" + t == "/." <==> t == "."
    ensures "/" + t == "/.." <==> t == ".."
  {
    assert ("/" + t)[1..] == t && "/."[1..] == "." && "/.."[1..] == "..";
  }

  /** A last "." goes, and a last ".." with the token before it, but for the first slash; any other stays. */
  lemma LastDots(a: string, t: string)
    requires (a != "" ==> a[0] == '/') && '/' !in t && '\0' !in a && '\0' !in t && a + "/" + t != "/.."
    ensures t == "." ==> DropLastDots(a + "/" + t) == a
    ensures t != "." && t != ".." ==> DropLastDots(a + "/" + t) == a + "/" + t
  {
    hide LastSlash;
    LastToken(a, t);
  }

  lemma LastDotDot(a: string, t: string)
    requires (a != "" ==> a[0] == '/') && '/' !in t && '\0' !in a && '\0' !in t
    ensures var s := a + "/" + t + "/" + "..";
            |s| > 3 && Absolute(s) && DropLastDots(s) == if a == "" then "/" else a
  {
    hide LastSlash;
    var s := a + "/" + t;
    LastToken(a, t);
    LastToken(s, "..");
    var u := s + "/" + "..";
    assert u[..|a|] == u[..|s|][..|a|] && u[..1] == u[..|s|][..1] == s[..1];
    assert s[..1] == [s[0]] == "/";
  }

  /** strrchr(path, '/') on a terminated array. */
  method StrRChr(path: array<char>) returns (i: int)
    requires '\0' in path[..]
    ensures -1 <= i < |CString(path[..])|
    ensures 0 <= i ==> '/' in CString(path[..]) && i == LastSlash(CString(path[..]))
    ensures i < 0 ==> '/' !in CString(path[..])
  {
    var n := StrLen(path);
    ghost var s := CString(path[..]);
    assert forall k :: 0 <= k < n ==> path[k] == path[..n][k] == s[k];
    i := MemRChr(path, n);
    if i >= 0 {
      LastSlashIs(s, i);
    }
  }

  /** Writing a NUL at `i` cuts the string there. */
  method Cut(path: array<char>, i: nat)
    requires '\0' in path[..] && i <= |CString(path[..])|
    modifies path
    ensures '\0' in path[..] && CString(path[..]) == old(CString(path[..]))[..i]
  {
    ghost var s := CString(path[..]);
    assert path[..i] == s[..i];
    path[i] := '\0';
    CStringIs(path[..], i);
  }

  method FixLastToken(path: array<char>)
    requires '\0' in path[..] && Absolute(CString(path[..])) && CString(path[..]) != "/.."
    modifies path
    ensures '\0' in path[..] && CString(path[..]) == DropLastDots(old(CString(path[..])))
  {
    hide CString;
    ghost var s := CString(path[..]);
    var n := StrLen(path);
    var last := StrRChr(path);
    assert path[last..n] == s[last..];
    var isDotDot := path[last..n] == "/..";
    var isDot := path[last..n] == "/.";
    if isDot || isDotDot {
      Cut(path, last);
      if isDotDot {
        assert s[0..] == s;
        assert s[..last][0] == '/';
        last := StrRChr(path);
        if last == 0 {
          last := last + 1;
        }
        Cut(path, last);
      }
    }
  }

  /** The rewriting never leaves a last token "." or "..". */
  lemma LastTokenIsPlain(s: string)
    requires Absolute(s)
    ensures var e := Expanded(s);
            && Absolute(e) && e != "/.." && |e| <= |s|
            && e[LastSlash(e)..] != "/." && e[LastSlash(e)..] != "/.."
            && DropLastDots(e) == e
  {
    hide CString, Split, Resolve, Join, ByteLeft, SplitFrom;
    ResolveIsClean(s);
    NormalizeNeverLengthens(s);
    WriteIndexBehind(s);
    var stack, e := Resolve(Split(s)), Expanded(s);
    if EndsInSlash(s) {
      KeptNotNul(s);
      if stack == [] {
        EmptyJoin();
        assert |e| == 1;
        RootKept(s);
        assert e == "/";
        LastSlashIs(e, 0);
      } else {
        JoinNoNul(stack);
        JoinTop(stack);
        TopToken(e, stack, [KeptByte(s)]);
      }
    } else if stack == [] {
      LastSlashIs(e, 0);
    } else {
      JoinNoNul(stack);
      TopToken(e, stack, "");
    }
  }

  lemma KeptNotNul(s: string)
    requires Absolute(s) && WriteIndex(Split(s)) < |s|
    ensures KeptByte(s) != '\0'
  {
    PartsNotNul(s);
    ByteLeftNotNul(s, Split(s)[..|Split(s)| - 1], WriteIndex(Split(s)));
  }

  /** The first byte is a slash throughout. */
  lemma {:induction false} FirstByteLeft(s: string, ts: seq<string>)
    requires |s| > 0 && s[0] == '/'
    ensures ByteLeft(s, ts, 0) == '/'
    decreases |ts|
  {
    if ts != [] {
      FirstByteLeft(s, ts[..|ts| - 1]);
    }
  }

  lemma RootKept(s: string)
    requires Absolute(s) && EndsInSlash(s) && Resolve(Split(s)) == []
    ensures Expanded(s) == "/"
  {
    WriteIndexBehind(s);
    FirstByteLeft(s, Split(s)[..|Split(s)| - 1]);
  }

  lemma SlashTail(e: string)
    requires EndsInSlash(e)
    ensures '/' in e && e[LastSlash(e)..] == "/"
  {
    LastSlashIs(e, |e| - 1);
  }

  lemma PlainTail(e: string, w: nat, u: string)
    requires w < |e| && e[w] == '/' && e[w + 1..] == u && '/' !in u
    ensures '/' in e && e[LastSlash(e)..] == "/" + u
  {
    forall k | w < k < |e| ensures e[k] != '/' {
      assert e[k] == u[k - w - 1];
    }
    LastSlashIs(e, w);
  }

  /** A joined clean stack, with at most one byte after it, does not end in a dot token. */
  lemma TopToken(e: string, stack: Stack, extra: string)
    requires Clean(stack) && stack != [] && e == Join(stack) + extra && |extra| <= 1
    ensures |e| > 0 && e[0] == '/' && e[LastSlash(e)..] != "/." && e[LastSlash(e)..] != "/.."
    ensures e != "/.."
  {
    hide Join, LastSlash;
    JoinTop(stack);
    var w, top := |Join(stack[..|stack| - 1])|, stack[|stack| - 1];
    assert Plain(top);
    if extra == "/" {
      assert e[|e| - 1] == '/';
      SlashTail(e);
    } else {
      assert e[w + 1..] == top + extra;
      PlainTail(e, w, top + extra);
      NotDots(top, extra);
    }
    DotsToken();
  }

  lemma NotDots(top: string, extra: string)
    requires Plain(top) && |extra| <= 1
    ensures "/" + (top + extra) != "/." && "/" + (top + extra) != "/.."
  {
    var u := top + extra;
    assert u[0] == top[0] && (|top| == 2 ==> u[1] == top[1]);
    assert ("/" + u)[1..] == u;
    assert "/."[1..] == "." && "/.."[1..] == "..";
  }

  lemma DotsToken()
    ensures LastSlash("/..") == 0 && "/.."[0..] == "/.."
  {
    LastSlashIs("/..", 0);
  }

  // ---------------------------------------------------------------------
  // _utils_expand_path

  ghost predicate Resolves(realpath: string -> Option<string>) {
    forall s :: Absolute(s) && realpath(s).Some? ==>
      Absolute(realpath(s).value) && |realpath(s).value| < 4096
  }

  method Prepare(path: string, cwd: Option<string>, resolve: bool, realpath: string -> Option<string>)
    returns (abs: Option<string>)
    requires '\0' !in path && (cwd.Some? ==> Absolute(cwd.value)) && Resolves(realpath)
    ensures abs.Some? ==> Absolute(abs.value) && |abs.value| < 4096
    ensures cwd.None? && (path == "" || path[0] != '/') ==> abs == None
    ensures cwd.Some? || (path != "" && path[0] == '/') ==>
            var start := if path != "" && path[0] == '/' then path else cwd.value + "/" + path;
            abs == if |start| >= 4096 then None else if resolve then realpath(start) else Some(start)
  {
    var start: string;
    if |path| > 0 && path[0] == '/' {
      start := path;
    } else {
      if cwd.None? {
        return None;
      }
      start := cwd.value + "/" + path;
    }
    assert Absolute(start);
    if |start| >= LTTNG_PATH_MAX {
      return None;
    }
    if resolve {
      return realpath(start);
    }
    return Some(start);
  }

  /**
   The current directory and the resolution of symbolic links are inputs:
   `cwd` is what getcwd returned and `realpath` is utils_partial_realpath.
   */
  method UtilsExpandPath(path: string, cwd: Option<string>, resolve: bool, realpath: string -> Option<string>)
    returns (r: Option<string>)
    requires '\0' !in path && (cwd.Some? ==> Absolute(cwd.value)) && Resolves(realpath)
    ensures cwd.None? && (path == "" || path[0] != '/') ==> r == None
    ensures cwd.Some? || (path != "" && path[0] == '/') ==>
            var start := if path != "" && path[0] == '/' then path else cwd.value + "/" + path;
            Absolute(start) && r == if |start| >= 4096 || (resolve && realpath(start).None?) then None
                                    else Some(Expanded(if resolve then realpath(start).value else start))
  {
    hide Expanded, CString, DropLastDots, LastSlash;
    var prepared := Prepare(path, cwd, resolve, realpath);
    if prepared.None? {
      return None;
    }
    var start := prepared.value;
    var buffer := new char[LTTNG_PATH_MAX]((i: nat) => if i < |start| then start[i] else '\0');
    StoredString(buffer[..], start);
    var ret := ExpandDoubleSlashesDotAndDotDot(buffer);
    LastTokenIsPlain(start);
    FixLastToken(buffer);
    var n := StrLen(buffer);
    return Some(buffer[..n]);
  }

  lemma StoredString(m: seq<char>, s: string)
    requires |s| < |m| && '\0' !in s
    requires forall i :: 0 <= i < |s| ==> m[i] == s[i]
    requires m[|s|] == '\0'
    ensures '\0' in m && CString(m) == s
  {
    assert m[..|s|] == s;
    CStringIs(m, |s|);
  }
}
