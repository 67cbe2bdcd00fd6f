/**
 Packed C structures as they travel: a list of field widths, without padding,
 and the values of the fields.
 */
module Wire {
  import opened Bytes

  type Layout = seq<nat>

  /** sizeof of a packed structure. */
  function Size(ws: Layout): nat {
    if ws == [] then 0 else ws[0] + Size(ws[1..])
  }

  /** offsetof of its field `i`. */
  function Offset(ws: Layout, i: nat): (o: nat)
    requires i < |ws|
    ensures o + ws[i] <= Size(ws)
  {
    if i == 0 then 0 else ws[0] + Offset(ws[1..], i - 1)
  }

  predicate Fits(ws: Layout, vs: seq<nat>) {
    |vs| == |ws| && forall i | 0 <= i < |ws| :: vs[i] < Pow256(ws[i])
  }

  function Pack(ws: Layout, vs: seq<nat>): (s: seq<byte>)
    requires |vs| == |ws|
    ensures |s| == Size(ws)
  {
    if ws == [] then [] else Le(ws[0], vs[0]) + Pack(ws[1..], vs[1..])
  }

  function Unpack(ws: Layout, s: seq<byte>): (vs: seq<nat>)
    requires |s| == Size(ws)
    ensures Fits(ws, vs)
  {
    if ws == [] then [] else
    var rest := Unpack(ws[1..], s[ws[0]..]);
    assert forall i | 0 <= i < |rest| :: rest[i] < Pow256(ws[1..][i]);
    [Val(s[..ws[0]])] + rest
  }

  lemma {:induction false} UnpackPack(ws: Layout, vs: seq<nat>)
    requires Fits(ws, vs)
    ensures Unpack(ws, Pack(ws, vs)) == vs
  {
    if ws != [] {
      var (first, rest) := (Le(ws[0], vs[0]), Pack(ws[1..], vs[1..]));
      ValLe(ws[0], vs[0]);
      assert (first + rest)[..ws[0]] == first && (first + rest)[ws[0]..] == rest;
      assert forall i | 0 <= i < |ws| - 1 :: vs[1..][i] < Pow256(ws[1..][i]);
      UnpackPack(ws[1..], vs[1..]);
    }
  }

  lemma {:induction false} PackUnpack(ws: Layout, s: seq<byte>)
    requires |s| == Size(ws)
    ensures Pack(ws, Unpack(ws, s)) == s
  {
    hide Le, Val, Fits, Pow256;
    if ws != [] {
      var (first, rest) := (s[..ws[0]], s[ws[0]..]);
      PackUnpack(ws[1..], rest);
      LeVal(first);
      var vs := Unpack(ws, s);
      assert vs[0] == Val(first) && vs[1..] == Unpack(ws[1..], rest);
      assert first + rest == s;
    }
  }

  /** A store to one field leaves the others alone. */
  lemma {:induction false} PatchField(ws: Layout, vs: seq<nat>, i: nat, v: nat)
    requires |vs| == |ws| && i < |ws|
    ensures Patched(Pack(ws, vs), Offset(ws, i), Le(ws[i], v)) == Pack(ws, vs[i := v])
  {
    hide Le, Patched;
    var (first, rest) := (Le(ws[0], vs[0]), Pack(ws[1..], vs[1..]));
    if i == 0 {
      PatchLeft(first, rest, 0, Le(ws[0], v));
      PatchAll(first, Le(ws[0], v));
      assert vs[i := v][1..] == vs[1..];
    } else {
      PatchField(ws[1..], vs[1..], i - 1, v);
      PatchRight(first, rest, Offset(ws[1..], i - 1), Le(ws[i], v));
      assert vs[i := v][1..] == vs[1..][i - 1 := v];
    }
  }

  lemma {:induction false} OffsetNext(ws: Layout, i: nat)
    requires i < |ws|
    ensures i == 0 ==> Offset(ws, i) == 0
    ensures if i + 1 < |ws| then Offset(ws, i + 1) == Offset(ws, i) + ws[i] else Size(ws) == Offset(ws, i) + ws[i]
  {
    if i > 0 {
      OffsetNext(ws[1..], i - 1);
    } else if |ws| > 1 {
      assert Offset(ws[1..], 0) == 0;
    }
  }

  /** A field of a packed structure, read where `Offset` says. */
  lemma {:induction false} PackedField(ws: Layout, vs: seq<nat>, i: nat, rest: seq<byte>)
    requires Fits(ws, vs) && i < |ws|
    ensures var (s, o) := (Pack(ws, vs) + rest, Offset(ws, i));
            o + ws[i] <= |s| && Val(s[o..o + ws[i]]) == vs[i]
  {
    hide Le, Val;
    var (first, more) := (Le(ws[0], vs[0]), Pack(ws[1..], vs[1..]));
    if i == 0 {
      ValLe(ws[0], vs[0]);
      assert (first + more + rest)[0..ws[0]] == first;
    } else {
      assert forall k | 0 <= k < |ws| - 1 :: vs[1..][k] < Pow256(ws[1..][k]);
      PackedField(ws[1..], vs[1..], i - 1, rest);
      var o := Offset(ws[1..], i - 1);
      Associate(first, more, rest);
      SliceRight(first, more + rest, ws[0] + o, ws[0] + o + ws[i]);
    }
  }

  lemma PatchAll(s: seq<byte>, f: seq<byte>)
    requires |f| == |s|
    ensures Patched(s, 0, f) == f
  {
  }

  // ---------------------------------------------------------------------
  // Lists

  /** The encodings of the elements of a list, one after the other. */
  function Each<T>(f: T -> seq<byte>, xs: seq<T>): seq<byte> {
    if xs == [] then [] else f(xs[0]) + Each(f, xs[1..])
  }

  lemma EachParts<T>(f: T -> seq<byte>, xs: seq<T>)
    ensures Each(f, xs) == if xs == [] then [] else f(xs[0]) + Each(f, xs[1..])
    ensures Each(f, xs[..0]) == []
  {
  }

  lemma {:induction false} EachNext<T>(f: T -> seq<byte>, xs: seq<T>, i: nat)
    requires i < |xs|
    ensures Each(f, xs[..i + 1]) == Each(f, xs[..i]) + f(xs[i])
    decreases |xs|
  {
    if i == 0 {
      assert xs[..1] == [xs[0]] && xs[..1][1..] == [] && xs[..0] == [];
      assert f(xs[0]) + [] == f(xs[0]) == [] + f(xs[0]);
    } else {
      EachNext(f, xs[1..], i - 1);
      assert xs[..i + 1][1..] == xs[1..][..i] && xs[..i][1..] == xs[1..][..i - 1];
      Associate(f(xs[0]), Each(f, xs[1..][..i - 1]), f(xs[i]));
    }
  }

  lemma {:induction false} EachGrows<T>(f: T -> seq<byte>, xs: seq<T>, i: nat)
    requires i <= |xs|
    ensures |Each(f, xs[..i])| <= |Each(f, xs)|
    decreases |xs| - i
  {
    hide Each;
    if i < |xs| {
      EachNext(f, xs, i);
      EachGrows(f, xs, i + 1);
    } else {
      assert xs[..i] == xs;
    }
  }

  // ---------------------------------------------------------------------
  // Parts of a message

  /** `p` lies in `s` at index `at`. */
  predicate Holds(s: seq<byte>, at: nat, p: seq<byte>) {
    at + |p| <= |s| && s[at..at + |p|] == p
  }

  lemma LongEnough(s: seq<byte>, at: nat, p: seq<byte>)
    requires Holds(s, at, p)
    ensures at + |p| <= |s|
  {
  }

  /** A message made of two parts, one after the other. */
  lemma HoldsBoth(s: seq<byte>, at: nat, p: seq<byte>, q: seq<byte>)
    ensures Holds(s, at, p + q) <==> Holds(s, at, p) && Holds(s, at + |p|, q)
  {
    if Holds(s, at, p + q) {
      SliceLeft(p, q, 0, |p|);
      SliceRight(p, q, |p|, |p| + |q|);
      SliceSlice(s, at, at + |p + q|, 0, |p|);
      SliceSlice(s, at, at + |p + q|, |p|, |p| + |q|);
      assert p[..|p|] == p && q[..|q|] == q;
    }
  }

  lemma HoldsInside(s: seq<byte>, lo: nat, n: nat, at: nat, p: seq<byte>)
    requires lo + n <= |s| && at + |p| <= n
    ensures Holds(s[lo..lo + n], at, p) <==> Holds(s, lo + at, p)
  {
    SliceSlice(s, lo, lo + n, at, at + |p|);
  }
}
