/**
 src/common/buffer-view.c: windows on memory that somebody else owns.
 */
module BufferViews {
  import opened Bytes
  import opened Wire
  import opened Wrappers

  /** struct lttng_buffer_view; `at` is the offset of its data in the memory it looks at. */
  datatype View = Null | View(mem: seq<byte>, at: nat, size: nat)

  predicate Inside(v: View) {
    v.View? ==> v.at + v.size <= |v.mem|
  }

  function SizeOf(v: View): nat {
    if v.Null? then 0 else v.size
  }

  /** The bytes a view shows. */
  function Seen(v: View): (s: seq<byte>)
    requires Inside(v)
    ensures |s| == SizeOf(v)
  {
    if v.Null? then [] else v.mem[v.at..v.at + v.size]
  }

  predicate IsValid(v: View) {
    v.View? && v.size > 0
  }

  /** lttng_buffer_view_from_dynamic_buffer, on the contents of the buffer. */
  function FromBuffer(mem: seq<byte>, offset: nat, len: int): (v: View)
    ensures Inside(v)
  {
    if offset > |mem| then Null
    else if len != -1 && (len < 0 || len > |mem| - offset) then Null
    else View(mem, offset, if len == -1 then |mem| - offset else len)
  }

  /** lttng_buffer_view_from_view */
  function FromView(src: View, offset: nat, len: int): (v: View)
    requires Inside(src)
    ensures Inside(v)
  {
    if src.Null? || offset > src.size then Null
    else if len != -1 && (len < 0 || len > src.size - offset) then Null
    else View(src.mem, src.at + offset, if len == -1 then src.size - offset else len)
  }

  /** What a view on a view shows: a slice of what its source shows, or nothing if that is out of bounds. */
  lemma SubView(v: View, offset: nat, len: nat)
    requires Inside(v)
    ensures IsValid(FromView(v, offset, len)) <==> len > 0 && offset + len <= SizeOf(v)
    ensures offset + len <= SizeOf(v) ==> Seen(FromView(v, offset, len)) == Seen(v)[offset..offset + len]
  {
    if v.View? && offset + len <= v.size {
      SliceSlice(v.mem, v.at, v.at + v.size, offset, offset + len);
    }
  }

  lemma RestView(v: View, offset: nat)
    requires Inside(v)
    ensures IsValid(FromView(v, offset, -1)) <==> offset < SizeOf(v)
    ensures offset <= SizeOf(v) ==> Seen(FromView(v, offset, -1)) == Seen(v)[offset..]
  {
    if v.View? && offset <= v.size {
      SliceSlice(v.mem, v.at, v.at + v.size, offset, v.size);
    }
  }

  /** What a view on a buffer shows, and when it shows anything. */
  lemma BufferView(mem: seq<byte>, offset: nat, len: nat)
    ensures IsValid(FromBuffer(mem, offset, len)) <==> len > 0 && offset + len <= |mem|
    ensures offset + len <= |mem| ==> Seen(FromBuffer(mem, offset, len)) == mem[offset..offset + len]
    ensures IsValid(FromBuffer(mem, offset, -1)) <==> offset < |mem|
    ensures offset <= |mem| ==> Seen(FromBuffer(mem, offset, -1)) == mem[offset..]
    ensures forall n | n < -1 :: !IsValid(FromBuffer(mem, offset, n))
  {
  }

  /** Offsets of nested views, outermost first, each with the length asked for (-1 for the rest). */
  type Nesting = seq<(nat, int)>

  function Nested(v: View, ns: Nesting): (w: View)
    requires Inside(v)
    ensures Inside(w)
    decreases |ns|
  {
    if ns == [] then v else Nested(FromView(v, ns[0].0, ns[0].1), ns[1..])
  }

  function OffsetSum(ns: Nesting): nat {
    if ns == [] then 0 else ns[0].0 + OffsetSum(ns[1..])
  }

  /** Any nesting that shows something is one view, at the sum of the offsets, inside its source. */
  lemma {:induction false} NestedIsOne(v: View, ns: Nesting)
    requires Inside(v) && Nested(v, ns).View?
    ensures OffsetSum(ns) + SizeOf(Nested(v, ns)) <= SizeOf(v)
    ensures Nested(v, ns) == FromView(v, OffsetSum(ns), SizeOf(Nested(v, ns)))
    ensures Seen(Nested(v, ns)) == Seen(v)[OffsetSum(ns)..OffsetSum(ns) + SizeOf(Nested(v, ns))]
    decreases |ns|
  {
    if ns != [] {
      NullStays(FromView(v, ns[0].0, ns[0].1), ns[1..]);
      NestedIsOne(FromView(v, ns[0].0, ns[0].1), ns[1..]);
    }
    if v.Null? {
      NullStays(v, ns);
    }
    SubView(v, OffsetSum(ns), SizeOf(Nested(v, ns)));
  }

  lemma {:induction false} NullStays(v: View, ns: Nesting)
    requires Inside(v)
    ensures v.Null? ==> Nested(v, ns).Null?
    decreases |ns|
  {
    if ns != [] {
      NullStays(FromView(v, ns[0].0, ns[0].1), ns[1..]);
    }
  }

  /** lttng_buffer_view_contains_string; `str` is the pointer, as an offset from the view's data. */
  predicate ContainsString(v: View, str: int, len: nat)
    requires Inside(v)
  {
    if str < 0 || str >= SizeOf(v) then false
    else if len > SizeOf(v) - str then false
    else StrnLen(Seen(v)[str..]) == len - 1
  }

  /** It accepts exactly a string whose terminator is where the length says. */
  lemma ContainsStringExactly(v: View, str: int, len: nat)
    requires Inside(v)
    ensures ContainsString(v, str, len) <==>
            && 0 <= str && len > 0 && str + len <= SizeOf(v)
            && 0 !in Seen(v)[str..str + len - 1] && Seen(v)[str + len - 1] == 0
  {
    if 0 <= str && len > 0 && str + len <= SizeOf(v) {
      var s := Seen(v)[str..];
      assert s[..len - 1] == Seen(v)[str..str + len - 1];
      if 0 !in s[..len - 1] && s[len - 1] == 0 {
        StrnLenIs(s, len - 1);
      }
    }
  }

  // ---------------------------------------------------------------------
  // Reading a field and a string, as every decoder does

  function StructAt(v: View, offset: nat, ws: Layout): (r: Option<seq<nat>>)
    requires Inside(v)
    ensures r.Some? ==> Fits(ws, r.value)
  {
    SubView(v, offset, Size(ws));
    var w := FromView(v, offset, Size(ws));
    if IsValid(w) then Some(Unpack(ws, Seen(w))) else None
  }

  /** A structure is read exactly where its packed form lies. */
  lemma StructExactly(v: View, offset: nat, ws: Layout, vs: seq<nat>)
    requires Inside(v) && Size(ws) > 0 && Fits(ws, vs)
    ensures StructAt(v, offset, ws) == Some(vs) <==> Holds(Seen(v), offset, Pack(ws, vs))
  {
    hide Pack, Unpack, FromView, Seen, Size, Fits;
    SubView(v, offset, Size(ws));
    UnpackPack(ws, vs);
    if offset + Size(ws) <= SizeOf(v) {
      PackUnpack(ws, Seen(v)[offset..offset + Size(ws)]);
    }
  }

  function TextAt(v: View, offset: nat, len: nat): (r: Option<cstring>)
    requires Inside(v)
  {
    var w := FromView(v, offset, len);
    if !IsValid(w) then None
    else
      ContainsStringExactly(w, 0, len);
      if ContainsString(w, 0, len) then Some(Seen(w)[..len - 1]) else None
  }

  lemma TerminatedExactly(s: seq<byte>, t: cstring)
    requires s != []
    ensures s == Terminated(t) <==> s[|s| - 1] == 0 && s[..|s| - 1] == t
  {
    assert s == s[..|s| - 1] + [s[|s| - 1]];
  }

  /** A string is read exactly where it lies, terminator included. */
  lemma TextExactly(v: View, offset: nat, len: nat, t: cstring)
    requires Inside(v)
    ensures TextAt(v, offset, len) == Some(t) <==> len == |t| + 1 && Holds(Seen(v), offset, Terminated(t))
  {
    hide FromView, Seen, ContainsString;
    var w := FromView(v, offset, len);
    SubView(v, offset, len);
    if IsValid(w) {
      ContainsStringExactly(w, 0, len);
      TerminatedExactly(Seen(w), t);
    }
  }

  /** No string is read where there is no terminator. */
  lemma NoText(v: View, offset: nat, p: seq<byte>)
    requires Inside(v) && Holds(Seen(v), offset, p) && 0 !in p
    ensures TextAt(v, offset, |p|) == None
  {
    hide TextAt, Seen;
    var r := TextAt(v, offset, |p|);
    if r.Some? {
      TextExactly(v, offset, |p|, r.value);
    }
  }

  /** What lies in a view also lies in the views on its parts. */
  lemma RestHolds(v: View, offset: nat, p: seq<byte>)
    requires Inside(v) && Holds(Seen(v), offset, p)
    ensures Inside(FromView(v, offset, -1)) && Holds(Seen(FromView(v, offset, -1)), 0, p)
    ensures p != [] ==> IsValid(FromView(v, offset, -1))
  {
    hide FromView, Seen;
    var s := Seen(v);
    RestView(v, offset);
    assert s[offset..] == s[offset..offset + (|s| - offset)];
    HoldsInside(s, offset, |s| - offset, 0, p);
  }

  lemma RestLies(v: View, offset: nat, p: seq<byte>)
    requires Inside(v) && Holds(Seen(FromView(v, offset, -1)), 0, p) && p != []
    ensures Holds(Seen(v), offset, p)
  {
    hide Seen;
    RestView(v, offset);
    if offset <= SizeOf(v) {
      SliceSlice(Seen(v), offset, SizeOf(v), 0, |p|);
    }
  }

  lemma SubHolds(v: View, offset: nat, p: seq<byte>)
    requires Inside(v) && Holds(Seen(v), offset, p) && p != []
    ensures IsValid(FromView(v, offset, |p|)) && Seen(FromView(v, offset, |p|)) == p
  {
    hide FromView, Seen;
    SubView(v, offset, |p|);
  }
}
