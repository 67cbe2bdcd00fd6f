/**
 src/common/event.c:1478-1697: flattening a list of events in two passes. The
 first computes the size of the buffer; the second lays the events out in it and
 stores pointers into it as it goes, which is sound only if the buffer never
 moves.
 */
module Flatten {
  import opened Bytes
  import opened DynamicBuffers
  import opened FlattenLayout

  datatype ErrorCode = LttngOk | ErrNoMem | ErrProbeLocationInval

  ghost predicate ListOk(es: seq<Element>) {
    forall i | 0 <= i < |es| :: ElementOk(es[i])
  }

  predicate AllFlattenable(es: seq<Element>) {
    forall i | 0 <= i < |es| :: Flattenable(es[i])
  }

  // ---------------------------------------------------------------------
  // First pass: compute_flattened_size

  /**
   One element of the first pass. Its running total already counts all the
   extended structures, `left` of which the second pass has not laid yet; they
   are multiples of 8, so both passes pad alike.
   */
  lemma PassesAgree(e: Element, start: nat, left: nat)
    requires left > 0
    ensures AlignTo8(start + left * EXTENDED_SIZE + |FilterBytes(e)| + |ExclusionBytes(e)|) + ProbeSize(e) ==
            BlockEnd(e, start) + (left - 1) * EXTENDED_SIZE
  {
    AlignShift(ExclusionsAt(e, start) + |ExclusionBytes(e)|, 4 * (left - 1));
  }

  method ComputeFlattenedSize(es: seq<Element>) returns (code: ErrorCode, size: nat)
    requires ListOk(es)
    ensures code == if AllFlattenable(es) then LttngOk else ErrProbeLocationInval
    ensures code == LttngOk ==> size == FlattenedSize(es)
  {
    hide BlockEnd, FilterBytes, ExclusionBytes, NamesRoom;
    var count := |es|;
    var storage := count * EVENT_SIZE;
    storage := storage + count * EXTENDED_SIZE;
    size := 0;
    var i := 0;
    StartZero(es);
    while i < count
      invariant i <= count && AllFlattenable(es[..i])
      invariant storage == Start(es, i) + (count - i) * EXTENDED_SIZE
    {
      var e := es[i];
      var probe := 0;
      if e.probe.Some? {
        if e.probe.value.Unflattenable? {
          return ErrProbeLocationInval, 0;
        }
        probe := e.probe.value.size;
      }
      ghost var total := storage;
      if e.filter.Some? {
        storage := storage + (|e.filter.value| + 1);
      }
      if e.exclusions.Some? {
        storage := storage + NamesRoom(|e.exclusions.value|);
      }
      PartLengths(e);
      assert storage == total + |FilterBytes(e)| + |ExclusionBytes(e)|;
      storage := AlignTo8(storage);
      storage := storage + probe;
      PassesAgree(e, Start(es, i), count - i);
      StartNext(es, i);
      i := i + 1;
    }
    assert es[..i] == es;
    return LttngOk, storage;
  }

  lemma PartLengths(e: Element)
    requires ElementOk(e)
    ensures |FilterBytes(e)| == if e.filter.Some? then |e.filter.value| + 1 else 0
    ensures |ExclusionBytes(e)| == if e.exclusions.Some? then NamesRoom(|e.exclusions.value|) else 0
  {
    if e.exclusions.Some? {
      LaidExactly(e.exclusions.value);
    }
  }

  // ---------------------------------------------------------------------
  // Second pass: stores into the structures already laid

  lemma StoreFilter(f: nat, c: nat, x: nat, p: nat, v: nat)
    ensures Patched(Extended(f, c, x, p), FILTER_PTR, Le(8, v)) == Extended(v, c, x, p)
  {
    hide Le;
  }

  lemma StoreCount(f: nat, c: nat, x: nat, p: nat, v: nat)
    ensures Patched(Extended(f, c, x, p), EXCLUSION_COUNT, Le(4, v)) == Extended(f, v, x, p)
  {
    hide Le;
  }

  lemma StoreExclusions(f: nat, c: nat, x: nat, p: nat, v: nat)
    ensures Patched(Extended(f, c, x, p), EXCLUSION_PTR, Le(8, v)) == Extended(f, c, v, p)
  {
    hide Le;
  }

  lemma StoreProbe(f: nat, c: nat, x: nat, p: nat, v: nat)
    ensures Patched(Extended(f, c, x, p), PROBE_PTR, Le(8, v)) == Extended(f, c, x, v)
  {
    hide Le;
  }

  lemma {:induction false} LeZero(n: nat)
    ensures Le(n, 0) == Zeros(n)
  {
    if n > 0 {
      LeZero(n - 1);
      assert Zeros(n) == [0] + Zeros(n - 1);
    }
  }

  lemma BlankExtended()
    ensures Zeros(EXTENDED_SIZE) == Extended(0, 0, 0, 0)
  {
    hide Le;
    LeZero(8);
    LeZero(4);
  }

  /** The buffer did not move: pointers into it are still good. */
  twostate predicate Unmoved(b: DynamicBuffer)
    reads b
  {
    && b.Valid() && b.data == old(b.data) && b.base == old(b.base)
    && b.capacity == old(b.capacity) && b.generation == old(b.generation)
  }

  /** Store `field` at offset `k` of the structure `x` that follows the prefix `p`. */
  method StoreInto(b: DynamicBuffer, k: nat, field: seq<byte>,
                   ghost p: seq<byte>, ghost x: seq<byte>, ghost r: seq<byte>, at: nat)
    requires b.Valid() && b.Contents() == p + x + r && at == |p| + k && k + |field| <= |x|
    modifies b.data
    ensures Unmoved(b) && b.size == old(b.size)
    ensures b.Contents() == p + Patched(x, k, field) + r
  {
    b.Store(at, field);
    StoreMiddle(p, x, r, k, field);
  }

  /** Append within the capacity set beforehand: it cannot fail. */
  method AppendWithin(b: DynamicBuffer, bytes: seq<byte>)
    requires b.Valid() && b.size + |bytes| <= b.capacity && b.capacity <= MAX_SIZE
    modifies b, b.data
    ensures Unmoved(b) && b.Contents() == old(b.Contents()) + bytes
  {
    var ret := b.Append(bytes);
    assert ret == 0;
  }

  method PutFilter(b: DynamicBuffer, ext: nat, e: Element, ghost p: seq<byte>)
    requires b.Valid() && b.capacity <= MAX_SIZE && b.size + |FilterBytes(e)| <= b.capacity
    requires ext == |p| && b.Contents() == p + Extended(0, 0, 0, 0) + []
    modifies b, b.data
    ensures Unmoved(b)
    ensures b.Contents() ==
              p + Extended(if e.filter.Some? then b.base + FilterAt(ext) else 0, 0, 0, 0) + FilterBytes(e)
  {
    hide Extended, Le, Patched, IsPow2;
    if e.filter.Some? {
      ghost var x := Extended(0, 0, 0, 0);
      var pointer := b.base + b.size;
      StoreFilter(0, 0, 0, 0, pointer);
      StoreInto(b, FILTER_PTR, Le(8, pointer), p, x, [], ext + FILTER_PTR);
      ghost var s := b.Contents();
      AppendWithin(b, e.filter.value + [0]);
      Regroup(p, Extended(pointer, 0, 0, 0), [], FilterBytes(e));
    }
  }

  lemma Regroup(p: seq<byte>, x: seq<byte>, r: seq<byte>, s: seq<byte>)
    ensures (p + x + r) + s == p + x + (r + s)
    ensures r == [] ==> r + s == s
  {
  }

  method PutExclusions(b: DynamicBuffer, ext: nat, e: Element, ghost p: seq<byte>, ghost f: nat)
    requires b.Valid() && b.capacity <= MAX_SIZE && b.size + |ExclusionBytes(e)| <= b.capacity
    requires ext == |p| && b.Contents() == p + Extended(f, 0, 0, 0) + FilterBytes(e)
    modifies b, b.data
    ensures Unmoved(b)
    ensures b.Contents() ==
              p + Extended(f, if e.exclusions.Some? then |e.exclusions.value| else 0,
                           if e.exclusions.Some? then b.base + ExclusionsAt(e, ext) else 0, 0) +
              (FilterBytes(e) + ExclusionBytes(e))
  {
    hide Extended, FilterBytes, Le, Patched, IsPow2, Laid;
    ghost var r := FilterBytes(e);
    if e.exclusions.Some? {
      var count, pointer := |e.exclusions.value|, b.base + b.size;
      StoreCount(f, 0, 0, 0, count);
      StoreInto(b, EXCLUSION_COUNT, Le(4, count), p, Extended(f, 0, 0, 0), r, ext + EXCLUSION_COUNT);
      StoreExclusions(f, count, 0, 0, pointer);
      StoreInto(b, EXCLUSION_PTR, Le(8, pointer), p, Extended(f, count, 0, 0), r, ext + EXCLUSION_PTR);
      AppendWithin(b, Laid(e.exclusions.value));
      Regroup(p, Extended(f, count, pointer, 0), r, ExclusionBytes(e));
    } else {
      assert r + ExclusionBytes(e) == r;
    }
  }

  method PutPadding(b: DynamicBuffer, ghost p: seq<byte>, ghost x: seq<byte>, ghost r: seq<byte>)
    requires b.Valid() && b.capacity <= MAX_SIZE && AlignTo8(b.size) <= b.capacity
    requires b.Contents() == p + x + r
    modifies b, b.data
    ensures Unmoved(b) && b.size == AlignTo8(old(b.size))
    ensures b.Contents() == p + x + (r + Zeros(AlignTo8(old(b.size)) - old(b.size)))
  {
    hide AlignTo8, IsPow2;
    var size := b.size;
    var ret := b.SetSize(AlignTo8(b.size));
    assert ret == 0;
    Regroup(p, x, r, Zeros(AlignTo8(size) - size));
    if AlignTo8(size) == size {
      assert b.Contents() == p + x + r;
      assert r + Zeros(0) == r;
    }
  }

  method PutProbe(b: DynamicBuffer, ext: nat, e: Element,
                  ghost p: seq<byte>, ghost f: nat, ghost c: nat, ghost x: nat, ghost r: seq<byte>)
    requires b.Valid() && b.capacity <= MAX_SIZE && ElementOk(e) && Flattenable(e)
    requires ext == |p| && b.Contents() == p + Extended(f, c, x, 0) + r
    requires b.size == ProbeAt(e, ext) && b.size + ProbeSize(e) <= b.capacity
    modifies b, b.data
    ensures Unmoved(b)
    ensures b.Contents() == p + Extended(f, c, x, if e.probe.Some? then b.base + ProbeAt(e, ext) else 0) +
                            (r + ProbeBytes(e, b.base, ext))
  {
    hide Extended, ProbeAt, Le, Patched, IsPow2;
    if e.probe.Some? {
      var pointer := b.base + b.size;
      StoreProbe(f, c, x, 0, pointer);
      StoreInto(b, PROBE_PTR, Le(8, pointer), p, Extended(f, c, x, 0), r, ext + PROBE_PTR);
      AppendWithin(b, e.probe.value.image(pointer));
      Regroup(p, Extended(f, c, x, pointer), r, ProbeBytes(e, b.base, ext));
    } else {
      assert r + ProbeBytes(e, b.base, ext) == r;
    }
  }

  /** The pointers stored in one round, and the bytes appended after the prefix `p`. */
  method LayParts(b: DynamicBuffer, ext: nat, e: Element, ghost p: seq<byte>)
    requires b.Valid() && b.capacity <= MAX_SIZE && ElementOk(e) && Flattenable(e)
    requires ext == |p| && b.Contents() == p + Extended(0, 0, 0, 0) + [] && BlockEnd(e, ext) <= b.capacity
    modifies b, b.data
    ensures Unmoved(b) && b.size == BlockEnd(e, ext)
    ensures b.Contents() == p + Block(e, b.base, ext)
  {
    hide Extended, AlignTo8, FilterBytes, ExclusionBytes, ProbeBytes, Le, Patched, Block, Zeros;
    hide IsPow2, Flattenable, ElementOk, ProbeSize;
    PutFilter(b, ext, e, p);
    ghost var f := if e.filter.Some? then b.base + FilterAt(ext) else 0;
    PutExclusions(b, ext, e, p, f);
    ghost var c := if e.exclusions.Some? then |e.exclusions.value| else 0;
    ghost var x := if e.exclusions.Some? then b.base + ExclusionsAt(e, ext) else 0;
    PutPadding(b, p, Extended(f, c, x, 0), FilterBytes(e) + ExclusionBytes(e));
    ghost var r := FilterBytes(e) + ExclusionBytes(e) + Padding(e, ext);
    PutProbe(b, ext, e, p, f, c, x, r);
    BlockIs(e, b.base, ext, p);
    BlockLength(e, b.base, ext);
  }

  lemma BlockIs(e: Element, base: nat, ext: nat, p: seq<byte>)
    ensures p + ExtendedOf(e, base, ext) +
            (FilterBytes(e) + ExclusionBytes(e) + Padding(e, ext) + ProbeBytes(e, base, ext)) ==
            p + Block(e, base, ext)
  {
    hide ExtendedOf, FilterBytes, ExclusionBytes, Padding, ProbeBytes;
    var (a, f, x) := (ExtendedOf(e, base, ext), FilterBytes(e), ExclusionBytes(e));
    var (g, q) := (Padding(e, ext), ProbeBytes(e, base, ext));
    assert a + (f + x + g + q) == a + f + x + g + q;
    assert p + a + (f + x + g + q) == p + (a + (f + x + g + q));
  }

  /** One round of the second loop: element `i` of the list, whose header is already in the buffer. */
  method LayElement(b: DynamicBuffer, e: Element, i: nat)
    requires b.Valid() && b.capacity <= MAX_SIZE && ElementOk(e) && Flattenable(e)
    requires (i + 1) * EVENT_SIZE <= b.size && BlockEnd(e, b.size) <= b.capacity
    modifies b, b.data
    ensures Unmoved(b) && b.size == BlockEnd(e, old(b.size))
    ensures b.Contents() ==
              Patched(old(b.Contents()), i * EVENT_SIZE + EXTENDED_PTR, Le(8, b.base + old(b.size))) +
              Block(e, b.base, old(b.size))
  {
    hide Extended, AlignTo8, IsPow2, Le, Patched, Block, BlockEnd, Zeros, ElementOk, Flattenable, RoundToPowerOf2;
    var ext := b.size;
    ghost var c := b.Contents();
    var ret := b.SetSize(b.size + EXTENDED_SIZE);
    assert ret == 0;
    BlankExtended();
    var (at, pointer) := (i * EVENT_SIZE + EXTENDED_PTR, Le(8, b.base + ext));
    b.Store(at, pointer);
    ghost var p := Patched(c, at, pointer);
    PatchLeft(c, Zeros(EXTENDED_SIZE), at, pointer);
    assert p + Zeros(EXTENDED_SIZE) + [] == p + Zeros(EXTENDED_SIZE);
    LayParts(b, ext, e, p);
  }

  /** Setting the extended pointer of header `k` in the array of headers. */
  lemma {:induction false} PatchHeader(es: seq<Element>, base: nat, n: nat, k: nat)
    requires ElementsOk(es) && k < n <= |es|
    ensures k * EVENT_SIZE + EXTENDED_PTR + 8 <= n * EVENT_SIZE
    ensures Patched(Headers(es, base, n, k), k * EVENT_SIZE + EXTENDED_PTR, Le(8, base + Start(es, k))) ==
            Headers(es, base, n, k + 1)
    decreases n
  {
    hide Le, Start, Patched, Header;
    var (at, f) := (k * EVENT_SIZE + EXTENDED_PTR, Le(8, base + Start(es, k)));
    var (before, last) := (Headers(es, base, n - 1, k), Header(es, base, n - 1, k));
    if k < n - 1 {
      PatchHeader(es, base, n - 1, k);
      PatchLeft(before, last, at, f);
      SameHeader(es, base, n - 1, k);
    } else {
      PatchRight(before, last, EXTENDED_PTR, f);
      PatchOne(es, base, k);
      SameHeaders(es, base, n - 1, k);
    }
  }

  lemma PatchOne(es: seq<Element>, base: nat, k: nat)
    requires ElementsOk(es) && k < |es|
    ensures Patched(Header(es, base, k, k), EXTENDED_PTR, Le(8, base + Start(es, k))) == Header(es, base, k, k + 1)
  {
    hide Le, Start;
  }

  lemma {:induction false} SameHeaders(es: seq<Element>, base: nat, n: nat, k: nat)
    requires ElementsOk(es) && n <= k && n <= |es|
    ensures Headers(es, base, n, k) == Headers(es, base, n, k + 1)
  {
    hide Header;
    if n > 0 {
      SameHeaders(es, base, n - 1, k);
      SameHeader(es, base, n - 1, k);
    }
  }

  lemma SameHeader(es: seq<Element>, base: nat, j: nat, k: nat)
    requires ElementsOk(es) && j != k && j < |es|
    ensures Header(es, base, j, k) == Header(es, base, j, k + 1)
  {
  }

  /** The state between two rounds of the second loop. */
  ghost function LaidOut(es: seq<Element>, base: nat, i: nat): seq<byte>
    requires ElementsOk(es) && i <= |es|
  {
    Headers(es, base, |es|, i) + Blocks(es, base, i)
  }

  lemma LayNext(es: seq<Element>, base: nat, i: nat)
    requires ElementsOk(es) && i < |es|
    ensures |LaidOut(es, base, i)| == Start(es, i) && (i + 1) * EVENT_SIZE <= Start(es, i)
    ensures Patched(LaidOut(es, base, i), i * EVENT_SIZE + EXTENDED_PTR, Le(8, base + Start(es, i))) +
            Block(es[i], base, Start(es, i)) == LaidOut(es, base, i + 1)
  {
    hide Le, Start, Patched, Block, Headers;
    StartZero(es);
    StartMonotone(es, 0, i);
    BlocksLength(es, base, i);
    PatchHeader(es, base, |es|, i);
    PatchLeft(Headers(es, base, |es|, i), Blocks(es, base, i), i * EVENT_SIZE + EXTENDED_PTR, Le(8, base + Start(es, i)));
    assert Headers(es, base, |es|, i + 1) + Blocks(es, base, i) + Block(es[i], base, Start(es, i)) ==
           Headers(es, base, |es|, i + 1) + (Blocks(es, base, i) + Block(es[i], base, Start(es, i)));
  }

  lemma HeadersUnset(es: seq<Element>, base: nat, i: nat)
    requires ElementsOk(es) && i < |es|
    ensures Headers(es, base, i + 1, 0) == Headers(es, base, i, 0) + es[i].event
  {
  }

  method LayHeaders(b: DynamicBuffer, es: seq<Element>)
    requires b.Valid() && b.Contents() == [] && b.capacity <= MAX_SIZE && ElementsOk(es)
    requires |es| * EVENT_SIZE <= b.capacity
    modifies b, b.data
    ensures Unmoved(b) && b.size == |es| * EVENT_SIZE && b.Contents() == LaidOut(es, b.base, 0)
  {
    hide IsPow2, Headers, Blocks;
    assert Headers(es, b.base, 0, 0) == [] by { HeadersNone(es, b.base); }
    var i := 0;
    while i < |es|
      invariant i <= |es| && Unmoved(b) && b.size == i * EVENT_SIZE
      invariant b.Contents() == Headers(es, b.base, i, 0)
    {
      HeadersUnset(es, b.base, i);
      AppendWithin(b, es[i].event);
      i := i + 1;
    }
    HeadersNone(es, b.base);
  }

  lemma HeadersNone(es: seq<Element>, base: nat)
    requires ElementsOk(es)
    ensures Headers(es, base, 0, 0) == [] && LaidOut(es, base, 0) == Headers(es, base, |es|, 0)
  {
  }

  method LayBlocks(b: DynamicBuffer, es: seq<Element>)
    requires b.Valid() && b.capacity <= MAX_SIZE && ElementsOk(es) && FlattenedSize(es) <= b.capacity
    requires b.size == Start(es, 0) && b.Contents() == LaidOut(es, b.base, 0)
    modifies b, b.data
    ensures Unmoved(b) && b.size == FlattenedSize(es) && b.Contents() == Image(es, b.base)
  {
    hide IsPow2, LaidOut, Start, Block, BlockEnd, Le, Patched, Image;
    var i := 0;
    while i < |es|
      invariant i <= |es| && Unmoved(b) && b.size == Start(es, i)
      invariant b.Contents() == LaidOut(es, b.base, i)
    {
      LayNext(es, b.base, i);
      StartNext(es, i);
      StartMonotone(es, i + 1, |es|);
      LayElement(b, es[i], i);
      i := i + 1;
    }
    AllLaidOut(es, b.base);
  }

  lemma AllLaidOut(es: seq<Element>, base: nat)
    requires ElementsOk(es)
    ensures LaidOut(es, base, |es|) == Image(es, base)
  {
  }

  /**
   flatten_lttng_events. On success the buffer is exactly `FlattenedSize` bytes, it was
   allocated once and never moved afterwards, and it holds `Image`.
   */
  method FlattenLttngEvents(es: seq<Element>, generous: bool) returns (code: ErrorCode, b: DynamicBuffer)
    requires ListOk(es) && |es| <= INT_MAX && (AllFlattenable(es) ==> FlattenedSize(es) <= MAX_SIZE / 2)
    ensures fresh(b) && b.Valid()
    ensures !AllFlattenable(es) <==> code == ErrProbeLocationInval
    ensures code == ErrNoMem ==> es != [] && !generous
    ensures code == LttngOk ==>
              && b.size == FlattenedSize(es) && b.Contents() == Image(es, b.base)
              && b.generation == if es == [] then 0 else 1
    ensures code == LttngOk ==>
              forall i | 0 <= i < |es| ::
                && (i + 1) * EVENT_SIZE <= b.size && ReadsBack(b.Contents(), b.base, i, es[i])
                && (es[i].exclusions.Some? ==>
                      (NamesReadBack(b.Contents(), b.base, i, es[i].exclusions.value, ProbeAt(es[i], Start(es, i))) <==>
                       |es[i].exclusions.value| < 0x100_0000))
  {
    hide IsPow2, LaidOut, Start, Image, ReadsBack, NamesReadBack, ProbeAt, RoundToPowerOf2;
    b := new DynamicBuffer(generous);
    var storage;
    code, storage := ComputeFlattenedSize(es);
    if code != LttngOk {
      return;
    }
    StartZero(es);
    StartMonotone(es, 0, |es|);
    var ret := b.SetCapacity(storage);
    if ret != 0 {
      return ErrNoMem, b;
    }
    LayHeaders(b, es);
    LayBlocks(b, es);
    forall i | 0 <= i < |es|
      ensures (i + 1) * EVENT_SIZE <= b.size && ReadsBack(b.Contents(), b.base, i, es[i])
      ensures es[i].exclusions.Some? ==>
                (NamesReadBack(b.Contents(), b.base, i, es[i].exclusions.value, ProbeAt(es[i], Start(es, i))) <==>
                 |es[i].exclusions.value| < 0x100_0000)
    {
      StartMonotone(es, 0, i);
      ImageReadsBack(es, b.base, i);
      if es[i].exclusions.Some? {
        ExclusionsReadBackExactly(es, b.base, i);
      }
    }
    code := LttngOk;
  }
}
