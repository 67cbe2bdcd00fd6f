/**
 The buffer that src/common/event.c hands to a client listing events: an array of
 struct lttng_event, then for each event its extended structure, filter,
 exclusions, padding to 64 bits and flattened probe location, with every pointer
 pointing into the buffer itself.

 Structure sizes and field offsets are those of an LP64 build.
 */
module FlattenLayout {
  import opened Bytes
  import opened DynamicBuffers
  import opened Wrappers

  const EVENT_SIZE := 584          // sizeof(struct lttng_event)
  const EXTENDED_PTR := 288        // offsetof(struct lttng_event, extended)
  const EXTENDED_SIZE := 32        // sizeof(struct lttng_event_extended)
  const FILTER_PTR := 0            // offsets in struct lttng_event_extended
  const EXCLUSION_COUNT := 8
  const EXCLUSION_PTR := 16
  const PROBE_PTR := 24

  /**
   A userspace probe location. Its flattened form holds pointers to itself, so it
   is a function of the address it is laid at; its size is not.
   */
  datatype Location = Flat(size: nat, image: nat -> seq<byte>) | Unflattenable

  /** struct event_list_element */
  datatype Element = Element(
    event: seq<byte>,                         // the struct lttng_event
    filter: Option<cstring>,
    exclusions: Option<seq<seq<byte>>>,       // names of LTTNG_SYMBOL_NAME_LEN bytes each
    probe: Option<Location>)

  ghost predicate ElementOk(e: Element) {
    && |e.event| == EVENT_SIZE
    && (e.exclusions.Some? ==>
          && |e.exclusions.value| <= UINT32_MAX
          && forall n :: n in e.exclusions.value ==> |n| == SYMBOL_NAME_LEN)
    && (e.probe.Some? && e.probe.value.Flat? ==>
          && e.probe.value.size <= INT_MAX
          && forall a: nat :: |e.probe.value.image(a)| == e.probe.value.size)
  }

  predicate Flattenable(e: Element) {
    e.probe.Some? ==> e.probe.value.Flat?
  }

  ghost predicate ElementsOk(es: seq<Element>) {
    forall i | 0 <= i < |es| :: ElementOk(es[i]) && Flattenable(es[i])
  }

  /** ALIGN_TO(x, 8) */
  function AlignTo8(x: nat): (r: nat)
    ensures x <= r < x + 8 && r % 8 == 0
  {
    (x + 7) / 8 * 8
  }

  lemma AlignShift(x: nat, k: nat)
    ensures AlignTo8(x + 8 * k) == AlignTo8(x) + 8 * k
  {
  }

  // ---------------------------------------------------------------------
  // Sizes and positions

  function FilterBytes(e: Element): seq<byte> {
    if e.filter.Some? then Terminated(e.filter.value) else []
  }

  function ExclusionBytes(e: Element): seq<byte> {
    if e.exclusions.Some? then Laid(e.exclusions.value) else []
  }

  /** What is laid of an array of names: as many bytes as its 32-bit size says. */
  function Laid(names: seq<seq<byte>>): (s: seq<byte>)
    ensures s <= Joined(names)
  {
    if NamesRoom(|names|) <= |Joined(names)| then Joined(names)[..NamesRoom(|names|)] else Joined(names)
  }

  /** All names are laid if and only if that size did not wrap. */
  lemma LaidExactly(names: seq<seq<byte>>)
    requires |names| <= UINT32_MAX && forall n :: n in names ==> |n| == SYMBOL_NAME_LEN
    ensures |Laid(names)| == NamesRoom(|names|) && |Joined(names)| == |names| * SYMBOL_NAME_LEN
    ensures Laid(names) == Joined(names) <==> |names| < 0x100_0000
    ensures |names| >= NAMES_LIMIT ==> |Laid(names)| + UINT32_MAX < |Joined(names)|
  {
    hide Joined, NamesRoom;
    JoinedLength(names);
    NamesRoomExactly(|names|);
  }

  function Joined(names: seq<seq<byte>>): seq<byte> {
    if names == [] then [] else names[0] + Joined(names[1..])
  }

  lemma {:induction false} JoinedLength(names: seq<seq<byte>>)
    requires forall n :: n in names ==> |n| == SYMBOL_NAME_LEN
    ensures |Joined(names)| == |names| * SYMBOL_NAME_LEN
  {
    if names != [] {
      JoinedLength(names[1..]);
    }
  }

  function ProbeSize(e: Element): nat {
    if e.probe.Some? && e.probe.value.Flat? then e.probe.value.size else 0
  }

  /** Where the filter, the exclusions and the probe of a block starting at `start` lie. */
  function FilterAt(start: nat): nat {
    start + EXTENDED_SIZE
  }

  function ExclusionsAt(e: Element, start: nat): nat {
    FilterAt(start) + |FilterBytes(e)|
  }

  function ProbeAt(e: Element, start: nat): nat {
    AlignTo8(ExclusionsAt(e, start) + |ExclusionBytes(e)|)
  }

  function BlockEnd(e: Element, start: nat): (end: nat)
    ensures start + EXTENDED_SIZE <= end
  {
    ProbeAt(e, start) + ProbeSize(e)
  }

  /** Offset of the block of element `n`; with n == |es|, the size of the whole buffer. */
  function Start(es: seq<Element>, n: nat): nat
    requires n <= |es|
  {
    if n == 0 then |es| * EVENT_SIZE else BlockEnd(es[n - 1], Start(es, n - 1))
  }

  function FlattenedSize(es: seq<Element>): nat {
    Start(es, |es|)
  }

  lemma {:induction false} StartMonotone(es: seq<Element>, i: nat, j: nat)
    requires i <= j <= |es|
    ensures Start(es, i) + (j - i) * EXTENDED_SIZE <= Start(es, j)
    decreases j - i
  {
    hide BlockEnd;
    if i < j {
      StartMonotone(es, i, j - 1);
    }
  }

  // ---------------------------------------------------------------------
  // Bytes

  /** struct lttng_event_extended */
  function Extended(filter: nat, count: nat, exclusions: nat, probe: nat): (s: seq<byte>)
    ensures |s| == EXTENDED_SIZE
  {
    Le(8, filter) + (Le(4, count) + Zeros(4)) + Le(8, exclusions) + Le(8, probe)
  }

  /** The extended structure of `e` in a block at offset `start` of a buffer at address `base`. */
  function ExtendedOf(e: Element, base: nat, start: nat): (s: seq<byte>)
    ensures |s| == EXTENDED_SIZE
  {
    Extended(
      if e.filter.Some? then base + FilterAt(start) else 0,
      if e.exclusions.Some? then |e.exclusions.value| else 0,
      if e.exclusions.Some? then base + ExclusionsAt(e, start) else 0,
      if e.probe.Some? then base + ProbeAt(e, start) else 0)
  }

  function Padding(e: Element, start: nat): seq<byte> {
    Zeros(ProbeAt(e, start) - (ExclusionsAt(e, start) + |ExclusionBytes(e)|))
  }

  function ProbeBytes(e: Element, base: nat, start: nat): seq<byte> {
    if e.probe.Some? && e.probe.value.Flat? then e.probe.value.image(base + ProbeAt(e, start)) else []
  }

  function Block(e: Element, base: nat, start: nat): seq<byte> {
    ExtendedOf(e, base, start) + FilterBytes(e) + ExclusionBytes(e) + Padding(e, start) + ProbeBytes(e, base, start)
  }

  lemma BlockLength(e: Element, base: nat, start: nat)
    requires ElementOk(e)
    ensures |Block(e, base, start)| == BlockEnd(e, start) - start
  {
  }

  /** The struct lttng_event of element `j`, its extended pointer set when it is among the first `k`. */
  function Header(es: seq<Element>, base: nat, j: nat, k: nat): (s: seq<byte>)
    requires j < |es| && |es[j].event| == EVENT_SIZE
    ensures |s| == EVENT_SIZE
  {
    if j < k then Patched(es[j].event, EXTENDED_PTR, Le(8, base + Start(es, j))) else es[j].event
  }

  /** The first `n` headers. */
  function Headers(es: seq<Element>, base: nat, n: nat, k: nat): (s: seq<byte>)
    requires n <= |es| && forall i | 0 <= i < |es| :: |es[i].event| == EVENT_SIZE
    ensures |s| == n * EVENT_SIZE
  {
    if n == 0 then [] else Headers(es, base, n - 1, k) + Header(es, base, n - 1, k)
  }

  /** The first `n` blocks. */
  function Blocks(es: seq<Element>, base: nat, n: nat): seq<byte>
    requires n <= |es|
  {
    if n == 0 then [] else Blocks(es, base, n - 1) + Block(es[n - 1], base, Start(es, n - 1))
  }

  lemma {:induction false} BlocksLength(es: seq<Element>, base: nat, n: nat)
    requires n <= |es| && ElementsOk(es)
    ensures |Blocks(es, base, n)| == Start(es, n) - Start(es, 0)
  {
    hide Block, BlockEnd;
    if n > 0 {
      BlocksLength(es, base, n - 1);
      BlockLength(es[n - 1], base, Start(es, n - 1));
    }
  }

  /** The whole buffer. */
  function Image(es: seq<Element>, base: nat): seq<byte>
    requires forall i | 0 <= i < |es| :: |es[i].event| == EVENT_SIZE
  {
    Headers(es, base, |es|, |es|) + Blocks(es, base, |es|)
  }

  lemma ImageLength(es: seq<Element>, base: nat)
    requires ElementsOk(es)
    ensures |Image(es, base)| == FlattenedSize(es)
  {
    BlocksLength(es, base, |es|);
  }

  // ---------------------------------------------------------------------
  // Reading the buffer back through its pointers

  /** The 8-byte pointer stored at offset `at`. */
  function PointerAt(m: seq<byte>, at: nat): nat
    requires at + 8 <= |m|
  {
    Val(m[at..at + 8])
  }

  lemma {:induction false} HeaderInImage(es: seq<Element>, base: nat, n: nat, i: nat)
    requires ElementsOk(es) && i < n <= |es|
    ensures (i + 1) * EVENT_SIZE <= n * EVENT_SIZE
    ensures Headers(es, base, n, |es|)[i * EVENT_SIZE..(i + 1) * EVENT_SIZE] == Header(es, base, i, |es|)
    decreases n
  {
    hide Header, Start;
    var (lo, hi) := (i * EVENT_SIZE, (i + 1) * EVENT_SIZE);
    var (before, last) := (Headers(es, base, n - 1, |es|), Header(es, base, n - 1, |es|));
    if i < n - 1 {
      HeaderInImage(es, base, n - 1, i);
      SliceLeft(before, last, lo, hi);
    } else {
      SliceRight(before, last, lo, hi);
      assert last[0..EVENT_SIZE] == last;
    }
  }

  lemma {:induction false} BlockInBlocks(es: seq<Element>, base: nat, n: nat, i: nat)
    requires ElementsOk(es) && i < n <= |es|
    ensures Start(es, 0) <= Start(es, i) <= Start(es, i + 1) <= Start(es, n)
    ensures |Blocks(es, base, n)| == Start(es, n) - Start(es, 0)
    ensures Blocks(es, base, n)[Start(es, i) - Start(es, 0)..Start(es, i + 1) - Start(es, 0)] ==
            Block(es[i], base, Start(es, i))
    decreases n
  {
    hide Block, Start;
    StartMonotone(es, 0, i);
    StartMonotone(es, i, i + 1);
    StartMonotone(es, i + 1, n);
    BlocksLength(es, base, n);
    BlocksLength(es, base, n - 1);
    var s := Start(es, 0);
    var (lo, hi) := (Start(es, i) - s, Start(es, i + 1) - s);
    var (before, last) := (Blocks(es, base, n - 1), Block(es[n - 1], base, Start(es, n - 1)));
    if i < n - 1 {
      BlockInBlocks(es, base, n - 1, i);
      SliceLeft(before, last, lo, hi);
    } else {
      SliceRight(before, last, lo, hi);
      assert last[0..|last|] == last;
    }
  }

  /** Every block lies where `Start` says. */
  lemma BlockInImage(es: seq<Element>, base: nat, i: nat)
    requires ElementsOk(es) && i < |es|
    ensures |es| * EVENT_SIZE <= Start(es, i) <= Start(es, i + 1) <= FlattenedSize(es) == |Image(es, base)|
    ensures Image(es, base)[Start(es, i)..Start(es, i + 1)] == Block(es[i], base, Start(es, i))
  {
    hide Start, Blocks, Headers, Block;
    StartZero(es);
    ImageLength(es, base);
    BlockInBlocks(es, base, |es|, i);
    SliceRight(Headers(es, base, |es|, |es|), Blocks(es, base, |es|), Start(es, i), Start(es, i + 1));
  }

  lemma StartNext(es: seq<Element>, i: nat)
    requires i < |es|
    ensures Start(es, i + 1) == BlockEnd(es[i], Start(es, i))
  {
  }

  lemma StartZero(es: seq<Element>)
    ensures Start(es, 0) == |es| * EVENT_SIZE
  {
  }

  /** Following the extended pointer of event `i`; its other bytes are those of the input. */
  lemma ExtendedPointer(es: seq<Element>, base: nat, i: nat)
    requires ElementsOk(es) && i < |es| && base + FlattenedSize(es) < ADDRESS_SPACE
    ensures |Image(es, base)| == FlattenedSize(es) && (i + 1) * EVENT_SIZE <= |es| * EVENT_SIZE <= FlattenedSize(es)
    ensures PointerAt(Image(es, base), i * EVENT_SIZE + EXTENDED_PTR) == base + Start(es, i)
    ensures forall k | 0 <= k < EVENT_SIZE && !(EXTENDED_PTR <= k < EXTENDED_PTR + 8) ::
              Image(es, base)[i * EVENT_SIZE + k] == es[i].event[k]
  {
    hide Start, Blocks, Headers, Block, Le, Val;
    BlockInImage(es, base, i);
    HeaderInImage(es, base, |es|, i);
    var (m, at, h) := (Image(es, base), i * EVENT_SIZE, Header(es, base, i, |es|));
    SliceLeft(Headers(es, base, |es|, |es|), Blocks(es, base, |es|), at, at + EVENT_SIZE);
    assert m[at..at + EVENT_SIZE] == h;
    SliceSlice(m, at, at + EVENT_SIZE, EXTENDED_PTR, EXTENDED_PTR + 8);
    assert h[EXTENDED_PTR..EXTENDED_PTR + 8] == Le(8, base + Start(es, i));
    Pow256Values();
    ValLe(8, base + Start(es, i));
    forall k | 0 <= k < EVENT_SIZE && !(EXTENDED_PTR <= k < EXTENDED_PTR + 8)
      ensures m[at + k] == es[i].event[k]
    {
      assert m[at + k] == m[at..at + EVENT_SIZE][k];
    }
  }

  /** Reading the four fields of an extended structure. */
  lemma ExtendedFields(filter: nat, count: nat, exclusions: nat, probe: nat)
    requires filter < ADDRESS_SPACE && count < 0x1_0000_0000 && exclusions < ADDRESS_SPACE && probe < ADDRESS_SPACE
    ensures var x := Extended(filter, count, exclusions, probe);
            && PointerAt(x, FILTER_PTR) == filter
            && Val(x[EXCLUSION_COUNT..EXCLUSION_COUNT + 4]) == count
            && PointerAt(x, EXCLUSION_PTR) == exclusions
            && PointerAt(x, PROBE_PTR) == probe
  {
    hide Le, Val;
    var x := Extended(filter, count, exclusions, probe);
    assert x[0..8] == Le(8, filter);
    assert x[8..12] == Le(4, count);
    assert x[16..24] == Le(8, exclusions);
    assert x[24..32] == Le(8, probe);
    Pow256Values();
    ValLe(8, filter);
    ValLe(4, count);
    ValLe(8, exclusions);
    ValLe(8, probe);
  }

  /** The parts of a block, by offset within it. */
  lemma BlockParts(e: Element, base: nat, start: nat)
    requires ElementOk(e) && Flattenable(e)
    ensures var (b, f, x, p, n) := (Block(e, base, start), FilterAt(start) - start, ExclusionsAt(e, start) - start,
                                    ProbeAt(e, start) - start, BlockEnd(e, start) - start);
            && 0 <= f <= x <= x + |ExclusionBytes(e)| <= p <= n == |b|
            && b[..f] == ExtendedOf(e, base, start)
            && b[f..x] == FilterBytes(e)
            && b[x..x + |ExclusionBytes(e)|] == ExclusionBytes(e)
            && b[p..] == ProbeBytes(e, base, start)
  {
    hide Extended, Joined, ExtendedOf, FilterBytes, ExclusionBytes;
    BlockLength(e, base, start);
    PartsOf(ExtendedOf(e, base, start), FilterBytes(e), ExclusionBytes(e), Padding(e, start), ProbeBytes(e, base, start));
  }

  lemma PartsOf(a: seq<byte>, b: seq<byte>, c: seq<byte>, d: seq<byte>, e: seq<byte>)
    ensures var s := a + b + c + d + e;
            && s[..|a|] == a
            && s[|a|..|a| + |b|] == b
            && s[|a| + |b|..|a| + |b| + |c|] == c
            && s[|a| + |b| + |c| + |d|..] == e
  {
  }

  /** The bytes `s` lie at address `p` of a buffer `m` at address `base`. */
  predicate At(m: seq<byte>, base: nat, p: nat, s: seq<byte>) {
    base <= p && p - base + |s| <= |m| && m[p - base..p - base + |s|] == s
  }

  /** Four regions of one block, as addresses in the whole buffer. */
  lemma RegionsInImage(es: seq<Element>, base: nat, i: nat)
    requires ElementsOk(es) && i < |es|
    ensures var (m, e, s) := (Image(es, base), es[i], Start(es, i));
            && At(m, base, base + s, ExtendedOf(e, base, s))
            && At(m, base, base + FilterAt(s), FilterBytes(e))
            && At(m, base, base + ExclusionsAt(e, s), ExclusionBytes(e))
            && At(m, base, base + ProbeAt(e, s), ProbeBytes(e, base, s))
  {
    hide Start, Block, Image, ExtendedOf, FilterBytes, ExclusionBytes, ProbeBytes;
    BlockInImage(es, base, i);
    var (m, e, s, t) := (Image(es, base), es[i], Start(es, i), Start(es, i + 1));
    BlockParts(e, base, s);
    var (f, x, p) := (FilterAt(s) - s, ExclusionsAt(e, s) - s, ProbeAt(e, s) - s);
    SliceSlice(m, s, t, 0, f);
    SliceSlice(m, s, t, f, x);
    SliceSlice(m, s, t, x, x + |ExclusionBytes(e)|);
    SliceSlice(m, s, t, p, t - s);
  }

  /**
   What a client finds by following the pointers of event `i`, at the offsets that the
   structures have on an LP64 machine; nothing, and no count, where the event has nothing.
   */
  ghost predicate ReadsBack(m: seq<byte>, base: nat, i: nat, e: Element)
    requires (i + 1) * EVENT_SIZE <= |m|
  {
    var ext := PointerAt(m, i * 584 + 288);
    && base <= ext && ext - base + 32 <= |m|
    && var x := m[ext - base..ext - base + 32];
       var (filter, count, exclusions, probe) := (PointerAt(x, 0), Val(x[8..12]), PointerAt(x, 16), PointerAt(x, 24));
       && (if e.filter.None? then filter == 0
           else filter != 0 && At(m, base, filter, Terminated(e.filter.value)))
       && (if e.exclusions.None? then exclusions == 0 && count == 0
           else exclusions != 0 && count == |e.exclusions.value| && At(m, base, exclusions, Laid(e.exclusions.value)))
       && (if e.probe.None? then probe == 0
           else && probe != 0 && probe % 8 == 0 && e.probe.value.Flat?
                && At(m, base, probe, e.probe.value.image(probe)))
  }

  /** All the names of event `i` lie where its pointers lead, and end by offset `end`. */
  ghost predicate NamesReadBack(m: seq<byte>, base: nat, i: nat, names: seq<seq<byte>>, end: nat)
    requires (i + 1) * EVENT_SIZE <= |m|
  {
    var ext := PointerAt(m, i * 584 + 288);
    && base <= ext && ext - base + 32 <= |m|
    && var p := PointerAt(m[ext - base..ext - base + 32], 16);
       At(m, base, p, Joined(names)) && p - base + |Joined(names)| <= end
  }

  /**
   Every pointer of the buffer points into the buffer, probes are 64-bit aligned,
   and following the pointers gives back the filter, the probe and what was laid of
   the exclusions.
   */
  lemma ImageReadsBack(es: seq<Element>, base: nat, i: nat)
    requires ElementsOk(es) && i < |es|
    requires base > 0 && base % 8 == 0 && base + FlattenedSize(es) < ADDRESS_SPACE
    ensures |Image(es, base)| == FlattenedSize(es) && (i + 1) * EVENT_SIZE <= FlattenedSize(es)
    ensures ReadsBack(Image(es, base), base, i, es[i])
  {
    hide Start, Image, At, ReadsBack, FilterAt, ExclusionsAt, ProbeAt, PointerAt;
    hide FilterBytes, ExclusionBytes, ProbeBytes, ExtendedOf;
    ExtendedPointer(es, base, i);
    RegionsInImage(es, base, i);
    Followed(Image(es, base), base, i, es[i], Start(es, i));
  }

  lemma Followed(m: seq<byte>, base: nat, i: nat, e: Element, s: nat)
    requires (i + 1) * EVENT_SIZE <= |m| && PointerAt(m, i * EVENT_SIZE + EXTENDED_PTR) == base + s
    requires base > 0 && base % 8 == 0 && base + |m| < ADDRESS_SPACE && ElementOk(e) && Flattenable(e)
    requires At(m, base, base + s, ExtendedOf(e, base, s)) && At(m, base, base + FilterAt(s), FilterBytes(e))
    requires At(m, base, base + ExclusionsAt(e, s), ExclusionBytes(e))
    requires At(m, base, base + ProbeAt(e, s), ProbeBytes(e, base, s))
    ensures ReadsBack(m, base, i, e)
  {
    hide Extended, Laid, PointerAt, Val, AlignTo8;
    AlignedSum(base, ProbeAt(e, s));
    ExtendedFields(
      if e.filter.Some? then base + FilterAt(s) else 0,
      if e.exclusions.Some? then |e.exclusions.value| else 0,
      if e.exclusions.Some? then base + ExclusionsAt(e, s) else 0,
      if e.probe.Some? then base + ProbeAt(e, s) else 0);
  }

  /** The names of an event all read back, ahead of its probe, if and only if there are fewer than 2^24. */
  lemma ExclusionsReadBackExactly(es: seq<Element>, base: nat, i: nat)
    requires ElementsOk(es) && i < |es| && es[i].exclusions.Some?
    requires base > 0 && base % 8 == 0 && base + FlattenedSize(es) < ADDRESS_SPACE
    ensures |Image(es, base)| == FlattenedSize(es) && (i + 1) * EVENT_SIZE <= FlattenedSize(es)
    ensures NamesReadBack(Image(es, base), base, i, es[i].exclusions.value, ProbeAt(es[i], Start(es, i))) <==>
            |es[i].exclusions.value| < 0x100_0000
  {
    hide Start, Image, At, NamesReadBack, FilterAt, ExclusionsAt, ProbeAt, PointerAt;
    hide FilterBytes, ExclusionBytes, ProbeBytes, ExtendedOf;
    ExtendedPointer(es, base, i);
    RegionsInImage(es, base, i);
    NamesFollowed(Image(es, base), base, i, es[i], Start(es, i));
  }

  lemma NamesFollowed(m: seq<byte>, base: nat, i: nat, e: Element, s: nat)
    requires (i + 1) * EVENT_SIZE <= |m| && PointerAt(m, i * EVENT_SIZE + EXTENDED_PTR) == base + s
    requires base > 0 && base + |m| < ADDRESS_SPACE && ElementOk(e) && Flattenable(e) && e.exclusions.Some?
    requires At(m, base, base + s, ExtendedOf(e, base, s)) && At(m, base, base + FilterAt(s), FilterBytes(e))
    requires At(m, base, base + ExclusionsAt(e, s), ExclusionBytes(e))
    requires At(m, base, base + ProbeAt(e, s), ProbeBytes(e, base, s))
    ensures NamesReadBack(m, base, i, e.exclusions.value, ProbeAt(e, s)) <==> |e.exclusions.value| < NAMES_LIMIT
  {
    hide Extended, Laid, Joined, PointerAt, Val, AlignTo8, FilterBytes, NamesRoom;
    LaidExactly(e.exclusions.value);
    ExtendedFields(
      if e.filter.Some? then base + FilterAt(s) else 0,
      |e.exclusions.value|,
      base + ExclusionsAt(e, s),
      if e.probe.Some? then base + ProbeAt(e, s) else 0);
  }

  /** With 2^24 names, none is laid: the names take 2^32 bytes, the whole buffer 616. */
  lemma TooManyNames()
    ensures var names := seq(NAMES_LIMIT, i => Zeros(SYMBOL_NAME_LEN));
            var e := Element(Zeros(EVENT_SIZE), None, Some(names), None);
            && ElementsOk([e]) && |Joined(names)| == UINT32_MAX + 1
            && FlattenedSize([e]) == 616
  {
    hide Joined, Laid, Zeros;
    var names := seq(NAMES_LIMIT, i => Zeros(SYMBOL_NAME_LEN));
    var e := Element(Zeros(EVENT_SIZE), None, Some(names), None);
    LaidExactly(names);
    StartZero([e]);
    StartNext([e], 0);
  }

  lemma AlignedSum(a: nat, b: nat)
    requires a % 8 == 0 && b % 8 == 0
    ensures (a + b) % 8 == 0
  {
  }

  /** The regions of the buffer follow one another: headers, then block after block, each part in order. */
  lemma RegionsInOrder(es: seq<Element>, i: nat, j: nat)
    requires ElementsOk(es) && i < j <= |es|
    ensures var (e, s) := (es[i], Start(es, i));
            && |es| * EVENT_SIZE <= s
            && s + EXTENDED_SIZE == FilterAt(s)
            && FilterAt(s) + |FilterBytes(e)| == ExclusionsAt(e, s)
            && ExclusionsAt(e, s) + |ExclusionBytes(e)| <= ProbeAt(e, s)
            && ProbeAt(e, s) + ProbeSize(e) == Start(es, i + 1) <= Start(es, j) <= FlattenedSize(es)
  {
    hide Start, AlignTo8, FilterBytes, ExclusionBytes, ElementsOk;
    StartZero(es);
    StartNext(es, i);
    StartMonotone(es, 0, i);
    StartMonotone(es, i + 1, j);
    StartMonotone(es, j, |es|);
  }
}
