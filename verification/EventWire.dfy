/**
 The wire form of an event, byte by byte, and exactly which bytes the decoder of
 src/common/event.c:339-690 accepts. Nothing here relies on how the encoder and the
 decoder name their fields, types and limits.
 */
module EventWire {
  import opened Bytes
  import opened BufferViews
  import opened EventCodec
  import opened EventLaws
  import opened Wire
  import opened Wrappers

  // ---------------------------------------------------------------------
  // The header

  lemma FirstOffsets()
    ensures Offset(EVENT_COMM, 0) == 0 && Offset(EVENT_COMM, 1) == 1 && Offset(EVENT_COMM, 2) == 2
    ensures Offset(EVENT_COMM, 3) == 6 && Offset(EVENT_COMM, 4) == 7 && Offset(EVENT_COMM, 5) == 11
    ensures Offset(EVENT_COMM, 6) == 15
  {
    hide Offset, Size;
    OffsetNext(EVENT_COMM, 0);
    OffsetNext(EVENT_COMM, 1);
    OffsetNext(EVENT_COMM, 2);
    OffsetNext(EVENT_COMM, 3);
    OffsetNext(EVENT_COMM, 4);
    OffsetNext(EVENT_COMM, 5);
  }

  lemma LastOffsets()
    ensures Offset(EVENT_COMM, 7) == 19 && Offset(EVENT_COMM, 8) == 23 && Offset(EVENT_COMM, 9) == 27
    ensures Offset(EVENT_COMM, 10) == 31 && Offset(EVENT_COMM, 11) == 35 && Offset(EVENT_COMM, 12) == 39
  {
    hide Offset, Size;
    FirstOffsets();
    OffsetNext(EVENT_COMM, 6);
    OffsetNext(EVENT_COMM, 7);
    OffsetNext(EVENT_COMM, 8);
    OffsetNext(EVENT_COMM, 9);
    OffsetNext(EVENT_COMM, 10);
    OffsetNext(EVENT_COMM, 11);
  }

  /** The value of the bytes from `lo` to `hi`. */
  function At(s: seq<byte>, lo: nat, hi: nat): nat
    requires lo <= hi <= |s|
  {
    Val(s[lo..hi])
  }

  lemma FieldOf(x: Bundle, n: nat, i: nat)
    requires Sendable(x, n) && i < 13
    ensures var (s, o) := (Encode(x, n), Offset(EVENT_COMM, i));
            o + EVENT_COMM[i] <= |s| && At(s, o, o + EVENT_COMM[i]) == Header(x, n)[i]
  {
    hide Header, Body, Pack, Size, Offset, Val;
    HeaderFits(x, n);
    PackedField(EVENT_COMM, Header(x, n), i, Body(x));
  }

  /** struct lttng_event_comm, at the offsets it has without padding; negative values are two's complement. */
  lemma HeaderOnTheWire(x: Bundle, n: nat)
    requires Sendable(x, n)
    ensures var (s, e) := (Encode(x, n), x.event);
            && |s| >= 43
            && At(s, 0, 1) == e.kind % 0x100 && At(s, 1, 2) == e.loglevelType % 0x100
            && At(s, 2, 6) == e.loglevel % 0x1_0000_0000 && At(s, 6, 7) == e.enabled % 0x100
            && At(s, 7, 11) == e.pid % 0x1_0000_0000 && At(s, 11, 15) == e.flags
            && At(s, 15, 19) == |e.name| + 1 && At(s, 19, 23) == |x.exclusions|
            && At(s, 23, 27) == |FilterBytes(x)| && At(s, 27, 31) == n
            && At(s, 31, 35) == (if e.attr.LocationAttr? then |e.attr.blob| else 0)
            && At(s, 35, 39) == (if e.attr.ProbeAttr? then 20 + |e.attr.symbol| + 1 else 0)
            && At(s, 39, 43) == (if e.attr.FunctionAttr? then 4 + |e.attr.symbol| + 1 else 0)
  {
    hide Encode, Offset, At, Size, Pack, Pow256, FilterBytes;
    FirstOffsets();
    LastOffsets();
    Sizes();
    FieldOf(x, n, 0);
    FieldOf(x, n, 1);
    FieldOf(x, n, 2);
    FieldOf(x, n, 3);
    FieldOf(x, n, 4);
    FieldOf(x, n, 5);
    FieldOf(x, n, 6);
    FieldOf(x, n, 7);
    FieldOf(x, n, 8);
    FieldOf(x, n, 9);
    FieldOf(x, n, 10);
    FieldOf(x, n, 11);
    FieldOf(x, n, 12);
  }

  /** What follows the header, in order: name, exclusions, filter, bytecode, attributes. */
  lemma BodyOnTheWire(x: Bundle, n: nat)
    ensures var (s, name) := (Encode(x, n), x.event.name);
            var a := 43 + |name| + 1;
            var f := a + |Names(x.exclusions)|;
            var b := f + |FilterBytes(x)|;
            && Holds(s, 43, name + [0]) && Holds(s, a, Names(x.exclusions)) && Holds(s, f, FilterBytes(x))
            && Holds(s, b, BytecodeBytes(x)) && Holds(s, b + |BytecodeBytes(x)|, AttrBytes(x.event.attr))
            && |s| == b + |BytecodeBytes(x)| + |AttrBytes(x.event.attr)|
  {
    hide Pack, Header, Names, FilterBytes, BytecodeBytes, AttrBytes, Size, Holds;
    Sizes();
    var (s, h, name) := (Encode(x, n), Pack(EVENT_COMM, Header(x, n)), x.event.name + [0]);
    var (ns, f, b, t) := (Names(x.exclusions), FilterBytes(x), BytecodeBytes(x), AttrBytes(x.event.attr));
    WholeHolds(s);
    HoldsBoth(s, 0, h, name + (ns + (f + (b + t))));
    HoldsBoth(s, 43, name, ns + (f + (b + t)));
    HoldsBoth(s, 43 + |name|, ns, f + (b + t));
    HoldsBoth(s, 43 + |name| + |ns|, f, b + t);
    HoldsBoth(s, 43 + |name| + |ns| + |f|, b, t);
  }

  /** A name behind its length, which counts the terminator. */
  lemma CountedOnTheWire(t: cstring)
    requires |t| <= 255
    ensures var s := Counted(t); |s| == 4 + |t| + 1 && At(s, 0, 4) == |t| + 1 && s[4..] == t + [0]
  {
    hide Pack, Size, Val, Pow256;
    Sizes();
    PackedField(LEN_COMM, [|t| + 1], 0, Terminated(t));
  }

  /** The attributes of a probe: its address, its address again, and its symbol behind its length. */
  lemma ProbeOnTheWire(addr: nat, offset: nat, symbol: cstring)
    requires addr < 0x1_0000_0000_0000_0000 && |symbol| <= 255
    ensures var s := AttrBytes(ProbeAttr(addr, offset, symbol));
            && |s| == 20 + |symbol| + 1 && At(s, 0, 8) == addr && At(s, 8, 16) == addr && At(s, 16, 20) == |symbol| + 1
            && s[20..] == symbol + [0]
  {
    hide Pack, Size, Val, Pow256, Offset;
    Sizes();
    var vs := [addr, addr, |symbol| + 1];
    OffsetNext(PROBE_COMM, 0);
    OffsetNext(PROBE_COMM, 1);
    PackedField(PROBE_COMM, vs, 0, Terminated(symbol));
    PackedField(PROBE_COMM, vs, 1, Terminated(symbol));
    PackedField(PROBE_COMM, vs, 2, Terminated(symbol));
  }

  // ---------------------------------------------------------------------
  // Types

  /** The ranges of everything but the type and its attributes, in numbers. */
  predicate PlainFits(x: Bundle) {
    var e := x.event;
    && -128 <= e.loglevelType <= 127 && -0x8000_0000 <= e.loglevel <= 0x7FFF_FFFF
    && -128 <= e.enabled <= 127 && -0x8000_0000 <= e.pid <= 0x7FFF_FFFF
    && e.flags <= 0xFFFF_FFFF && |e.name| <= 255
    && |x.exclusions| < 0x100_0000 && (forall i | 0 <= i < |x.exclusions| :: |x.exclusions[i]| <= 255)
    && (x.filter.Some? ==> |x.filter.value| < 0xFFFF_FFFF)
    && (x.bytecode.Some? ==>
          && x.filter.Some? && 48 <= |x.bytecode.value| <= 0xFFFF_FFFF
          && Val(x.bytecode.value[..4]) + 48 == |x.bytecode.value|)
  }

  /** Each type with the attributes it has; tracepoints, all, no-ops and system calls have none. */
  predicate TypeFits(e: Event, parse: LocationDecoder) {
    || (e.kind in {-1, 0, 4, 5} && e.attr == NoAttr)
    || (e.kind in {1, 2} && e.attr.ProbeAttr? && e.attr.addr < 0x1_0000_0000_0000_0000 && |e.attr.symbol| <= 255)
    || (e.kind == 3 && e.attr.FunctionAttr? && |e.attr.symbol| <= 255)
    || (e.kind == 6 && e.attr.LocationAttr? && 0 < |e.attr.blob| <= 0xFFFF_FFFF && parse(e.attr.blob) == |e.attr.blob|)
  }

  /** Every event of a known type decodes from its encoding to itself, but for a probe's offset. */
  lemma KnownTypesDecode(v: View, x: Bundle, n: nat, parse: LocationDecoder)
    requires Inside(v) && PlainFits(x) && TypeFits(x.event, parse)
    requires n == (if x.bytecode.Some? then |x.bytecode.value| else 0) && Holds(Seen(v), 0, Encode(x, n))
    ensures var e := x.event;
            var attr := if e.attr.ProbeAttr? then ProbeAttr(e.attr.addr, e.attr.addr, e.attr.symbol) else e.attr;
            var received := e.(filter := x.filter.Some?, exclusion := |x.exclusions| > 0, attr := attr);
            Decode(v, parse) == Decoded(|Encode(x, n)|, Some(x.(event := received)))
  {
    hide Decode, Encode, Holds, Seen;
    RoundTrip(v, x, parse);
  }

  /** Every other type that fits its field is refused with LTTNG_ERR_UND, which is positive. */
  lemma OtherTypesRefused(v: View, x: Bundle, n: nat, parse: LocationDecoder)
    requires Inside(v) && PlainFits(x) && x.event.attr == NoAttr
    requires -128 <= x.event.kind < -1 || 6 < x.event.kind <= 127
    requires n == (if x.bytecode.Some? then |x.bytecode.value| else 0) && Holds(Seen(v), 0, Encode(x, n))
    ensures Decode(v, parse) == Decoded(12, None)
  {
    hide Encode, Holds, Seen, StructAt, DecodeBody, Pow256, Size, Signed, Wrap, FilterBytes, AttrLen;
    HeaderFits(x, n);
    HeaderReads(v, x, n);
    BodyReads(v, x);
    HeaderAnnounces(x);
    DecodeBodyReads(v, Header(x, n), x, parse);
    SignsSurvive(x.event);
  }

  // ---------------------------------------------------------------------
  // Exactly what is accepted

  /** The attributes as the decoder reads them; a probe's offset has a field of its own. */
  function AttrWire(a: Attr): seq<byte> {
    match a
    case ProbeAttr(addr, offset, symbol) => Pack(PROBE_COMM, [addr, offset, |symbol| + 1]) + Terminated(symbol)
    case _ => AttrBytes(a)
  }

  /** What follows a header that announces `x`. */
  function BodyWire(x: Bundle): seq<byte> {
    Terminated(x.event.name) + (Names(x.exclusions) + (FilterBytes(x) + (BytecodeBytes(x) + AttrWire(x.event.attr))))
  }

  /** A header for `x`. The lengths of attributes that its type does not have may be anything. */
  predicate Announces(c: seq<nat>, x: Bundle) {
    && AnnouncesBody(c, x) && x.event.kind == Signed(1, c[0]) && x.event.loglevelType == Signed(1, c[1])
    && x.event.loglevel == Signed(4, c[2]) && x.event.enabled == Signed(1, c[3]) && x.event.pid == Signed(4, c[4])
    && x.event.flags == c[5]
    && (x.event.attr.LocationAttr? ==> c[10] == |AttrWire(x.event.attr)|)
    && (x.event.attr.ProbeAttr? ==> c[11] == |AttrWire(x.event.attr)|)
    && (x.event.attr.FunctionAttr? ==> c[12] == |AttrWire(x.event.attr)|)
  }

  /** The presence bits are those of a received event, and a probe's offset fits its field. */
  predicate Received(x: Bundle) {
    && x.event.filter == x.filter.Some? && x.event.exclusion == (x.exclusions != [])
    && (x.event.attr.ProbeAttr? ==> x.event.attr.offset < 0x1_0000_0000_0000_0000)
  }

  // The decoder reads what lies there.

  lemma ProbeWireReads(v: View, addr: nat, offset: nat, symbol: cstring)
    requires Inside(v) && |symbol| <= 255 && Seen(v) == AttrWire(ProbeAttr(addr, offset, symbol))
    requires addr < 0x1_0000_0000_0000_0000 && offset < 0x1_0000_0000_0000_0000
    ensures ProbeAt(v) == Some((ProbeAttr(addr, offset, symbol), SizeOf(v)))
  {
    hide Seen, Holds, NameAt, StructAt, Pack, Size, Pow256, Terminated;
    Sizes();
    var vs := [addr, offset, |symbol| + 1];
    WholeHolds(Seen(v));
    HoldsBoth(Seen(v), 0, Pack(PROBE_COMM, vs), Terminated(symbol));
    StructExactly(v, 0, PROBE_COMM, vs);
    NameExactly(v, 20, |symbol| + 1, symbol);
  }

  lemma AttrWireReads(v: View, at: nat, e: Event, parse: LocationDecoder)
    requires Inside(v) && Tagged(e) && AttrFits(e.attr, parse) && !e.attr.NoAttr?
    requires e.attr.ProbeAttr? ==> e.attr.offset < 0x1_0000_0000_0000_0000
    requires Holds(Seen(v), at, AttrWire(e.attr))
    ensures AttrAt(v, at, |AttrWire(e.attr)|, e.kind, parse) == Some(e.attr)
  {
    hide FromView, Seen, Holds, Pack, CountedNameAt, ProbeAt, Size, Pow256, Terminated, Inside, Counted;
    var p := AttrWire(e.attr);
    match e.attr
    case ProbeAttr(addr, offset, symbol) =>
      SubHolds(v, at, p);
      ProbeWireReads(FromView(v, at, |p|), addr, offset, symbol);
    case FunctionAttr(symbol) =>
      CountedLength(symbol);
      SubHolds(v, at, p);
      WholeHolds(p);
      CountedNameReads(FromView(v, at, |p|), 0, symbol);
    case LocationAttr(_) =>
      SubHolds(v, at, p);
  }

  lemma TailWireReads(v: View, c: seq<nat>, x: Bundle, at: nat, parse: LocationDecoder)
    requires Inside(v) && WireOk(x, parse) && Received(x) && Announces(c, x) && Holds(Seen(v), at, AttrWire(x.event.attr))
    ensures DecodeTail(v, c, x.event.name, x.exclusions, x.filter, x.bytecode, at, parse) ==
            Decoded(at + |AttrWire(x.event.attr)|, Some(x))
  {
    hide Seen, Holds, AttrAt, AttrFits, Signed, NamesFit, BytecodeFits, FilterBytes;
    if !x.event.attr.NoAttr? {
      AttrWireReads(v, at, x.event, parse);
    }
  }

  lemma BodyWireParts(v: View, x: Bundle)
    requires Inside(v)
    ensures var at := 43 + |x.event.name| + 1 + |Names(x.exclusions)| + |FilterBytes(x)| + |BytecodeBytes(x)|;
            Holds(Seen(v), 43, BodyWire(x)) <==> HoldsBody(v, x) && Holds(Seen(v), at, AttrWire(x.event.attr))
  {
    hide Seen, Holds, Names, FilterBytes, BytecodeBytes, AttrWire;
    var (s, n, ns) := (Seen(v), Terminated(x.event.name), Names(x.exclusions));
    var (f, b, a) := (FilterBytes(x), BytecodeBytes(x), AttrWire(x.event.attr));
    HoldsBoth(s, 43, n, ns + (f + (b + a)));
    HoldsBoth(s, 43 + |n|, ns, f + (b + a));
    assert f + (b + a) == (f + b) + a;
    HoldsBoth(s, 43 + |n| + |ns|, f + b, a);
  }

  // What the decoder reads lies there.

  lemma CountedNameLies(v: View, offset: nat)
    requires Inside(v) && CountedNameAt(v, offset).Some?
    ensures var (t, end) := CountedNameAt(v, offset).value;
            Holds(Seen(v), offset, Counted(t)) && end == offset + |Counted(t)|
  {
    hide TextAt, StructAt, Holds, Pack, NameAt, Size, Pow256, Terminated, Seen;
    Sizes();
    var vs := StructAt(v, offset, LEN_COMM).value;
    var t := NameAt(v, offset + 4, vs[0]).value;
    NameExactly(v, offset + 4, vs[0], t);
    assert vs == [|t| + 1];
    StructExactly(v, offset, LEN_COMM, vs);
    HoldsBoth(Seen(v), offset, Pack(LEN_COMM, [|t| + 1]), Terminated(t));
  }

  lemma {:induction false} ExclusionsLie(v: View, offset: nat, i: nat, count: nat)
    requires Inside(v) && i <= count && ExclusionsAt(v, offset, i, count).NamesRead? && offset <= SizeOf(v)
    ensures var r := ExclusionsAt(v, offset, i, count);
            Holds(Seen(v), offset, Names(r.names)) && r.end == offset + |Names(r.names)|
    decreases count - i
  {
    hide CountedNameAt, Counted, Each, Seen, NamesRoom;
    var r := ExclusionsAt(v, offset, i, count);
    EachParts(Counted, r.names);
    if i < count {
      hide Holds;
      CountedNameLies(v, offset);
      var one := CountedNameAt(v, offset).value;
      LongEnough(Seen(v), offset, Counted(one.0));
      ExclusionsLie(v, one.1, i + 1, count);
      assert r.names[1..] == ExclusionsAt(v, one.1, i + 1, count).names;
      HoldsBoth(Seen(v), offset, Counted(one.0), Names(r.names[1..]));
    }
  }

  /** What lies in the rest of a view lies in the view. */
  lemma RestLies(v: View, offset: nat, p: seq<byte>)
    requires Inside(v) && offset <= SizeOf(v) && Holds(Seen(FromView(v, offset, -1)), 0, p)
    ensures Holds(Seen(v), offset, p)
  {
    hide FromView, Seen;
    RestView(v, offset);
    var s := Seen(v);
    assert s[offset..] == s[offset..offset + (|s| - offset)];
    HoldsInside(s, offset, |s| - offset, 0, p);
  }

  lemma DecodeExclusionsLie(v: View, offset: nat, count: nat)
    requires Inside(v) && offset <= SizeOf(v) && DecodeExclusions(v, offset, count).NamesRead?
    ensures var r := DecodeExclusions(v, offset, count);
            Holds(Seen(v), offset, Names(r.names)) && r.end == offset + |Names(r.names)|
  {
    hide ExclusionsAt, Each, Counted, FromView, Seen;
    EachParts(Counted, []);
    if count > 0 {
      var w := FromView(v, offset, -1);
      ExclusionsLie(w, 0, 0, count);
      RestLies(v, offset, Names(ExclusionsAt(w, 0, 0, count).names));
    }
  }

  lemma FilterLies(v: View, offset: nat, x: Bundle, len: nat, n: nat, end: nat)
    requires Inside(v) && offset <= SizeOf(v) && len <= 0xFFFF_FFFF
    requires DecodeFilter(v, offset, len, n) == Some((x.filter, x.bytecode, end))
    ensures Holds(Seen(v), offset, FilterBytes(x) + BytecodeBytes(x))
    ensures len == |FilterBytes(x)| && n == BytecodeLen(x) && end == offset + |FilterBytes(x)| + |BytecodeBytes(x)|
  {
    hide Seen, TextAt, FromView, Sent;
    if len > 0 {
      TextExactly(v, offset, len, x.filter.value);
      SentExactly(x.filter.value);
      if n > 0 {
        SubView(v, offset + len, n);
      }
    }
    HoldsBoth(Seen(v), offset, FilterBytes(x), BytecodeBytes(x));
  }

  lemma ProbeLies(v: View)
    requires Inside(v) && ProbeAt(v).Some?
    ensures var (a, n) := ProbeAt(v).value;
            Holds(Seen(v), 0, AttrWire(a)) && n == |AttrWire(a)| && a.offset < 0x1_0000_0000_0000_0000
  {
    hide TextAt, StructAt, Holds, Pack, NameAt, Size, Pow256, Terminated, Seen;
    Sizes();
    var vs := StructAt(v, 0, PROBE_COMM).value;
    var t := NameAt(v, 20, vs[2]).value;
    NameExactly(v, 20, vs[2], t);
    assert vs == [vs[0], vs[1], |t| + 1];
    StructExactly(v, 0, PROBE_COMM, vs);
    HoldsBoth(Seen(v), 0, Pack(PROBE_COMM, vs), Terminated(t));
    assert vs[1] < Pow256(PROBE_COMM[1]);
  }

  lemma AttrLies(v: View, at: nat, len: nat, kind: int, parse: LocationDecoder)
    requires Inside(v) && AttrAt(v, at, len, kind, parse).Some?
    ensures var a := AttrAt(v, at, len, kind, parse).value;
            && Holds(Seen(v), at, AttrWire(a)) && len == |AttrWire(a)|
            && (a.ProbeAttr? ==> a.offset < 0x1_0000_0000_0000_0000)
  {
    hide Seen, FromView, ProbeAt, CountedNameAt, Counted, Pack;
    var w := FromView(v, at, len);
    var a := AttrAt(v, at, len, kind, parse).value;
    SubView(v, at, len);
    if kind == FUNCTION_ENTRY {
      CountedNameLies(w, 0);
    } else if kind != USERSPACE_PROBE {
      ProbeIsProbe(w);
      ProbeLies(w);
    }
    assert Seen(w) == AttrWire(a);
  }

  lemma ProbeIsProbe(v: View)
    requires Inside(v) && ProbeAt(v).Some?
    ensures ProbeAt(v).value.0.ProbeAttr?
  {
  }

  /** Accepted bytes are a header for what was decoded, and then its wire form. */
  lemma AcceptedLies(v: View, parse: LocationDecoder)
    requires Inside(v) && Accepts(v, parse)
    ensures var (ret, x) := (Decode(v, parse).ret, Decode(v, parse).bundle.value);
            && WireOk(x, parse) && Received(x) && ret == 43 + |BodyWire(x)| && Holds(Seen(v), 43, BodyWire(x))
            && StructAt(v, 0, EVENT_COMM).Some? && Announces(StructAt(v, 0, EVENT_COMM).value, x)
  {
    hide StructAt, NameAt, DecodeExclusions, DecodeFilter, AttrAt, WireOk, Size, Pow256, Signed;
    hide AttrWire, Names, FilterBytes, BytecodeBytes, Holds, Seen, Terminated, BytecodeLen;
    DecodedIsWireOk(v, parse);
    Sizes();
    var (c, x) := (StructAt(v, 0, EVENT_COMM).value, Decode(v, parse).bundle.value);
    SignsFit(c);
    NameExactly(v, 43, c[6], x.event.name);
    LongEnough(Seen(v), 43, Terminated(x.event.name));
    var at := 43 + c[6];
    DecodeExclusionsLie(v, at, c[7]);
    DecodeExclusionsInside(v, at, c[7]);
    var end := at + |Names(x.exclusions)|;
    var f := DecodeFilter(v, end, c[8], c[9]).value.2;
    FilterLies(v, end, x, c[8], c[9], f);
    LongEnough(Seen(v), end, FilterBytes(x) + BytecodeBytes(x));
    var field := AttrField(Signed(1, c[0]));
    if field.Some? {
      AttrLies(v, f, c[field.value], Signed(1, c[0]), parse);
    } else {
      NothingLies(v, f);
    }
    TagOf(x, parse);
    BodyWireParts(v, x);
  }

  lemma TagOf(x: Bundle, parse: LocationDecoder)
    requires WireOk(x, parse)
    ensures Tagged(x.event)
  {
  }

  lemma NothingLies(v: View, at: nat)
    requires Inside(v) && at <= SizeOf(v)
    ensures AttrWire(NoAttr) == [] && Holds(Seen(v), at, [])
  {
  }

  /**
   The decoder returns `x` exactly if the view starts with a header that announces
   `x`, followed by the wire form of `x`, and `x` is within the ranges of the wire; it
   then says how many bytes that was.
   */
  lemma DecodesExactly(v: View, x: Bundle, ret: int, parse: LocationDecoder)
    requires Inside(v)
    ensures Decode(v, parse) == Decoded(ret, Some(x)) <==>
            && WireOk(x, parse) && Received(x) && ret == 43 + |BodyWire(x)|
            && StructAt(v, 0, EVENT_COMM).Some? && Announces(StructAt(v, 0, EVENT_COMM).value, x)
            && Holds(Seen(v), 43, BodyWire(x))
  {
    hide DecodeBody, Holds, Seen, BodyWire, StructAt, Announces, WireOk, Received, AttrWire;
    if Decode(v, parse) == Decoded(ret, Some(x)) {
      AcceptedLies(v, parse);
    }
    if StructAt(v, 0, EVENT_COMM).Some? {
      var c := StructAt(v, 0, EVENT_COMM).value;
      if WireOk(x, parse) && Received(x) && Announces(c, x) && Holds(Seen(v), 43, BodyWire(x)) {
        Decodes(v, c, x, parse);
      }
    }
  }

  lemma Decodes(v: View, c: seq<nat>, x: Bundle, parse: LocationDecoder)
    requires Inside(v) && WireOk(x, parse) && Received(x) && Announces(c, x) && Holds(Seen(v), 43, BodyWire(x))
    ensures DecodeBody(v, c, parse) == Decoded(43 + |BodyWire(x)|, Some(x))
  {
    hide DecodeBody, DecodeTail, Holds, Seen, AttrWire, Names, FilterBytes, BytecodeBytes, NamesFit, BytecodeFits, AttrFits;
    BodyWireParts(v, x);
    DecodeBodyReads(v, c, x, parse);
    var at := 43 + |x.event.name| + 1 + |Names(x.exclusions)| + |FilterBytes(x)| + |BytecodeBytes(x)|;
    TailWireReads(v, c, x, at, parse);
  }
}
