/**
 The laws of the event codec: what is decoded from an encoding, when that is what
 was encoded, and what any decoded event looks like.
 */
module EventLaws {
  import opened Bytes
  import opened BufferViews
  import opened EventCodec
  import opened Wire
  import opened Wrappers

  lemma Sizes()
    ensures Size(LEN_COMM) == 4 && Size(PROBE_COMM) == 20 && Size(EVENT_COMM) == 43
    ensures Pow256(1) == 0x100 && Pow256(4) == UINT32_MAX + 1 && Pow256(8) == 0x1_0000_0000_0000_0000
  {
    Pow256Values();
    assert PROBE_COMM[1..] == [8, 4] && [8, 4][1..] == [4];
    var tail: Layout := [4, 4, 4, 4, 4];
    assert tail[1..] == [4, 4, 4, 4] && [4, 4, 4, 4][1..] == [4, 4, 4] && [4, 4, 4][1..] == [4, 4] && [4, 4][1..] == [4];
    assert Size(tail) == 20;
    var middle: Layout := [4, 4, 4, 4, 4, 4, 4, 4, 4];
    assert middle[1..][1..][1..][1..] == tail;
    assert Size(middle) == 36;
    assert EVENT_COMM[1..][1..][1..][1..] == middle;
  }

  // ---------------------------------------------------------------------
  // Reading back each part

  lemma NameExactly(v: View, offset: nat, len: nat, t: cstring)
    requires Inside(v)
    ensures NameAt(v, offset, len) == Some(t) <==>
            len == |t| + 1 && |t| < SYMBOL_NAME_LEN && Holds(Seen(v), offset, Terminated(t))
  {
    hide TextAt;
    TextExactly(v, offset, len, t);
  }

  lemma CountedNameReads(v: View, offset: nat, t: cstring)
    requires Inside(v) && |t| < SYMBOL_NAME_LEN
    requires Holds(Seen(v), offset, Counted(t))
    ensures CountedNameAt(v, offset) == Some((t, offset + 4 + |t| + 1))
  {
    hide TextAt, StructAt, Holds, Pack, NameAt, Size, Pow256, Terminated, Seen;
    Sizes();
    HoldsBoth(Seen(v), offset, Pack(LEN_COMM, [|t| + 1]), Terminated(t));
    StructExactly(v, offset, LEN_COMM, [|t| + 1]);
    NameExactly(v, offset + 4, |t| + 1, t);
  }

  lemma CountedLength(t: cstring)
    ensures |Counted(t)| == 4 + |t| + 1
  {
    hide Pack, Size;
    Sizes();
  }

  /** Names that lie in the view are all read, if the array has room for all of them; otherwise it is overrun. */
  lemma {:induction false} ExclusionsRead(v: View, offset: nat, i: nat, count: nat, xs: seq<cstring>)
    requires Inside(v) && NamesShort(xs) && Holds(Seen(v), offset, Names(xs))
    requires count == i + |xs| <= UINT32_MAX && i * SYMBOL_NAME_LEN <= NamesRoom(count)
    ensures ExclusionsAt(v, offset, i, count) ==
            if count * SYMBOL_NAME_LEN <= NamesRoom(count) then NamesRead(xs, offset + |Names(xs)|) else Overrun
    decreases |xs|
  {
    hide CountedNameAt, Holds, Counted, Each, Seen, Inside, NamesRoom;
    EachParts(Counted, xs);
    NamesRoomExactly(count);
    if xs != [] {
      HoldsBoth(Seen(v), offset, Counted(xs[0]), Names(xs[1..]));
      CountedLength(xs[0]);
      CountedNameReads(v, offset, xs[0]);
      if (i + 1) * SYMBOL_NAME_LEN <= NamesRoom(count) {
        ExclusionsRead(v, offset + |Counted(xs[0])|, i + 1, count, xs[1..]);
        assert [xs[0]] + xs[1..] == xs;
      } else {
        NoRoom(i, count, |xs[0]|);
      }
    }
  }

  /** An array that has no room for a whole name any more is full. */
  lemma NoRoom(i: nat, count: nat, length: nat)
    requires count <= UINT32_MAX && i * SYMBOL_NAME_LEN <= NamesRoom(count) < (i + 1) * SYMBOL_NAME_LEN
    ensures i * SYMBOL_NAME_LEN + length + 1 > NamesRoom(count)
  {
    hide NamesRoom;
    NamesRoomExactly(count);
    var q := NamesRoom(count) / SYMBOL_NAME_LEN;
    assert NamesRoom(count) == q * SYMBOL_NAME_LEN;
    assert i == q;
  }

  lemma DecodeExclusionsReads(v: View, offset: nat, xs: seq<cstring>)
    requires Inside(v) && NamesShort(xs) && Holds(Seen(v), offset, Names(xs))
    ensures DecodeExclusions(v, offset, |xs|) ==
            if |xs| < NAMES_LIMIT then NamesRead(xs, offset + |Names(xs)|) else Overrun
  {
    hide ExclusionsAt, Holds, FromView, Seen, Counted, Each, NamesRoom;
    EachParts(Counted, xs);
    if xs != [] {
      CountedLength(xs[0]);
      RestHolds(v, offset, Names(xs));
      NamesRoomExactly(|xs|);
      ExclusionsRead(FromView(v, offset, -1), 0, 0, |xs|, xs);
    }
  }

  lemma BytecodeReads(v: View, offset: nat, code: seq<byte>)
    requires Inside(v) && Holds(Seen(v), offset, code)
    requires BYTECODE_SIZE <= |code| && Val(code[..4]) + BYTECODE_SIZE == |code|
    ensures BytecodeAt(v, offset, |code|) == Some(code)
  {
    hide FromView, Seen, Holds;
    SubHolds(v, offset, code);
  }

  lemma DecodeFilterReads(v: View, offset: nat, x: Bundle)
    requires Inside(v) && BytecodeFits(x) && Holds(Seen(v), offset, FilterBytes(x) + BytecodeBytes(x))
    requires x.filter.Some? ==> |x.filter.value| < UINT32_MAX
    ensures DecodeFilter(v, offset, |FilterBytes(x)|, BytecodeLen(x)) ==
            Some((x.filter, x.bytecode, offset + |FilterBytes(x)| + |BytecodeBytes(x)|))
  {
    hide Seen, Holds, TextAt, BytecodeAt, Sent;
    HoldsBoth(Seen(v), offset, FilterBytes(x), BytecodeBytes(x));
    if x.filter.Some? {
      SentExactly(x.filter.value);
      TextExactly(v, offset, |x.filter.value| + 1, x.filter.value);
      if x.bytecode.Some? {
        BytecodeReads(v, offset + |x.filter.value| + 1, x.bytecode.value);
      }
    }
  }

  lemma ProbeReads(v: View, addr: nat, offset: nat, symbol: cstring)
    requires Inside(v) && addr < 0x1_0000_0000_0000_0000 && |symbol| < SYMBOL_NAME_LEN
    requires Seen(v) == AttrBytes(ProbeAttr(addr, offset, symbol))
    ensures ProbeAt(v) == Some((ProbeAttr(addr, addr, symbol), SizeOf(v)))
  {
    hide Seen, Holds, NameAt, StructAt, Pack, Size, Pow256, Terminated;
    Sizes();
    var vs := [addr, addr, |symbol| + 1];
    WholeHolds(Seen(v));
    HoldsBoth(Seen(v), 0, Pack(PROBE_COMM, vs), Terminated(symbol));
    StructExactly(v, 0, PROBE_COMM, vs);
    NameExactly(v, 20, |symbol| + 1, symbol);
  }

  lemma WholeHolds(s: seq<byte>)
    ensures Holds(s, 0, s)
  {
    assert s[0..|s|] == s;
  }

  lemma AttrReads(v: View, offset: nat, e: Event, parse: LocationDecoder)
    requires Inside(v) && Tagged(e) && AttrFits(e.attr, parse) && Holds(Seen(v), offset, AttrBytes(e.attr))
    requires !e.attr.NoAttr?
    ensures AttrAt(v, offset, |AttrBytes(e.attr)|, e.kind, parse) ==
            Some(AsReceived(Bundle(e, [], None, None)).event.attr)
  {
    hide FromView, Seen, Holds, Pack, CountedNameAt, ProbeAt, Size, Pow256, Terminated, Inside;
    var p := AttrBytes(e.attr);
    SubHolds(v, offset, p);
    var w := FromView(v, offset, |p|);
    match e.attr
    case ProbeAttr(addr, o, symbol) => ProbeReads(w, addr, o, symbol);
    case FunctionAttr(symbol) =>
      Sizes();
      WholeHolds(p);
      CountedNameReads(w, 0, symbol);
    case LocationAttr(_) =>
  }

  lemma HeaderReads(v: View, x: Bundle, n: nat)
    requires Inside(v) && Holds(Seen(v), 0, Encode(x, n)) && Fits(EVENT_COMM, Header(x, n))
    ensures StructAt(v, 0, EVENT_COMM) == Some(Header(x, n)) && Holds(Seen(v), 43, Body(x))
  {
    hide StructAt, Seen, Holds, Pack, Header, Body, Size, Pow256, Fits;
    Sizes();
    HoldsBoth(Seen(v), 0, Pack(EVENT_COMM, Header(x, n)), Body(x));
    StructExactly(v, 0, EVENT_COMM, Header(x, n));
  }

  /** What the encoder is given: C values, names that it accepts. */
  predicate Sendable(x: Bundle, n: nat) {
    && Tagged(x.event) && x.event.flags <= 0xFFFF_FFFF && |x.event.name| <= 255 && NamesShort(x.exclusions)
    && n <= 0xFFFF_FFFF && (x.bytecode.Some? ==> |x.bytecode.value| == n)
    && match x.event.attr
       case NoAttr => true
       case ProbeAttr(addr, _, symbol) => addr < 0x1_0000_0000_0000_0000 && |symbol| <= 255
       case FunctionAttr(symbol) => |symbol| <= 255
       case LocationAttr(blob) => |blob| <= 0xFFFF_FFFF
  }

  lemma AttrLens(a: Attr)
    requires match a
             case NoAttr => true
             case ProbeAttr(addr, _, symbol) => |symbol| < SYMBOL_NAME_LEN
             case FunctionAttr(symbol) => |symbol| < SYMBOL_NAME_LEN
             case LocationAttr(blob) => |blob| <= UINT32_MAX
    ensures forall i :: AttrLen(a, i) <= UINT32_MAX
  {
    hide Pack, Size;
    Sizes();
  }

  lemma HeaderFits(x: Bundle, n: nat)
    requires Sendable(x, n)
    ensures Fits(EVENT_COMM, Header(x, n))
  {
    hide Pack, Names, Tagged, Pow256, Size, AttrLen, Wrap, Sent;
    Sizes();
    AttrLens(x.event.attr);
  }

  lemma SignsSurvive(e: Event)
    requires -128 <= e.kind <= 127 && -128 <= e.loglevelType <= 127 && -128 <= e.enabled <= 127
    requires -0x8000_0000 <= e.loglevel <= 0x7FFF_FFFF && -0x8000_0000 <= e.pid <= 0x7FFF_FFFF
    ensures Signed(1, Wrap(1, e.kind)) == e.kind && Signed(1, Wrap(1, e.loglevelType)) == e.loglevelType
    ensures Signed(4, Wrap(4, e.loglevel)) == e.loglevel && Signed(1, Wrap(1, e.enabled)) == e.enabled
    ensures Signed(4, Wrap(4, e.pid)) == e.pid
  {
    hide Wrap, Signed, FitsSigned;
    Ranges(e.kind);
    Ranges(e.loglevelType);
    Ranges(e.loglevel);
    Ranges(e.enabled);
    Ranges(e.pid);
    SignedWrap(1, e.kind);
    SignedWrap(1, e.loglevelType);
    SignedWrap(4, e.loglevel);
    SignedWrap(1, e.enabled);
    SignedWrap(4, e.pid);
  }

  lemma BodyReads(v: View, x: Bundle)
    requires Inside(v) && Holds(Seen(v), 43, Body(x))
    ensures HoldsBody(v, x)
    ensures var at := 43 + |x.event.name| + 1;
            Holds(Seen(v), at + |Names(x.exclusions)| + |FilterBytes(x)| + |BytecodeBytes(x)|, AttrBytes(x.event.attr))
  {
    hide Seen, Holds, Names, FilterBytes, BytecodeBytes, AttrBytes;
    var (s, n, ns) := (Seen(v), Terminated(x.event.name), Names(x.exclusions));
    var (f, b, a) := (FilterBytes(x), BytecodeBytes(x), AttrBytes(x.event.attr));
    HoldsBoth(s, 43, n, ns + (f + (b + a)));
    HoldsBoth(s, 43 + |n|, ns, f + (b + a));
    assert f + (b + a) == (f + b) + a;
    HoldsBoth(s, 43 + |n| + |ns|, f + b, a);
  }

  /** A header that gives the lengths of what follows it, up to the attributes. */
  predicate AnnouncesBody(c: seq<nat>, x: Bundle) {
    && |c| == 13 && c[6] == |x.event.name| + 1 && c[7] == |x.exclusions|
    && c[8] == |FilterBytes(x)| && c[9] == BytecodeLen(x)
  }

  /** The parts that follow the header, up to the attributes. */
  predicate HoldsBody(v: View, x: Bundle)
    requires Inside(v)
  {
    var at := 43 + |x.event.name| + 1;
    && Holds(Seen(v), 43, Terminated(x.event.name)) && Holds(Seen(v), at, Names(x.exclusions))
    && Holds(Seen(v), at + |Names(x.exclusions)|, FilterBytes(x) + BytecodeBytes(x))
  }

  predicate BodyFits(x: Bundle) {
    && |x.event.name| <= 255 && NamesFit(x.exclusions) && BytecodeFits(x)
    && (x.filter.Some? ==> |x.filter.value| < 0xFFFF_FFFF)
  }

  /** The decoder, run on the parts of an encoding. */
  lemma DecodeBodyReads(v: View, c: seq<nat>, x: Bundle, parse: LocationDecoder)
    requires Inside(v) && AnnouncesBody(c, x) && BodyFits(x) && HoldsBody(v, x)
    ensures var f := 43 + |x.event.name| + 1 + |Names(x.exclusions)| + |FilterBytes(x)| + |BytecodeBytes(x)|;
            DecodeBody(v, c, parse) == DecodeTail(v, c, x.event.name, x.exclusions, x.filter, x.bytecode, f, parse)
  {
    hide Seen, Holds, Names, FilterBytes, BytecodeBytes, AttrBytes, Terminated;
    hide DecodeTail, NameAt, DecodeExclusions, DecodeFilter, Size, Pow256, BytecodeFits, NamesShort;
    Sizes();
    var at := 43 + |x.event.name| + 1;
    NameExactly(v, 43, |x.event.name| + 1, x.event.name);
    DecodeExclusionsReads(v, at, x.exclusions);
    DecodeFilterReads(v, at + |Names(x.exclusions)|, x);
  }

  lemma DecodeTailReads(v: View, x: Bundle, offset: nat, parse: LocationDecoder)
    requires Inside(v) && WireOk(x, parse) && Holds(Seen(v), offset, AttrBytes(x.event.attr))
    ensures DecodeTail(v, Header(x, BytecodeLen(x)), x.event.name, x.exclusions, x.filter, x.bytecode, offset, parse) ==
            Decoded(offset + |AttrBytes(x.event.attr)|, Some(AsReceived(x)))
  {
    hide Seen, Holds, FilterBytes, AttrAt, AttrFits, Wrap, Signed, BytecodeFits, NamesFit, FitsSigned;
    SignsSurvive(x.event);
    if !x.event.attr.NoAttr? {
      AttrReads(v, offset, x.event, parse);
    }
  }

  /**
   Decoding an encoding, whatever follows it, gives what was encoded and consumes
   exactly the bytes of the encoding.
   */
  lemma RoundTrip(v: View, x: Bundle, parse: LocationDecoder)
    requires Inside(v) && WireOk(x, parse) && Holds(Seen(v), 0, Encode(x, BytecodeLen(x)))
    ensures Decode(v, parse) == Decoded(|Encode(x, BytecodeLen(x))|, Some(AsReceived(x)))
  {
    hide Seen, Holds, StructAt, DecodeBody, DecodeTail, Header, AsReceived, Pack, Size, Pow256;
    hide Names, FilterBytes, BytecodeBytes, AttrBytes, EventFits, AttrFits, BytecodeFits, NamesFit;
    IsSendable(x, parse);
    HeaderFits(x, BytecodeLen(x));
    HeaderReads(v, x, BytecodeLen(x));
    BodyReads(v, x);
    HeaderAnnounces(x);
    DecodeBodyReads(v, Header(x, BytecodeLen(x)), x, parse);
    Sizes();
    DecodeTailReads(v, x, 43 + |x.event.name| + 1 + |Names(x.exclusions)| + |FilterBytes(x)| + |BytecodeBytes(x)|, parse);
  }

  lemma HeaderAnnounces(x: Bundle)
    ensures AnnouncesBody(Header(x, BytecodeLen(x)), x)
  {
    hide FilterBytes, AttrLen, Wrap;
  }

  lemma IsSendable(x: Bundle, parse: LocationDecoder)
    requires WireOk(x, parse)
    ensures Sendable(x, BytecodeLen(x))
  {
  }

  // ---------------------------------------------------------------------
  // What any decoded bundle looks like

  /** A text read anywhere was somewhere in the view. */
  lemma TextInside(v: View, offset: nat, len: nat)
    requires Inside(v) && TextAt(v, offset, len).Some?
    ensures len == |TextAt(v, offset, len).value| + 1 && offset + len <= SizeOf(v)
  {
    hide TextAt, Seen;
    TextExactly(v, offset, len, TextAt(v, offset, len).value);
  }

  lemma {:induction false} ExclusionsInside(v: View, offset: nat, i: nat, count: nat)
    requires Inside(v) && i <= count <= UINT32_MAX && ExclusionsAt(v, offset, i, count).NamesRead?
    ensures var r := ExclusionsAt(v, offset, i, count);
            && |r.names| == count - i && offset <= r.end && (i < count ==> r.end <= SizeOf(v) && count < NAMES_LIMIT)
            && forall k | 0 <= k < |r.names| :: |r.names[k]| < SYMBOL_NAME_LEN
    decreases count - i
  {
    hide TextAt, Seen, StructAt, Size, NamesRoom;
    if i < count {
      var comm := StructAt(v, offset, LEN_COMM).value;
      TextInside(v, offset + Size(LEN_COMM), comm[0]);
      var one := CountedNameAt(v, offset).value;
      ExclusionsInside(v, one.1, i + 1, count);
      NamesRoomExactly(count);
      LastName(i, count, |one.0|);
    }
  }

  lemma LastName(i: nat, count: nat, length: nat)
    requires i < count <= UINT32_MAX && i * SYMBOL_NAME_LEN + length + 1 <= NamesRoom(count)
    ensures i + 1 == count ==> count < NAMES_LIMIT
  {
    hide NamesRoom;
    NamesRoomExactly(count);
  }

  lemma DecodeExclusionsInside(v: View, offset: nat, count: nat)
    requires Inside(v) && offset <= SizeOf(v) && count <= UINT32_MAX && DecodeExclusions(v, offset, count).NamesRead?
    ensures var r := DecodeExclusions(v, offset, count);
            |r.names| == count && offset <= r.end <= SizeOf(v) && NamesFit(r.names)
  {
    hide ExclusionsAt;
    if count > 0 {
      ExclusionsInside(FromView(v, offset, -1), 0, 0, count);
    }
  }

  lemma DecodeFilterInside(v: View, offset: nat, len: nat, bytecodeLen: nat)
    requires Inside(v) && offset <= SizeOf(v) && DecodeFilter(v, offset, len, bytecodeLen).Some?
    ensures var (f, b, end) := DecodeFilter(v, offset, len, bytecodeLen).value;
            && offset <= end <= SizeOf(v)
            && (f.Some? <==> len > 0) && (f.Some? ==> |f.value| == len - 1)
            && (b.Some? <==> bytecodeLen > 0) && (b.Some? ==> f.Some? && |b.value| == bytecodeLen >= BYTECODE_SIZE &&
                                                              Val(b.value[..4]) + BYTECODE_SIZE == bytecodeLen)
  {
    hide TextAt, Seen, FromView;
    if len > 0 {
      TextInside(v, offset, len);
      SubView(v, offset + len, bytecodeLen);
    }
  }

  lemma AttrInside(v: View, offset: nat, len: nat, kind: int, parse: LocationDecoder)
    requires Inside(v) && AttrAt(v, offset, len, kind, parse).Some? && AttrField(kind).Some? && len <= UINT32_MAX
    ensures var a := AttrAt(v, offset, len, kind, parse).value;
            && 0 < len && offset + len <= SizeOf(v) && AttrFits(a, parse)
            && match a
               case NoAttr => false
               case ProbeAttr(_, _, _) => kind == PROBE || kind == FUNCTION
               case FunctionAttr(_) => kind == FUNCTION_ENTRY
               case LocationAttr(_) => kind == USERSPACE_PROBE
  {
    hide TextAt, Seen, StructAt, Size, FromView, Pow256;
    SubView(v, offset, len);
    Sizes();
  }

  lemma SignsFit(c: seq<nat>)
    requires Fits(EVENT_COMM, c)
    ensures FitsSigned(1, Signed(1, c[0])) && FitsSigned(1, Signed(1, c[1])) && FitsSigned(4, Signed(4, c[2]))
    ensures FitsSigned(1, Signed(1, c[3])) && FitsSigned(4, Signed(4, c[4]))
    ensures forall i | 5 <= i < 13 :: c[i] <= UINT32_MAX
  {
    hide FitsSigned, Signed, Pow256, Size, Wrap;
    Sizes();
    forall i | 0 <= i < 13 ensures c[i] < Pow256(if i in {0, 1, 3} then 1 else 4) {
      assert EVENT_COMM[i] == if i in {0, 1, 3} then 1 else 4;
    }
    WrapSigned(1, c[0]);
    WrapSigned(1, c[1]);
    WrapSigned(4, c[2]);
    WrapSigned(1, c[3]);
    WrapSigned(4, c[4]);
  }

  /**
   Whatever the bytes, what the decoder accepts lies inside the view, is within the
   ranges of the wire, and has its presence bits set: it can be sent on.
   */
  lemma DecodedIsWireOk(v: View, parse: LocationDecoder)
    requires Inside(v) && Accepts(v, parse)
    ensures var (ret, x) := (Decode(v, parse).ret, Decode(v, parse).bundle.value);
            && 43 < ret <= SizeOf(v) && WireOk(x, parse)
            && x.event.filter == x.filter.Some? && x.event.exclusion == (x.exclusions != [])
            && StructAt(v, 0, EVENT_COMM).Some? && StructAt(v, 0, EVENT_COMM).value[9] == BytecodeLen(x)
  {
    hide StructAt, TextAt, DecodeExclusions, DecodeFilter, AttrAt, NamesFit, Size, Pow256, FitsSigned, Signed;
    Sizes();
    var c := StructAt(v, 0, EVENT_COMM).value;
    SignsFit(c);
    Ranges(Signed(1, c[1]));
    Ranges(Signed(4, c[2]));
    Ranges(Signed(1, c[3]));
    Ranges(Signed(4, c[4]));
    TextInside(v, 43, c[6]);
    var at := 43 + c[6];
    DecodeExclusionsInside(v, at, c[7]);
    var end := DecodeExclusions(v, at, c[7]).end;
    DecodeFilterInside(v, end, c[8], c[9]);
    var f := DecodeFilter(v, end, c[8], c[9]).value.2;
    var field := AttrField(Signed(1, c[0]));
    if field.Some? {
      AttrInside(v, f, c[field.value], Signed(1, c[0]), parse);
    }
  }

  /**
   For everything the encoder accepts, exactly when the encoding decodes to what
   was encoded: a known type, `loglevel_type`, `loglevel`, `enabled` and `pid` within
   their wire fields, a bytecode that comes with a filter and states its own length,
   a location that decodes, fewer than 2^24 exclusions, a filter whose length fits
   its field, and the length of the bytecode given truly.
   */
  lemma RoundTripExactly(v: View, x: Bundle, n: nat, parse: LocationDecoder)
    requires Inside(v) && Sendable(x, n) && Holds(Seen(v), 0, Encode(x, n))
    ensures Decode(v, parse) == Decoded(|Encode(x, n)|, Some(AsReceived(x))) <==>
            WireOk(x, parse) && n == BytecodeLen(x)
  {
    hide Decode, Holds, Seen, Encode, StructAt, Size, Pow256, Pack, AttrLen, FilterBytes, Wrap;
    if WireOk(x, parse) && n == BytecodeLen(x) {
      RoundTrip(v, x, parse);
    }
    if Decode(v, parse) == Decoded(|Encode(x, n)|, Some(AsReceived(x))) {
      DecodedIsWireOk(v, parse);
      HeaderFits(x, n);
      HeaderReads(v, x, n);
    }
  }

  /** With 2^24 exclusions or more, the encoding is one that the decoder overruns its array on. */
  lemma TooManyExclusions(v: View, x: Bundle, n: nat, parse: LocationDecoder)
    requires Inside(v) && Sendable(x, n) && |x.exclusions| >= 0x100_0000 && Holds(Seen(v), 0, Encode(x, n))
    ensures Decode(v, parse) == Undefined
  {
    hide Holds, Seen, Encode, StructAt, Size, Pow256, Pack, AttrLen, FilterBytes, Wrap, Tagged;
    hide NameAt, DecodeExclusions, Body, Terminated, Names, DecodeFilter, DecodeTail, NamesShort;
    Sizes();
    HeaderFits(x, n);
    HeaderReads(v, x, n);
    BodyReads(v, x);
    NameExactly(v, 43, |x.event.name| + 1, x.event.name);
    DecodeExclusionsReads(v, 43 + |x.event.name| + 1, x.exclusions);
  }

  /** A received bundle can be sent again, and arrives again, but for the offset of a probe, which the encoder overwrites. */
  lemma Resend(v: View, w: View, parse: LocationDecoder)
    requires Inside(v) && Inside(w) && Accepts(v, parse)
    requires var x := Decode(v, parse).bundle.value; Seen(w) == Encode(x, BytecodeLen(x))
    ensures var x := Decode(v, parse).bundle.value;
            && Decode(w, parse) == Decoded(SizeOf(w), Some(AsReceived(x)))
            && (AsReceived(x) == x <==> x.event.attr.ProbeAttr? ==> x.event.attr.offset == x.event.attr.addr)
  {
    hide Decode, Seen, Encode;
    DecodedIsWireOk(v, parse);
    WholeHolds(Seen(w));
    RoundTrip(w, Decode(v, parse).bundle.value, parse);
  }
}
