/**
 src/common/channel.c:100-255 and 296-340: how a channel, and a list of channels,
 travels.
 */
module Channels {
  import opened Bytes
  import opened BufferViews
  import opened DynamicBuffers
  import opened Wire
  import opened Wrappers

  // struct lttng_channel_comm: name_len, enabled, overwrite, subbuf_size, num_subbuf, switch_timer_interval,
  // read_timer_interval, output, tracefile_size, tracefile_count, live_timer_interval, discarded_events,
  // lost_packets, monitor_timer_interval, blocking_timeout
  const CHANNEL_COMM: Layout := [4, 1, 1, 8, 8, 4, 4, 1, 8, 8, 4, 8, 8, 8, 8]

  /** struct lttng_channel with its attributes; a name of SYMBOL_NAME_LEN characters has no terminator. */
  datatype Channel = Channel(
    name: cstring, enabled: nat, overwrite: int, subbufSize: nat, numSubbuf: nat, switchTimer: nat, readTimer: nat,
    output: nat, tracefileSize: nat, tracefileCount: nat, liveTimer: nat,
    discarded: nat, lost: nat, monitorTimer: nat, blockingTimeout: int)

  function Comm(c: Channel): (vs: seq<nat>)
    ensures |vs| == |CHANNEL_COMM|
  {
    [|c.name| + 1, c.enabled, Wrap(1, c.overwrite), c.subbufSize, c.numSubbuf, c.switchTimer, c.readTimer,
     c.output, c.tracefileSize, c.tracefileCount, c.liveTimer,
     c.discarded, c.lost, c.monitorTimer, Wrap(8, c.blockingTimeout)]
  }

  function FromComm(vs: seq<nat>, name: cstring): Channel
    requires |vs| == |CHANNEL_COMM|
  {
    Channel(name, vs[1], Signed(1, vs[2]), vs[3], vs[4], vs[5], vs[6], vs[7], vs[8], vs[9], vs[10],
            vs[11], vs[12], vs[13], Signed(8, vs[14]))
  }

  function Encode(c: Channel): seq<byte> {
    Pack(CHANNEL_COMM, Comm(c)) + Terminated(c.name)
  }

  /** lttng_channel_create_from_buffer: the bytes used, or -1. */
  function Decode(v: View): (int, Option<Channel>)
    requires Inside(v)
  {
    var comm := StructAt(v, 0, CHANNEL_COMM);
    if comm.None? || comm.value[0] > SYMBOL_NAME_LEN - 1 then (-1, None) else
    var name := TextAt(v, Size(CHANNEL_COMM), comm.value[0]);
    if name.None? then (-1, None)
    else (Size(CHANNEL_COMM) + comm.value[0], Some(FromComm(comm.value, name.value)))
  }

  /** lttng_channel_serialize */
  method Serialize(c: Channel, b: DynamicBuffer) returns (ret: int)
    requires b.Valid() && b.size + |Encode(c)| <= MAX_SIZE
    modifies b, b.data
    ensures b.Valid() && (b.data == old(b.data) || fresh(b.data)) && ret in {0, -1}
    ensures old(b.Contents()) <= b.Contents()
    ensures ret == 0 ==> |c.name| <= 255 && b.Contents() == old(b.Contents()) + Encode(c)
    ensures b.generous ==> (ret == 0 <==> |c.name| <= 255)
  {
    hide Pack, IsPow2, Size, Comm;
    if |c.name| >= SYMBOL_NAME_LEN {
      return -1;
    }
    ghost var c0 := b.Contents();
    var header := Pack(CHANNEL_COMM, Comm(c));
    assert c0 + [] == c0 && [] + header == header;
    ret := AppendAfter(b, header, c0, []);
    if ret != 0 { return; }
    ret := AppendAfter(b, Terminated(c.name), c0, header);
  }

  // ---------------------------------------------------------------------
  // Laws

  /** The values that the fields of the wire hold. */
  predicate InRange(c: Channel) {
    && c.enabled <= 0xFF && -128 <= c.overwrite <= 127 && c.output <= 0xFF
    && c.switchTimer <= 0xFFFF_FFFF && c.readTimer <= 0xFFFF_FFFF && c.liveTimer <= 0xFFFF_FFFF
    && c.subbufSize <= 0xFFFF_FFFF_FFFF_FFFF && c.numSubbuf <= 0xFFFF_FFFF_FFFF_FFFF
    && c.tracefileSize <= 0xFFFF_FFFF_FFFF_FFFF && c.tracefileCount <= 0xFFFF_FFFF_FFFF_FFFF
    && c.discarded <= 0xFFFF_FFFF_FFFF_FFFF && c.lost <= 0xFFFF_FFFF_FFFF_FFFF
    && c.monitorTimer <= 0xFFFF_FFFF_FFFF_FFFF
    && -0x8000_0000_0000_0000 <= c.blockingTimeout <= 0x7FFF_FFFF_FFFF_FFFF
  }

  /** Which is to say that they fit. */
  lemma RangeExactly(c: Channel)
    requires |c.name| <= 255
    ensures InRange(c) <==>
            Fits(CHANNEL_COMM, Comm(c)) && FitsSigned(1, c.overwrite) && FitsSigned(8, c.blockingTimeout)
  {
    hide Pow256, FitsSigned, Wrap;
    Pow256Values();
    Ranges(c.overwrite);
    Ranges(c.blockingTimeout);
    var vs := Comm(c);
    assert (forall i | 0 <= i < 15 :: vs[i] < Pow256(CHANNEL_COMM[i])) ==>
           && vs[1] < Pow256(CHANNEL_COMM[1]) && vs[3] < Pow256(CHANNEL_COMM[3]) && vs[4] < Pow256(CHANNEL_COMM[4])
           && vs[5] < Pow256(CHANNEL_COMM[5]) && vs[6] < Pow256(CHANNEL_COMM[6]) && vs[7] < Pow256(CHANNEL_COMM[7])
           && vs[8] < Pow256(CHANNEL_COMM[8]) && vs[9] < Pow256(CHANNEL_COMM[9]) && vs[10] < Pow256(CHANNEL_COMM[10])
           && vs[11] < Pow256(CHANNEL_COMM[11]) && vs[12] < Pow256(CHANNEL_COMM[12]) && vs[13] < Pow256(CHANNEL_COMM[13]);
  }

  lemma HeaderSize()
    ensures Size(CHANNEL_COMM) == 83
    ensures Offset(CHANNEL_COMM, 0) == 0 && Offset(CHANNEL_COMM, 1) == 4 && Offset(CHANNEL_COMM, 2) == 5
    ensures Offset(CHANNEL_COMM, 3) == 6 && Offset(CHANNEL_COMM, 4) == 14 && Offset(CHANNEL_COMM, 5) == 22
    ensures Offset(CHANNEL_COMM, 6) == 26 && Offset(CHANNEL_COMM, 7) == 30
    ensures Offset(CHANNEL_COMM, 8) == 31 && Offset(CHANNEL_COMM, 9) == 39 && Offset(CHANNEL_COMM, 10) == 47
    ensures Offset(CHANNEL_COMM, 11) == 51 && Offset(CHANNEL_COMM, 12) == 59 && Offset(CHANNEL_COMM, 13) == 67
    ensures Offset(CHANNEL_COMM, 14) == 75
  {
    hide Offset, Size;
    FirstOffsets();
    OffsetNext(CHANNEL_COMM, 7);
    OffsetNext(CHANNEL_COMM, 8);
    OffsetNext(CHANNEL_COMM, 9);
    OffsetNext(CHANNEL_COMM, 10);
    OffsetNext(CHANNEL_COMM, 11);
    OffsetNext(CHANNEL_COMM, 12);
    OffsetNext(CHANNEL_COMM, 13);
    OffsetNext(CHANNEL_COMM, 14);
  }

  lemma FirstOffsets()
    ensures Offset(CHANNEL_COMM, 0) == 0 && Offset(CHANNEL_COMM, 1) == 4 && Offset(CHANNEL_COMM, 2) == 5
    ensures Offset(CHANNEL_COMM, 3) == 6 && Offset(CHANNEL_COMM, 4) == 14 && Offset(CHANNEL_COMM, 5) == 22
    ensures Offset(CHANNEL_COMM, 6) == 26 && Offset(CHANNEL_COMM, 7) == 30
  {
    hide Offset, Size;
    OffsetNext(CHANNEL_COMM, 0);
    OffsetNext(CHANNEL_COMM, 1);
    OffsetNext(CHANNEL_COMM, 2);
    OffsetNext(CHANNEL_COMM, 3);
    OffsetNext(CHANNEL_COMM, 4);
    OffsetNext(CHANNEL_COMM, 5);
    OffsetNext(CHANNEL_COMM, 6);
  }

  lemma FieldOf(c: Channel, i: nat)
    requires InRange(c) && |c.name| <= 255 && i < 15
    ensures var (s, o) := (Encode(c), Offset(CHANNEL_COMM, i));
            o + CHANNEL_COMM[i] <= |s| && Val(s[o..o + CHANNEL_COMM[i]]) == Comm(c)[i]
  {
    hide Comm, Pack, Size, Offset, Val, InRange, Fits;
    RangeExactly(c);
    PackedField(CHANNEL_COMM, Comm(c), i, Terminated(c.name));
  }

  /** struct lttng_channel_comm, at the offsets it has without padding, in two's complement; then the name. */
  lemma OnTheWire(c: Channel)
    requires InRange(c) && |c.name| <= 255
    ensures var s := Encode(c);
            && |s| == 83 + |c.name| + 1 && s[83..] == c.name + [0]
            && Val(s[0..4]) == |c.name| + 1 && Val(s[4..5]) == c.enabled && Val(s[5..6]) == c.overwrite % 0x100
            && Val(s[6..14]) == c.subbufSize && Val(s[14..22]) == c.numSubbuf
            && Val(s[22..26]) == c.switchTimer && Val(s[26..30]) == c.readTimer && Val(s[30..31]) == c.output
            && Val(s[31..39]) == c.tracefileSize && Val(s[39..47]) == c.tracefileCount && Val(s[47..51]) == c.liveTimer
            && Val(s[51..59]) == c.discarded && Val(s[59..67]) == c.lost && Val(s[67..75]) == c.monitorTimer
            && Val(s[75..83]) == c.blockingTimeout % 0x1_0000_0000_0000_0000
  {
    hide Pack, Size, Offset, Val, Pow256, InRange;
    HeaderSize();
    Pow256Values();
    FieldOf(c, 0);
    FieldOf(c, 1);
    FieldOf(c, 2);
    FieldOf(c, 3);
    FieldOf(c, 4);
    FieldOf(c, 5);
    FieldOf(c, 6);
    FieldOf(c, 7);
    FieldOf(c, 8);
    FieldOf(c, 9);
    FieldOf(c, 10);
    FieldOf(c, 11);
    FieldOf(c, 12);
    FieldOf(c, 13);
    FieldOf(c, 14);
  }

  lemma Recovered(c: Channel)
    requires FitsSigned(1, c.overwrite) && FitsSigned(8, c.blockingTimeout)
    ensures FromComm(Comm(c), c.name) == c
  {
    hide Signed, Wrap, FitsSigned;
    SignedWrap(1, c.overwrite);
    SignedWrap(8, c.blockingTimeout);
  }

  /**
   A channel whose values fit decodes from its encoding, whatever follows, to an
   equal channel, using exactly the bytes written, if its name has at most 254
   characters. A name of 255 is encoded, and refused.
   */
  lemma RoundTripExactly(v: View, c: Channel)
    requires Inside(v) && InRange(c) && |c.name| <= 255 && Holds(Seen(v), 0, Encode(c))
    ensures Decode(v) == if |c.name| == 255 then (-1, None) else (|Encode(c)|, Some(c))
  {
    hide Pack, Size, StructAt, TextAt, Holds, Seen, FromComm, Fits, FitsSigned, Offset, InRange;
    RangeExactly(c);
    HoldsBoth(Seen(v), 0, Pack(CHANNEL_COMM, Comm(c)), Terminated(c.name));
    HeaderSize();
    StructExactly(v, 0, CHANNEL_COMM, Comm(c));
    TextExactly(v, Size(CHANNEL_COMM), |c.name| + 1, c.name);
    Recovered(c);
  }

  lemma DecodedLies(v: View)
    requires Inside(v) && Decode(v).1.Some?
    ensures var (ret, c) := (Decode(v).0, Decode(v).1.value);
            InRange(c) && |c.name| <= 254 && ret == |Encode(c)| && Holds(Seen(v), 0, Encode(c))
  {
    hide Pack, Size, StructAt, TextAt, Holds, Seen, Offset, InRange, Pow256, Signed, Wrap, FitsSigned;
    HeaderSize();
    var (vs, c) := (StructAt(v, 0, CHANNEL_COMM).value, Decode(v).1.value);
    TextExactly(v, 83, vs[0], c.name);
    CommBack(vs, c.name);
    RangeExactly(c);
    StructExactly(v, 0, CHANNEL_COMM, vs);
    HoldsBoth(Seen(v), 0, Pack(CHANNEL_COMM, vs), Terminated(c.name));
  }

  lemma CommBack(vs: seq<nat>, name: cstring)
    requires Fits(CHANNEL_COMM, vs) && vs[0] == |name| + 1
    ensures var c := FromComm(vs, name);
            Comm(c) == vs && FitsSigned(1, c.overwrite) && FitsSigned(8, c.blockingTimeout)
  {
    hide Signed, Wrap, FitsSigned, Pow256;
    assert vs[2] < Pow256(CHANNEL_COMM[2]) && vs[14] < Pow256(CHANNEL_COMM[14]);
    WrapSigned(1, vs[2]);
    WrapSigned(8, vs[14]);
  }

  /** The decoder returns `c`, and how many bytes it took, exactly if its encoding starts the view and its name is short. */
  lemma DecodesExactly(v: View, c: Channel, ret: int)
    requires Inside(v)
    ensures Decode(v) == (ret, Some(c)) <==>
            InRange(c) && |c.name| <= 254 && ret == |Encode(c)| && Holds(Seen(v), 0, Encode(c))
  {
    hide Decode, InRange, Encode, Holds, Seen;
    if Decode(v) == (ret, Some(c)) {
      DecodedLies(v);
    }
    if InRange(c) && |c.name| <= 254 && Holds(Seen(v), 0, Encode(c)) {
      RoundTripExactly(v, c);
    }
  }

  // ---------------------------------------------------------------------
  // Lists

  datatype Code = LttngOk | ErrInvalid

  /** channel_list_create_from_buffer, from its iteration at `offset` on. */
  function ListAt(v: View, offset: nat, count: nat): (Code, seq<Channel>)
    requires Inside(v)
    decreases count
  {
    if count == 0 then (if SizeOf(v) != offset then ErrInvalid else LttngOk, []) else
    var (size, c) := Decode(FromView(v, offset, -1));
    if c.None? || size < 0 then (ErrInvalid, []) else
    var rest := ListAt(v, offset + size, count - 1);
    (rest.0, [c.value] + rest.1)
  }

  method ListCreateFromBuffer(v: View, count: nat) returns (code: Code, list: seq<Channel>)
    requires Inside(v) && SizeOf(v) <= 0x7FFF_FFFF
    ensures (code, list) == ListAt(v, 0, count)
  {
    hide Decode;
    list := [];
    assert [] + ListAt(v, 0, count).1 == ListAt(v, 0, count).1;
    var offset: nat, i := 0, 0;
    while i < count
      invariant i <= count
      invariant var rest := ListAt(v, offset, count - i); ListAt(v, 0, count) == (rest.0, list + rest.1)
    {
      var (size, c) := Decode(FromView(v, offset, -1));
      if c.None? || size < 0 {
        assert list + [] == list;
        return ErrInvalid, list;
      }
      Associate(list, [c.value], ListAt(v, offset + size, count - i - 1).1);
      list, offset, i := list + [c.value], offset + size, i + 1;
    }
    assert list + [] == list;
    code := if SizeOf(v) != offset then ErrInvalid else LttngOk;
  }

  function EncodeAll(cs: seq<Channel>): seq<byte> {
    Each(Encode, cs)
  }

  /** A list of encodings decodes to that list, and succeeds exactly when nothing follows the last one. */
  lemma {:induction false} ListRoundTrip(v: View, offset: nat, cs: seq<Channel>)
    requires Inside(v) && Holds(Seen(v), offset, EncodeAll(cs))
    requires forall i | 0 <= i < |cs| :: InRange(cs[i]) && |cs[i].name| <= 254
    ensures ListAt(v, offset, |cs|) == (if SizeOf(v) == offset + |EncodeAll(cs)| then LttngOk else ErrInvalid, cs)
    decreases |cs|
  {
    hide Decode, Encode, FromView, Seen, Holds, InRange, Inside, SizeOf, Each;
    EachParts(Encode, cs);
    if cs != [] {
      HoldsBoth(Seen(v), offset, Encode(cs[0]), EncodeAll(cs[1..]));
      RestHolds(v, offset, Encode(cs[0]));
      RoundTripExactly(FromView(v, offset, -1), cs[0]);
      ListRoundTrip(v, offset + |Encode(cs[0])|, cs[1..]);
      assert [cs[0]] + cs[1..] == cs;
    }
  }

  /** A list that announces more channels than the view holds is refused. */
  lemma {:induction false} TooFewChannels(v: View, offset: nat, cs: seq<Channel>, count: nat)
    requires Inside(v) && Holds(Seen(v), offset, EncodeAll(cs)) && SizeOf(v) == offset + |EncodeAll(cs)|
    requires count > |cs| && forall i | 0 <= i < |cs| :: InRange(cs[i]) && |cs[i].name| <= 254
    ensures ListAt(v, offset, count) == (ErrInvalid, cs)
    decreases |cs|
  {
    hide Decode, Encode, FromView, Seen, Holds, InRange, Inside, SizeOf, Each;
    EachParts(Encode, cs);
    if cs == [] {
      NothingDecodes(v, offset);
    } else {
      HoldsBoth(Seen(v), offset, Encode(cs[0]), EncodeAll(cs[1..]));
      RestHolds(v, offset, Encode(cs[0]));
      RoundTripExactly(FromView(v, offset, -1), cs[0]);
      TooFewChannels(v, offset + |Encode(cs[0])|, cs[1..], count - 1);
      assert [cs[0]] + cs[1..] == cs;
    }
  }

  lemma NothingDecodes(v: View, offset: nat)
    requires Inside(v) && offset == SizeOf(v)
    ensures Decode(FromView(v, offset, -1)) == (-1, None)
  {
    hide Size, Offset;
    HeaderSize();
  }
}
