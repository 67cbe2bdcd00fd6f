/**
 src/common/session-descriptor.c: what a client asks for when it creates a session,
 and how that travels.
 */
module SessionDescriptors {
  import opened Bytes
  import opened BufferViews
  import opened DynamicBuffers
  import opened Wire
  import opened Wrappers

  const NAME_MAX := 255                        // LTTNG_NAME_MAX
  const URI_SIZE := 8210                       // sizeof(struct lttng_uri), packed
  const DST_PATH := 3
  const STREAM_CONTROL := 0
  const STREAM_DATA := 1

  const BASE_COMM: Layout := [1, 1, 4, 1]      // type, output_type, name_len, uri_count
  const LIVE_COMM: Layout := [1, 1, 4, 1, 8]   // the same, then live_timer_us

  /** struct lttng_uri, which travels as it lies in memory. */
  type Uri = u: seq<byte> | |u| == URI_SIZE witness Zeros(URI_SIZE)

  function DstType(u: Uri): (t: nat)
    ensures t == 3 <==> u[0..4] == [3, 0, 0, 0]
  {
    SmallField(u[0..4], 3);
    Val(u[0..4])
  }

  function StreamType(u: Uri): (t: nat)
    ensures (t == 0 <==> u[8..12] == [0, 0, 0, 0]) && (t == 1 <==> u[8..12] == [1, 0, 0, 0])
  {
    SmallField(u[8..12], 0);
    SmallField(u[8..12], 1);
    Val(u[8..12])
  }

  datatype Kind = Regular | Snapshot | Live(timer: nat)

  datatype Output = NoOutput | Local(uri: Option<Uri>) | Network(control: Option<Uri>, data: Option<Uri>)

  datatype Descriptor = Descriptor(kind: Kind, name: Option<cstring>, output: Output)

  // ---------------------------------------------------------------------
  // Constructors

  /** A field of four bytes that holds the small number `n`. */
  lemma SmallField(s: seq<byte>, n: nat)
    requires |s| == 4 && n < 256
    ensures Val(s) == n <==> s == [n, 0, 0, 0]
  {
    LeVal(s);
    var t: seq<byte> := [n, 0, 0, 0];
    ValZeros();
    ValParts(t);
    assert t[1..] == [0, 0, 0];
    LeVal(t);
  }

  lemma ValZeros()
    ensures Val([0, 0, 0]) == 0
  {
    var z: seq<byte> := [0, 0, 0];
    assert z[1..] == [0, 0] && [0, 0][1..] == [0] && [0][1..] == [];
    assert Val([0]) == 0;
    assert Val([0, 0]) == 0;
  }

  /** What every constructed descriptor satisfies. A local output is a path; control and data streams are told apart. */
  predicate Inv(d: Descriptor) {
    && (d.name.Some? ==> |d.name.value| <= 254)
    && (d.kind.Live? ==> 0 < d.kind.timer < 0x1_0000_0000_0000_0000 && !d.output.Local?)
    && match d.output
       case NoOutput => true
       case Local(uri) => uri.Some? ==> uri.value[0..4] == [3, 0, 0, 0]
       case Network(control, data) =>
         && (control.Some? <==> data.Some?)
         && (control.Some? ==> control.value[8..12] == [0, 0, 0, 0] && data.value[8..12] == [1, 0, 0, 0])
  }

  /** lttng_session_descriptor_create and its snapshot and live forms: no output yet. */
  function Create(kind: Kind, name: Option<cstring>): (r: Option<Descriptor>)
    requires kind.Live? ==> kind.timer < 0x1_0000_0000_0000_0000
    ensures r == if Inv(Descriptor(kind, name, NoOutput)) then Some(Descriptor(kind, name, NoOutput)) else None
  {
    if kind.Live? && kind.timer == 0 then None
    else if name.Some? && |name.value| >= NAME_MAX then None
    else Some(Descriptor(kind, name, NoOutput))
  }

  /** The local constructors, regular and snapshot. */
  function CreateLocal(kind: Kind, name: Option<cstring>, uri: Option<Uri>): (r: Option<Descriptor>)
    requires !kind.Live?
    ensures r == if Inv(Descriptor(kind, name, Local(uri))) then Some(Descriptor(kind, name, Local(uri))) else None
  {
    var d := Create(kind, name);
    if d.None? then None
    else if uri.Some? && DstType(uri.value) != DST_PATH then None
    else Some(d.value.(output := Local(uri)))
  }

  /** network_location_set_from_lttng_uris; absent URIs leave the location as it was. */
  function SetNetwork(location: Output, control: Option<Uri>, data: Option<Uri>): (r: Option<Output>)
    requires location.Network?
  {
    if control.None? && data.None? then Some(location)
    else if control.None? || data.None? then None
    else if StreamType(control.value) != STREAM_CONTROL || StreamType(data.value) != STREAM_DATA then None
    else Some(Network(control, data))
  }

  /** The network constructors that take URIs. */
  function CreateNetwork(kind: Kind, name: Option<cstring>, control: Option<Uri>, data: Option<Uri>): (r: Option<Descriptor>)
    requires kind.Live? ==> kind.timer < 0x1_0000_0000_0000_0000
    ensures var d := Descriptor(kind, name, Network(control, data)); r == if Inv(d) then Some(d) else None
  {
    var d := Create(kind, name);
    if d.None? then None else
    var location := SetNetwork(Network(None, None), control, data);
    if location.None? then None else Some(d.value.(output := location.value))
  }

  /** The public network constructors; `parsed` is what parsing the two URLs gave. */
  function CreateNetworkFromUrls(kind: Kind, name: Option<cstring>, parsed: seq<Uri>): (r: Option<Descriptor>)
    requires kind.Live? ==> kind.timer < 0x1_0000_0000_0000_0000
    ensures |parsed| !in {0, 2} ==> r == None
    ensures |parsed| in {0, 2} ==>
              var output := if parsed == [] then Network(None, None) else Network(Some(parsed[0]), Some(parsed[1]));
              var d := Descriptor(kind, name, output);
              r == if Inv(d) then Some(d) else None
  {
    var d := CreateNetwork(kind, name, None, None);
    if d.None? || (|parsed| != 2 && |parsed| != 0) then None else
    var location := if |parsed| == 2 then SetNetwork(d.value.output, Some(parsed[0]), Some(parsed[1]))
                    else SetNetwork(d.value.output, None, None);
    if location.None? then None else Some(d.value.(output := location.value))
  }

  // ---------------------------------------------------------------------
  // The wire form

  function KindCode(k: Kind): nat {
    match k case Regular => 1 case Snapshot => 2 case Live(_) => 3
  }

  function OutputCode(o: Output): nat {
    match o case NoOutput => 0 case Local(_) => 1 case Network(_, _) => 2
  }

  function Present(u: Option<Uri>): seq<Uri> {
    if u.Some? then [u.value] else []
  }

  function Uris(o: Output): seq<Uri> {
    match o
    case NoOutput => []
    case Local(uri) => Present(uri)
    case Network(control, data) => Present(control) + Present(data)
  }

  /** A URI travels as it is. */
  function Raw(u: Uri): seq<byte> {
    u
  }

  function UriBytes(us: seq<Uri>): seq<byte> {
    Each(Raw, us)
  }

  lemma {:induction false} UriBytesLength(us: seq<Uri>)
    ensures |UriBytes(us)| == |us| * URI_SIZE
  {
    hide Each;
    EachParts(Raw, us);
    if us != [] {
      UriBytesLength(us[1..]);
    }
  }

  function NameBytes(d: Descriptor): seq<byte> {
    if d.name.Some? then Terminated(d.name.value) else []
  }

  function Base(d: Descriptor): (vs: seq<nat>)
    ensures |vs| == |BASE_COMM|
  {
    [KindCode(d.kind), OutputCode(d.output), |NameBytes(d)|, |Uris(d.output)|]
  }

  function HeaderBytes(d: Descriptor): seq<byte> {
    if d.kind.Live? then Pack(LIVE_COMM, Base(d) + [d.kind.timer]) else Pack(BASE_COMM, Base(d))
  }

  function Encode(d: Descriptor): seq<byte> {
    HeaderBytes(d) + (NameBytes(d) + UriBytes(Uris(d.output)))
  }

  /** lttng_session_descriptor_serialize */
  method Serialize(d: Descriptor, b: DynamicBuffer) returns (ret: int)
    requires Inv(d) && b.Valid() && b.size + |Encode(d)| <= MAX_SIZE
    modifies b, b.data
    ensures b.Valid() && (b.data == old(b.data) || fresh(b.data)) && ret in {0, -1} && (b.generous ==> ret == 0)
    ensures old(b.Contents()) <= b.Contents()
    ensures ret == 0 ==> b.Contents() == old(b.Contents()) + Encode(d)
  {
    hide HeaderBytes, NameBytes, Each, IsPow2, DstType, StreamType, Inv, Uris;
    ghost var c := b.Contents();
    assert c + [] == c && [] + HeaderBytes(d) == HeaderBytes(d);
    ret := AppendAfter(b, HeaderBytes(d), c, []);
    if ret != 0 { return; }
    ret := AppendAfter(b, NameBytes(d), c, HeaderBytes(d));
    if ret != 0 { return; }
    var us := Uris(d.output);
    ghost var body := HeaderBytes(d) + NameBytes(d);
    EachParts(Raw, us);
    assert body + UriBytes(us[..0]) == body;
    Associate(HeaderBytes(d), NameBytes(d), UriBytes(us));
    var i := 0;
    while i < |us|
      invariant i <= |us| && ret == 0 && b.Valid() && (b.data == old(b.data) || fresh(b.data))
      invariant b.Contents() == c + (body + UriBytes(us[..i]))
    {
      EachNext(Raw, us, i);
      EachGrows(Raw, us, i + 1);
      Associate(body, UriBytes(us[..i]), us[i]);
      ret := AppendAfter(b, us[i], c, body + UriBytes(us[..i]));
      if ret != 0 { return; }
      i := i + 1;
    }
    assert us[..i] == us;
  }

  // ---------------------------------------------------------------------
  // The decoder

  function UriAt(v: View, offset: nat): (r: Option<Uri>)
    requires Inside(v)
  {
    SubView(v, offset, URI_SIZE);
    var w := FromView(v, offset, URI_SIZE);
    if IsValid(w) then Some(Seen(w)) else None
  }

  /** The loop over the URIs, from `offset` on. */
  function UrisAt(v: View, offset: nat, count: nat): Option<seq<Uri>>
    requires Inside(v)
    decreases count
  {
    if count == 0 then Some([]) else
    var one := UriAt(v, offset);
    if one.None? then None else
    var rest := UrisAt(v, offset + URI_SIZE, count - 1);
    if rest.None? then None else Some([one.value] + rest.value)
  }

  function NameAt(v: View, offset: nat, len: nat): Option<Option<cstring>>
    requires Inside(v)
  {
    if len == 0 then Some(None)
    else if len == 1 then None
    else
      var t := TextAt(v, offset, len);
      if t.None? then None else Some(t)
  }

  function Nth(us: seq<Uri>, i: nat): Option<Uri> {
    if i < |us| then Some(us[i]) else None
  }

  function Build(kind: Kind, output: nat, name: Option<cstring>, us: seq<Uri>): (r: Option<Descriptor>)
    requires kind.Live? ==> kind.timer < 0x1_0000_0000_0000_0000
    ensures r.Some? ==> Inv(r.value) && r.value.name == name
  {
    if output == 0 then Create(kind, name)
    else if output == 1 then (if kind.Live? then None else CreateLocal(kind, name, Nth(us, 0)))
    else CreateNetwork(kind, name, Nth(us, 0), Nth(us, 1))
  }

  /** The kind that the header announces, and the size of that header. */
  function KindAt(v: View): (r: Option<(Kind, seq<nat>, nat)>)
    requires Inside(v)
    ensures r.Some? ==> Fits(BASE_COMM, r.value.1) && (r.value.0.Live? ==> r.value.0.timer < 0x1_0000_0000_0000_0000)
  {
    Pow256Values();
    var base := StructAt(v, 0, BASE_COMM);
    var live := StructAt(v, 0, LIVE_COMM);
    if base.None? then None
    else if base.value[0] == 1 then Some((Regular, base.value, Size(BASE_COMM)))
    else if base.value[0] == 2 then Some((Snapshot, base.value, Size(BASE_COMM)))
    else if base.value[0] == 3 && live.Some? then
      assert live.value[4] < Pow256(LIVE_COMM[4]);
      Some((Live(live.value[4]), base.value, Size(LIVE_COMM)))
    else None
  }

  datatype Decoded = Decoded(ret: int, descriptor: Option<Descriptor>)

  /** lttng_session_descriptor_create_from_buffer: the bytes used, or -1. */
  function Decode(v: View): Decoded
    requires Inside(v)
  {
    var h := KindAt(v);
    if h.None? || h.value.1[1] > 2 then Decoded(-1, None) else
    var (kind, base, offset) := h.value;
    var name := NameAt(v, offset, base[2]);
    // The output types are numbered so that each is the number of URIs it allows.
    if name.None? || base[3] > base[1] then Decoded(-1, None) else
    var us := UrisAt(v, offset + base[2], base[3]);
    if us.None? then Decoded(-1, None) else
    var d := Build(kind, base[1], name.value, us.value);
    if d.None? then Decoded(-1, None) else Decoded(offset + base[2] + base[3] * URI_SIZE, d)
  }

  /** The loop of the decoder. */
  method ReadUris(v: View, start: nat, count: nat) returns (us: Option<seq<Uri>>)
    requires Inside(v)
    ensures us == UrisAt(v, start, count)
  {
    hide UriAt;
    var read: seq<Uri> := [];
    assert UrisAt(v, start, count).Some? ==> read + UrisAt(v, start, count).value == UrisAt(v, start, count).value;
    var offset, i := start, 0;
    while i < count
      invariant i <= count && offset >= 0 && |read| == i
      invariant var rest := UrisAt(v, offset, count - i);
                UrisAt(v, start, count) == if rest.None? then None else Some(read + rest.value)
    {
      var one := UriAt(v, offset);
      if one.None? {
        return None;
      }
      ghost var rest := UrisAt(v, offset + URI_SIZE, count - i - 1);
      assert rest.Some? ==> read + ([one.value] + rest.value) == read + [one.value] + rest.value;
      read, offset, i := read + [one.value], offset + URI_SIZE, i + 1;
    }
    assert read + [] == read;
    us := Some(read);
  }

  // ---------------------------------------------------------------------
  // Laws

  /** Whatever the bytes, a decoded descriptor is one the constructors can make, and its name is not empty. */
  lemma DecodedIsValid(v: View)
    requires Inside(v) && Decode(v).descriptor.Some?
    ensures Inv(Decode(v).descriptor.value) && Decode(v).descriptor.value.name != Some([])
  {
    hide KindAt, UrisAt, Inv, TextAt;
    var (_, base, offset) := KindAt(v).value;
    if base[2] > 1 {
      var t := TextAt(v, offset, base[2]).value;
      TextExactly(v, offset, base[2], t);
    }
  }

  lemma Sizes()
    ensures Size(BASE_COMM) == 7 && Size(LIVE_COMM) == 15
    ensures Pow256(1) == 0x100 && Pow256(4) == 0x1_0000_0000 && Pow256(8) == 0x1_0000_0000_0000_0000
  {
    Pow256Values();
    assert BASE_COMM[1..] == [1, 4, 1] && [1, 4, 1][1..] == [4, 1] && [4, 1][1..] == [1];
    assert LIVE_COMM[1..] == [1, 4, 1, 8] && [1, 4, 1, 8][1..] == [4, 1, 8];
    assert [4, 1, 8][1..] == [1, 8] && [1, 8][1..] == [8];
  }

  /** The base header is a prefix of the live one. */
  lemma LiveHeader(vs: seq<nat>, timer: nat)
    requires |vs| == |BASE_COMM|
    ensures Pack(LIVE_COMM, vs + [timer]) == Pack(BASE_COMM, vs) + Le(8, timer)
  {
    hide Le;
    PackAppend(BASE_COMM, vs, 8, timer);
    assert BASE_COMM + [8] == LIVE_COMM;
  }

  lemma {:induction false} PackAppend(ws: Layout, vs: seq<nat>, w: nat, x: nat)
    requires |vs| == |ws|
    ensures Pack(ws + [w], vs + [x]) == Pack(ws, vs) + Le(w, x)
    decreases |ws|
  {
    hide Le;
    if ws == [] {
      assert ws + [w] == [w] && vs + [x] == [x];
    } else {
      PackAppend(ws[1..], vs[1..], w, x);
      assert (ws + [w])[1..] == ws[1..] + [w] && (vs + [x])[1..] == vs[1..] + [x];
      Associate(Le(ws[0], vs[0]), Pack(ws[1..], vs[1..]), Le(w, x));
    }
  }

  lemma BaseFits(d: Descriptor)
    requires Inv(d)
    ensures Fits(BASE_COMM, Base(d)) && (d.kind.Live? ==> Fits(LIVE_COMM, Base(d) + [d.kind.timer]))
    ensures |Uris(d.output)| <= OutputCode(d.output) <= 2 && |NameBytes(d)| <= 255
  {
    hide DstType, StreamType, Pow256, Size;
    Sizes();
  }

  lemma KindReads(v: View, d: Descriptor)
    requires Inside(v) && Inv(d) && Holds(Seen(v), 0, HeaderBytes(d))
    ensures KindAt(v) == Some((d.kind, Base(d), |HeaderBytes(d)|)) && |HeaderBytes(d)| == if d.kind.Live? then 15 else 7
  {
    hide Pack, Size, Pow256, Inv, Holds, Seen, StructAt, Uris, NameBytes, OutputCode;
    Sizes();
    BaseFits(d);
    if d.kind.Live? {
      LiveHeader(Base(d), d.kind.timer);
      HoldsBoth(Seen(v), 0, Pack(BASE_COMM, Base(d)), Le(8, d.kind.timer));
      StructExactly(v, 0, LIVE_COMM, Base(d) + [d.kind.timer]);
    }
    StructExactly(v, 0, BASE_COMM, Base(d));
  }

  lemma UriReads(v: View, offset: nat, u: Uri)
    requires Inside(v) && Holds(Seen(v), offset, u)
    ensures UriAt(v, offset) == Some(u)
  {
    hide Seen, FromView;
    SubView(v, offset, URI_SIZE);
  }

  lemma {:induction false} UrisRead(v: View, offset: nat, us: seq<Uri>)
    requires Inside(v) && Holds(Seen(v), offset, UriBytes(us))
    ensures UrisAt(v, offset, |us|) == Some(us)
    decreases |us|
  {
    hide UriAt, Holds, Seen, Each;
    EachParts(Raw, us);
    if us != [] {
      HoldsBoth(Seen(v), offset, us[0], UriBytes(us[1..]));
      UriReads(v, offset, us[0]);
      UrisRead(v, offset + URI_SIZE, us[1..]);
      assert [us[0]] + us[1..] == us;
    }
  }

  /** Building from the parts of a descriptor gives it back. */
  lemma Rebuilt(d: Descriptor)
    requires Inv(d)
    ensures Build(d.kind, OutputCode(d.output), d.name, Uris(d.output)) == Some(d)
  {
    hide DstType, StreamType;
  }

  /**
   A descriptor decodes from its encoding, whatever follows, to an equal one, and
   the decoder reports exactly the bytes the encoder wrote, if and only if its name
   is not the empty string: that one is encoded like any other but refused.
   */
  lemma RoundTripExactly(v: View, d: Descriptor)
    requires Inside(v) && Inv(d) && Holds(Seen(v), 0, Encode(d))
    ensures Decode(v) == (if d.name == Some([]) then Decoded(-1, None) else Decoded(|Encode(d)|, Some(d)))
  {
    hide HeaderBytes, UriBytes, Inv, Holds, Seen, KindAt, UrisAt, Build, TextAt, Uris, OutputCode;
    var (h, us) := (|HeaderBytes(d)|, Uris(d.output));
    HoldsBoth(Seen(v), 0, HeaderBytes(d), NameBytes(d) + UriBytes(us));
    HoldsBoth(Seen(v), h, NameBytes(d), UriBytes(us));
    KindReads(v, d);
    BaseFits(d);
    if d.name.Some? {
      TextExactly(v, h, |NameBytes(d)|, d.name.value);
    }
    UrisRead(v, h + |NameBytes(d)|, us);
    UriBytesLength(us);
    Rebuilt(d);
  }

  // ---------------------------------------------------------------------
  // The wire form in bytes, and exactly which bytes are accepted

  lemma BaseOffsets()
    ensures Offset(BASE_COMM, 0) == 0 && Offset(BASE_COMM, 1) == 1 && Offset(BASE_COMM, 2) == 2 && Offset(BASE_COMM, 3) == 6
  {
    hide Offset, Size;
    OffsetNext(BASE_COMM, 0);
    OffsetNext(BASE_COMM, 1);
    OffsetNext(BASE_COMM, 2);
  }

  /** The header, at the offsets it has without padding. */
  lemma OnTheWire(d: Descriptor)
    requires Inv(d)
    ensures var s := Encode(d);
            && |s| >= (if d.kind.Live? then 15 else 7)
            && Val(s[0..1]) == (match d.kind case Regular => 1 case Snapshot => 2 case Live(_) => 3)
            && Val(s[1..2]) == (match d.output case NoOutput => 0 case Local(_) => 1 case Network(_, _) => 2)
            && Val(s[2..6]) == (if d.name.Some? then |d.name.value| + 1 else 0)
            && Val(s[6..7]) == (match d.output
                                case NoOutput => 0
                                case Local(u) => if u.Some? then 1 else 0
                                case Network(u, _) => if u.Some? then 2 else 0)
            && (d.kind.Live? ==> Val(s[7..15]) == d.kind.timer)
  {
    hide Pack, Size, Val, Pow256, Offset, UriBytes, DstType, StreamType;
    Sizes();
    BaseOffsets();
    BaseFits(d);
    var rest := NameBytes(d) + UriBytes(Uris(d.output));
    var more := if d.kind.Live? then Le(8, d.kind.timer) + rest else rest;
    if d.kind.Live? {
      LiveHeader(Base(d), d.kind.timer);
      Associate(Pack(BASE_COMM, Base(d)), Le(8, d.kind.timer), rest);
      TimerAt(d, rest);
    }
    PackedField(BASE_COMM, Base(d), 0, more);
    PackedField(BASE_COMM, Base(d), 1, more);
    PackedField(BASE_COMM, Base(d), 2, more);
    PackedField(BASE_COMM, Base(d), 3, more);
  }

  /** What follows it: the name, then the URI of a local output, or those for control and for data. */
  lemma BodyOnTheWire(d: Descriptor)
    requires Inv(d)
    ensures var (s, h) := (Encode(d), if d.kind.Live? then 15 else 7);
            && |s| >= h
            && s[h..] == (if d.name.Some? then d.name.value + [0] else []) +
                         match d.output
                         case Local(Some(u)) => u
                         case Network(Some(c), Some(t)) => c + t
                         case _ => []
  {
    hide Pack, Size, Each, DstType, StreamType, Base;
    Sizes();
    var us := Uris(d.output);
    EachParts(Raw, us);
    EachParts(Raw, []);
    if |us| > 0 {
      EachParts(Raw, us[1..]);
    }
    assert d.output.Local? && d.output.uri.Some? ==> us[1..] == [] && d.output.uri.value + [] == d.output.uri.value;
    assert |us| == 2 ==> us[1..][1..] == [] && us[1] + [] == us[1];
    assert Encode(d)[|HeaderBytes(d)|..] == NameBytes(d) + UriBytes(us);
  }

  lemma TimerAt(d: Descriptor, rest: seq<byte>)
    requires Inv(d) && d.kind.Live?
    ensures var s := HeaderBytes(d) + rest; |s| >= 15 && Val(s[7..15]) == d.kind.timer
  {
    hide Pack, Size, Val, Pow256, Le, Base, DstType, StreamType;
    Sizes();
    LiveHeader(Base(d), d.kind.timer);
    ValLe(8, d.kind.timer);
    var (b, t) := (Pack(BASE_COMM, Base(d)), Le(8, d.kind.timer));
    assert (b + t + rest)[7..15] == t;
  }

  lemma {:induction false} UrisLie(v: View, offset: nat, count: nat)
    requires Inside(v) && offset <= SizeOf(v) && UrisAt(v, offset, count).Some?
    ensures var us := UrisAt(v, offset, count).value;
            |us| == count && Holds(Seen(v), offset, UriBytes(us))
    decreases count
  {
    hide Seen, Each, FromView;
    var us := UrisAt(v, offset, count).value;
    EachParts(Raw, us);
    if count > 0 {
      SubView(v, offset, URI_SIZE);
      UrisLie(v, offset + URI_SIZE, count - 1);
      assert us[1..] == UrisAt(v, offset + URI_SIZE, count - 1).value;
      HoldsBoth(Seen(v), offset, us[0], UriBytes(us[1..]));
    }
  }

  /** What a descriptor was built from is what it is encoded as. */
  lemma BuiltFrom(kind: Kind, output: nat, name: Option<cstring>, us: seq<Uri>)
    requires kind.Live? ==> kind.timer < 0x1_0000_0000_0000_0000
    requires |us| <= output <= 2 && Build(kind, output, name, us).Some?
    ensures var d := Build(kind, output, name, us).value;
            Inv(d) && d.kind == kind && d.name == name && OutputCode(d.output) == output && Uris(d.output) == us
  {
    hide DstType, StreamType;
  }

  lemma KindLies(v: View)
    requires Inside(v) && KindAt(v).Some?
    ensures var (kind, base, size) := KindAt(v).value;
            && size == (if kind.Live? then 15 else 7) && KindCode(kind) == base[0]
            && Holds(Seen(v), 0, if kind.Live? then Pack(LIVE_COMM, base + [kind.timer]) else Pack(BASE_COMM, base))
  {
    hide Pack, Size, Pow256, Holds, Seen, StructAt;
    Sizes();
    var (kind, base, _) := KindAt(v).value;
    StructExactly(v, 0, BASE_COMM, base);
    if kind.Live? {
      var live := StructAt(v, 0, LIVE_COMM).value;
      StructExactly(v, 0, LIVE_COMM, live);
      LiveHeader(live[..4], live[4]);
      assert live == live[..4] + [live[4]];
      HoldsBoth(Seen(v), 0, Pack(BASE_COMM, live[..4]), Le(8, live[4]));
      assert forall i | 0 <= i < 4 :: BASE_COMM[i] == LIVE_COMM[i];
      StructExactly(v, 0, BASE_COMM, live[..4]);
    }
  }

  lemma DecodedLies(v: View)
    requires Inside(v) && Decode(v).descriptor.Some?
    ensures var (ret, d) := (Decode(v).ret, Decode(v).descriptor.value);
            Inv(d) && d.name != Some([]) && ret == |Encode(d)| && Holds(Seen(v), 0, Encode(d))
  {
    hide KindAt, UrisAt, Build, TextAt, Inv, Holds, Seen, Pack, UriBytes, Size, Pow256, Uris, OutputCode, KindCode;
    DecodedIsValid(v);
    Sizes();
    var d := Decode(v).descriptor.value;
    var (kind, base, h) := KindAt(v).value;
    KindLies(v);
    LongEnough(Seen(v), 0, if kind.Live? then Pack(LIVE_COMM, base + [kind.timer]) else Pack(BASE_COMM, base));
    var us := UrisAt(v, h + base[2], base[3]).value;
    NameLies(v, h, base[2]);
    UrisLie(v, h + base[2], base[3]);
    BuiltFrom(kind, base[1], NameAt(v, h, base[2]).value, us);
    UriBytesLength(us);
    assert base == Base(d);
    HoldsBoth(Seen(v), h, NameBytes(d), UriBytes(us));
    HoldsBoth(Seen(v), 0, HeaderBytes(d), NameBytes(d) + UriBytes(us));
  }

  lemma NameLies(v: View, h: nat, len: nat)
    requires Inside(v) && h <= SizeOf(v) && NameAt(v, h, len).Some?
    ensures var name := NameAt(v, h, len).value;
            var bytes := if name.Some? then Terminated(name.value) else [];
            len == |bytes| && h + len <= SizeOf(v) && Holds(Seen(v), h, bytes)
  {
    hide TextAt, Seen;
    if len > 0 {
      TextExactly(v, h, len, NameAt(v, h, len).value.value);
    }
  }

  /**
   The decoder returns `d`, and the number of its bytes, exactly if the view starts
   with the encoding of `d`, and `d` satisfies the invariant and has no empty name.
   */
  lemma DecodesExactly(v: View, d: Descriptor, ret: int)
    requires Inside(v)
    ensures Decode(v) == Decoded(ret, Some(d)) <==>
            Inv(d) && d.name != Some([]) && ret == |Encode(d)| && Holds(Seen(v), 0, Encode(d))
  {
    hide Decode, Inv, Encode, Holds, Seen;
    if Decode(v) == Decoded(ret, Some(d)) {
      DecodedLies(v);
    }
    if Inv(d) && Holds(Seen(v), 0, Encode(d)) {
      RoundTripExactly(v, d);
    }
  }
}
