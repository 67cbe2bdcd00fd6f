/**
 src/common/event.c:75-890: the wire form of an event, and its decoder. The
 encoder that writes this form in a growing buffer is in EventSerialize.dfy.
 */
module EventCodec {
  import opened Bytes
  import opened BufferViews
  import opened Wire
  import opened Wrappers

  // enum lttng_event_type
  const ALL := -1
  const TRACEPOINT := 0
  const PROBE := 1
  const FUNCTION := 2
  const FUNCTION_ENTRY := 3
  const NOOP := 4
  const SYSCALL := 5
  const USERSPACE_PROBE := 6

  const ERR_UND := 12

  // struct lttng_event_comm: event_type, loglevel_type, loglevel, enabled, pid, flags,
  // name_len, exclusion_count, filter_expression_len, bytecode_len,
  // userspace_probe_location_len, lttng_event_probe_attr_len, lttng_event_function_attr_len
  const EVENT_COMM: Layout := [1, 1, 4, 1, 4, 4, 4, 4, 4, 4, 4, 4, 4]
  const LOCATION_LEN := 10
  const PROBE_ATTR_LEN := 11
  const FUNCTION_ATTR_LEN := 12
  const LEN_COMM: Layout := [4]            // exclusion and function attribute headers
  const PROBE_COMM: Layout := [8, 8, 4]    // addr, offset, symbol_name_len
  const BYTECODE_SIZE := 48                // sizeof(struct lttng_bytecode)

  /** The part of an event that depends on its type. */
  datatype Attr =
    | NoAttr
    | ProbeAttr(addr: nat, offset: nat, symbol: cstring)
    | FunctionAttr(symbol: cstring)
    | LocationAttr(blob: seq<byte>)        // the wire form of a userspace probe location

  /**
   struct lttng_event. A character array is modelled by the characters before its
   first NUL; one that has none has SYMBOL_NAME_LEN of them.
   */
  datatype Event = Event(kind: int, loglevelType: int, loglevel: int, enabled: int, pid: int,
                         flags: nat, name: cstring, filter: bool, exclusion: bool, attr: Attr)

  /** What is serialised together: an event and what belongs to it. */
  datatype Bundle = Bundle(event: Event, exclusions: seq<cstring>,
                           filter: Option<cstring>, bytecode: Option<seq<byte>>)

  predicate IsKnown(kind: int) {
    ALL <= kind <= USERSPACE_PROBE
  }

  /** The attributes are those of the event's type. */
  predicate Tagged(e: Event) {
    match e.attr
    case ProbeAttr(_, _, _) => e.kind == 1 || e.kind == 2
    case FunctionAttr(_) => e.kind == 3
    case LocationAttr(_) => e.kind == 6
    case NoAttr => e.kind !in {1, 2, 3, 6}
  }

  // ---------------------------------------------------------------------
  // The wire form

  /** A name behind its length. */
  function Counted(name: cstring): seq<byte> {
    Pack(LEN_COMM, [|name| + 1]) + Terminated(name)
  }

  function Names(xs: seq<cstring>): seq<byte> {
    Each(Counted, xs)
  }

  function AttrBytes(a: Attr): seq<byte> {
    match a
    case NoAttr => []
    case ProbeAttr(addr, _, symbol) => Pack(PROBE_COMM, [addr, addr, |symbol| + 1]) + Terminated(symbol)
    case FunctionAttr(symbol) => Counted(symbol)
    case LocationAttr(blob) => blob
  }

  function AttrLen(a: Attr, field: nat): nat {
    if (a.ProbeAttr? && field == PROBE_ATTR_LEN) || (a.FunctionAttr? && field == FUNCTION_ATTR_LEN) ||
       (a.LocationAttr? && field == LOCATION_LEN)
    then |AttrBytes(a)| else 0
  }

  function FilterBytes(x: Bundle): seq<byte> {
    if x.filter.Some? then Sent(x.filter.value) else []
  }

  /** The bytecode only travels behind a filter expression. */
  function BytecodeBytes(x: Bundle): seq<byte> {
    if x.filter.Some? && x.bytecode.Some? then x.bytecode.value else []
  }

  function Comm(x: Bundle, bytecodeLen: nat, location: nat, probe: nat, ftrace: nat): (vs: seq<nat>)
    ensures |vs| == |EVENT_COMM|
  {
    var e := x.event;
    [Wrap(1, e.kind), Wrap(1, e.loglevelType), Wrap(4, e.loglevel), Wrap(1, e.enabled), Wrap(4, e.pid), e.flags,
     |e.name| + 1, |x.exclusions|, |FilterBytes(x)|, bytecodeLen, location, probe, ftrace]
  }

  function Header(x: Bundle, bytecodeLen: nat): (vs: seq<nat>)
    ensures |vs| == |EVENT_COMM|
  {
    var a := x.event.attr;
    Comm(x, bytecodeLen, AttrLen(a, LOCATION_LEN), AttrLen(a, PROBE_ATTR_LEN), AttrLen(a, FUNCTION_ATTR_LEN))
  }

  function Body(x: Bundle): seq<byte> {
    Terminated(x.event.name) + (Names(x.exclusions) + (FilterBytes(x) + (BytecodeBytes(x) + AttrBytes(x.event.attr))))
  }

  function Encode(x: Bundle, bytecodeLen: nat): seq<byte> {
    Pack(EVENT_COMM, Header(x, bytecodeLen)) + Body(x)
  }

  // ---------------------------------------------------------------------
  // The decoder

  /** A string copied to an array of SYMBOL_NAME_LEN characters: lttng_strncpy refuses to truncate. */
  function NameAt(v: View, offset: nat, len: nat): (r: Option<cstring>)
    requires Inside(v)
    ensures r.Some? ==> |r.value| < SYMBOL_NAME_LEN
  {
    var t := TextAt(v, offset, len);
    if t.Some? && |t.value| < SYMBOL_NAME_LEN then t else None
  }

  /** A name behind its length, as an exclusion or a function attribute, and the offset past it. */
  function CountedNameAt(v: View, offset: nat): Option<(cstring, nat)>
    requires Inside(v)
  {
    var comm := StructAt(v, offset, LEN_COMM);
    if comm.None? then None else
    var name := NameAt(v, offset + Size(LEN_COMM), comm.value[0]);
    if name.None? then None else Some((name.value, offset + Size(LEN_COMM) + comm.value[0]))
  }

  /** What reading exclusions comes to: refused, written past the end of the array for them, or read. */
  datatype NamesRead = Refused | Overrun | NamesRead(names: seq<cstring>, end: nat)

  /** Names read so far, put before those read from here on. */
  function After(names: seq<cstring>, r: NamesRead): NamesRead {
    if r.NamesRead? then NamesRead(names + r.names, r.end) else r
  }

  /**
   lttng_event_exclusions_create_from_payload, from its iteration `i` at `offset` on.
   Each name is copied to an array of NamesRoom(count) bytes.
   */
  function ExclusionsAt(v: View, offset: nat, i: nat, count: nat): NamesRead
    requires Inside(v) && i <= count
    decreases count - i
  {
    if i == count then NamesRead([], offset) else
    var one := CountedNameAt(v, offset);
    if one.None? then Refused
    else if i * SYMBOL_NAME_LEN + |one.value.0| + 1 > NamesRoom(count) then Overrun
    else After([one.value.0], ExclusionsAt(v, one.value.1, i + 1, count))
  }

  function DecodeExclusions(v: View, offset: nat, count: nat): NamesRead
    requires Inside(v)
  {
    if count == 0 then NamesRead([], offset) else
    var w := FromView(v, offset, -1);
    if !IsValid(w) then Refused else
    var r := ExclusionsAt(w, 0, 0, count);
    if r.NamesRead? then NamesRead(r.names, offset + r.end) else r
  }

  function BytecodeAt(v: View, offset: nat, len: nat): Option<seq<byte>>
    requires Inside(v)
  {
    var w := FromView(v, offset, len);
    if !IsValid(w) || len < BYTECODE_SIZE then None
    else if Val(Seen(w)[..4]) + BYTECODE_SIZE != len then None
    else Some(Seen(w))
  }

  /** The filter expression, the bytecode and the offset past them. */
  function DecodeFilter(v: View, offset: nat, len: nat, bytecodeLen: nat): Option<(Option<cstring>, Option<seq<byte>>, nat)>
    requires Inside(v)
  {
    if len == 0 then (if bytecodeLen != 0 then None else Some((None, None, offset))) else
    var filter := TextAt(v, offset, len);
    if filter.None? then None
    else if bytecodeLen == 0 then Some((filter, None, offset + len))
    else
      var code := BytecodeAt(v, offset + len, bytecodeLen);
      if code.None? then None else Some((filter, code, offset + len + bytecodeLen))
  }

  /** lttng_event_probe_attr_create_from_payload: the attribute and its size. */
  function ProbeAt(v: View): Option<(Attr, nat)>
    requires Inside(v)
  {
    var comm := StructAt(v, 0, PROBE_COMM);
    if comm.None? then None else
    var name := NameAt(v, Size(PROBE_COMM), comm.value[2]);
    if name.None? then None
    else Some((ProbeAttr(comm.value[0], comm.value[1], name.value), Size(PROBE_COMM) + comm.value[2]))
  }

  /** lttng_event_function_attr_create_from_payload */
  function FunctionAt(v: View): Option<(Attr, nat)>
    requires Inside(v)
  {
    var one := CountedNameAt(v, 0);
    if one.None? then None else Some((FunctionAttr(one.value.0), one.value.1))
  }

  /**
   The decoder of userspace probe locations: how many bytes it used of those it
   was given, or a negative number.
   */
  type LocationDecoder = seq<byte> -> int

  function LocationAt(v: View, parse: LocationDecoder): Option<(Attr, nat)>
    requires Inside(v)
  {
    var used := parse(Seen(v));
    if used < 0 then None else Some((LocationAttr(Seen(v)), used))
  }

  /** The attribute that fills the `len` bytes at `offset`. */
  function AttrAt(v: View, offset: nat, len: nat, kind: int, parse: LocationDecoder): Option<Attr>
    requires Inside(v)
  {
    var w := FromView(v, offset, len);
    if !IsValid(w) then None else
    var a := if kind == FUNCTION_ENTRY then FunctionAt(w)
             else if kind == USERSPACE_PROBE then LocationAt(w, parse)
             else ProbeAt(w);
    if a.None? || a.value.1 != len then None else Some(a.value.0)
  }

  /** Field of struct lttng_event_comm with the length of the attributes of `kind`, if it has any. */
  function AttrField(kind: int): Option<nat> {
    if kind == PROBE || kind == FUNCTION then Some(PROBE_ATTR_LEN)
    else if kind == FUNCTION_ENTRY then Some(FUNCTION_ATTR_LEN)
    else if kind == USERSPACE_PROBE then Some(LOCATION_LEN)
    else None
  }

  /** The value returned and what was decoded, unless the decoder wrote out of bounds. */
  datatype Decoded = Decoded(ret: int, bundle: Option<Bundle>) | Undefined

  /** lttng_event_create_from_payload */
  function Decode(v: View, parse: LocationDecoder): Decoded
    requires Inside(v)
  {
    var comm := StructAt(v, 0, EVENT_COMM);
    if comm.None? then Decoded(-1, None) else DecodeBody(v, comm.value, parse)
  }

  function DecodeBody(v: View, c: seq<nat>, parse: LocationDecoder): Decoded
    requires Inside(v) && |c| == |EVENT_COMM|
  {
    var name := NameAt(v, Size(EVENT_COMM), c[6]);
    if name.None? then Decoded(-1, None) else
    var ex := DecodeExclusions(v, Size(EVENT_COMM) + c[6], c[7]);
    if ex.Overrun? then Undefined
    else if ex.Refused? then Decoded(-1, None)
    else
      var f := DecodeFilter(v, ex.end, c[8], c[9]);
      if f.None? then Decoded(-1, None) else
      DecodeTail(v, c, name.value, ex.names, f.value.0, f.value.1, f.value.2, parse)
  }

  function DecodeTail(v: View, c: seq<nat>, name: cstring, exclusions: seq<cstring>, filter: Option<cstring>,
                      bytecode: Option<seq<byte>>, offset: nat, parse: LocationDecoder): Decoded
    requires Inside(v) && |c| == |EVENT_COMM|
  {
    var kind := Signed(1, c[0]);
    var field := AttrField(kind);
    if !IsKnown(kind) then Decoded(ERR_UND, None)
    else if field.None? then Decoded(offset, Some(BundleOf(c, name, exclusions, filter, bytecode, NoAttr)))
    else
      var a := AttrAt(v, offset, c[field.value], kind, parse);
      if a.None? then Decoded(-1, None)
      else Decoded(offset + c[field.value], Some(BundleOf(c, name, exclusions, filter, bytecode, a.value)))
  }

  function BundleOf(c: seq<nat>, name: cstring, exclusions: seq<cstring>, filter: Option<cstring>,
                    bytecode: Option<seq<byte>>, attr: Attr): Bundle
    requires |c| == |EVENT_COMM|
  {
    Bundle(Event(Signed(1, c[0]), Signed(1, c[1]), Signed(4, c[2]), Signed(1, c[3]), Signed(4, c[4]), c[5],
                 name, filter.Some?, exclusions != [], attr),
           exclusions, filter, bytecode)
  }

  predicate Accepts(v: View, parse: LocationDecoder)
    requires Inside(v)
  {
    Decode(v, parse).Decoded? && Decode(v, parse).bundle.Some?
  }

  // ---------------------------------------------------------------------
  // What can be sent

  predicate AttrFits(a: Attr, parse: LocationDecoder) {
    match a
    case NoAttr => true
    case ProbeAttr(addr, offset, symbol) =>
      addr < 0x1_0000_0000_0000_0000 && |symbol| <= 255
    case FunctionAttr(symbol) => |symbol| <= 255
    case LocationAttr(blob) => 0 < |blob| <= 0xFFFF_FFFF && parse(blob) == |blob|
  }

  predicate BytecodeFits(x: Bundle) {
    x.bytecode.Some? ==>
      && x.filter.Some? && 48 <= |x.bytecode.value| <= 0xFFFF_FFFF
      && Val(x.bytecode.value[..4]) + 48 == |x.bytecode.value|
  }

  /** Names that the encoder takes. */
  predicate NamesShort(xs: seq<cstring>) {
    |xs| <= 0xFFFF_FFFF && forall i | 0 <= i < |xs| :: |xs[i]| <= 255
  }

  /** Names that the decoder has room for. */
  predicate NamesFit(xs: seq<cstring>) {
    NamesShort(xs) && |xs| < 0x100_0000
  }

  predicate EventFits(e: Event) {
    && -1 <= e.kind <= 6 && Tagged(e) && |e.name| <= 255 && e.flags <= 0xFFFF_FFFF
    && -128 <= e.loglevelType <= 127 && -0x8000_0000 <= e.loglevel <= 0x7FFF_FFFF
    && -128 <= e.enabled <= 127 && -0x8000_0000 <= e.pid <= 0x7FFF_FFFF
  }

  /** Within the ranges of the wire fields, and of a known type. */
  predicate WireOk(x: Bundle, parse: LocationDecoder) {
    && EventFits(x.event) && AttrFits(x.event.attr, parse) && NamesFit(x.exclusions)
    && (x.filter.Some? ==> |x.filter.value| < 0xFFFF_FFFF)
    && BytecodeFits(x)
  }

  function BytecodeLen(x: Bundle): nat {
    if x.bytecode.Some? then |x.bytecode.value| else 0
  }

  /** The bundle the other side gets: the presence bits are set, and a probe's offset is its address. */
  function AsReceived(x: Bundle): Bundle {
    var attr := match x.event.attr
                case ProbeAttr(addr, _, symbol) => ProbeAttr(addr, addr, symbol)
                case other => other;
    x.(event := x.event.(filter := x.filter.Some?, exclusion := x.exclusions != [], attr := attr))
  }
}
