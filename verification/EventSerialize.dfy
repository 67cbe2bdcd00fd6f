/**
 src/common/event.c:75-141, 270-337, 692-890 and 1699-1761: the encoder, which
 appends to a payload's buffer and then goes back to fill in the header, and the
 loops of the decoder.
 */
module EventSerialize {
  import opened Bytes
  import opened DynamicBuffers
  import opened EventCodec
  import opened EventLaws
  import opened Wire

  /** Append a length and a name. */
  method AppendCounted(b: DynamicBuffer, name: cstring, ghost c: seq<byte>, ghost body: seq<byte>) returns (ret: int)
    requires b.Valid() && b.Contents() == c + body && |c| + |body| + 4 + |name| + 1 <= MAX_SIZE
    modifies b, b.data
    ensures b.Valid() && (b.data == old(b.data) || fresh(b.data)) && c <= b.Contents() && ret in {0, -1}
    ensures ret == 0 ==> |name| < SYMBOL_NAME_LEN && b.Contents() == c + (body + Counted(name))
    ensures b.generous ==> (ret == 0 <==> |name| < SYMBOL_NAME_LEN)
  {
    hide Pack, IsPow2, Size;
    Sizes();
    if |name| >= SYMBOL_NAME_LEN {
      return -1;
    }
    var header := Pack(LEN_COMM, [|name| + 1]);
    ret := AppendAfter(b, header, c, body);
    if ret != 0 {
      return;
    }
    ret := AppendAfter(b, Terminated(name), c, body + header);
    assert body + header + Terminated(name) == body + Counted(name);
  }

  method AppendExclusions(b: DynamicBuffer, xs: seq<cstring>, ghost c: seq<byte>, ghost body: seq<byte>) returns (ret: int)
    requires b.Valid() && b.Contents() == c + body && |c| + |body| + |Names(xs)| <= MAX_SIZE
    modifies b, b.data
    ensures b.Valid() && (b.data == old(b.data) || fresh(b.data)) && c <= b.Contents() && ret in {0, -1}
    ensures ret == 0 ==> (forall i | 0 <= i < |xs| :: |xs[i]| < SYMBOL_NAME_LEN) && b.Contents() == c + (body + Names(xs))
    ensures b.generous ==> (ret == 0 <==> forall i | 0 <= i < |xs| :: |xs[i]| < SYMBOL_NAME_LEN)
  {
    hide Each, Counted, IsPow2;
    ret := 0;
    EachParts(Counted, xs);
    assert body + Names(xs[..0]) == body;
    var i := 0;
    while i < |xs|
      invariant i <= |xs| && ret == 0 && b.Valid() && (b.data == old(b.data) || fresh(b.data))
      invariant b.Contents() == c + (body + Names(xs[..i]))
      invariant forall j | 0 <= j < i :: |xs[j]| < SYMBOL_NAME_LEN
    {
      EachNext(Counted, xs, i);
      EachGrows(Counted, xs, i + 1);
      CountedLength(xs[i]);
      ret := AppendCounted(b, xs[i], c, body + Names(xs[..i]));
      if ret != 0 {
        return;
      }
      assert body + Names(xs[..i]) + Counted(xs[i]) == body + Names(xs[..i + 1]);
      i := i + 1;
    }
    assert xs[..i] == xs;
  }

  predicate AttrAccepted(a: Attr) {
    match a
    case NoAttr => true
    case ProbeAttr(_, _, symbol) => |symbol| <= 255
    case FunctionAttr(symbol) => |symbol| <= 255
    case LocationAttr(_) => true
  }

  /** lttng_event_probe_attr_serialize */
  method AppendProbe(b: DynamicBuffer, a: Attr, ghost c: seq<byte>, ghost body: seq<byte>) returns (ret: int)
    requires a.ProbeAttr? && b.Valid() && b.Contents() == c + body && |c| + |body| + |AttrBytes(a)| <= MAX_SIZE
    modifies b, b.data
    ensures b.Valid() && (b.data == old(b.data) || fresh(b.data)) && c <= b.Contents() && ret in {0, -1}
    ensures ret == 0 ==> |a.symbol| < SYMBOL_NAME_LEN && b.Contents() == c + (body + AttrBytes(a))
    ensures b.generous ==> (ret == 0 <==> |a.symbol| < SYMBOL_NAME_LEN)
  {
    hide Pack, IsPow2, Size, Terminated;
    if |a.symbol| >= SYMBOL_NAME_LEN {
      return -1;
    }
    var header := Pack(PROBE_COMM, [a.addr, a.addr, |a.symbol| + 1]);
    ret := AppendAfter(b, header, c, body);
    if ret != 0 {
      return;
    }
    ret := AppendAfter(b, Terminated(a.symbol), c, body + header);
    Associate(body, header, Terminated(a.symbol));
  }

  /** The type-specific payload. */
  method AppendAttr(b: DynamicBuffer, a: Attr, ghost c: seq<byte>, ghost body: seq<byte>) returns (ret: int)
    requires b.Valid() && b.Contents() == c + body && |c| + |body| + |AttrBytes(a)| <= MAX_SIZE
    modifies b, b.data
    ensures b.Valid() && (b.data == old(b.data) || fresh(b.data)) && c <= b.Contents() && ret in {0, -1}
    ensures ret == 0 ==> AttrAccepted(a) && b.Contents() == c + (body + AttrBytes(a))
    ensures b.generous ==> (ret == 0 <==> AttrAccepted(a))
  {
    hide Pack, IsPow2, Size, Terminated, Counted;
    match a
    case NoAttr =>
      assert body + [] == body;
      ret := 0;
    case ProbeAttr(_, _, _) =>
      ret := AppendProbe(b, a, c, body);
    case FunctionAttr(symbol) =>
      CountedLength(symbol);
      ret := AppendCounted(b, symbol, c, body);
    case LocationAttr(blob) =>
      ret := AppendAfter(b, blob, c, body);
  }

  /** What lttng_event_serialize refuses: a name that is not terminated, or too long a bytecode. */
  predicate Accepted(x: Bundle, n: nat) {
    && |x.event.name| <= 255 && n <= 0xFFFF_FFFF && AttrAccepted(x.event.attr)
    && forall i | 0 <= i < |x.exclusions| :: |x.exclusions[i]| <= 255
  }

  /** Everything before the type-specific payload, in the order it is appended. */
  ghost function Front(x: Bundle, n: nat): seq<byte> {
    Pack(EVENT_COMM, Comm(x, n, 0, 0, 0)) + Terminated(x.event.name) + Names(x.exclusions) +
    FilterBytes(x) + BytecodeBytes(x)
  }

  method AppendFront(b: DynamicBuffer, x: Bundle, n: nat, ghost c: seq<byte>) returns (ret: int)
    requires b.Valid() && b.Contents() == c && |c| + |Front(x, n)| <= MAX_SIZE && |x.event.name| < SYMBOL_NAME_LEN
    modifies b, b.data
    ensures b.Valid() && (b.data == old(b.data) || fresh(b.data)) && c <= b.Contents() && ret in {0, -1}
    ensures ret == 0 ==> (forall i | 0 <= i < |x.exclusions| :: |x.exclusions[i]| < SYMBOL_NAME_LEN)
    ensures ret == 0 ==> b.Contents() == c + Front(x, n)
    ensures b.generous ==> (ret == 0 <==> forall i | 0 <= i < |x.exclusions| :: |x.exclusions[i]| < SYMBOL_NAME_LEN)
  {
    hide Pack, IsPow2, Names, Comm, FilterBytes, BytecodeBytes, Size, Terminated;
    var header := Pack(EVENT_COMM, Comm(x, n, 0, 0, 0));
    assert c == c + [] && header == [] + header;
    ret := AppendAfter(b, header, c, []);
    if ret != 0 { return; }
    ret := AppendAfter(b, Terminated(x.event.name), c, header);
    if ret != 0 { return; }
    ghost var body := header + Terminated(x.event.name);
    ret := AppendExclusions(b, x.exclusions, c, body);
    if ret != 0 { return; }
    body := body + Names(x.exclusions);
    ret := AppendFilter(b, x, c, body);
  }

  method AppendFilter(b: DynamicBuffer, x: Bundle, ghost c: seq<byte>, ghost body: seq<byte>) returns (ret: int)
    requires b.Valid() && b.Contents() == c + body && |c| + |body| + |FilterBytes(x)| + |BytecodeBytes(x)| <= MAX_SIZE
    modifies b, b.data
    ensures b.Valid() && (b.data == old(b.data) || fresh(b.data)) && c <= b.Contents() && ret in {0, -1}
    ensures ret == 0 ==> b.Contents() == c + (body + FilterBytes(x) + BytecodeBytes(x))
    ensures b.generous ==> ret == 0
  {
    hide IsPow2, Sent;
    ret := 0;
    if x.filter.Some? {
      ret := AppendAfter(b, Sent(x.filter.value), c, body);
      if ret == 0 && x.bytecode.Some? {
        ret := AppendAfter(b, x.bytecode.value, c, body + Sent(x.filter.value));
      } else {
        assert body + FilterBytes(x) + [] == body + FilterBytes(x);
      }
    } else {
      assert body + [] + [] == body;
    }
  }

  /** The header and the rest of the encoding, before and after the header is filled in. */
  lemma FrontAndAttr(x: Bundle, h: seq<nat>)
    requires |h| == |EVENT_COMM|
    ensures Pack(EVENT_COMM, h) + Body(x) ==
            Pack(EVENT_COMM, h) + Terminated(x.event.name) + Names(x.exclusions) + FilterBytes(x) + BytecodeBytes(x) +
            AttrBytes(x.event.attr)
  {
    hide Pack, Names, FilterBytes, BytecodeBytes, AttrBytes, Terminated;
    var (p, n, ns) := (Pack(EVENT_COMM, h), Terminated(x.event.name), Names(x.exclusions));
    var (f, b, a) := (FilterBytes(x), BytecodeBytes(x), AttrBytes(x.event.attr));
    Associate(p, n, ns + (f + (b + a)));
    Associate(p + n, ns, f + (b + a));
    Associate(p + n + ns, f, b + a);
    Associate(p + n + ns + f, b, a);
  }

  lemma HeaderIs(x: Bundle, n: nat)
    requires Tagged(x.event)
    ensures var (h, field) := (Comm(x, n, 0, 0, 0), AttrField(x.event.kind));
            Header(x, n) == if field.None? then h else h[field.value := |AttrBytes(x.event.attr)|]
  {
    hide Pack, FilterBytes, Wrap;
  }

  /**
   lttng_event_serialize. Whatever was in the buffer stays in front, also when the
   encoder gives up half-way; on success exactly the encoding has been appended.
   */
  method Serialize(b: DynamicBuffer, x: Bundle, n: nat) returns (ret: int)
    requires Tagged(x.event) && (x.bytecode.Some? ==> |x.bytecode.value| == n)
    requires b.Valid() && b.size + |Encode(x, n)| <= MAX_SIZE
    modifies b, b.data
    ensures b.Valid() && (b.data == old(b.data) || fresh(b.data)) && ret in {0, -1}
    ensures old(b.Contents()) <= b.Contents()
    ensures ret == 0 ==> Accepted(x, n) && b.Contents() == old(b.Contents()) + Encode(x, n)
    ensures b.generous ==> (ret == 0 <==> Accepted(x, n))
  {
    hide Pack, Names, Comm, FilterBytes, BytecodeBytes, AttrBytes, Header, Body, Terminated;
    hide IsPow2, Size, Offset, AttrAccepted, Tagged, Patched, Le;
    ghost var c := b.Contents();
    var headerOffset := b.size;
    FrontAndAttr(x, Comm(x, n, 0, 0, 0));
    if |x.event.name| >= SYMBOL_NAME_LEN || n > UINT32_MAX {
      return -1;
    }
    ret := AppendFront(b, x, n, c);
    if ret != 0 {
      return;
    }
    var sizeBefore := b.size;
    ret := AppendAttr(b, x.event.attr, c, Front(x, n));
    if ret != 0 {
      return;
    }
    HeaderIs(x, n);
    var field := AttrField(x.event.kind);
    if field.Some? {
      b.Store(headerOffset + Offset(EVENT_COMM, field.value), Le(4, b.size - sizeBefore));
      PatchHeader(c, x, n, field.value, |AttrBytes(x.event.attr)|);
    }
  }

  lemma PatchHeader(c: seq<byte>, x: Bundle, n: nat, field: nat, len: nat)
    requires 10 <= field < 13
    ensures var h := Comm(x, n, 0, 0, 0);
            && Offset(EVENT_COMM, field) + 4 <= Size(EVENT_COMM)
            && Patched(c + (Pack(EVENT_COMM, h) + Body(x)), |c| + Offset(EVENT_COMM, field), Le(4, len)) ==
               c + (Pack(EVENT_COMM, h[field := len]) + Body(x))
  {
    hide Pack, Comm, Size, Offset, Body, Patched, Le;
    var h := Comm(x, n, 0, 0, 0);
    assert EVENT_COMM[field] == 4;
    PatchField(EVENT_COMM, h, field, len);
    StoreMiddle(c, Pack(EVENT_COMM, h), Body(x), Offset(EVENT_COMM, field), Le(4, len));
    assert c + Pack(EVENT_COMM, h) + Body(x) == c + (Pack(EVENT_COMM, h) + Body(x));
    assert c + Pack(EVENT_COMM, h[field := len]) + Body(x) == c + (Pack(EVENT_COMM, h[field := len]) + Body(x));
  }
}
