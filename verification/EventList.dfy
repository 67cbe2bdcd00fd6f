/**
 src/common/event.c:270-337 and 1699-1761: the loops of the decoder, over the
 exclusions of an event and over the events of a list.
 */
module EventList {
  import opened Bytes
  import opened BufferViews
  import opened EventCodec
  import opened EventLaws
  import opened Wire
  import opened Wrappers

  /** lttng_event_exclusions_create_from_payload */
  method ExclusionsCreateFromPayload(v: View, count: nat) returns (r: NamesRead)
    requires Inside(v)
    ensures r == ExclusionsAt(v, 0, 0, count)
  {
    hide CountedNameAt, NamesRoom;
    var size := NamesRoom(count);
    var names: seq<cstring> := [];
    var offset: nat, i := 0, 0;
    AfterNone(ExclusionsAt(v, 0, 0, count));
    while i < count
      invariant i <= count && ExclusionsAt(v, 0, 0, count) == After(names, ExclusionsAt(v, offset, i, count))
    {
      var one := CountedNameAt(v, offset);
      if one.None? {
        return Refused;
      }
      if i * SYMBOL_NAME_LEN + |one.value.0| + 1 > size {
        return Overrun;
      }
      AfterOne(names, one.value.0, ExclusionsAt(v, one.value.1, i + 1, count));
      names, offset, i := names + [one.value.0], one.value.1, i + 1;
    }
    assert names + [] == names;
    r := NamesRead(names, offset);
  }

  lemma AfterNone(r: NamesRead)
    ensures After([], r) == r
  {
    if r.NamesRead? {
      assert [] + r.names == r.names;
    }
  }

  lemma AfterOne(names: seq<cstring>, name: cstring, r: NamesRead)
    ensures After(names, After([name], r)) == After(names + [name], r)
  {
    if r.NamesRead? {
      Associate(names, [name], r.names);
    }
  }

  // ---------------------------------------------------------------------
  // Lists

  /** The code returned, unless a decoder wrote out of bounds. */
  datatype Code = LttngOk | ErrInvalid | ErrInvalidProtocol | UndefinedCode

  /** What a list element keeps: listing does not ask for the bytecode. */
  function Listed(d: Decoded): Option<Bundle>
    requires d.Decoded?
  {
    if d.bundle.None? then None else Some(d.bundle.value.(bytecode := None))
  }

  /** event_list_create_from_payload, from its iteration at `offset` on: the code and the elements added. */
  function ListAt(v: View, offset: nat, count: nat, parse: LocationDecoder): (Code, seq<Option<Bundle>>)
    requires Inside(v)
    decreases count
  {
    if count == 0 then (if SizeOf(v) != offset then ErrInvalidProtocol else LttngOk, []) else
    var d := Decode(FromView(v, offset, -1), parse);
    if d.Undefined? then (UndefinedCode, []) else
    if d.ret < 0 then (ErrInvalid, [None]) else
    var rest := ListAt(v, offset + d.ret, count - 1, parse);
    (rest.0, [Listed(d)] + rest.1)
  }

  method EventListCreateFromPayload(v: View, count: nat, parse: LocationDecoder)
    returns (code: Code, elements: seq<Option<Bundle>>)
    requires Inside(v) && SizeOf(v) <= 0x7FFF_FFFF
    ensures (code, elements) == ListAt(v, 0, count, parse)
  {
    hide Decode;
    elements := [];
    assert [] + ListAt(v, 0, count, parse).1 == ListAt(v, 0, count, parse).1;
    var offset: nat, i := 0, 0;
    while i < count
      invariant i <= count
      invariant var rest := ListAt(v, offset, count - i, parse);
                ListAt(v, 0, count, parse) == (rest.0, elements + rest.1)
    {
      var event := Decode(FromView(v, offset, -1), parse);
      if event.Undefined? {
        assert elements + [] == elements;
        return UndefinedCode, elements;
      }
      if event.ret < 0 {
        return ErrInvalid, elements + [None];
      }
      ghost var rest := ListAt(v, offset + event.ret, count - i - 1, parse).1;
      Associate(elements, [Listed(event)], rest);
      elements, offset, i := elements + [Listed(event)], offset + event.ret, i + 1;
    }
    assert elements + [] == elements;
    code := if SizeOf(v) != offset then ErrInvalidProtocol else LttngOk;
  }

  function EncodeOne(x: Bundle): seq<byte> {
    Encode(x, BytecodeLen(x))
  }

  function EncodeAll(xs: seq<Bundle>): seq<byte> {
    Each(EncodeOne, xs)
  }

  function Arrivals(xs: seq<Bundle>): (ys: seq<Option<Bundle>>)
    ensures |ys| == |xs|
  {
    seq(|xs|, i requires 0 <= i < |xs| => Some(AsReceived(xs[i]).(bytecode := None)))
  }

  /**
   Encodings delimit themselves: a list of them decodes to exactly that list, in
   order, and succeeds exactly when nothing follows the last one.
   */
  lemma {:induction false} ListRoundTrip(v: View, offset: nat, xs: seq<Bundle>, parse: LocationDecoder)
    requires Inside(v) && Holds(Seen(v), offset, EncodeAll(xs))
    requires forall i | 0 <= i < |xs| :: WireOk(xs[i], parse)
    ensures ListAt(v, offset, |xs|, parse) ==
            (if SizeOf(v) == offset + |EncodeAll(xs)| then LttngOk else ErrInvalidProtocol, Arrivals(xs))
    decreases |xs|
  {
    hide Decode, Encode, WireOk, FromView, Seen, Holds, AsReceived, Each;
    EachParts(EncodeOne, xs);
    if xs == [] {
      assert Arrivals(xs) == [];
    } else {
      var first := EncodeOne(xs[0]);
      HoldsBoth(Seen(v), offset, first, EncodeAll(xs[1..]));
      RestHolds(v, offset, first);
      RoundTrip(FromView(v, offset, -1), xs[0], parse);
      ListRoundTrip(v, offset + |first|, xs[1..], parse);
      assert Arrivals(xs) == [Arrivals(xs)[0]] + Arrivals(xs[1..]);
    }
  }

  /** A list that announces more events than the view holds is refused, with those it holds and one empty element. */
  lemma {:induction false} TooFewEvents(v: View, offset: nat, xs: seq<Bundle>, count: nat, parse: LocationDecoder)
    requires Inside(v) && Holds(Seen(v), offset, EncodeAll(xs)) && SizeOf(v) == offset + |EncodeAll(xs)|
    requires count > |xs| && forall i | 0 <= i < |xs| :: WireOk(xs[i], parse)
    ensures ListAt(v, offset, count, parse) == (ErrInvalid, Arrivals(xs) + [None])
    decreases |xs|
  {
    hide Decode, Encode, WireOk, FromView, Seen, Holds, AsReceived, Each;
    EachParts(EncodeOne, xs);
    if xs == [] {
      NothingDecodes(v, offset, parse);
      assert Arrivals(xs) + [None] == [None];
      assert ListAt(v, offset, count, parse) == (ErrInvalid, [None]);
    } else {
      var first := EncodeOne(xs[0]);
      HoldsBoth(Seen(v), offset, first, EncodeAll(xs[1..]));
      RestHolds(v, offset, first);
      RoundTrip(FromView(v, offset, -1), xs[0], parse);
      TooFewEvents(v, offset + |first|, xs[1..], count - 1, parse);
      assert Arrivals(xs) == [Arrivals(xs)[0]] + Arrivals(xs[1..]);
      Associate([Arrivals(xs)[0]], Arrivals(xs[1..]), [None]);
    }
  }

  lemma NothingDecodes(v: View, offset: nat, parse: LocationDecoder)
    requires Inside(v) && offset == SizeOf(v)
    ensures Decode(FromView(v, offset, -1), parse) == Decoded(-1, None)
  {
    hide Size;
    Sizes();
  }
}
