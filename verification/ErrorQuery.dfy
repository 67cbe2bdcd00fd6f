/**
 src/common/error-query.c:307-359 and 475-661: how the results of an error query
 travel. Counters are the only results there are.
 */
module ErrorQueries {
  import opened Bytes
  import opened BufferViews
  import opened DynamicBuffers
  import opened Wire
  import opened Wrappers

  const RESULT_COMM: Layout := [1, 4, 4]     // type, name_len, description_len
  const COUNTER_COMM: Layout := [8]          // value
  const RESULTS_COMM: Layout := [4]          // count
  const COUNTER := 0

  datatype Counter = Counter(name: cstring, description: cstring, value: nat)

  /** The values that C's types hold. */
  predicate InRange(r: Counter) {
    r.value < 0x1_0000_0000_0000_0000
  }

  /** The lengths of its strings fit their fields. */
  predicate Short(r: Counter) {
    |r.name| < 0xFFFF_FFFF && |r.description| < 0xFFFF_FFFF
  }

  function Header(r: Counter): (vs: seq<nat>)
    ensures |vs| == |RESULT_COMM|
  {
    [COUNTER, |Sent(r.name)|, |Sent(r.description)|]
  }

  function ResultBytes(r: Counter): seq<byte> {
    Pack(RESULT_COMM, Header(r)) + (Sent(r.name) + (Sent(r.description) + Pack(COUNTER_COMM, [r.value])))
  }

  function AllBytes(rs: seq<Counter>): seq<byte> {
    Each(ResultBytes, rs)
  }

  function Encode(rs: seq<Counter>): seq<byte> {
    Pack(RESULTS_COMM, [|rs|]) + AllBytes(rs)
  }

  // ---------------------------------------------------------------------
  // The encoder

  /** lttng_error_query_result_serialize */
  method SerializeResult(r: Counter, b: DynamicBuffer, ghost c: seq<byte>, ghost body: seq<byte>) returns (ret: int)
    requires b.Valid() && b.Contents() == c + body && |c| + |body| + |ResultBytes(r)| <= MAX_SIZE
    modifies b, b.data
    ensures b.Valid() && (b.data == old(b.data) || fresh(b.data)) && ret in {0, -1} && (b.generous ==> ret == 0)
    ensures c <= b.Contents() && (ret == 0 ==> b.Contents() == c + (body + ResultBytes(r)))
  {
    hide Pack, IsPow2, Size, Header, Sent;
    var header, value := Pack(RESULT_COMM, Header(r)), Pack(COUNTER_COMM, [r.value]);
    var name, description := Sent(r.name), Sent(r.description);
    Associate(body, header, name + (description + value));
    Associate(body + header, name, description + value);
    Associate(body + header + name, description, value);
    ret := AppendAfter(b, header, c, body);
    if ret != 0 { return; }
    ret := AppendAfter(b, name, c, body + header);
    if ret != 0 { return; }
    ret := AppendAfter(b, description, c, body + header + name);
    if ret != 0 { return; }
    ret := AppendAfter(b, value, c, body + header + name + description);
  }

  /** lttng_error_query_results_serialize */
  method Serialize(rs: seq<Counter>, b: DynamicBuffer) returns (ret: int)
    requires b.Valid() && b.size + |Encode(rs)| <= MAX_SIZE
    modifies b, b.data
    ensures b.Valid() && (b.data == old(b.data) || fresh(b.data)) && ret in {0, -1} && (b.generous ==> ret == 0)
    ensures old(b.Contents()) <= b.Contents()
    ensures ret == 0 ==> b.Contents() == old(b.Contents()) + Encode(rs)
  {
    hide Pack, IsPow2, Each, ResultBytes, Size;
    ghost var c := b.Contents();
    var header := Pack(RESULTS_COMM, [|rs|]);
    assert c + [] == c && [] + header == header;
    ret := AppendAfter(b, header, c, []);
    if ret != 0 { return; }
    EachParts(ResultBytes, rs);
    assert header + AllBytes(rs[..0]) == header;
    var i := 0;
    while i < |rs|
      invariant i <= |rs| && ret == 0 && b.Valid() && (b.data == old(b.data) || fresh(b.data))
      invariant b.Contents() == c + (header + AllBytes(rs[..i]))
    {
      EachNext(ResultBytes, rs, i);
      EachGrows(ResultBytes, rs, i + 1);
      Associate(header, AllBytes(rs[..i]), ResultBytes(rs[i]));
      ret := SerializeResult(rs[i], b, c, header + AllBytes(rs[..i]));
      if ret != 0 { return; }
      i := i + 1;
    }
    assert rs[..i] == rs;
  }

  // ---------------------------------------------------------------------
  // The decoder

  /** lttng_error_query_result_create_from_payload: the result and the bytes used. */
  function ResultAt(v: View): Option<(Counter, nat)>
    requires Inside(v)
  {
    var header := StructAt(v, 0, RESULT_COMM);
    if header.None? then None else
    var (kind, nameLen, descriptionLen) := (header.value[0], header.value[1], header.value[2]);
    var used := Size(RESULT_COMM);
    var name := TextAt(v, used, nameLen);
    var description := TextAt(v, used + nameLen, descriptionLen);
    var counter := StructAt(v, used + nameLen + descriptionLen, COUNTER_COMM);
    if name.None? || description.None? || kind != COUNTER || counter.None? then None
    else Some((Counter(name.value, description.value, counter.value[0]),
               used + nameLen + descriptionLen + Size(COUNTER_COMM)))
  }

  function ResultsAt(v: View, offset: nat, count: nat): Option<(seq<Counter>, nat)>
    requires Inside(v)
    decreases count
  {
    if count == 0 then Some(([], offset)) else
    var w := FromView(v, offset, -1);
    if !IsValid(w) then None else
    var one := ResultAt(w);
    if one.None? then None else
    var rest := ResultsAt(v, offset + one.value.1, count - 1);
    if rest.None? then None else Some(([one.value.0] + rest.value.0, rest.value.1))
  }

  function Decode(v: View): Option<(seq<Counter>, nat)>
    requires Inside(v)
  {
    var header := StructAt(v, 0, RESULTS_COMM);
    if header.None? then None else ResultsAt(v, Size(RESULTS_COMM), header.value[0])
  }

  /** lttng_error_query_results_create_from_payload: the bytes used, or -1. */
  method ResultsCreateFromPayload(v: View) returns (used: int, results: seq<Counter>)
    requires Inside(v)
    ensures Decode(v) == if used < 0 then None else Some((results, used))
  {
    hide ResultAt, StructAt, Size, FromView;
    used, results := -1, [];
    var header := StructAt(v, 0, RESULTS_COMM);
    if header.None? {
      return;
    }
    var total, i := Size(RESULTS_COMM), 0;
    PrependNone(ResultsAt(v, total, header.value[0]));
    while i < header.value[0]
      invariant 0 <= i <= header.value[0] && total >= 0
      invariant ResultsAt(v, Size(RESULTS_COMM), header.value[0]) ==
                Prepend(results, ResultsAt(v, total, header.value[0] - i))
    {
      var w := FromView(v, total, -1);
      if !IsValid(w) {
        return;
      }
      var one := ResultAt(w);
      if one.None? {
        return;
      }
      PrependOne(results, one.value.0, ResultsAt(v, total + one.value.1, header.value[0] - i - 1));
      results, total, i := results + [one.value.0], total + one.value.1, i + 1;
    }
    assert results + [] == results;
    used := total;
  }

  // ---------------------------------------------------------------------
  // Laws

  lemma Sizes()
    ensures Size(RESULT_COMM) == 9 && Size(COUNTER_COMM) == 8 && Size(RESULTS_COMM) == 4
    ensures Pow256(1) == 0x100 && Pow256(4) == UINT32_MAX + 1 && Pow256(8) == 0x1_0000_0000_0000_0000
  {
    Pow256Values();
    assert RESULT_COMM[1..] == [4, 4] && [4, 4][1..] == [4];
  }

  /** struct lttng_error_query_result_comm, the strings, then the value; each at the offset it has without padding. */
  lemma ResultOnTheWire(r: Counter)
    requires InRange(r) && Short(r)
    ensures var (s, n, d) := (ResultBytes(r), |r.name| + 1, |r.description| + 1);
            && |s| == 9 + n + d + 8
            && s[0] == 0 && Val(s[1..5]) == n && Val(s[5..9]) == d
            && s[9..9 + n] == r.name + [0] && s[9 + n..9 + n + d] == r.description + [0]
            && Val(s[9 + n + d..]) == r.value
  {
    hide Pack, Size, Offset, Val, Pow256;
    Sizes();
    SentExactly(r.name);
    SentExactly(r.description);
    var (h, name, description) := (Header(r), Terminated(r.name), Terminated(r.description));
    var (value, n, d) := (Pack(COUNTER_COMM, [r.value]), |name|, |description|);
    var rest := name + (description + value);
    var s := Pack(RESULT_COMM, h) + rest;
    ResultOffsets();
    PackedField(RESULT_COMM, h, 0, rest);
    PackedField(RESULT_COMM, h, 1, rest);
    PackedField(RESULT_COMM, h, 2, rest);
    OneByte(s[0..1]);
    PackedField(COUNTER_COMM, [r.value], 0, []);
    assert value + [] == value && value[0..8] == value;
    FourParts(Pack(RESULT_COMM, h), name, description, value);
  }

  lemma OneByte(s: seq<byte>)
    requires |s| == 1
    ensures Val(s) == s[0] as int
  {
    assert s[1..] == [];
  }

  lemma ResultOffsets()
    ensures Offset(RESULT_COMM, 0) == 0 && Offset(RESULT_COMM, 1) == 1 && Offset(RESULT_COMM, 2) == 5
    ensures Offset(COUNTER_COMM, 0) == 0
  {
    OffsetNext(RESULT_COMM, 0);
    OffsetNext(RESULT_COMM, 1);
  }

  /** The number of results, in four bytes, then the results in order. */
  lemma OnTheWire(rs: seq<Counter>)
    requires |rs| < 0x1_0000_0000
    ensures var s := Encode(rs);
            |s| >= 4 && Val(s[0..4]) == |rs| && s[4..] == AllBytes(rs)
    ensures rs != [] ==> AllBytes(rs) == ResultBytes(rs[0]) + AllBytes(rs[1..])
    ensures AllBytes([]) == []
  {
    hide Pack, Size, Val, Each, Pow256, ResultBytes;
    Sizes();
    EachParts(ResultBytes, rs);
    EachParts(ResultBytes, []);
    assert Offset(RESULTS_COMM, 0) == 0;
    PackedField(RESULTS_COMM, [|rs|], 0, AllBytes(rs));
  }

  lemma ResultReads(v: View, r: Counter)
    requires Inside(v) && InRange(r) && Holds(Seen(v), 0, ResultBytes(r))
    ensures ResultAt(v) == if Short(r) then Some((r, |ResultBytes(r)|)) else None
  {
    hide Pack, Size, StructAt, TextAt, Holds, Seen, Pow256, Sent;
    Sizes();
    var (h, n, d, c) := (Pack(RESULT_COMM, Header(r)), Sent(r.name), Sent(r.description), Pack(COUNTER_COMM, [r.value]));
    HoldsBoth(Seen(v), 0, h, n + (d + c));
    HoldsBoth(Seen(v), 9, n, d + c);
    HoldsBoth(Seen(v), 9 + |n|, d, c);
    StructExactly(v, 0, RESULT_COMM, Header(r));
    SentReads(v, 9, r.name);
    SentReads(v, 9 + |n|, r.description);
    StructExactly(v, 9 + |n| + |d|, COUNTER_COMM, [r.value]);
  }

  lemma SentReads(v: View, offset: nat, t: cstring)
    requires Inside(v) && Holds(Seen(v), offset, Sent(t))
    ensures TextAt(v, offset, |Sent(t)|) == if |t| < UINT32_MAX then Some(t) else None
  {
    hide TextAt, Holds, Seen, Sent;
    SentExactly(t);
    if |t| < UINT32_MAX {
      TextExactly(v, offset, |t| + 1, t);
    } else {
      NoText(v, offset, Sent(t));
    }
  }

  lemma {:induction false} ResultsRead(v: View, offset: nat, rs: seq<Counter>)
    requires Inside(v) && Holds(Seen(v), offset, AllBytes(rs)) && forall i | 0 <= i < |rs| :: InRange(rs[i])
    ensures ResultsAt(v, offset, |rs|) ==
            if forall i | 0 <= i < |rs| :: Short(rs[i]) then Some((rs, offset + |AllBytes(rs)|)) else None
    decreases |rs|
  {
    hide ResultAt, Holds, Seen, ResultBytes, InRange, FromView, Each, Short;
    EachParts(ResultBytes, rs);
    if rs != [] {
      HoldsBoth(Seen(v), offset, ResultBytes(rs[0]), AllBytes(rs[1..]));
      NotEmpty(rs[0]);
      RestHolds(v, offset, ResultBytes(rs[0]));
      ResultReads(FromView(v, offset, -1), rs[0]);
      ResultsRead(v, offset + |ResultBytes(rs[0])|, rs[1..]);
      assert [rs[0]] + rs[1..] == rs;
      assert (forall i | 0 <= i < |rs| :: Short(rs[i])) <==>
             Short(rs[0]) && forall i | 0 <= i < |rs| - 1 :: Short(rs[1..][i]);
    }
  }

  lemma NotEmpty(r: Counter)
    ensures ResultBytes(r) != []
  {
    hide Pack, Sent;
  }

  /**
   A set of results decodes from its encoding, whatever follows, to the same list,
   using exactly the bytes written, if the lengths of all strings fit their fields;
   otherwise the whole set is refused.
   */
  lemma RoundTripExactly(v: View, rs: seq<Counter>)
    requires Inside(v) && Holds(Seen(v), 0, Encode(rs)) && |rs| <= UINT32_MAX && forall i | 0 <= i < |rs| :: InRange(rs[i])
    ensures Decode(v) == if forall i | 0 <= i < |rs| :: Short(rs[i]) then Some((rs, |Encode(rs)|)) else None
  {
    hide Pack, Size, StructAt, Holds, Seen, AllBytes, ResultsAt, InRange, Pow256, Short;
    Sizes();
    HoldsBoth(Seen(v), 0, Pack(RESULTS_COMM, [|rs|]), AllBytes(rs));
    StructExactly(v, 0, RESULTS_COMM, [|rs|]);
    ResultsRead(v, 4, rs);
  }

  lemma ResultLies(v: View)
    requires Inside(v) && ResultAt(v).Some?
    ensures var (r, used) := ResultAt(v).value;
            InRange(r) && Short(r) && used == |ResultBytes(r)| && Holds(Seen(v), 0, ResultBytes(r))
  {
    hide Pack, Size, StructAt, TextAt, Holds, Seen, Pow256, Sent;
    Sizes();
    var (h, r) := (StructAt(v, 0, RESULT_COMM).value, ResultAt(v).value.0);
    TextExactly(v, 9, h[1], r.name);
    TextExactly(v, 9 + h[1], h[2], r.description);
    assert h[1] < Pow256(RESULT_COMM[1]) && h[2] < Pow256(RESULT_COMM[2]);
    SentExactly(r.name);
    SentExactly(r.description);
    assert StructAt(v, 9 + h[1] + h[2], COUNTER_COMM).value == [r.value];
    assert r.value < Pow256(COUNTER_COMM[0]);
    assert h == Header(r);
    StructExactly(v, 0, RESULT_COMM, h);
    StructExactly(v, 9 + h[1] + h[2], COUNTER_COMM, [r.value]);
    var (n, d, c) := (Sent(r.name), Sent(r.description), Pack(COUNTER_COMM, [r.value]));
    HoldsBoth(Seen(v), 9 + |n|, d, c);
    HoldsBoth(Seen(v), 9, n, d + c);
    HoldsBoth(Seen(v), 0, Pack(RESULT_COMM, h), n + (d + c));
  }

  lemma {:induction false} ResultsLie(v: View, offset: nat, count: nat)
    requires Inside(v) && offset <= SizeOf(v) && ResultsAt(v, offset, count).Some?
    ensures var (rs, end) := ResultsAt(v, offset, count).value;
            && |rs| == count && (forall i | 0 <= i < count :: InRange(rs[i]) && Short(rs[i]))
            && end == offset + |AllBytes(rs)| && Holds(Seen(v), offset, AllBytes(rs))
    decreases count
  {
    hide ResultAt, Holds, Seen, ResultBytes, InRange, FromView, Each, Short;
    var rs := ResultsAt(v, offset, count).value.0;
    EachParts(ResultBytes, rs);
    if count == 0 {
      Nothing(Seen(v), offset);
    } else {
      ResultLies(FromView(v, offset, -1));
      assert rs[1..] == ResultsAt(v, offset + |ResultBytes(rs[0])|, count - 1).value.0;
      NotEmpty(rs[0]);
      RestLies(v, offset, ResultBytes(rs[0]));
      LongEnough(Seen(v), offset, ResultBytes(rs[0]));
      ResultsLie(v, offset + |ResultBytes(rs[0])|, count - 1);
      HoldsBoth(Seen(v), offset, ResultBytes(rs[0]), AllBytes(rs[1..]));
      assert forall i | 1 <= i < |rs| :: rs[i] == rs[1..][i - 1];
    }
  }

  lemma Nothing(s: seq<byte>, at: nat)
    requires at <= |s|
    ensures Holds(s, at, [])
  {
  }

  /** The decoder returns `rs`, and the number of their bytes, exactly if the view starts with their encoding. */
  lemma DecodesExactly(v: View, rs: seq<Counter>, used: nat)
    requires Inside(v)
    ensures Decode(v) == Some((rs, used)) <==>
            && |rs| < 0x1_0000_0000 && (forall i | 0 <= i < |rs| :: InRange(rs[i]) && Short(rs[i]))
            && used == |Encode(rs)| && Holds(Seen(v), 0, Encode(rs))
  {
    hide Pack, Size, StructAt, Holds, Seen, AllBytes, ResultsAt, InRange, Pow256, Short;
    Sizes();
    if Decode(v) == Some((rs, used)) {
      var h := StructAt(v, 0, RESULTS_COMM).value;
      StructExactly(v, 0, RESULTS_COMM, h);
      LongEnough(Seen(v), 0, Pack(RESULTS_COMM, h));
      ResultsLie(v, 4, h[0]);
      assert h == [|rs|] && h[0] < Pow256(RESULTS_COMM[0]);
      HoldsBoth(Seen(v), 0, Pack(RESULTS_COMM, [|rs|]), AllBytes(rs));
    } else if |rs| < 0x1_0000_0000 && Holds(Seen(v), 0, Encode(rs)) &&
              forall i | 0 <= i < |rs| :: InRange(rs[i]) && Short(rs[i]) {
      RoundTripExactly(v, rs);
    }
  }
}
