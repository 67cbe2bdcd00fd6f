/**
 src/common/tracker.c: lists of process attribute values, and how they travel.
 */
module Trackers {
  import opened Bytes
  import opened BufferViews
  import opened DynamicBuffers
  import opened Wire
  import opened Wrappers

  const LIST_COMM: Layout := [4]           // count
  const VALUE_COMM: Layout := [4, 8]       // type, then an integer or, in its first 4 bytes, the length of a name
  const UINT32 := UINT32_MAX + 1

  datatype Domain = Kernel | Ust | OtherDomain

  // enum lttng_process_attr
  const PROCESS_ID := 0
  const VIRTUAL_PROCESS_ID := 1
  const USER_ID := 2
  const VIRTUAL_USER_ID := 3
  const GROUP_ID := 4
  const VIRTUAL_GROUP_ID := 5

  datatype Value = Pid(pid: int) | Uid(uid: nat) | UserName(name: cstring) | Gid(gid: nat) | GroupName(name: cstring)

  function TypeOf(x: Value): nat {
    match x case Pid(_) => 0 case Uid(_) => 1 case UserName(_) => 2 case Gid(_) => 3 case GroupName(_) => 4
  }

  predicate IsName(kind: int) {
    kind == 2 || kind == 4
  }

  /** The values that C's types hold. */
  predicate InRange(x: Value) {
    match x
    case Pid(pid) => -0x8000_0000 <= pid <= 0x7FFF_FFFF
    case Uid(uid) => uid <= 0xFFFF_FFFF
    case Gid(gid) => gid <= 0xFFFF_FFFF
    case _ => true
  }

  // ---------------------------------------------------------------------
  // The wire form

  function Field(x: Value): nat {
    match x
    case Pid(pid) => Wrap(8, pid)
    case Uid(uid) => uid
    case Gid(gid) => gid
    case UserName(name) => |Sent(name)|
    case GroupName(name) => |Sent(name)|
  }

  function NameBytes(x: Value): seq<byte> {
    match x
    case UserName(name) => Sent(name)
    case GroupName(name) => Sent(name)
    case _ => []
  }

  function ValueBytes(x: Value): seq<byte> {
    Pack(VALUE_COMM, [TypeOf(x), Field(x)]) + NameBytes(x)
  }

  function AllBytes(xs: seq<Value>): seq<byte> {
    Each(ValueBytes, xs)
  }

  function Encode(xs: seq<Value>): seq<byte> {
    Pack(LIST_COMM, [|xs|]) + AllBytes(xs)
  }

  // ---------------------------------------------------------------------
  // The decoder

  /** Whether a domain has trackers of an attribute. */
  predicate Supported(domain: Domain, attr: int) {
    && domain != OtherDomain
    && (attr in {VIRTUAL_PROCESS_ID, VIRTUAL_USER_ID, VIRTUAL_GROUP_ID} || domain == Kernel)
    && PROCESS_ID <= attr <= VIRTUAL_GROUP_ID
  }

  /** Whether an attribute takes values of a type. */
  predicate Takes(attr: int, kind: int) {
    if attr == PROCESS_ID || attr == VIRTUAL_PROCESS_ID then kind == 0
    else if attr == USER_ID || attr == VIRTUAL_USER_ID then kind == 1 || kind == 2
    else if attr == GROUP_ID || attr == VIRTUAL_GROUP_ID then kind == 3 || kind == 4
    else false
  }

  /** process_attr_value_from_comm; `name` is the view on the name, if the type has one. */
  function FromComm(domain: Domain, attr: int, kind: int, field: nat, name: seq<byte>): Option<Value> {
    if name != [] && name[|name| - 1] != 0 then None
    else if !Supported(domain, attr) then None
    else if IsName(kind) != (name != []) then None
    else if !Takes(attr, kind) then None
    else if kind == 0 then Some(Pid(Signed(4, field % UINT32)))
    else if kind == 1 then Some(Uid(field % UINT32))
    else if kind == 2 then Some(UserName(name[..StrnLen(name)]))
    else if kind == 3 then Some(Gid(field % UINT32))
    else Some(GroupName(name[..StrnLen(name)]))
  }

  /** One iteration of the decoder at `offset`: the value, and the offset past it. */
  function ValueAt(v: View, offset: nat, domain: Domain, attr: int): Option<(Value, nat)>
    requires Inside(v)
  {
    var comm := StructAt(v, offset, VALUE_COMM);
    if comm.None? then None else
    var (kind, field, next) := (Signed(4, comm.value[0]), comm.value[1], offset + Size(VALUE_COMM));
    var w := if IsName(kind) then FromView(v, next, field % UINT32) else Null;
    if IsName(kind) && !IsValid(w) then None else
    var x := FromComm(domain, attr, kind, field, Seen(w));
    if x.None? then None else Some((x.value, next + SizeOf(w)))
  }

  function ValuesAt(v: View, offset: nat, count: nat, domain: Domain, attr: int): Option<(seq<Value>, nat)>
    requires Inside(v)
    decreases count
  {
    if count == 0 then Some(([], offset)) else
    var one := ValueAt(v, offset, domain, attr);
    if one.None? then None else
    var rest := ValuesAt(v, one.value.1, count - 1, domain, attr);
    if rest.None? then None else Some(([one.value.0] + rest.value.0, rest.value.1))
  }

  /** lttng_process_attr_values_create_from_buffer: the values and the bytes used. */
  method CreateFromBuffer(v: View, domain: Domain, attr: int) returns (r: Option<(seq<Value>, nat)>)
    requires Inside(v)
    ensures r == Decode(v, domain, attr)
  {
    hide ValueAt, StructAt, Size;
    var header := StructAt(v, 0, LIST_COMM);
    if header.None? {
      return None;
    }
    var count := header.value[0];
    if SizeOf(v) < count * Size(VALUE_COMM) {
      return None;
    }
    var values: seq<Value> := [];
    var offset, i := Size(LIST_COMM), 0;
    PrependNone(ValuesAt(v, offset, count, domain, attr));
    while i < count
      invariant i <= count && offset >= 0
      invariant ValuesAt(v, Size(LIST_COMM), count, domain, attr) ==
                Prepend(values, ValuesAt(v, offset, count - i, domain, attr))
    {
      var one := ValueAt(v, offset, domain, attr);
      if one.None? {
        return None;
      }
      PrependOne(values, one.value.0, ValuesAt(v, one.value.1, count - i - 1, domain, attr));
      values, offset, i := values + [one.value.0], one.value.1, i + 1;
    }
    assert values + [] == values;
    r := Some((values, offset));
  }

  function Decode(v: View, domain: Domain, attr: int): Option<(seq<Value>, nat)>
    requires Inside(v)
  {
    var header := StructAt(v, 0, LIST_COMM);
    if header.None? || SizeOf(v) < header.value[0] * Size(VALUE_COMM) then None
    else ValuesAt(v, Size(LIST_COMM), header.value[0], domain, attr)
  }

  // ---------------------------------------------------------------------
  // The encoder

  /** lttng_process_attr_values_serialize */
  method Serialize(xs: seq<Value>, b: DynamicBuffer) returns (ret: int)
    requires b.Valid() && b.size + |Encode(xs)| <= MAX_SIZE
    modifies b, b.data
    ensures b.Valid() && (b.data == old(b.data) || fresh(b.data)) && ret in {0, -1} && (b.generous ==> ret == 0)
    ensures old(b.Contents()) <= b.Contents()
    ensures ret == 0 ==> b.Contents() == old(b.Contents()) + Encode(xs)
  {
    hide Pack, IsPow2, Each, ValueBytes, Size;
    ghost var c := b.Contents();
    var header := Pack(LIST_COMM, [|xs|]);
    assert c + [] == c && [] + header == header;
    ret := AppendAfter(b, header, c, []);
    if ret != 0 { return; }
    EachParts(ValueBytes, xs);
    assert header + AllBytes(xs[..0]) == header;
    var i := 0;
    while i < |xs|
      invariant i <= |xs| && ret == 0 && b.Valid() && (b.data == old(b.data) || fresh(b.data))
      invariant b.Contents() == c + (header + AllBytes(xs[..i]))
    {
      EachNext(ValueBytes, xs, i);
      EachGrows(ValueBytes, xs, i + 1);
      Associate(header, AllBytes(xs[..i]), ValueBytes(xs[i]));
      ret := SerializeValue(xs[i], b, c, header + AllBytes(xs[..i]));
      if ret != 0 { return; }
      i := i + 1;
    }
    assert xs[..i] == xs;
  }

  /** process_attr_tracker_value_serialize */
  method SerializeValue(x: Value, b: DynamicBuffer, ghost c: seq<byte>, ghost body: seq<byte>) returns (ret: int)
    requires b.Valid() && b.Contents() == c + body && |c| + |body| + |ValueBytes(x)| <= MAX_SIZE
    modifies b, b.data
    ensures b.Valid() && (b.data == old(b.data) || fresh(b.data)) && ret in {0, -1} && (b.generous ==> ret == 0)
    ensures c <= b.Contents() && (ret == 0 ==> b.Contents() == c + (body + ValueBytes(x)))
  {
    hide Pack, IsPow2, Size, Field, TypeOf, Sent;
    var comm := Pack(VALUE_COMM, [TypeOf(x), Field(x)]);
    ret := AppendAfter(b, comm, c, body);
    if ret != 0 { return; }
    Associate(body, comm, NameBytes(x));
    if x.UserName? || x.GroupName? {
      ret := AppendAfter(b, Sent(x.name), c, body + comm);
    } else {
      assert body + comm + [] == body + comm;
    }
  }

  // ---------------------------------------------------------------------
  // Laws

  /** Whether a domain has trackers of attribute `attr`, which is `plain`, for the kernel only, or `virtual`. */
  predicate Tracks(domain: Domain, attr: int, plain: int, virtual: int) {
    (domain == Kernel && attr == plain) || (domain != OtherDomain && attr == virtual)
  }

  /** Whether a value may be sent for an attribute of a domain: also, the length of a name fits its field. */
  predicate Consistent(x: Value, domain: Domain, attr: int) {
    match x
    case Pid(_) => Tracks(domain, attr, 0, 1)
    case Uid(_) => Tracks(domain, attr, 2, 3)
    case UserName(name) => Tracks(domain, attr, 2, 3) && |name| < 0xFFFF_FFFF
    case Gid(_) => Tracks(domain, attr, 4, 5)
    case GroupName(name) => Tracks(domain, attr, 4, 5) && |name| < 0xFFFF_FFFF
  }

  lemma Sizes()
    ensures Size(LIST_COMM) == 4 && Size(VALUE_COMM) == 12
    ensures Pow256(4) == UINT32 && Pow256(8) == 0x1_0000_0000_0000_0000
  {
    Pow256Values();
    assert VALUE_COMM[1..] == [8];
  }

  /** A 32-bit integer survives its passage through a 64-bit field. */
  lemma Widened(pid: int)
    requires -0x8000_0000 <= pid <= 0x7FFF_FFFF
    ensures Signed(4, Wrap(8, pid) % UINT32) == pid
  {
    hide Pow256;
    Sizes();
    if pid >= 0 {
      RemainderIs(pid, Pow256(8), 0, pid);
    } else {
      RemainderIs(pid, Pow256(8), -1, pid + Pow256(8));
      RemainderIs(pid + Pow256(8), UINT32, UINT32 - 1, pid + UINT32);
    }
  }

  lemma NameTaken(t: cstring)
    ensures var s := Sent(t);
            if |t| < UINT32_MAX then s != [] && s[|s| - 1] == 0 && StrnLen(s) == |t| && s[..|t|] == t
            else s == [] || s[|s| - 1] != 0
  {
    hide Sent;
    SentExactly(t);
    var s := Sent(t);
    if |t| < UINT32_MAX {
      assert s[..|t|] == t;
      StrnLenIs(s, |t|);
    }
  }

  lemma FromCommExactly(x: Value, domain: Domain, attr: int)
    requires InRange(x)
    ensures FromComm(domain, attr, TypeOf(x), Field(x), NameBytes(x)) ==
            if Consistent(x, domain, attr) then Some(x) else None
  {
    hide Wrap, Signed, FitsSigned, StrnLen, Sent;
    match x
    case Pid(pid) => Widened(pid);
    case UserName(name) => NameTaken(name);
    case GroupName(name) => NameTaken(name);
    case _ =>
  }

  lemma ValueReads(v: View, offset: nat, x: Value, domain: Domain, attr: int)
    requires Inside(v) && InRange(x) && Holds(Seen(v), offset, ValueBytes(x))
    ensures ValueAt(v, offset, domain, attr) ==
            if Consistent(x, domain, attr) then Some((x, offset + |ValueBytes(x)|)) else None
  {
    hide Pack, Size, StructAt, FromComm, Holds, Consistent, Pow256, FromView, Seen, StrnLen, Sent;
    Sizes();
    var vs := [TypeOf(x), Field(x)];
    HoldsBoth(Seen(v), offset, Pack(VALUE_COMM, vs), NameBytes(x));
    StructExactly(v, offset, VALUE_COMM, vs);
    FromCommExactly(x, domain, attr);
    if IsName(TypeOf(x)) {
      if NameBytes(x) == [] {
        SubView(v, offset + 12, 0);
        NameTaken(x.name);
        NotTaken(x, domain, attr);
      } else {
        SubHolds(v, offset + 12, NameBytes(x));
      }
    }
    NoView();
    assert Signed(4, TypeOf(x)) == TypeOf(x);
  }

  lemma NotTaken(x: Value, domain: Domain, attr: int)
    requires (x.UserName? || x.GroupName?) && NameBytes(x) == []
    ensures !Consistent(x, domain, attr)
  {
    hide Sent;
    SentExactly(x.name);
  }

  lemma NoView()
    ensures Seen(Null) == []
  {
  }

  lemma {:induction false} ValuesRead(v: View, offset: nat, xs: seq<Value>, domain: Domain, attr: int)
    requires Inside(v) && Holds(Seen(v), offset, AllBytes(xs)) && forall i | 0 <= i < |xs| :: InRange(xs[i])
    ensures ValuesAt(v, offset, |xs|, domain, attr) ==
            if forall i | 0 <= i < |xs| :: Consistent(xs[i], domain, attr) then Some((xs, offset + |AllBytes(xs)|)) else None
    decreases |xs|
  {
    hide ValueAt, Holds, Seen, ValueBytes, Consistent, InRange, Each;
    EachParts(ValueBytes, xs);
    if xs != [] {
      HoldsBoth(Seen(v), offset, ValueBytes(xs[0]), AllBytes(xs[1..]));
      ValueReads(v, offset, xs[0], domain, attr);
      ValuesRead(v, offset + |ValueBytes(xs[0])|, xs[1..], domain, attr);
      assert xs == [xs[0]] + xs[1..];
      assert (forall i | 0 <= i < |xs| :: Consistent(xs[i], domain, attr)) <==>
             Consistent(xs[0], domain, attr) && forall i | 0 <= i < |xs| - 1 :: Consistent(xs[1..][i], domain, attr);
    }
  }

  lemma {:induction false} AtLeast(xs: seq<Value>)
    ensures |AllBytes(xs)| >= 12 * |xs|
  {
    hide Pack, Size, Each;
    EachParts(ValueBytes, xs);
    if xs != [] {
      Sizes();
      AtLeast(xs[1..]);
    }
  }

  /**
   A list of values decodes from its encoding, whatever follows, to the same list,
   using exactly the bytes that were written, if every value is one that the
   attribute takes and the domain supports; otherwise the whole list is refused.
   */
  lemma RoundTripExactly(v: View, xs: seq<Value>, domain: Domain, attr: int)
    requires Inside(v) && Holds(Seen(v), 0, Encode(xs)) && |xs| < UINT32 && forall i | 0 <= i < |xs| :: InRange(xs[i])
    ensures Decode(v, domain, attr) ==
            if forall i | 0 <= i < |xs| :: Consistent(xs[i], domain, attr) then Some((xs, |Encode(xs)|)) else None
  {
    hide Pack, Size, StructAt, Holds, Seen, AllBytes, ValuesAt, Consistent, InRange, Pow256;
    Sizes();
    HoldsBoth(Seen(v), 0, Pack(LIST_COMM, [|xs|]), AllBytes(xs));
    StructExactly(v, 0, LIST_COMM, [|xs|]);
    AtLeast(xs);
    LongEnough(Seen(v), 0, Encode(xs));
    ValuesRead(v, 4, xs, domain, attr);
  }

  // ---------------------------------------------------------------------
  // What is on the wire

  /** What lies in `s` from index `at` to `end` is read as `x`: of an integer the decoder reads the low half only. */
  predicate Lies(s: seq<byte>, at: nat, x: Value, end: nat) {
    && at + 12 <= end <= |s|
    && var (kind, low) := (Val(s[at..at + 4]), Val(s[at + 4..at + 8]));
       match x
       case Pid(pid) => kind == 0 && end == at + 12 && low == pid % 0x1_0000_0000
       case Uid(uid) => kind == 1 && end == at + 12 && low == uid
       case UserName(name) => kind == 2 && NameLies(s[at + 12..end], low, name)
       case Gid(gid) => kind == 3 && end == at + 12 && low == gid
       case GroupName(name) => kind == 4 && NameLies(s[at + 12..end], low, name)
  }

  /** A name is what precedes the first NUL of `len` bytes, the last of which is NUL. */
  predicate NameLies(s: seq<byte>, len: nat, name: cstring) {
    |s| == len && len > 0 && s[len - 1] == 0 && Holds(s, 0, name + [0])
  }

  /** And values, one after the other. */
  ghost predicate AllLie(s: seq<byte>, at: nat, xs: seq<Value>, end: nat)
    decreases |xs|
  {
    if xs == [] then end == at else exists mid: nat :: Lies(s, at, xs[0], mid) && AllLie(s, mid, xs[1..], end)
  }

  /** The wire form of a value: its type and an integer, or the length of a name, in eight bytes; then the name. */
  lemma ValueOnTheWire(x: Value)
    requires InRange(x) && (x.UserName? || x.GroupName? ==> |x.name| < 0xFFFF_FFFF)
    ensures Lies(ValueBytes(x), 0, x, |ValueBytes(x)|)
    ensures var s := ValueBytes(x);
            |s| >= 12 && Val(s[4..12]) == match x
                                          case Pid(pid) => pid % 0x1_0000_0000_0000_0000
                                          case Uid(uid) => uid
                                          case Gid(gid) => gid
                                          case UserName(name) => |name| + 1
                                          case GroupName(name) => |name| + 1
    ensures ValueBytes(x)[12..] == if x.UserName? || x.GroupName? then x.name + [0] else []
  {
    hide Pack, Size, Offset, Val, Pow256, Sent, Holds;
    Sizes();
    var (vs, name) := ([TypeOf(x), Field(x)], NameBytes(x));
    var s := ValueBytes(x);
    assert s[12..] == name;
    assert s[12..|s|] == name;
    OffsetNext(VALUE_COMM, 0);
    PackedField(VALUE_COMM, vs, 0, name);
    PackedField(VALUE_COMM, vs, 1, name);
    SliceSlice(s, 4, 12, 0, 4);
    ValLow(s[4..12], 4);
    assert s[4..12][..4] == s[4..8];
    match x {
      case Pid(pid) => Narrowed(pid);
      case UserName(n) => NameOnTheWire(n);
      case GroupName(n) => NameOnTheWire(n);
      case _ =>
    }
  }

  /** The number of values, in four bytes, then the values in order. */
  lemma OnTheWire(xs: seq<Value>)
    requires |xs| < 0x1_0000_0000
    ensures var s := Encode(xs);
            |s| >= 4 && Val(s[0..4]) == |xs| && s[4..] == AllBytes(xs)
    ensures xs != [] ==> AllBytes(xs) == ValueBytes(xs[0]) + AllBytes(xs[1..])
    ensures AllBytes([]) == []
  {
    hide Pack, Size, Val, Each, Pow256, ValueBytes;
    Sizes();
    EachParts(ValueBytes, xs);
    EachParts(ValueBytes, []);
    assert Offset(LIST_COMM, 0) == 0;
    PackedField(LIST_COMM, [|xs|], 0, AllBytes(xs));
  }

  lemma NameOnTheWire(name: cstring)
    requires |name| < 0xFFFF_FFFF
    ensures Sent(name) == name + [0] && NameLies(Sent(name), |name| + 1, name)
  {
    SentExactly(name);
  }

  lemma Narrowed(pid: int)
    ensures Wrap(8, pid) % UINT32 == pid % 0x1_0000_0000
  {
    hide Pow256;
    Sizes();
    var q := pid / 0x1_0000_0000_0000_0000;
    RemainderIs(pid, UINT32, q * UINT32 + Wrap(8, pid) / UINT32, Wrap(8, pid) % UINT32);
  }

  lemma CommAt(v: View, offset: nat)
    requires Inside(v)
    ensures var s := Seen(v);
            StructAt(v, offset, VALUE_COMM) ==
            if offset + 12 <= |s| then Some([Val(s[offset..offset + 4]), Val(s[offset + 4..offset + 12])]) else None
  {
    hide Val, FromView, Seen;
    Sizes();
    SubView(v, offset, 12);
    if offset + 12 <= SizeOf(v) {
      var (s, t) := (Seen(v), Seen(v)[offset..offset + 12]);
      assert VALUE_COMM[1..] == [8] && t[..4] == s[offset..offset + 4];
      assert t[4..][..8] == s[offset + 4..offset + 12];
      assert Unpack(VALUE_COMM[1..], t[4..]) == [Val(t[4..][..8])];
      assert Unpack(VALUE_COMM, t) == [Val(t[..4]), Val(t[4..][..8])];
    }
  }

  lemma SignedIs(v: nat, x: int)
    requires v < UINT32
    ensures Signed(4, v) == x <==> -0x8000_0000 <= x <= 0x7FFF_FFFF && v == x % 0x1_0000_0000
  {
    hide Pow256, Signed, Wrap, FitsSigned;
    Pow256Values();
    Ranges(x);
    WrapSigned(4, v);
    WrapIs(x);
    if FitsSigned(4, x) {
      SignedWrap(4, x);
    }
  }

  lemma WrapIs(x: int)
    ensures Wrap(4, x) == x % 0x1_0000_0000
  {
    Pow256Values();
  }

  lemma NameIs(s: seq<byte>, name: cstring)
    requires s != [] && s[|s| - 1] == 0
    ensures s[..StrnLen(s)] == name <==> Holds(s, 0, name + [0])
  {
    hide StrnLen;
    var n := StrnLen(s);
    if s[..n] == name {
      assert s[0..n + 1] == name + [0];
    }
    if Holds(s, 0, name + [0]) {
      assert s[0..|name| + 1][|name|] == s[|name|] == 0 && s[..|name|] == (name + [0])[..|name|] == name;
      StrnLenIs(s, |name|);
    }
  }

  lemma FromCommIs(domain: Domain, attr: int, kind: int, field: nat, name: seq<byte>, x: Value)
    requires |name| <= UINT32_MAX
    ensures FromComm(domain, attr, kind, field, name) == Some(x) <==>
            && InRange(x) && Consistent(x, domain, attr) && kind == TypeOf(x)
            && match x
               case Pid(pid) => name == [] && field % UINT32 == pid % 0x1_0000_0000
               case Uid(uid) => name == [] && field % UINT32 == uid
               case UserName(n) => NameLies(name, |name|, n)
               case Gid(gid) => name == [] && field % UINT32 == gid
               case GroupName(n) => NameLies(name, |name|, n)
  {
    hide Signed, StrnLen, Holds;
    match x {
      case Pid(pid) => SignedIs(field % UINT32, pid);
      case UserName(n) => NameFits(name, n);
      case GroupName(n) => NameFits(name, n);
      case _ =>
    }
  }

  lemma NameFits(s: seq<byte>, name: cstring)
    ensures s != [] && s[|s| - 1] == 0 ==> (s[..StrnLen(s)] == name <==> Holds(s, 0, name + [0]))
    ensures Holds(s, 0, name + [0]) ==> |name| < |s|
  {
    hide StrnLen, Holds;
    if s != [] && s[|s| - 1] == 0 {
      NameIs(s, name);
    }
    if Holds(s, 0, name + [0]) {
      LongEnough(s, 0, name + [0]);
    }
  }

  /** The decoder reads `x`, and stops at `end`, exactly if it lies there and the attribute takes it. */
  lemma ReadsExactly(v: View, offset: nat, domain: Domain, attr: int, x: Value, end: nat)
    requires Inside(v)
    ensures ValueAt(v, offset, domain, attr) == Some((x, end)) <==>
            InRange(x) && Consistent(x, domain, attr) && Lies(Seen(v), offset, x, end)
  {
    hide StructAt, FromView, FromComm, Size, Seen, Val, Signed, NameLies, Consistent, InRange, Pow256;
    Sizes();
    CommAt(v, offset);
    var s := Seen(v);
    if offset + 12 <= |s| {
      var (k, field) := (Val(s[offset..offset + 4]), Val(s[offset + 4..offset + 12]));
      var low := Val(s[offset + 4..offset + 8]);
      assert k < Pow256(4);
      SignedIs(k, TypeOf(x));
      ValLow(s[offset + 4..offset + 12], 4);
      assert s[offset + 4..offset + 12][..4] == s[offset + 4..offset + 8];
      NoView();
      if IsName(Signed(4, k)) {
        SubView(v, offset + 12, low);
        if IsValid(FromView(v, offset + 12, low)) {
          FromCommIs(domain, attr, Signed(4, k), field, s[offset + 12..offset + 12 + low], x);
        }
        if Lies(s, offset, x, end) {
          NameEnds(s, offset, x, end);
        }
      } else {
        FromCommIs(domain, attr, Signed(4, k), field, [], x);
      }
    }
  }

  lemma {:induction false} AllReadExactly(v: View, offset: nat, domain: Domain, attr: int, xs: seq<Value>, end: nat)
    requires Inside(v)
    ensures ValuesAt(v, offset, |xs|, domain, attr) == Some((xs, end)) <==>
            && (forall i | 0 <= i < |xs| :: InRange(xs[i]) && Consistent(xs[i], domain, attr))
            && AllLie(Seen(v), offset, xs, end)
    decreases |xs|
  {
    hide ValueAt, Lies, Seen, InRange, Consistent;
    if xs != [] {
      var one := ValueAt(v, offset, domain, attr);
      assert xs == [xs[0]] + xs[1..];
      assert forall i | 1 <= i < |xs| :: xs[i] == xs[1..][i - 1];
      forall mid: nat
        ensures one == Some((xs[0], mid)) <==>
                InRange(xs[0]) && Consistent(xs[0], domain, attr) && Lies(Seen(v), offset, xs[0], mid)
      {
        ReadsExactly(v, offset, domain, attr, xs[0], mid);
      }
      if one.Some? {
        AllReadExactly(v, one.value.1, domain, attr, xs[1..], end);
      }
    }
  }

  lemma {:induction false} EndsLater(s: seq<byte>, at: nat, xs: seq<Value>, end: nat)
    requires AllLie(s, at, xs, end) && at <= |s|
    ensures at + 12 * |xs| <= end <= |s|
    decreases |xs|
  {
    if xs != [] {
      var mid: nat :| Lies(s, at, xs[0], mid) && AllLie(s, mid, xs[1..], end);
      EndsLater(s, mid, xs[1..], end);
    }
  }

  /**
   The decoder returns `xs`, and the number of bytes used, exactly if their number,
   in four bytes, then the values themselves lie in the view and the attribute takes them all.
   */
  lemma DecodesExactly(v: View, domain: Domain, attr: int, xs: seq<Value>, used: nat)
    requires Inside(v)
    ensures Decode(v, domain, attr) == Some((xs, used)) <==>
            && |Seen(v)| >= 4 && Val(Seen(v)[0..4]) == |xs| && AllLie(Seen(v), 4, xs, used)
            && forall i | 0 <= i < |xs| :: InRange(xs[i]) && Consistent(xs[i], domain, attr)
  {
    hide StructAt, ValuesAt, Seen, Val, AllLie, InRange, Consistent, Size;
    Sizes();
    HeaderAt(v);
    AllReadExactly(v, 4, domain, attr, xs, used);
    if |Seen(v)| >= 4 {
      HowMany(v, 4, Val(Seen(v)[0..4]), domain, attr);
      if AllLie(Seen(v), 4, xs, used) {
        EndsLater(Seen(v), 4, xs, used);
      }
    }
  }

  lemma HeaderAt(v: View)
    requires Inside(v)
    ensures StructAt(v, 0, LIST_COMM) == if |Seen(v)| >= 4 then Some([Val(Seen(v)[0..4])]) else None
  {
    hide Val, FromView, Seen;
    Sizes();
    SubView(v, 0, 4);
    if 4 <= SizeOf(v) {
      var t := Seen(v)[0..4];
      assert t[..4] == t;
      assert Unpack([4], t) == [Val(t[..4])];
    }
  }

  lemma {:induction false} HowMany(v: View, offset: nat, count: nat, domain: Domain, attr: int)
    requires Inside(v)
    ensures var r := ValuesAt(v, offset, count, domain, attr);
            r.Some? ==> |r.value.0| == count
    decreases count
  {
    hide ValueAt;
    if count > 0 {
      var one := ValueAt(v, offset, domain, attr);
      if one.Some? {
        HowMany(v, one.value.1, count - 1, domain, attr);
      }
    }
  }

  lemma NameEnds(s: seq<byte>, at: nat, x: Value, end: nat)
    requires Lies(s, at, x, end) && (x.UserName? || x.GroupName?)
    ensures Val(s[at + 4..at + 8]) > 0 && end == at + 12 + Val(s[at + 4..at + 8])
  {
    hide Val;
  }

  // ---------------------------------------------------------------------
  // Equality and hashing

  /** process_attr_tracker_value_equal */
  predicate Equal(a: Value, b: Value) {
    if TypeOf(a) != TypeOf(b) then false
    else match a
      case Pid(pid) => pid == b.pid
      case Uid(uid) => uid == b.uid
      case Gid(gid) => gid == b.gid
      case UserName(name) => name == b.name
      case GroupName(name) => name == b.name
  }

  /** The seeded hash functions, on integers and on strings. */
  datatype Hashing = Hashing(number: int -> bv64, text: seq<byte> -> bv64)

  /** process_attr_value_hash */
  function Hash(a: Value, h: Hashing): bv64 {
    h.number(TypeOf(a)) ^
    match a
    case Pid(pid) => h.number(Wrap(8, pid))
    case Uid(uid) => h.number(uid)
    case Gid(gid) => h.number(gid)
    case UserName(name) => h.text(name)
    case GroupName(name) => h.text(name)
  }

  /** Equal values are the same value, so they hash equally and have the same wire form. */
  lemma EqualValues(a: Value, b: Value, h: Hashing)
    ensures Equal(a, b) <==> a == b
    ensures Equal(a, b) ==> Hash(a, h) == Hash(b, h) && ValueBytes(a) == ValueBytes(b)
  {
    hide Wrap, ValueBytes;
  }
}
