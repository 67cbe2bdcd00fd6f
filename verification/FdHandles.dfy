/**
 src/common/fd-handle.c, payload.c and dynamic-array.c:133-200: file descriptor
 handles counted by reference, and the payloads that hold them.

 A handle's address is modelled by a number that is never used twice, so that
 "this handle" stays meaningful after it has been freed.
 */
module FdHandles {
  import opened Bytes

  type Id = nat

  datatype Handle = Handle(ref: nat, fd: int)

  /** The allocated handles, and every close(2) so far: which handle, which descriptor. */
  datatype Core = Core(live: map<Id, Handle>, closed: seq<(Id, int)>)

  /** A payload that has been reset must be initialised before it is used again. */
  datatype Payload = Payload(bytes: seq<byte>, handles: seq<Id>, ready: bool)

  datatype State = State(
    core: Core,
    fds: seq<int>,            // the descriptor each handle was created with
    held: multiset<Id>,       // references that callers own
    payloads: seq<Payload>)

  function GetOne(c: Core, h: Id): Core {
    if h in c.live then c.(live := c.live[h := c.live[h].(ref := c.live[h].ref + 1)]) else c
  }

  /** The last reference closes the descriptor and frees the handle. */
  function PutOne(c: Core, h: Id): Core {
    if h !in c.live then c
    else if c.live[h].ref == 1 then Core(c.live - {h}, c.closed + [(h, c.live[h].fd)])
    else if c.live[h].ref > 1 then c.(live := c.live[h := c.live[h].(ref := c.live[h].ref - 1)])
    else c
  }

  function PutAll(c: Core, hs: seq<Id>): Core {
    if hs == [] then c else PutOne(PutAll(c, hs[..|hs| - 1]), hs[|hs| - 1])
  }

  // ---------------------------------------------------------------------
  // Counting

  /** Each handle's reference count is its number of holders, and a handle without holders is gone. */
  ghost predicate Counts(c: Core, m: multiset<Id>) {
    && (forall h :: h in c.live <==> h in m)
    && (forall h :: h in c.live ==> c.live[h].ref == m[h])
  }

  lemma GetCounts(c: Core, m: multiset<Id>, h: Id)
    requires Counts(c, m) && h in m
    ensures Counts(GetOne(c, h), m + multiset{h})
  {
  }

  lemma PutCounts(c: Core, m: multiset<Id>, h: Id)
    requires Counts(c, m) && h in m
    ensures Counts(PutOne(c, h), m - multiset{h})
  {
  }

  lemma {:induction false} PutAllCounts(c: Core, m: multiset<Id>, hs: seq<Id>)
    requires Counts(c, m) && multiset(hs) <= m
    ensures Counts(PutAll(c, hs), m - multiset(hs))
  {
    if hs != [] {
      var (before, last) := (hs[..|hs| - 1], hs[|hs| - 1]);
      assert hs == before + [last];
      PutAllCounts(c, m, before);
      PutCounts(PutAll(c, before), m - multiset(before), last);
      assert m - multiset(before) - multiset{last} == m - multiset(hs);
    }
  }

  /** What all payloads hold. */
  function Stored(ps: seq<Payload>): multiset<Id> {
    if ps == [] then multiset{} else multiset(ps[0].handles) + Stored(ps[1..])
  }

  lemma {:induction false} StoredCount(ps: seq<Payload>, i: nat, p: Payload, h: Id)
    requires i < |ps|
    ensures Stored(ps[i := p])[h] + multiset(ps[i].handles)[h] == Stored(ps)[h] + multiset(p.handles)[h]
    ensures multiset(ps[i].handles)[h] <= Stored(ps)[h]
  {
    if i == 0 {
      assert ps[i := p][1..] == ps[1..];
    } else {
      StoredCount(ps[1..], i - 1, p, h);
      assert ps[i := p][1..] == ps[1..][i - 1 := p];
    }
  }

  lemma StoredUpdate(ps: seq<Payload>, i: nat, p: Payload)
    requires i < |ps|
    ensures multiset(ps[i].handles) <= Stored(ps)
    ensures Stored(ps[i := p]) == Stored(ps) - multiset(ps[i].handles) + multiset(p.handles)
  {
    hide Stored;
    forall h
      ensures multiset(ps[i].handles)[h] <= Stored(ps)[h]
      ensures Stored(ps[i := p])[h] == (Stored(ps) - multiset(ps[i].handles) + multiset(p.handles))[h]
    {
      StoredCount(ps, i, p, h);
    }
  }

  function Holders(s: State): multiset<Id> {
    s.held + Stored(s.payloads)
  }

  // ---------------------------------------------------------------------
  // The log of closes

  predicate ClosedIn(closed: seq<(Id, int)>, h: Id) {
    exists i :: 0 <= i < |closed| && closed[i].0 == h
  }

  /** Every handle ever created is either live, with its descriptor, or was closed once, on its descriptor. */
  ghost predicate Log(c: Core, fds: seq<int>) {
    && (forall h :: h in c.live ==> h < |fds| && c.live[h].fd == fds[h])
    && (forall i :: 0 <= i < |c.closed| ==>
          c.closed[i].0 < |fds| && c.closed[i].0 !in c.live && c.closed[i].1 == fds[c.closed[i].0])
    && (forall i, j :: 0 <= i < j < |c.closed| ==> c.closed[i].0 != c.closed[j].0)
    && (forall h: Id :: h < |fds| ==> h in c.live || ClosedIn(c.closed, h))
  }

  lemma PutLog(c: Core, fds: seq<int>, h: Id)
    requires Log(c, fds)
    ensures Log(PutOne(c, h), fds)
  {
    var d := PutOne(c, h);
    forall k: Id | k < |fds| ensures k in d.live || ClosedIn(d.closed, k) {
      if k !in d.live {
        if k == h && h in c.live {
          assert d.closed[|c.closed|].0 == k;
        } else {
          assert ClosedIn(c.closed, k);
          var i :| 0 <= i < |c.closed| && c.closed[i].0 == k;
          assert d.closed[i].0 == k;
        }
      }
    }
  }

  lemma {:induction false} PutAllLog(c: Core, fds: seq<int>, hs: seq<Id>)
    requires Log(c, fds)
    ensures Log(PutAll(c, hs), fds)
  {
    if hs != [] {
      PutAllLog(c, fds, hs[..|hs| - 1]);
      PutLog(PutAll(c, hs[..|hs| - 1]), fds, hs[|hs| - 1]);
    }
  }

  ghost predicate Inv(s: State) {
    Counts(s.core, Holders(s)) && Log(s.core, s.fds)
  }

  // ---------------------------------------------------------------------
  // Operations

  datatype Op =
    | Create(fd: int)                  // fd_handle_create, fd >= 0
    | Get(h: Id)
    | Put(h: Id)
    | Push(p: nat, h: Id)              // lttng_payload_push_fd_handle
    | Pop(h: Id, p: nat)               // lttng_payload_view_pop_fd_handle on a view of payload p
    | Clear(p: nat)
    | Reset(p: nat)
    | AddPayload(bytes: seq<byte>)     // a payload initialised, and its bytes filled in

  /** What callers owe: only use references they own, and payloads and views that are valid. */
  predicate Allowed(s: State, op: Op) {
    match op
    case Create(fd) => fd >= 0
    case Get(h) => h in s.held
    case Put(h) => h in s.held
    case Push(p, h) => p < |s.payloads| && s.payloads[p].ready && h in s.held
    case Pop(h, p) => p < |s.payloads| && h in s.payloads[p].handles
    case Clear(p) => p < |s.payloads|
    case Reset(p) => p < |s.payloads|
    case AddPayload(_) => true
  }

  function Step(s: State, op: Op): State
    requires Allowed(s, op)
  {
    match op
    case Create(fd) =>
      s.(core := s.core.(live := s.core.live[|s.fds| := Handle(1, fd)]), fds := s.fds + [fd],
         held := s.held + multiset{|s.fds|})
    case Get(h) => s.(core := GetOne(s.core, h), held := s.held + multiset{h})
    case Put(h) => s.(core := PutOne(s.core, h), held := s.held - multiset{h})
    case Push(p, h) =>
      s.(core := GetOne(s.core, h),
         payloads := s.payloads[p := s.payloads[p].(handles := s.payloads[p].handles + [h])])
    case Pop(h, p) => s.(core := GetOne(s.core, h), held := s.held + multiset{h})
    case Clear(p) => Emptied(s, p, s.payloads[p].ready)
    case Reset(p) => Emptied(s, p, false)
    case AddPayload(bytes) => s.(payloads := s.payloads + [Payload(bytes, [], true)])
  }

  function Emptied(s: State, p: nat, ready: bool): State
    requires p < |s.payloads|
  {
    s.(core := PutAll(s.core, s.payloads[p].handles), payloads := s.payloads[p := Payload([], [], ready)])
  }

  lemma {:induction false} StoredAppend(ps: seq<Payload>, p: Payload)
    ensures Stored(ps + [p]) == Stored(ps) + multiset(p.handles)
  {
    if ps == [] {
      assert ps + [p] == [p];
    } else {
      assert (ps + [p])[1..] == ps[1..] + [p];
      StoredAppend(ps[1..], p);
    }
  }

  lemma {:induction false} StoredHas(ps: seq<Payload>, i: nat, h: Id)
    requires i < |ps| && h in ps[i].handles
    ensures h in Stored(ps)
  {
    if i > 0 {
      StoredHas(ps[1..], i - 1, h);
    }
  }

  lemma CreateKeepsInv(s: State, fd: int)
    requires Inv(s) && fd >= 0
    ensures Inv(Step(s, Create(fd)))
  {
    hide Stored;
    var (t, h) := (Step(s, Create(fd)), |s.fds|);
    assert h !in s.core.live;
    assert h !in Holders(s);
    assert Holders(t) == Holders(s) + multiset{h};
    forall k: Id | k < |t.fds| ensures k in t.core.live || ClosedIn(t.core.closed, k) {
      assert k == h || k in s.core.live || ClosedIn(s.core.closed, k);
    }
  }

  lemma EmptiedKeepsInv(s: State, p: nat, ready: bool)
    requires Inv(s) && p < |s.payloads|
    ensures Inv(Emptied(s, p, ready))
    ensures Holders(Emptied(s, p, ready)) == Holders(s) - multiset(s.payloads[p].handles)
  {
    hide Counts, Log, PutAll, Stored;
    var hs := s.payloads[p].handles;
    StoredUpdate(s.payloads, p, Payload([], [], ready));
    assert Stored(s.payloads) - multiset(hs) + multiset([]) == Stored(s.payloads) - multiset(hs);
    assert s.held + (Stored(s.payloads) - multiset(hs)) == Holders(s) - multiset(hs);
    PutAllCounts(s.core, Holders(s), hs);
    PutAllLog(s.core, s.fds, hs);
  }

  lemma GetLog(c: Core, fds: seq<int>, h: Id)
    requires Log(c, fds)
    ensures Log(GetOne(c, h), fds)
  {
    assert forall k :: k in GetOne(c, h).live <==> k in c.live;
  }

  lemma PushKeepsInv(s: State, p: nat, h: Id)
    requires Inv(s) && Allowed(s, Push(p, h))
    ensures Inv(Step(s, Push(p, h)))
    ensures Holders(Step(s, Push(p, h))) == Holders(s) + multiset{h}
  {
    hide Counts, Log, GetOne, Stored;
    var hs := s.payloads[p].handles;
    StoredUpdate(s.payloads, p, s.payloads[p].(handles := hs + [h]));
    assert Stored(s.payloads) - multiset(hs) + multiset(hs + [h]) == Stored(s.payloads) + multiset{h};
    assert s.held + (Stored(s.payloads) + multiset{h}) == Holders(s) + multiset{h};
    GetCounts(s.core, Holders(s), h);
    GetLog(s.core, s.fds, h);
  }

  /** Every operation keeps each count equal to the number of holders. */
  lemma StepKeepsInv(s: State, op: Op)
    requires Inv(s) && Allowed(s, op)
    ensures Inv(Step(s, op))
  {
    hide Counts, Log, GetOne, PutOne, Stored;
    match op
    case Create(fd) => CreateKeepsInv(s, fd);
    case Get(h) => HoldOne(s, h);
    case Put(h) =>
      PutCounts(s.core, Holders(s), h);
      PutLog(s.core, s.fds, h);
      assert s.held - multiset{h} + Stored(s.payloads) == Holders(s) - multiset{h};
    case Push(p, h) => PushKeepsInv(s, p, h);
    case Pop(h, p) =>
      StoredHas(s.payloads, p, h);
      HoldOne(s, h);
    case Clear(p) => EmptiedKeepsInv(s, p, s.payloads[p].ready);
    case Reset(p) => EmptiedKeepsInv(s, p, false);
    case AddPayload(bytes) =>
      StoredAppend(s.payloads, Payload(bytes, [], true));
      assert Stored(s.payloads) + multiset([]) == Stored(s.payloads);
  }

  lemma HoldOne(s: State, h: Id)
    requires Inv(s) && h in Holders(s)
    ensures Inv(s.(core := GetOne(s.core, h), held := s.held + multiset{h}))
  {
    hide Counts, Log, GetOne;
    GetCounts(s.core, Holders(s), h);
    GetLog(s.core, s.fds, h);
    assert s.held + multiset{h} + Stored(s.payloads) == Holders(s) + multiset{h};
  }

  /** What each operation gives and takes: a get, a push and a pop add one holder, a put and a clear take theirs away. */
  lemma StepHolders(s: State, op: Op)
    requires Allowed(s, op)
    ensures var t := Step(s, op);
            Holders(t) == match op
                          case Create(_) => Holders(s) + multiset{|s.fds|}
                          case Get(h) => Holders(s) + multiset{h}
                          case Put(h) => Holders(s) - multiset{h}
                          case Push(_, h) => Holders(s) + multiset{h}
                          case Pop(h, _) => Holders(s) + multiset{h}
                          case Clear(p) => Holders(s) - multiset(s.payloads[p].handles)
                          case Reset(p) => Holders(s) - multiset(s.payloads[p].handles)
                          case AddPayload(_) => Holders(s)
  {
    hide Stored, GetOne, PutOne, PutAll;
    match op
    case Push(p, h) =>
      var hs := s.payloads[p].handles;
      StoredUpdate(s.payloads, p, s.payloads[p].(handles := hs + [h]));
      OneMore(Stored(s.payloads), hs, h);
      MovedOut(s.held, Stored(s.payloads), multiset{h});
    case Clear(p) =>
      StoredUpdate(s.payloads, p, Payload([], [], s.payloads[p].ready));
      TakenAway(s, p);
    case Reset(p) =>
      StoredUpdate(s.payloads, p, Payload([], [], false));
      TakenAway(s, p);
    case AddPayload(bytes) =>
      StoredAppend(s.payloads, Payload(bytes, [], true));
      assert Stored(s.payloads) + multiset([]) == Stored(s.payloads);
    case _ =>
  }

  lemma OneMore(all: multiset<Id>, hs: seq<Id>, h: Id)
    requires multiset(hs) <= all
    ensures all - multiset(hs) + multiset(hs + [h]) == all + multiset{h}
  {
  }

  lemma MovedOut(a: multiset<Id>, b: multiset<Id>, c: multiset<Id>)
    ensures a + (b + c) == a + b + c
  {
  }

  lemma TakenAway(s: State, p: nat)
    requires p < |s.payloads| && multiset(s.payloads[p].handles) <= Stored(s.payloads)
    ensures var hs := multiset(s.payloads[p].handles);
            s.held + (Stored(s.payloads) - hs + multiset([])) == Holders(s) - hs
  {
    hide Stored;
  }

  /** Whose reference it is: the caller's after a create, a get and a pop; the payload's, behind its others, after a push. */
  lemma StepOwners(s: State, op: Op)
    requires Allowed(s, op)
    ensures var t := Step(s, op);
            match op
            case Create(fd) => t.held == s.held + multiset{|s.fds|} && t.fds == s.fds + [fd] && t.payloads == s.payloads
            case Get(h) => t.held == s.held + multiset{h} && t.fds == s.fds && t.payloads == s.payloads
            case Put(h) => t.held == s.held - multiset{h} && t.fds == s.fds && t.payloads == s.payloads
            case Pop(h, _) => t.held == s.held + multiset{h} && t.fds == s.fds && t.payloads == s.payloads
            case Push(p, h) =>
              && t.held == s.held && t.fds == s.fds && |t.payloads| == |s.payloads|
              && t.payloads[p].handles == s.payloads[p].handles + [h] && t.payloads[p].bytes == s.payloads[p].bytes
              && forall q | 0 <= q < |s.payloads| && q != p :: t.payloads[q] == s.payloads[q]
            case Clear(p) => EmptiesOnly(s, t, p) && t.payloads[p].ready == s.payloads[p].ready
            case Reset(p) => EmptiesOnly(s, t, p) && !t.payloads[p].ready
            case AddPayload(bytes) =>
              && t.held == s.held && t.fds == s.fds && t.payloads == s.payloads + [Payload(bytes, [], true)]
  {
    hide GetOne, PutOne, PutAll;
  }

  predicate EmptiesOnly(s: State, t: State, p: nat) {
    && p < |t.payloads| == |s.payloads| && t.payloads[p].bytes == [] && t.payloads[p].handles == []
    && t.held == s.held && t.fds == s.fds
    && forall q | 0 <= q < |s.payloads| && q != p :: t.payloads[q] == s.payloads[q]
  }

  // ---------------------------------------------------------------------
  // Runs

  const INITIAL := State(Core(map[], []), [], multiset{}, [])

  ghost predicate IsRun(ss: seq<State>, ops: seq<Op>) {
    && |ss| == |ops| + 1 && ss[0] == INITIAL
    && forall i :: 0 <= i < |ops| ==> Allowed(ss[i], ops[i]) && ss[i + 1] == Step(ss[i], ops[i])
  }

  lemma {:induction false} InvHolds(ss: seq<State>, ops: seq<Op>, i: nat)
    requires IsRun(ss, ops) && i < |ss|
    ensures Inv(ss[i])
  {
    if i > 0 {
      InvHolds(ss, ops, i - 1);
      StepKeepsInv(ss[i - 1], ops[i - 1]);
      assert ss[i] == Step(ss[i - 1], ops[i - 1]);
    }
  }

  lemma PutAppends(c: Core, h: Id)
    ensures c.closed <= PutOne(c, h).closed
  {
  }

  lemma {:induction false} PutAllAppends(c: Core, hs: seq<Id>)
    ensures c.closed <= PutAll(c, hs).closed
  {
    if hs != [] {
      PutAllAppends(c, hs[..|hs| - 1]);
      PutAppends(PutAll(c, hs[..|hs| - 1]), hs[|hs| - 1]);
    }
  }

  lemma StepAppends(s: State, op: Op)
    requires Allowed(s, op)
    ensures s.core.closed <= Step(s, op).core.closed
    ensures s.fds <= Step(s, op).fds
  {
    match op
    case Clear(p) => PutAllAppends(s.core, s.payloads[p].handles);
    case Reset(p) => PutAllAppends(s.core, s.payloads[p].handles);
    case _ =>
  }

  /** A step closes a handle exactly if it takes its last holder away; a new handle has one. */
  lemma ClosedAtLastRelease(s: State, op: Op, h: Id)
    requires Inv(s) && Allowed(s, op)
    ensures var t := Step(s, op);
            (ClosedIn(t.core.closed, h) && !ClosedIn(s.core.closed, h)) <==> (h in Holders(s) && h !in Holders(t))
  {
    hide Holders;
    StepKeepsInv(s, op);
    StepAppends(s, op);
    var t := Step(s, op);
    if h in Holders(s) {
      assert h in s.core.live && !ClosedIn(s.core.closed, h);
    } else if h < |s.fds| {
      assert ClosedIn(s.core.closed, h);
    } else if h < |t.fds| {
      assert op.Create? && h in t.core.live;
    }
  }

  /** A run at whose end nobody holds anything has closed every descriptor it was given, each exactly once. */
  lemma BalancedRunClosesAll(ss: seq<State>, ops: seq<Op>, h: Id)
    requires IsRun(ss, ops) && Holders(ss[|ops|]) == multiset{} && h < |ss[|ops|].fds|
    ensures var s := ss[|ops|];
            exists i :: 0 <= i < |s.core.closed| && s.core.closed[i] == (h, s.fds[h]) &&
                        forall j :: 0 <= j < |s.core.closed| && s.core.closed[j].0 == h ==> j == i
  {
    InvHolds(ss, ops, |ops|);
    var s := ss[|ops|];
    assert ClosedIn(s.core.closed, h);
    var i :| 0 <= i < |s.core.closed| && s.core.closed[i].0 == h;
    assert s.core.closed[i] == (h, s.fds[h]);
  }
}
