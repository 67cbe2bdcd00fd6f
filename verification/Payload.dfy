/**
 src/common/payload.c: the operations on payloads, with their loops over handles.
 They run on the handles of FdHandles.dfy and are proved against its steps.
 */
module Payloads {
  import opened Bytes
  import opened FdHandles
  import opened Wrappers

  class World {
    var s: State

    constructor ()
      ensures s == INITIAL && Inv(s)
    {
      s := INITIAL;
    }

    /** fd_handle_put */
    method HandlePut(h: Id)
      requires Inv(s) && h in s.held
      modifies this
      ensures Inv(s) && s == Step(old(s), Put(h))
    {
      StepKeepsInv(s, Put(h));
      s := s.(core := PutOne(s.core, h), held := s.held - multiset{h});
    }

    /** The destructor loop of lttng_dynamic_pointer_array_clear and _reset. */
    method ReleaseAll(hs: seq<Id>)
      modifies this
      ensures s == old(s).(core := PutAll(old(s).core, hs))
    {
      assert hs[..0] == [];
      var i := 0;
      while i < |hs|
        invariant i <= |hs| && s == old(s).(core := PutAll(old(s).core, hs[..i]))
      {
        assert hs[..i + 1][..i] == hs[..i];
        s := s.(core := PutOne(s.core, hs[i]));
        i := i + 1;
      }
      assert hs[..i] == hs;
    }

    /** lttng_payload_clear */
    method PayloadClear(p: nat)
      requires Inv(s) && p < |s.payloads|
      modifies this
      ensures Inv(s) && s == Step(old(s), Clear(p))
    {
      StepKeepsInv(s, Clear(p));
      ReleaseAll(s.payloads[p].handles);
      s := s.(payloads := s.payloads[p := Payload([], [], s.payloads[p].ready)]);
    }

    /** lttng_payload_reset */
    method PayloadReset(p: nat)
      requires Inv(s) && p < |s.payloads|
      modifies this
      ensures Inv(s) && s == Step(old(s), Reset(p))
    {
      StepKeepsInv(s, Reset(p));
      ReleaseAll(s.payloads[p].handles);
      s := s.(payloads := s.payloads[p := Payload([], [], false)]);
    }

    /** lttng_payload_push_fd_handle; `grown` says whether the array could grow. */
    method PushFdHandle(p: nat, h: Id, grown: bool) returns (ret: int)
      requires Inv(s) && Allowed(s, Push(p, h))
      modifies this
      ensures Inv(s) && (ret == 0 <==> grown)
      ensures s == if ret == 0 then Step(old(s), Push(p, h)) else old(s)
    {
      if !grown {
        return -1;
      }
      StepKeepsInv(s, Push(p, h));
      s := s.(payloads := s.payloads[p := s.payloads[p].(handles := s.payloads[p].handles + [h])]);
      s := s.(core := GetOne(s.core, h));
      return 0;
    }

    /** fd_handle_copy; `dup` is what dup(2) returned. */
    method HandleCopy(dup: int) returns (h: Option<Id>)
      requires Inv(s)
      modifies this
      ensures Inv(s)
      ensures h == if dup < 0 then None else Some(|old(s).fds|)
      ensures s == if dup < 0 then old(s) else Step(old(s), Create(dup))
    {
      if dup < 0 {
        return None;
      }
      StepKeepsInv(s, Create(dup));
      h := Some(|s.fds|);
      s := Step(s, Create(dup));
    }

    /** One round of lttng_payload_copy: duplicate, push, and drop the loop's own reference. */
    method CopyOne(dst: nat, dup: int, grown: bool) returns (ret: int)
      requires Inv(s) && dst < |s.payloads| && s.payloads[dst].ready
      modifies this
      ensures Inv(s) && (ret == 0 <==> dup >= 0 && grown)
      ensures s.held == old(s).held && s.fds == old(s).fds + if dup < 0 then [] else [dup]
      ensures s.payloads == if ret == 0 then Pushed(old(s).payloads, dst, |old(s).fds|) else old(s).payloads
      ensures Holders(s) == if ret == 0 then Holders(old(s)) + multiset{|old(s).fds|} else Holders(old(s))
    {
      hide Inv, GetOne, PutOne, Holders;
      var copy := HandleCopy(dup);
      if copy.None? {
        return -1;
      }
      StepHolders(old(s), Create(dup));
      var h := copy.value;
      PushKeepsInv(s, dst, h);
      ret := PushFdHandle(dst, h, grown);
      StepHolders(s, Put(h));
      HandlePut(h);
      Undone(old(s).held, h);
      Undone(Holders(old(s)), h);
      Undone(Holders(old(s)) + multiset{h}, h);
    }

    /**
     lttng_payload_copy: the destination gets the bytes and duplicates of the
     handles, which it alone holds; `dups` and `grown` are the outcomes of dup(2) and
     of growing the destination's array. A copy that fails half-way leaves those
     already made.
     */
    method PayloadCopy(src: nat, dst: nat, dups: seq<int>, grown: seq<bool>) returns (ret: int, ghost made: nat)
      requires Inv(s) && src < |s.payloads| && dst < |s.payloads| && src != dst && s.payloads[dst].ready
      requires |dups| == |grown| == |s.payloads[src].handles|
      modifies this
      ensures Inv(s) && s.held == old(s).held
      ensures made <= |dups| && (ret == 0 <==> made == |dups|)
      ensures forall i | 0 <= i < made :: dups[i] >= 0 && grown[i]
      ensures ret != 0 ==> dups[made] < 0 || !grown[made]
      ensures CopiedTo(old(s), s.payloads, src, dst, made)
      ensures old(s).fds + dups[..made] <= s.fds
      ensures Holders(s) == Holders(old(s)) + multiset(Fresh(|old(s).fds|, made))
    {
      hide Inv, Holders, CopiedPayloads, CopiedTo, Fresh;
      s := s.(payloads := s.payloads[dst := s.payloads[dst].(bytes := s.payloads[dst].bytes + s.payloads[src].bytes)]);
      BytesKeepInv(old(s), dst, s.payloads[dst].bytes);
      CopiedNone(old(s), src, dst);
      ret, made := CopyHandles(old(s), src, dst, dups, grown);
      CopiedAre(old(s), src, dst, made);
    }

    /** Its loop, once the bytes have been copied. */
    method CopyHandles(ghost s0: State, ghost src: nat, dst: nat, dups: seq<int>, grown: seq<bool>)
      returns (ret: int, ghost made: nat)
      requires Inv(s) && src < |s0.payloads| && dst < |s0.payloads| && s0.payloads[dst].ready && |dups| == |grown|
      requires s.payloads == CopiedPayloads(s0, src, dst, 0) && s.fds == s0.fds && Holders(s) == Holders(s0)
      modifies this
      ensures Inv(s) && s.held == old(s).held
      ensures made <= |dups| && (ret == 0 <==> made == |dups|)
      ensures forall i | 0 <= i < made :: dups[i] >= 0 && grown[i]
      ensures ret != 0 ==> dups[made] < 0 || !grown[made]
      ensures s.payloads == CopiedPayloads(s0, src, dst, made) && s0.fds + dups[..made] <= s.fds
      ensures Holders(s) == Holders(s0) + multiset(Fresh(|s0.fds|, made))
    {
      hide Inv, Holders, CopiedPayloads, Pushed, Fresh;
      NoneFresh(|s0.fds|);
      var i := 0;
      made := 0;
      while i < |dups|
        invariant i <= |dups| && made == i && Inv(s) && s.held == old(s).held
        invariant s.fds == s0.fds + dups[..i] && s.payloads == CopiedPayloads(s0, src, dst, i)
        invariant Holders(s) == Holders(s0) + multiset(Fresh(|s0.fds|, i))
        invariant forall j | 0 <= j < i :: dups[j] >= 0 && grown[j]
      {
        ret := CopyOne(dst, dups[i], grown[i]);
        if ret != 0 {
          return;
        }
        CopiedNext(s0, src, dst, i);
        NextDup(s0.fds, dups, i);
        i := i + 1;
        made := made + 1;
      }
      ret := 0;
    }
  }

  /** `dst` has the bytes of `src`, and `k` handles made since, in order, behind its own; nothing else changed. */
  predicate CopiedTo(s: State, ps: seq<Payload>, src: nat, dst: nat, k: nat)
    requires src < |s.payloads| && dst < |s.payloads|
  {
    var hs := s.payloads[dst].handles;
    && |ps| == |s.payloads| && (forall p | 0 <= p < |ps| && p != dst :: ps[p] == s.payloads[p])
    && ps[dst].bytes == s.payloads[dst].bytes + s.payloads[src].bytes && ps[dst].ready == s.payloads[dst].ready
    && |ps[dst].handles| == |hs| + k && hs <= ps[dst].handles && ps[dst].handles[|hs|..] == Fresh(|s.fds|, k)
    && forall i | |hs| <= i < |hs| + k :: ps[dst].handles[i] == |s.fds| + (i - |hs|)
  }

  lemma CopiedAre(s: State, src: nat, dst: nat, k: nat)
    requires src < |s.payloads| && dst < |s.payloads|
    ensures CopiedTo(s, CopiedPayloads(s, src, dst, k), src, dst, k)
  {
    var hs := s.payloads[dst].handles;
    assert (hs + Fresh(|s.fds|, k))[|hs|..] == Fresh(|s.fds|, k);
  }

  lemma NextDup(fds: seq<int>, dups: seq<int>, i: nat)
    requires i < |dups|
    ensures fds + dups[..i + 1] == fds + dups[..i] + [dups[i]]
  {
  }

  lemma Undone(m: multiset<Id>, h: Id)
    ensures m + multiset{h} - multiset{h} == m
  {
  }

  function Pushed(ps: seq<Payload>, p: nat, h: Id): seq<Payload>
    requires p < |ps|
  {
    ps[p := ps[p].(handles := ps[p].handles + [h])]
  }

  /** The `k` identities handed out from `n` on. */
  function Fresh(n: Id, k: nat): (hs: seq<Id>)
    ensures |hs| == k
  {
    seq(k, i requires 0 <= i => n + i)
  }

  lemma NoneFresh(n: Id)
    ensures multiset(Fresh(n, 0)) == multiset{}
  {
  }

  lemma NextFresh(n: Id, k: nat)
    ensures Fresh(n, k + 1) == Fresh(n, k) + [n + k]
  {
  }

  /** The payloads once `k` handles of `src` have been copied to `dst`. */
  function CopiedPayloads(s: State, src: nat, dst: nat, k: nat): (ps: seq<Payload>)
    requires src < |s.payloads| && dst < |s.payloads|
    ensures |ps| == |s.payloads| && ps[dst].ready == s.payloads[dst].ready
  {
    var (a, b) := (s.payloads[src], s.payloads[dst]);
    s.payloads[dst := b.(bytes := b.bytes + a.bytes, handles := b.handles + Fresh(|s.fds|, k))]
  }

  lemma CopiedNone(s: State, src: nat, dst: nat)
    requires src < |s.payloads| && dst < |s.payloads|
    ensures CopiedPayloads(s, src, dst, 0) ==
            s.payloads[dst := s.payloads[dst].(bytes := s.payloads[dst].bytes + s.payloads[src].bytes)]
  {
    assert s.payloads[dst].handles + [] == s.payloads[dst].handles;
  }

  lemma CopiedNext(s: State, src: nat, dst: nat, k: nat)
    requires src < |s.payloads| && dst < |s.payloads|
    ensures CopiedPayloads(s, src, dst, k + 1) == Pushed(CopiedPayloads(s, src, dst, k), dst, |s.fds| + k)
    ensures var h: Id := |s.fds| + k;
            Holders(s) + multiset(Fresh(|s.fds|, k)) + multiset{h} == Holders(s) + multiset(Fresh(|s.fds|, k + 1))
  {
    hide Fresh, Holders;
    NextFresh(|s.fds|, k);
    var hs := s.payloads[dst].handles;
    assert hs + Fresh(|s.fds|, k) + [|s.fds| + k] == hs + Fresh(|s.fds|, k + 1);
  }

  lemma BytesKeepInv(s: State, p: nat, bytes: seq<byte>)
    requires Inv(s) && p < |s.payloads|
    ensures var t := s.(payloads := s.payloads[p := s.payloads[p].(bytes := bytes)]);
            Inv(t) && Holders(t) == Holders(s)
  {
    hide Counts, Log, Stored;
    StoredUpdate(s.payloads, p, s.payloads[p].(bytes := bytes));
    var (m, x) := (Stored(s.payloads), multiset(s.payloads[p].handles));
    assert m - x + x == m;
  }
}
