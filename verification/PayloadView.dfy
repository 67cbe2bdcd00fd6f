/**
 src/common/payload-view.c: views on a payload and views on those views, which
 share one position in the payload's list of handles. The pointer that shares it
 is modelled by the index of the view it points into.
 */
module PayloadViews {
  import opened Bytes
  import opened BufferViews
  import opened Wrappers
  import FdHandles

  type Id = FdHandles.Id

  /** struct lttng_payload_view: `pointer` is the view whose `position` is used, none for a view on a payload. */
  datatype PView = PView(buffer: View, pointer: Option<nat>, position: nat)

  /** The views made so far on one payload, and the handles popped through any of them. */
  datatype State = State(handles: seq<Id>, views: seq<PView>, popped: seq<Id>)

  /** lttng_payload_view_from_payload */
  function Start(mem: seq<byte>, handles: seq<Id>, offset: nat, len: int): State {
    State(handles, [PView(FromBuffer(mem, offset, len), None, 0)], [])
  }

  datatype Op = Derive(view: nat, offset: nat, len: int) | Pop(view: nat)

  /** The view whose position field view `i` uses. */
  function Target(s: State, i: nat): nat
    requires i < |s.views|
  {
    if s.views[i].pointer.Some? then s.views[i].pointer.value else i
  }

  predicate Allowed(s: State, op: Op) {
    op.view < |s.views| && Target(s, op.view) < |s.views| && Inside(s.views[op.view].buffer)
  }

  /** lttng_payload_view_get_fd_handle_count */
  function HandleCount(s: State, i: nat): int
    requires i < |s.views| && Target(s, i) < |s.views|
  {
    |s.handles| - s.views[Target(s, i)].position
  }

  /** lttng_payload_view_pop_fd_handle: the handle it returns. */
  function Popped(s: State, i: nat): Option<Id>
    requires i < |s.views| && Target(s, i) < |s.views|
  {
    var position := s.views[Target(s, i)].position;
    if HandleCount(s, i) == 0 || position >= |s.handles| then None else Some(s.handles[position])
  }

  function Step(s: State, op: Op): State
    requires Allowed(s, op)
  {
    match op
    case Derive(i, offset, len) =>
      s.(views := s.views + [PView(FromView(s.views[i].buffer, offset, len), Some(Target(s, i)), 0)])
    case Pop(i) =>
      var (h, t) := (Popped(s, i), Target(s, i));
      if h.None? then s
      else s.(views := s.views[t := s.views[t].(position := s.views[t].position + 1)], popped := s.popped + [h.value])
  }

  /** `v` shows part of what `root` shows, or nothing. */
  predicate Within(root: View, v: View) {
    v.View? ==> root.View? && v.mem == root.mem && root.at <= v.at && v.at + v.size <= root.at + root.size
  }

  ghost predicate Inv(s: State) {
    && |s.views| > 0 && Inside(s.views[0].buffer)
    && (forall i :: 0 <= i < |s.views| ==> s.views[i].pointer == if i == 0 then None else Some(0))
    && (forall i :: 0 <= i < |s.views| ==> Inside(s.views[i].buffer) && Within(s.views[0].buffer, s.views[i].buffer))
    && s.views[0].position <= |s.handles| && s.popped == s.handles[..s.views[0].position]
  }

  lemma StepKeepsInv(s: State, op: Op)
    requires Inv(s) && Allowed(s, op)
    ensures Inv(Step(s, op)) && Step(s, op).handles == s.handles
  {
    var t := Step(s, op);
    match op
    case Derive(i, offset, len) =>
      assert s.views[i].pointer == if i == 0 then None else Some(0);
      assert Within(s.views[0].buffer, FromView(s.views[i].buffer, offset, len));
    case Pop(i) =>
      assert s.views[i].pointer == if i == 0 then None else Some(0);
      assert Target(s, i) == 0;
      if Popped(s, i).Some? {
        assert s.handles[..s.views[0].position + 1] == s.handles[..s.views[0].position] + [s.handles[s.views[0].position]];
      }
  }

  ghost predicate IsRun(ss: seq<State>, ops: seq<Op>) {
    && |ss| == |ops| + 1
    && forall i :: 0 <= i < |ops| ==> Allowed(ss[i], ops[i]) && ss[i + 1] == Step(ss[i], ops[i])
  }

  lemma {:induction false} InvHolds(ss: seq<State>, ops: seq<Op>, i: nat)
    requires IsRun(ss, ops) && Inv(ss[0]) && i < |ss|
    ensures Inv(ss[i]) && ss[i].handles == ss[0].handles
  {
    if i > 0 {
      InvHolds(ss, ops, i - 1);
      StepKeepsInv(ss[i - 1], ops[i - 1]);
      assert ss[i] == Step(ss[i - 1], ops[i - 1]);
    }
  }

  /** How many handles have been asked for, through whichever view. */
  function Asked(ops: seq<Op>): nat {
    if ops == [] then 0 else Asked(ops[..|ops| - 1]) + if ops[|ops| - 1].Pop? then 1 else 0
  }

  lemma {:induction false} PoppedSoFar(ss: seq<State>, ops: seq<Op>, k: nat)
    requires IsRun(ss, ops) && Inv(ss[0]) && ss[0].popped == [] && k < |ss|
    ensures Inv(ss[k]) && ss[k].handles == ss[0].handles
    ensures |ss[k].popped| == if Asked(ops[..k]) < |ss[0].handles| then Asked(ops[..k]) else |ss[0].handles|
  {
    if k > 0 {
      PoppedSoFar(ss, ops, k - 1);
      StepKeepsInv(ss[k - 1], ops[k - 1]);
      assert ss[k] == Step(ss[k - 1], ops[k - 1]) && ops[..k][..k - 1] == ops[..k - 1];
    }
  }

  /**
   However views are nested and whichever of them is asked, the handles come out in
   the order they were pushed, each once; a view gives none exactly when all are
   out; and all views agree on how many are left.
   */
  lemma PopsInOrder(mem: seq<byte>, handles: seq<Id>, offset: nat, len: int, ss: seq<State>, ops: seq<Op>, k: nat, v: nat)
    requires IsRun(ss, ops) && ss[0] == Start(mem, handles, offset, len) && k < |ss| && v < |ss[k].views|
    ensures var (s, n) := (ss[k], Asked(ops[..k]));
            && Target(s, v) < |s.views| && HandleCount(s, v) == (if n < |handles| then |handles| - n else 0)
            && Popped(s, v) == if n < |handles| then Some(handles[n]) else None
  {
    PoppedSoFar(ss, ops, k);
  }

  /** A view derived from a view is valid exactly if it is not empty and fits, and shows that slice, or the rest, of it. */
  lemma DerivedShows(s: State, i: nat, offset: nat, len: int)
    requires Inv(s) && i < |s.views|
    ensures Allowed(s, Derive(i, offset, len))
    ensures var (t, src) := (Step(s, Derive(i, offset, len)), Seen(s.views[i].buffer));
            && |t.views| == |s.views| + 1 && t.views[..|s.views|] == s.views && t.popped == s.popped
            && var (w, n) := (t.views[|s.views|].buffer, if len == -1 then |src| - offset else len);
               && (IsValid(w) <==> 0 < n && offset + n <= |src|)
               && (IsValid(w) ==> Seen(w) == src[offset..offset + n])
  {
    hide Seen;
    assert s.views[i].pointer == if i == 0 then None else Some(0);
    RestView(s.views[i].buffer, offset);
    if len >= 0 {
      SubView(s.views[i].buffer, offset, len);
    }
  }

  /** No view, however derived, reaches outside the one it was derived from. */
  lemma ViewsStayInside(mem: seq<byte>, handles: seq<Id>, offset: nat, len: int, ss: seq<State>, ops: seq<Op>, v: nat)
    requires IsRun(ss, ops) && ss[0] == Start(mem, handles, offset, len) && v < |ss[|ops|].views|
    ensures var w := ss[|ops|].views[v].buffer;
            Inside(w) && (w.View? ==> w.mem == mem && offset <= w.at && (len != -1 ==> w.at + w.size <= offset + len))
  {
    InvHolds(ss, ops, |ops|);
    FirstBuffer(ss, ops, |ops|);
  }

  lemma {:induction false} FirstBuffer(ss: seq<State>, ops: seq<Op>, i: nat)
    requires IsRun(ss, ops) && Inv(ss[0]) && i < |ss|
    ensures Inv(ss[i]) && ss[i].views[0].buffer == ss[0].views[0].buffer
  {
    if i > 0 {
      FirstBuffer(ss, ops, i - 1);
      StepKeepsInv(ss[i - 1], ops[i - 1]);
      assert ss[i] == Step(ss[i - 1], ops[i - 1]);
    }
  }

  /** Popping is something the payload's handles allow: the caller gets a reference of its own. */
  lemma PopTakesReference(s: State, i: nat, w: FdHandles.State, p: nat)
    requires Inv(s) && i < |s.views| && Popped(s, i).Some?
    requires FdHandles.Inv(w) && p < |w.payloads| && w.payloads[p].handles == s.handles
    ensures var op := FdHandles.Pop(Popped(s, i).value, p);
            && FdHandles.Allowed(w, op) && FdHandles.Inv(FdHandles.Step(w, op))
            && FdHandles.Step(w, op).held == w.held + multiset{Popped(s, i).value}
  {
    FdHandles.StepKeepsInv(w, FdHandles.Pop(Popped(s, i).value, p));
  }
}
