/**
 src/common/runas.c: the command protocol between the session daemon (master)
 and its privileged worker process, over a pair of reliable FIFO sockets.

 The two processes interleave freely. Each socket operation, credential change
 and command execution is one step; the outcomes the operating system decides
 (demotion, the command itself, closing a descriptor, the death of the worker)
 are arguments of the step. A receiver that finds another kind of message
 than the one it waits for enters a desynchronised state; no execution
 reaches one.
 */
module RunAs {
  import opened Wrappers

  datatype Command =
    | Mkdir | MkdirAt | MkdirRecursive | MkdirAtRecursive
    | Open | OpenAt
    | Unlink | UnlinkAt
    | Rmdir | RmdirAt | RmdirRecursive | RmdirAtRecursive
    | Rename | RenameAt
    | ExtractElfSymbolOffset | ExtractSdtProbeOffsets
    | GenerateFilterBytecode

  const AT_FDCWD := -100

  // The command property table.

  function InFdCount(c: Command): nat {
    match c
    case GenerateFilterBytecode => 0
    case Rename => 2
    case RenameAt => 2
    case _ => 1
  }

  function OutFdCount(c: Command): nat {
    if c == Open || c == OpenAt then 1 else 0
  }

  predicate UseCwdFd(c: Command) {
    c in {Mkdir, MkdirRecursive, Open, Unlink, Rmdir, RmdirRecursive, Rename}
  }

  /** Whether descriptors follow the command on the socket. */
  predicate SendsIn(c: Command) {
    !UseCwdFd(c) && InFdCount(c) > 0
  }

  /**
   The run_as_ret structure. `u` is the union: the integer result and the
   descriptor of an open are the same word.
   */
  datatype Reply = Reply(error: bool, u: int)

  datatype Message = Data(cmd: Command) | Fds(fds: seq<int>) | Ret(reply: Reply)

  /** How one run_as_cmd ended, when it did not end in EIO. */
  datatype Outcome =
    | Never                                              // no call yet
    | Refused                                            // EPERM
    | Done(cmd: Command, reply: Reply, received: seq<int>)

  datatype Master =
    | Resting(last: Outcome)                  // between two calls
    | SendingIn(cmd: Command, fds: seq<int>)  // stage 2
    | AwaitingRet(cmd: Command)               // stage 4
    | AwaitingOut(cmd: Command, reply: Reply) // stage 5
    | Broken                                  // the call ended in EIO
    | MasterLost

  datatype Worker =
    | AwaitingData                                            // stage 1
    | AwaitingIn(cmd: Command)                                // stage 2
    | Demoting(cmd: Command, fds: seq<int>)
    | Executing(cmd: Command, fds: seq<int>)                  // stage 3
    | CleaningUp(cmd: Command, fds: seq<int>, reply: Reply)
    | SendingRet(cmd: Command, reply: Reply)                  // stage 4
    | SendingOut(cmd: Command, reply: Reply)                  // stage 5
    | ClosingOut(fd: int)
    | Gone                                                    // exited or killed
    | WorkerLost

  datatype State = State(master: Master, worker: Worker, toWorker: seq<Message>, toMaster: seq<Message>)

  datatype Action =
    | Begin(cmd: Command, fds: seq<int>, permitted: bool)
    | SendFails                                // EPIPE towards a dead worker
    | SendIn | RecvRet | RecvOut | HangUp | Restart
    | WRecvData | WRecvIn | WDemote(ok: bool) | WExecute(fds: seq<int>, reply: Reply)
    | WCleanUp(ok: bool) | WSendRet | WSendOut | WCloseOut | WDies

  predicate Init(s: State) {
    s == State(Resting(Never), AwaitingData, [], [])
  }

  // ---------------------------------------------------------------------
  // The master: run_as_cmd

  /** The stage that follows a received run_as_ret. */
  function AfterRet(c: Command, r: Reply): Master {
    if r.error then Resting(Done(c, r, []))         // stage 5 is skipped on error
    else if OutFdCount(c) == 0 then Resting(Done(c, r, []))
    else AwaitingOut(c, r)
  }

  predicate MasterNext(s: State, a: Action, t: State) {
    match a
    case Begin(c, fds, permitted) =>
      && s.master.Resting? && |fds| == InFdCount(c)
      && t == if !permitted then s.(master := Resting(Refused))
              else s.(toWorker := s.toWorker + [Data(c)],
                      master := if SendsIn(c) then SendingIn(c, fds) else AwaitingRet(c))
    case SendFails =>
      (s.master.Resting? || s.master.SendingIn?) && s.worker == Gone && t == s.(master := Broken)
    case SendIn =>
      && s.master.SendingIn?
      && var fds := s.master.fds;
         t == if exists i :: 0 <= i < |fds| && fds[i] < 0 then s.(master := Broken)
              else s.(toWorker := s.toWorker + [Fds(fds)], master := AwaitingRet(s.master.cmd))
    case RecvRet =>
      && s.master.AwaitingRet? && s.toMaster != []
      && t == s.(toMaster := s.toMaster[1..],
                 master := if s.toMaster[0].Ret? then AfterRet(s.master.cmd, s.toMaster[0].reply)
                           else MasterLost)
    case RecvOut =>
      && s.master.AwaitingOut? && s.toMaster != []
      && var (c, r, m) := (s.master.cmd, s.master.reply, s.toMaster[0]);
         t == s.(toMaster := s.toMaster[1..],
                 master := if m.Fds? && |m.fds| == OutFdCount(c) > 0
                           then Resting(Done(c, r.(u := m.fds[0]), m.fds)) else MasterLost)
    case HangUp =>
      && (s.master.AwaitingRet? || s.master.AwaitingOut?) && s.toMaster == [] && s.worker == Gone
      && t == s.(master := Broken)
    case Restart => s.master == Broken && t == State(Resting(Never), AwaitingData, [], [])
    case _ => false
  }

  // ---------------------------------------------------------------------
  // The worker: handle_one_cmd

  /** What running a command may do to the descriptors it holds and to the reply. */
  predicate Executed(c: Command, fds: seq<int>, fds': seq<int>, r: Reply) {
    match c
    case ExtractElfSymbolOffset => fds' == fds
    case ExtractSdtProbeOffsets => fds' == fds
    case GenerateFilterBytecode => fds' == fds
    case _ =>
      // No directory handle: the descriptors are kept and the reply is an error.
      || (fds' == fds && r == Reply(true, -1))
      // The handle owns the descriptors: they read as -1 from here on.
      || (&& fds' == seq(|fds|, i => -1)
          && if c == Open || c == OpenAt then (r.error && r.u == -1) || (!r.error && r.u >= 0)
             else r.error == (r.u != 0))
  }

  /** Whether closing all of `fds` but the -1 entries can give this result. */
  predicate CleansUp(fds: seq<int>, ok: bool) {
    && (ok ==> AT_FDCWD !in fds)                     // close(AT_FDCWD) fails
    && (!ok ==> exists i :: 0 <= i < |fds| && fds[i] != -1)
  }

  predicate WorkerNext(s: State, a: Action, t: State) {
    match a
    case WRecvData =>
      && s.worker == AwaitingData && s.toWorker != []
      && t == s.(toWorker := s.toWorker[1..],
                 worker := if s.toWorker[0].Data? then AwaitingIn(s.toWorker[0].cmd) else WorkerLost)
    case WRecvIn =>
      && s.worker.AwaitingIn?
      && var c := s.worker.cmd;
         if UseCwdFd(c) then t == s.(worker := Demoting(c, seq(InFdCount(c), i => AT_FDCWD)))
         else if InFdCount(c) == 0 then t == s.(worker := Demoting(c, []))
         else
           && s.toWorker != []
           && var m := s.toWorker[0];
              t == s.(toWorker := s.toWorker[1..],
                      worker := if m.Fds? && |m.fds| == InFdCount(c) then Demoting(c, m.fds) else WorkerLost)
    case WDemote(ok) =>
      && s.worker.Demoting?
      && var (c, fds) := (s.worker.cmd, s.worker.fds);
         t == s.(worker := if ok then Executing(c, fds) else CleaningUp(c, fds, Reply(false, 0)))
    case WExecute(fds, r) =>
      && s.worker.Executing? && Executed(s.worker.cmd, s.worker.fds, fds, r)
      && t == s.(worker := CleaningUp(s.worker.cmd, fds, r))
    case WCleanUp(ok) =>
      && s.worker.CleaningUp? && CleansUp(s.worker.fds, ok)
      && t == s.(worker := if ok then SendingRet(s.worker.cmd, s.worker.reply) else Gone)
    case WSendRet =>
      && s.worker.SendingRet?
      && t == s.(toMaster := s.toMaster + [Ret(s.worker.reply)],
                 worker := SendingOut(s.worker.cmd, s.worker.reply))
    case WSendOut =>
      && s.worker.SendingOut?
      && var (c, r) := (s.worker.cmd, s.worker.reply);
         // An invalid descriptor is not sent, and that is no error.
         t == if OutFdCount(c) == 0 || r.u < 0 then s.(worker := AwaitingData)
              else s.(toMaster := s.toMaster + [Fds([r.u])], worker := ClosingOut(r.u))
    case WCloseOut => s.worker.ClosingOut? && t == s.(worker := AwaitingData)
    case WDies => s.worker != Gone && t == s.(worker := Gone)
    case _ => false
  }

  predicate Next(s: State, a: Action, t: State) {
    MasterNext(s, a, t) || WorkerNext(s, a, t)
  }

  predicate Execution(ss: seq<State>, acts: seq<Action>) {
    && |ss| == |acts| + 1 && Init(ss[0])
    && forall k | 0 <= k < |acts| :: Next(ss[k], acts[k], ss[k + 1])
  }

  // ---------------------------------------------------------------------
  // The invariant

  /** Whether the worker sends a descriptor at stage 5. */
  predicate SendsOut(c: Command, r: Reply) {
    OutFdCount(c) > 0 && r.u >= 0
  }

  /** The error flag of an open says whether there is a descriptor. */
  predicate ReplyOk(c: Command, r: Reply) {
    OutFdCount(c) > 0 ==> (r.error <==> r.u < 0)
  }

  function OutMessages(c: Command, r: Reply): seq<Message> {
    if SendsOut(c, r) then [Fds([r.u])] else []
  }

  /** The worker is back at stage 1, or gets there without sending anything. */
  predicate Quiet(w: Worker) {
    w.AwaitingData? || w.ClosingOut? || (w.SendingOut? && !SendsOut(w.cmd, w.reply))
  }

  predicate InMessages(c: Command, q: seq<Message>) {
    if SendsIn(c) then |q| == 1 && q[0].Fds? && |q[0].fds| == InFdCount(c) else q == []
  }

  predicate Working(w: Worker, c: Command) {
    match w
    case Demoting(d, fds) => d == c && |fds| == InFdCount(c) && (UseCwdFd(c) ==> AT_FDCWD in fds)
    case Executing(d, fds) => d == c && |fds| == InFdCount(c)
    case CleaningUp(d, fds, r) => d == c && ReplyOk(c, r)
    case SendingRet(d, r) => d == c && ReplyOk(c, r)
    case _ => false
  }

  predicate RetFirst(c: Command, q: seq<Message>) {
    q != [] && q[0].Ret? && ReplyOk(c, q[0].reply)
  }

  predicate FullReply(c: Command, q: seq<Message>) {
    RetFirst(c, q) && q == [q[0]] + OutMessages(c, q[0].reply)
  }

  /** The part of a reply a dying worker may leave behind. */
  predicate PartialReply(c: Command, q: seq<Message>) {
    q == [] || (RetFirst(c, q) && |q| == 1) || FullReply(c, q)
  }

  predicate InvSendingIn(s: State) {
    && s.master.SendingIn? && SendsIn(s.master.cmd) && |s.master.fds| == InFdCount(s.master.cmd)
    && s.toMaster == []
    && (|| s.worker == Gone
        || (s.toWorker == [Data(s.master.cmd)] && Quiet(s.worker))
        || (s.toWorker == [] && s.worker == AwaitingIn(s.master.cmd)))
  }

  predicate InvAwaitingRet(s: State) {
    && s.master.AwaitingRet?
    && var (c, w) := (s.master.cmd, s.worker);
       || (w == Gone && PartialReply(c, s.toMaster))
       || (&& Quiet(w) && s.toMaster == []
           && s.toWorker != [] && s.toWorker[0] == Data(c) && InMessages(c, s.toWorker[1..]))
       || (w == AwaitingIn(c) && s.toMaster == [] && InMessages(c, s.toWorker))
       || (Working(w, c) && s.toMaster == [] && s.toWorker == [])
       || (&& w.SendingOut? && w.cmd == c && ReplyOk(c, w.reply)
           && s.toMaster == [Ret(w.reply)] && s.toWorker == [])
       || ((w.AwaitingData? || w.ClosingOut?) && FullReply(c, s.toMaster) && s.toWorker == [])
  }

  predicate InvAwaitingOut(s: State) {
    && s.master.AwaitingOut?
    && var (c, r, w) := (s.master.cmd, s.master.reply, s.worker);
       && OutFdCount(c) == 1 && !r.error && r.u >= 0
       && (|| (w == Gone && (s.toMaster == [] || s.toMaster == [Fds([r.u])]))
           || (w == SendingOut(c, r) && s.toMaster == [] && s.toWorker == [])
           || ((w.AwaitingData? || w.ClosingOut?) && s.toMaster == [Fds([r.u])] && s.toWorker == []))
  }

  /** A finished call has a descriptor exactly when the command opens one and did not fail. */
  predicate OutcomeOk(o: Outcome) {
    o.Done? ==> o.received == if o.cmd in {Open, OpenAt} && !o.reply.error then [o.reply.u] else []
  }

  predicate InvResting(s: State) {
    && s.master.Resting? && OutcomeOk(s.master.last) && s.toMaster == []
    && (s.worker == Gone || (Quiet(s.worker) && s.toWorker == []))
  }

  predicate CommandFirst(q: seq<Message>) {
    q != [] && q[0].Data? && (|q| == 1 || InMessages(q[0].cmd, q[1..]))
  }

  /** Whatever the master does, the worker reads what it expects. */
  predicate InputOk(s: State) {
    match s.worker
    case Gone => true
    case WorkerLost => false
    case AwaitingIn(c) => s.toWorker == [] || InMessages(c, s.toWorker)
    case _ => s.toWorker == [] || CommandFirst(s.toWorker)
  }

  predicate Inv(s: State) {
    && InputOk(s)
    && match s.master
       case Resting(_) => InvResting(s)
       case SendingIn(_, _) => InvSendingIn(s)
       case AwaitingRet(_) => InvAwaitingRet(s)
       case AwaitingOut(_, _) => InvAwaitingOut(s)
       case Broken => true
       case MasterLost => false
  }

  lemma MasterKeepsInv(s: State, a: Action, t: State)
    requires Inv(s) && MasterNext(s, a, t)
    ensures Inv(t)
  {
    match a
    case Begin(c, fds, permitted) =>
      if permitted {
        assert s.worker != Gone ==> t.toWorker == [Data(c)];
      }
    case SendFails =>
    case SendIn =>
      if t.master.AwaitingRet? && s.worker != Gone && s.toWorker != [] {
        assert t.toWorker[1..] == [Fds(s.master.fds)];
      }
    case RecvRet =>
      assert InvAwaitingRet(s);
      assert RetFirst(s.master.cmd, s.toMaster);
    case RecvOut =>
    case HangUp =>
    case Restart =>
  }

  lemma WorkerKeepsInv(s: State, a: Action, t: State)
    requires Inv(s) && WorkerNext(s, a, t)
    ensures Inv(t)
  {
    match a
    case WRecvData =>
    case WRecvIn =>
      if UseCwdFd(s.worker.cmd) {
        assert t.worker.fds[0] == AT_FDCWD;
      }
    case WDemote(ok) =>
    case WExecute(fds, r) =>
    case WCleanUp(ok) =>
    case WSendRet =>
    case WSendOut =>
    case WCloseOut =>
    case WDies =>
  }

  lemma {:induction false} InvHolds(ss: seq<State>, acts: seq<Action>, k: nat)
    requires Execution(ss, acts) && k < |ss|
    ensures Inv(ss[k])
    decreases k
  {
    hide Inv, MasterNext, WorkerNext;
    if k == 0 {
      InitInv(ss[0]);
    } else {
      InvHolds(ss, acts, k - 1);
      assert Next(ss[k - 1], acts[k - 1], ss[k]);
      if MasterNext(ss[k - 1], acts[k - 1], ss[k]) {
        MasterKeepsInv(ss[k - 1], acts[k - 1], ss[k]);
      } else {
        WorkerKeepsInv(ss[k - 1], acts[k - 1], ss[k]);
      }
    }
  }

  lemma InitInv(s: State)
    requires Init(s)
    ensures Inv(s)
  {
  }

  // ---------------------------------------------------------------------
  // Synchronisation over every execution

  /** Neither side ever reads a message it does not expect. */
  lemma NeverDesynchronised(ss: seq<State>, acts: seq<Action>, k: nat)
    requires Execution(ss, acts) && k < |ss|
    ensures ss[k].master != MasterLost && ss[k].worker != WorkerLost
  {
    InvHolds(ss, acts, k);
  }

  /**
   After a call that did not end in EIO both queues are empty and a live worker
   is at stage 1, or on its way there with nothing left to send; the caller has
   a descriptor exactly when the command opens one and the reply is no error.
   */
  lemma CallLeavesNothingBehind(ss: seq<State>, acts: seq<Action>, k: nat)
    requires Execution(ss, acts) && k < |ss| && ss[k].master.Resting? && ss[k].worker != Gone
    ensures ss[k].toWorker == [] && ss[k].toMaster == [] && Quiet(ss[k].worker)
    ensures OutcomeOk(ss[k].master.last)
  {
    InvHolds(ss, acts, k);
  }

  /** A quiet worker has one step to take, which sends nothing and leaves it quieter. */
  lemma QuietWorkerReturns(s: State, a: Action, t: State)
    requires Quiet(s.worker) && s.worker != AwaitingData && WorkerNext(s, a, t) && !a.WDies?
    ensures t == s.(worker := AwaitingData)
  {
  }

  /** A master at stage 5 has its descriptor queued, or a live worker about to send it. */
  lemma AwaitedDescriptorComes(ss: seq<State>, acts: seq<Action>, k: nat)
    requires Execution(ss, acts) && k < |ss| && ss[k].master.AwaitingOut? && ss[k].worker != Gone
    ensures var (c, r) := (ss[k].master.cmd, ss[k].master.reply);
            || ss[k].toMaster == [Fds([r.u])]
            || (ss[k].worker == SendingOut(c, r) && SendsOut(c, r))
  {
    InvHolds(ss, acts, k);
  }

  /** A worker that sends a descriptor has a master that waits for it, or is about to. */
  lemma SentDescriptorIsAwaited(ss: seq<State>, acts: seq<Action>, k: nat)
    requires Execution(ss, acts) && k < |acts| && acts[k].WSendOut?
    requires ss[k + 1].toMaster != ss[k].toMaster && ss[k].master != Broken
    ensures var (c, r) := (ss[k].worker.cmd, ss[k].worker.reply);
            || ss[k].master == AwaitingOut(c, r)
            || (ss[k].master == AwaitingRet(c) && ss[k].toMaster == [Ret(r)] && AfterRet(c, r) == AwaitingOut(c, r))
  {
    InvHolds(ss, acts, k);
    assert Next(ss[k], acts[k], ss[k + 1]);
    assert SendsOut(ss[k].worker.cmd, ss[k].worker.reply);
  }

  // ---------------------------------------------------------------------
  // Every call ends

  predicate InCall(m: Master) {
    m.SendingIn? || m.AwaitingRet? || m.AwaitingOut?
  }

  /** A step of a call under way: not the start of one, nor a restart or a crash. */
  predicate Inner(a: Action) {
    !a.Begin? && !a.Restart? && !a.WDies?
  }

  /** Some step of the call is possible. */
  ghost predicate CanMove(s: State) {
    exists a, t :: Inner(a) && Next(s, a, t)
  }

  lemma Moves(s: State, a: Action, t: State)
    requires Inner(a) && Next(s, a, t)
    ensures CanMove(s)
  {
  }

  lemma QuietMoves(s: State)
    requires Quiet(s.worker) && (s.toWorker != [] || s.worker != AwaitingData)
    ensures CanMove(s)
  {
    match s.worker
    case AwaitingData =>
      var m := s.toWorker[0];
      Moves(s, WRecvData, s.(toWorker := s.toWorker[1..],
                             worker := if m.Data? then AwaitingIn(m.cmd) else WorkerLost));
    case ClosingOut(_) => Moves(s, WCloseOut, s.(worker := AwaitingData));
    case SendingOut(_, _) => Moves(s, WSendOut, s.(worker := AwaitingData));
  }

  lemma WorkingMoves(s: State, c: Command)
    requires Working(s.worker, c)
    ensures CanMove(s)
  {
    match s.worker
    case Demoting(d, fds) => Moves(s, WDemote(true), s.(worker := Executing(d, fds)));
    case Executing(d, fds) =>
      var r := Reply(true, -1);
      Moves(s, WExecute(fds, r), s.(worker := CleaningUp(d, fds, r)));
    case CleaningUp(d, fds, r) =>
      if AT_FDCWD in fds {
        Moves(s, WCleanUp(false), s.(worker := Gone));
      } else {
        Moves(s, WCleanUp(true), s.(worker := SendingRet(d, r)));
      }
    case SendingRet(d, r) =>
      Moves(s, WSendRet, s.(toMaster := s.toMaster + [Ret(r)], worker := SendingOut(d, r)));
  }

  lemma AwaitingInMoves(s: State)
    requires s.worker.AwaitingIn? && InMessages(s.worker.cmd, s.toWorker)
    ensures CanMove(s)
  {
    var c := s.worker.cmd;
    if UseCwdFd(c) {
      Moves(s, WRecvIn, s.(worker := Demoting(c, seq(InFdCount(c), i => AT_FDCWD))));
    } else if InFdCount(c) == 0 {
      Moves(s, WRecvIn, s.(worker := Demoting(c, [])));
    } else {
      Moves(s, WRecvIn, s.(toWorker := s.toWorker[1..], worker := Demoting(c, s.toWorker[0].fds)));
    }
  }

  lemma ReceiverMoves(s: State)
    requires (s.master.AwaitingRet? || s.master.AwaitingOut?) && (s.toMaster != [] || s.worker == Gone)
    ensures CanMove(s)
  {
    if s.toMaster == [] {
      Moves(s, HangUp, s.(master := Broken));
    } else if s.master.AwaitingRet? {
      var m := s.toMaster[0];
      Moves(s, RecvRet, s.(toMaster := s.toMaster[1..],
                           master := if m.Ret? then AfterRet(s.master.cmd, m.reply) else MasterLost));
    } else {
      var (c, r, m) := (s.master.cmd, s.master.reply, s.toMaster[0]);
      Moves(s, RecvOut, s.(toMaster := s.toMaster[1..],
                           master := if m.Fds? && |m.fds| == OutFdCount(c) > 0
                                     then Resting(Done(c, r.(u := m.fds[0]), m.fds)) else MasterLost));
    }
  }

  /** The two processes never wait for each other: a call under way can always go on. */
  lemma NoDeadlock(ss: seq<State>, acts: seq<Action>, k: nat)
    requires Execution(ss, acts) && k < |ss| && InCall(ss[k].master)
    ensures CanMove(ss[k])
  {
    hide CanMove, MasterNext, WorkerNext;
    InvHolds(ss, acts, k);
    CallMoves(ss[k]);
  }

  lemma SendingInMoves(s: State)
    requires s.master.SendingIn?
    ensures CanMove(s)
  {
    var fds := s.master.fds;
    if exists i :: 0 <= i < |fds| && fds[i] < 0 {
      Moves(s, SendIn, s.(master := Broken));
    } else {
      Moves(s, SendIn, s.(toWorker := s.toWorker + [Fds(fds)], master := AwaitingRet(s.master.cmd)));
    }
  }

  lemma SendingOutMoves(s: State)
    requires s.worker.SendingOut?
    ensures CanMove(s)
  {
    var (c, r) := (s.worker.cmd, s.worker.reply);
    if OutFdCount(c) == 0 || r.u < 0 {
      Moves(s, WSendOut, s.(worker := AwaitingData));
    } else {
      Moves(s, WSendOut, s.(toMaster := s.toMaster + [Fds([r.u])], worker := ClosingOut(r.u)));
    }
  }

  lemma CallMoves(s: State)
    requires Inv(s) && InCall(s.master)
    ensures CanMove(s)
  {
    hide CanMove, MasterNext, WorkerNext;
    if s.master.SendingIn? {
      SendingInMoves(s);
    } else if s.toMaster != [] || s.worker == Gone {
      ReceiverMoves(s);
    } else if s.worker.SendingOut? {
      SendingOutMoves(s);
    } else if s.worker.AwaitingIn? {
      AwaitingInMoves(s);
    } else if Quiet(s.worker) {
      QuietMoves(s);
    } else {
      WorkingMoves(s, s.master.cmd);
    }
  }

  // A bound on the steps of a call.

  function Weight(m: Message): nat {
    if m.Data? then 10 else 1
  }

  function Load(q: seq<Message>): nat {
    if q == [] then 0 else Weight(q[0]) + Load(q[1..])
  }

  lemma {:induction false} LoadAppend(q: seq<Message>, m: Message)
    ensures Load(q + [m]) == Load(q) + Weight(m)
  {
    if q == [] {
      assert (q + [m])[1..] == [];
    } else {
      LoadAppend(q[1..], m);
      assert (q + [m])[1..] == q[1..] + [m];
    }
  }

  function MasterRank(m: Master): nat {
    match m
    case Resting(_) => 1
    case SendingIn(_, _) => 5
    case AwaitingRet(_) => 3
    case AwaitingOut(_, _) => 2
    case _ => 0
  }

  function WorkerRank(w: Worker): nat {
    match w
    case AwaitingData => 1
    case AwaitingIn(_) => 10
    case Demoting(_, _) => 9
    case Executing(_, _) => 8
    case CleaningUp(_, _, _) => 7
    case SendingRet(_, _) => 6
    case SendingOut(_, _) => 4
    case ClosingOut(_) => 2
    case _ => 0
  }

  function Rank(s: State): nat {
    MasterRank(s.master) + WorkerRank(s.worker) + Load(s.toWorker) + Load(s.toMaster)
  }

  lemma MasterRankDecreases(s: State, a: Action, t: State)
    requires MasterNext(s, a, t) && !a.Begin? && !a.Restart?
    ensures Rank(t) < Rank(s)
  {
    if a.SendIn? {
      LoadAppend(s.toWorker, Fds(s.master.fds));
    }
  }

  lemma WorkerRankDecreases(s: State, a: Action, t: State)
    requires WorkerNext(s, a, t) && s.worker != WorkerLost
    ensures Rank(t) < Rank(s)
  {
    if a.WSendRet? {
      LoadAppend(s.toMaster, Ret(s.worker.reply));
    } else if a.WSendOut? {
      LoadAppend(s.toMaster, Fds([s.worker.reply.u]));
    }
  }

  /** Every step but the start of a call and a restart leaves less to do. */
  lemma RankDecreases(s: State, a: Action, t: State)
    requires Next(s, a, t) && !a.Begin? && !a.Restart? && s.worker != WorkerLost
    ensures Rank(t) < Rank(s)
  {
    hide MasterNext, WorkerNext, Rank;
    if MasterNext(s, a, t) {
      MasterRankDecreases(s, a, t);
    } else {
      WorkerRankDecreases(s, a, t);
    }
  }

  lemma {:induction false} SegmentIsBounded(ss: seq<State>, acts: seq<Action>, k: nat, n: nat)
    requires Execution(ss, acts) && k <= n <= |acts|
    requires forall i | k <= i < n :: !acts[i].Begin? && !acts[i].Restart?
    ensures n - k + Rank(ss[n]) <= Rank(ss[k])
    decreases n - k
  {
    hide MasterNext, WorkerNext, Rank;
    if k < n {
      NeverDesynchronised(ss, acts, k);
      assert Next(ss[k], acts[k], ss[k + 1]);
      RankDecreases(ss[k], acts[k], ss[k + 1]);
      SegmentIsBounded(ss, acts, k + 1, n);
    }
  }

  /** Between the start of a call to a live worker and the next call, at most 19 steps happen. */
  lemma CallIsBounded(ss: seq<State>, acts: seq<Action>, k: nat, n: nat)
    requires Execution(ss, acts) && k < n <= |acts| && acts[k].Begin? && ss[k].worker != Gone
    requires forall i | k < i < n :: !acts[i].Begin? && !acts[i].Restart?
    ensures n - k - 1 <= 19
  {
    SegmentIsBounded(ss, acts, k + 1, n);
    assert Next(ss[k], acts[k], ss[k + 1]);
    CallLeavesNothingBehind(ss, acts, k);
    LoadAppend([], Data(acts[k].cmd));
  }

  // ---------------------------------------------------------------------
  // The result of a call is that of its command

  predicate Starts(a: Action) {
    a.Begin? && a.permitted
  }

  /** The worker runs a command, or fails to demote itself for it. */
  predicate Runs(a: Action) {
    a.WExecute? || a == WDemote(false)
  }

  /** The last of the first `k` steps that began a call, unless the worker was restarted since. */
  function LastBegin(acts: seq<Action>, k: nat): (b: Option<nat>)
    requires k <= |acts|
    ensures b.Some? ==> b.value < k && Starts(acts[b.value])
    ensures b.Some? ==> forall m | b.value < m < k :: !Starts(acts[m]) && !acts[m].Restart?
  {
    if k == 0 then None
    else if Starts(acts[k - 1]) then Some(k - 1)
    else if acts[k - 1].Restart? then None
    else LastBegin(acts, k - 1)
  }

  /** The steps since then in which the worker ran a command, or failed to. */
  function RunsSince(acts: seq<Action>, k: nat): (rs: seq<nat>)
    requires k <= |acts|
    ensures forall i | 0 <= i < |rs| :: rs[i] < k && Runs(acts[rs[i]])
  {
    if k == 0 then []
    else if Starts(acts[k - 1]) || acts[k - 1].Restart? then []
    else if Runs(acts[k - 1]) then RunsSince(acts, k - 1) + [k - 1]
    else RunsSince(acts, k - 1)
  }

  /** The reply a step of the worker decides. */
  function ReplyOf(a: Action): Reply
    requires Runs(a)
  {
    if a.WExecute? then a.reply else Reply(false, 0)
  }

  /** The descriptors that a command runs with, given those of its call. */
  function Given(c: Command, fds: seq<int>): seq<int> {
    if c == Rename then [-100, -100]
    else if c in {Mkdir, MkdirRecursive, Open, Unlink, Rmdir, RmdirRecursive} then [-100]
    else fds
  }

  /** Nothing has been run for the call `c` with descriptors `fds`. */
  predicate NotRun(acts: seq<Action>, k: nat, c: Command, fds: seq<int>)
    requires k <= |acts|
  {
    var b := LastBegin(acts, k);
    b.Some? && acts[b.value].cmd == c && acts[b.value].fds == fds && RunsSince(acts, k) == []
  }

  /** The one run for the call `c` decided on the reply `r`, and had the descriptors it was to have. */
  ghost predicate HasRun(ss: seq<State>, acts: seq<Action>, k: nat, c: Command, r: Reply)
    requires k <= |acts| < |ss|
  {
    var (b, rs) := (LastBegin(acts, k), RunsSince(acts, k));
    && b.Some? && acts[b.value].cmd == c && |rs| == 1 && ReplyOf(acts[rs[0]]) == r
    && b.value < rs[0] && RunsOn(ss[rs[0]].worker, acts[rs[0]], c, Given(c, acts[b.value].fds))
    && (c !in {Mkdir, MkdirRecursive, Open, Unlink, Rmdir, RmdirRecursive, Rename} ==>
          forall fd | fd in acts[b.value].fds :: fd >= 0)
  }

  predicate RunsOn(w: Worker, a: Action, c: Command, fds: seq<int>) {
    w == if a.WExecute? then Executing(c, fds) else Demoting(c, fds)
  }

  /** What is on its way to the worker is the call that began last. */
  ghost predicate Pending(acts: seq<Action>, k: nat, c: Command, q: seq<Message>)
    requires k <= |acts|
  {
    exists fds :: NotRun(acts, k, c, fds) && |fds| == InFdCount(c) && NoneNegative(c, fds) &&
                  q == if SendsIn(c) then [Fds(fds)] else []
  }

  predicate NoneNegative(c: Command, fds: seq<int>) {
    SendsIn(c) ==> forall fd | fd in fds :: fd >= 0
  }

  /** The worker has the call that began last. */
  ghost predicate Held(acts: seq<Action>, k: nat, c: Command, held: seq<int>)
    requires k <= |acts|
  {
    exists fds :: NotRun(acts, k, c, fds) && |fds| == InFdCount(c) && NoneNegative(c, fds) && held == Given(c, fds)
  }

  /** How the state and the steps so far belong together. */
  ghost predicate History(ss: seq<State>, acts: seq<Action>, k: nat)
    requires k <= |acts| < |ss|
  {
    var s := ss[k];
    match s.master
    case Resting(o) => o.Done? ==> HasRun(ss, acts, k, o.cmd, o.reply)
    case SendingIn(c, fds) => NotRun(acts, k, c, fds)
    case AwaitingRet(c) => HistoryAwaiting(ss, acts, k, c)
    case AwaitingOut(c, r) => HasRun(ss, acts, k, c, r)
    case _ => true
  }

  ghost predicate HistoryAwaiting(ss: seq<State>, acts: seq<Action>, k: nat, c: Command)
    requires k <= |acts| < |ss|
  {
    var (w, q) := (ss[k].worker, ss[k].toMaster);
    if q != [] then q[0].Ret? && HasRun(ss, acts, k, c, q[0].reply)
    else
      match w
      case Gone => true
      case AwaitingIn(_) => Pending(acts, k, c, ss[k].toWorker)
      case Demoting(_, fds) => Held(acts, k, c, fds)
      case Executing(_, fds) => Held(acts, k, c, fds)
      case CleaningUp(_, _, r) => HasRun(ss, acts, k, c, r)
      case SendingRet(_, r) => HasRun(ss, acts, k, c, r)
      case _ => ss[k].toWorker != [] && Pending(acts, k, c, ss[k].toWorker[1..])
  }

  /** A step that neither starts a call nor runs a command leaves the history as it is. */
  lemma Carried(ss: seq<State>, acts: seq<Action>, k: nat, c: Command)
    requires k < |acts| < |ss| && !Starts(acts[k]) && !acts[k].Restart? && !Runs(acts[k])
    ensures forall fds :: NotRun(acts, k, c, fds) ==> NotRun(acts, k + 1, c, fds)
    ensures forall r :: HasRun(ss, acts, k, c, r) ==> HasRun(ss, acts, k + 1, c, r)
    ensures forall q :: Pending(acts, k, c, q) ==> Pending(acts, k + 1, c, q)
    ensures forall held :: Held(acts, k, c, held) ==> Held(acts, k + 1, c, held)
  {
  }

  lemma Started(acts: seq<Action>, k: nat)
    requires k < |acts| && Starts(acts[k])
    ensures NotRun(acts, k + 1, acts[k].cmd, acts[k].fds)
  {
  }

  lemma HasRunNow(ss: seq<State>, acts: seq<Action>, k: nat, c: Command, held: seq<int>)
    requires k < |acts| < |ss| && Runs(acts[k]) && Held(acts, k, c, held) && RunsOn(ss[k].worker, acts[k], c, held)
    ensures HasRun(ss, acts, k + 1, c, ReplyOf(acts[k]))
  {
    var fds :| NotRun(acts, k, c, fds) && |fds| == InFdCount(c) && NoneNegative(c, fds) && held == Given(c, fds);
    assert RunsSince(acts, k + 1) == [k];
  }

  lemma HistoryMaster(ss: seq<State>, acts: seq<Action>, k: nat)
    requires k < |acts| < |ss| && Inv(ss[k]) && History(ss, acts, k) && MasterNext(ss[k], acts[k], ss[k + 1])
    ensures History(ss, acts, k + 1)
  {
    hide HasRun, NotRun, InvAwaitingRet, Held, InFdCount;
    var (s, a, t) := (ss[k], acts[k], ss[k + 1]);
    match a
    case Begin(c, fds, permitted) =>
      if permitted {
        Started(acts, k);
        assert s.worker != Gone ==> t.toWorker == [Data(c)] && t.toWorker[1..] == [];
      }
    case SendIn =>
      var c := s.master.cmd;
      Carried(ss, acts, k, c);
      if t.master == AwaitingRet(c) && s.worker != Gone {
        assert s.toWorker != [] ==> t.toWorker[1..] == [Fds(s.master.fds)];
      }
    case RecvRet => Carried(ss, acts, k, s.master.cmd);
    case RecvOut => Carried(ss, acts, k, s.master.cmd);
    case SendFails =>
    case HangUp =>
    case Restart =>
  }

  /** The worker's steps while the master does not wait for a reply run nothing. */
  lemma HistoryOther(ss: seq<State>, acts: seq<Action>, k: nat)
    requires k < |acts| < |ss| && Inv(ss[k]) && History(ss, acts, k) && WorkerNext(ss[k], acts[k], ss[k + 1])
    requires !ss[k].master.AwaitingRet?
    ensures History(ss, acts, k + 1)
  {
    hide HasRun, NotRun, InvAwaitingRet, Held, Pending;
    var s := ss[k];
    match s.master
    case Resting(o) =>
      if o.Done? {
        Carried(ss, acts, k, o.cmd);
      }
    case SendingIn(c, _) => Carried(ss, acts, k, c);
    case AwaitingOut(c, _) => Carried(ss, acts, k, c);
    case Broken =>
  }

  /** The worker's steps before it has the whole call, and those after it has run it. */
  lemma HistoryQuiet(ss: seq<State>, acts: seq<Action>, k: nat, c: Command)
    requires k < |acts| < |ss| && Inv(ss[k]) && HistoryAwaiting(ss, acts, k, c) && WorkerNext(ss[k], acts[k], ss[k + 1])
    requires ss[k].master == AwaitingRet(c) && !Runs(acts[k]) && !acts[k].WRecvIn? && !acts[k].WDemote?
    ensures HistoryAwaiting(ss, acts, k + 1, c)
  {
    hide HasRun, NotRun, Held, Pending;
    Carried(ss, acts, k, c);
  }

  lemma HistoryReceives(ss: seq<State>, acts: seq<Action>, k: nat, c: Command)
    requires k < |acts| < |ss| && Inv(ss[k]) && HistoryAwaiting(ss, acts, k, c) && WorkerNext(ss[k], acts[k], ss[k + 1])
    requires ss[k].master == AwaitingRet(c) && acts[k].WRecvIn?
    ensures HistoryAwaiting(ss, acts, k + 1, c)
  {
    hide HasRun, NotRun;
    Carried(ss, acts, k, c);
    var fds :| NotRun(acts, k, c, fds) && |fds| == InFdCount(c) && NoneNegative(c, fds) &&
               ss[k].toWorker == if SendsIn(c) then [Fds(fds)] else [];
    GivenIs(c, fds);
    assert ss[k + 1].worker == Demoting(c, Given(c, fds));
  }

  lemma GivenIs(c: Command, fds: seq<int>)
    requires |fds| == InFdCount(c)
    ensures Given(c, fds) == if UseCwdFd(c) then seq(InFdCount(c), i => AT_FDCWD) else fds
    ensures InFdCount(c) == 0 ==> fds == []
  {
  }

  lemma HistoryRuns(ss: seq<State>, acts: seq<Action>, k: nat, c: Command)
    requires k < |acts| < |ss| && Inv(ss[k]) && HistoryAwaiting(ss, acts, k, c) && WorkerNext(ss[k], acts[k], ss[k + 1])
    requires ss[k].master == AwaitingRet(c) && (Runs(acts[k]) || acts[k].WDemote?)
    ensures HistoryAwaiting(ss, acts, k + 1, c)
  {
    hide HasRun, NotRun, Held, Pending;
    if Runs(acts[k]) {
      HasRunNow(ss, acts, k, c, ss[k].worker.fds);
    } else {
      Carried(ss, acts, k, c);
    }
  }

  lemma {:induction false} HistoryHolds(ss: seq<State>, acts: seq<Action>, k: nat)
    requires Execution(ss, acts) && k < |ss|
    ensures History(ss, acts, k)
    decreases k
  {
    hide Inv, MasterNext, WorkerNext, HistoryAwaiting, HasRun, NotRun;
    if k > 0 {
      var j := k - 1;
      HistoryHolds(ss, acts, j);
      InvHolds(ss, acts, j);
      assert Next(ss[j], acts[j], ss[k]);
      if MasterNext(ss[j], acts[j], ss[k]) {
        HistoryMaster(ss, acts, j);
      } else if !ss[j].master.AwaitingRet? {
        HistoryOther(ss, acts, j);
      } else {
        HistoryAwaits(ss, acts, j, ss[j].master.cmd);
      }
    }
  }

  lemma HistoryAwaits(ss: seq<State>, acts: seq<Action>, k: nat, c: Command)
    requires k < |acts| < |ss| && Inv(ss[k]) && HistoryAwaiting(ss, acts, k, c) && WorkerNext(ss[k], acts[k], ss[k + 1])
    requires ss[k].master == AwaitingRet(c)
    ensures ss[k + 1].master == AwaitingRet(c) && HistoryAwaiting(ss, acts, k + 1, c)
  {
    hide Inv, HistoryAwaiting;
    if Runs(acts[k]) || acts[k].WDemote? {
      HistoryRuns(ss, acts, k, c);
    } else if acts[k].WRecvIn? {
      HistoryReceives(ss, acts, k, c);
    } else {
      HistoryQuiet(ss, acts, k, c);
    }
  }

  /**
   The result a caller gets is that of its own command, which ran exactly once, with
   the descriptors of the call in their order, or with the working directory where
   the command is relative to it; or it is a success with descriptor 0 if the
   worker could not demote itself for it. The worker keeps the descriptors, to close
   them, unless it handed them over to a directory handle.
   */
  lemma ResultIsOfTheCommand(ss: seq<State>, acts: seq<Action>, k: nat) returns (b: nat, r: nat)
    requires Execution(ss, acts) && k < |ss| && ss[k].master.Resting? && ss[k].master.last.Done?
    ensures var o := ss[k].master.last;
            && b < r < k && acts[b].Begin? && acts[b].permitted && acts[b].cmd == o.cmd
            && (forall m | b < m < k :: !Starts(acts[m]) && !acts[m].Restart?)
            && (forall m | b < m < k :: Runs(acts[m]) <==> m == r)
            && (|| (acts[r].WExecute? && acts[r].reply == o.reply &&
                    ss[r].worker == Executing(o.cmd, Given(o.cmd, acts[b].fds)))
                || (acts[r] == WDemote(false) && o.reply == Reply(false, 0) &&
                    ss[r].worker == Demoting(o.cmd, Given(o.cmd, acts[b].fds))))
            && (acts[r].WExecute? ==>
                  || acts[r].fds == Given(o.cmd, acts[b].fds)
                  || (o.cmd !in {ExtractElfSymbolOffset, ExtractSdtProbeOffsets, GenerateFilterBytecode} &&
                      forall fd | fd in acts[r].fds :: fd == -1))
            && |acts[b].fds| == (if o.cmd in {Rename, RenameAt} then 2 else if o.cmd == GenerateFilterBytecode then 0 else 1)
            && (o.cmd !in {Mkdir, MkdirRecursive, Open, Unlink, Rmdir, RmdirRecursive, Rename} ==>
                  forall fd | fd in acts[b].fds :: fd >= 0)
  {
    hide Inv, MasterNext, WorkerNext, HistoryAwaiting;
    HistoryHolds(ss, acts, k);
    b := LastBegin(acts, k).value;
    r := RunsSince(acts, k)[0];
    BeginHas(ss[b], acts[b], ss[b + 1]);
    if acts[r].WExecute? {
      KeepsOrHandsOver(ss[r], acts[r], ss[r + 1]);
    }
    forall m | b < m < k ensures Runs(acts[m]) <==> m == r {
      RunsAre(acts, k, m);
    }
  }

  lemma BeginHas(s: State, a: Action, t: State)
    requires Next(s, a, t) && a.Begin?
    ensures |a.fds| == if a.cmd in {Rename, RenameAt} then 2 else if a.cmd == GenerateFilterBytecode then 0 else 1
  {
  }

  lemma KeepsOrHandsOver(s: State, a: Action, t: State)
    requires Next(s, a, t) && a.WExecute?
    ensures s.worker.Executing?
    ensures || a.fds == s.worker.fds
            || (s.worker.cmd !in {ExtractElfSymbolOffset, ExtractSdtProbeOffsets, GenerateFilterBytecode} &&
                forall fd | fd in a.fds :: fd == -1)
  {
  }

  /** A call without permission ends at once, and is seen to be refused. */
  lemma UnpermittedIsRefused(s: State, a: Action, t: State)
    requires Next(s, a, t) && a.Begin? && !a.permitted
    ensures t == s.(master := Resting(Refused))
  {
  }

  /** A call is refused only for want of permission, and then sends nothing. */
  lemma {:induction false} RefusedOnlyIf(ss: seq<State>, acts: seq<Action>, k: nat) returns (b: nat)
    requires Execution(ss, acts) && k < |ss| && ss[k].master == Resting(Refused)
    ensures b < k && acts[b].Begin? && !acts[b].permitted && forall m | b < m < k :: !acts[m].Begin?
    ensures ss[b + 1].toWorker == ss[b].toWorker && ss[b + 1].toMaster == ss[b].toMaster && ss[b + 1].worker == ss[b].worker
    decreases k
  {
    assert Next(ss[k - 1], acts[k - 1], ss[k]);
    if acts[k - 1].Begin? {
      b := k - 1;
    } else {
      b := RefusedOnlyIf(ss, acts, k - 1);
    }
  }

  /** A step after the last that began a call is among the runs since exactly if it runs something. */
  lemma {:induction false} RunsAre(acts: seq<Action>, k: nat, m: nat)
    requires k <= |acts| && LastBegin(acts, k).Some? && LastBegin(acts, k).value < m < k
    ensures Runs(acts[m]) <==> m in RunsSince(acts, k)
  {
    if m < k - 1 {
      RunsAre(acts, k - 1, m);
    }
  }

  /** A descriptor the worker sends is closed by it before it reads the next command. */
  lemma {:induction false} SentDescriptorIsClosed(ss: seq<State>, acts: seq<Action>, j: nat, k: nat) returns (i: nat)
    requires Execution(ss, acts) && j < k < |acts| && acts[j].WSendOut? && ss[j + 1].toMaster != ss[j].toMaster
    requires acts[k].WRecvData? && forall m | j < m < k :: !acts[m].WDies? && !acts[m].Restart?
    ensures j < i < k && acts[i].WCloseOut? && ss[i].worker == ClosingOut(ss[j].worker.reply.u)
  {
    assert Next(ss[j], acts[j], ss[j + 1]);
    assert Next(ss[k], acts[k], ss[k + 1]);
    i := j + 1;
    while i < k && acts[i] != WCloseOut
      invariant j < i <= k && ss[i].worker == ClosingOut(ss[j].worker.reply.u)
    {
      assert Next(ss[i], acts[i], ss[i + 1]);
      i := i + 1;
    }
  }

  // ---------------------------------------------------------------------
  // Failures

  /** A step that ends the worker: it is killed, or it cannot close a descriptor it was given. */
  predicate Ends(s: State, a: Action) {
    a.WDies? || (a == WCleanUp(false) && s.worker.CleaningUp? && exists fd :: fd in s.worker.fds && fd != -1)
  }

  /** A worker that is gone was ended by a step since the last restart. */
  lemma {:induction false} GoneSince(ss: seq<State>, acts: seq<Action>, k: nat) returns (j: nat)
    requires Execution(ss, acts) && k < |ss| && ss[k].worker == Gone
    ensures j < k && Ends(ss[j], acts[j]) && forall i | j < i < k :: !acts[i].Restart?
    decreases k
  {
    assert Next(ss[k - 1], acts[k - 1], ss[k]);
    if ss[k - 1].worker == Gone {
      j := GoneSince(ss, acts, k - 1);
    } else {
      j := k - 1;
      if acts[j].WCleanUp? {
        var fds := ss[j].worker.fds;
        var i :| 0 <= i < |fds| && fds[i] != -1;
        assert fds[i] in fds;
      }
    }
  }

  /**
   A call ends in EIO only on a descriptor that the master refuses to send, or
   because the worker was killed or could not close a descriptor since it was
   started.
   */
  lemma EioOnlyIf(ss: seq<State>, acts: seq<Action>, k: nat)
    requires Execution(ss, acts) && k < |acts| && ss[k].master != Broken && ss[k + 1].master == Broken
    ensures || (ss[k].master.SendingIn? && exists i :: 0 <= i < |ss[k].master.fds| && ss[k].master.fds[i] < 0)
            || (exists j: nat :: j < k && Ends(ss[j], acts[j]) && forall i | j < i < k :: !acts[i].Restart?)
  {
    assert Next(ss[k], acts[k], ss[k + 1]);
    if ss[k].worker == Gone {
      var j := GoneSince(ss, acts, k);
    }
  }

  /** The reply of a worker that could not demote itself: a success, with descriptor 0. */
  const ZERO := Reply(false, 0)

  /** The call is lost: its worker holds a descriptor it cannot close, and has not replied. */
  predicate Doomed(s: State, c: Command) {
    || s.master == Broken
    || (&& s.master == AwaitingRet(c) && s.toMaster == []
        && (s.worker == Gone || (s.worker.CleaningUp? && AT_FDCWD in s.worker.fds)))
  }

  lemma DoomedStays(s: State, a: Action, t: State, c: Command)
    requires Doomed(s, c) && Next(s, a, t) && !a.Restart?
    ensures Doomed(t, c)
  {
  }

  lemma {:induction false} DoomedAlong(ss: seq<State>, acts: seq<Action>, k: nat, n: nat, c: Command)
    requires Execution(ss, acts) && k <= n < |ss| && Doomed(ss[k], c)
    requires forall i | k <= i < n :: !acts[i].Restart?
    ensures Doomed(ss[n], c)
    decreases n - k
  {
    hide Doomed, MasterNext, WorkerNext;
    if k < n {
      DoomedAlong(ss, acts, k, n - 1, c);
      assert Next(ss[n - 1], acts[n - 1], ss[n]);
      DoomedStays(ss[n - 1], acts[n - 1], ss[n], c);
    }
  }

  /**
   When demotion fails for a command relative to the working directory, the call
   never returns a result: until the worker is restarted, the caller waits or has
   got EIO.
   */
  lemma FailedDemotionEndsInEio(ss: seq<State>, acts: seq<Action>, k: nat, n: nat)
    requires Execution(ss, acts) && k < n < |ss| && acts[k] == WDemote(false)
    requires ss[k].worker.Demoting? && UseCwdFd(ss[k].worker.cmd) && InCall(ss[k].master)
    requires forall i | k < i < n :: !acts[i].Restart?
    ensures ss[n].master == Broken || ss[n].master == AwaitingRet(ss[k].worker.cmd)
    ensures !CanMove(ss[n]) ==> ss[n].master == Broken
  {
    hide CanMove, MasterNext, WorkerNext, Inv;
    InvHolds(ss, acts, k);
    assert Next(ss[k], acts[k], ss[k + 1]);
    var c := ss[k].worker.cmd;
    DemotingCall(ss[k]);
    NotDemoted(ss[k], ss[k + 1]);
    assert Doomed(ss[k + 1], c);
    DoomedAlong(ss, acts, k + 1, n, c);
    if ss[n].master == AwaitingRet(c) {
      NoDeadlock(ss, acts, n);
    }
  }

  /** A worker that is about to demote itself, in a call under way, has read all of that call and sent nothing. */
  lemma DemotingCall(s: State)
    requires Inv(s) && InCall(s.master) && s.worker.Demoting?
    ensures s.master == AwaitingRet(s.worker.cmd) && s.toMaster == [] && s.toWorker == [] && Working(s.worker, s.worker.cmd)
  {
  }

  lemma NotDemoted(s: State, t: State)
    requires s.worker.Demoting? && Next(s, WDemote(false), t)
    ensures t == s.(worker := CleaningUp(s.worker.cmd, s.worker.fds, ZERO))
  {
  }

  /** The reply ZERO is yet to be received. */
  predicate Returning(s: State, c: Command) {
    && s.master == AwaitingRet(c) && s.toWorker == []
    && (|| (s.toMaster == [] && s.worker.CleaningUp? && s.worker.cmd == c && s.worker.reply == ZERO)
        || (s.toMaster == [] && s.worker == SendingRet(c, ZERO))
        || (s.toMaster == [Ret(ZERO)] && s.worker == SendingOut(c, ZERO))
        || (s.toMaster == [Ret(ZERO)] + OutMessages(c, ZERO) && (s.worker.AwaitingData? || s.worker.ClosingOut?)))
  }

  /** The reply is received, and descriptor 0 is to follow. */
  predicate Handing(s: State, c: Command) {
    && s.master == AwaitingOut(c, ZERO) && OutFdCount(c) == 1 && s.toWorker == []
    && (|| (s.toMaster == [] && s.worker == SendingOut(c, ZERO))
        || (s.toMaster == [Fds([0])] && (s.worker.AwaitingData? || s.worker.ClosingOut?)))
  }

  predicate Reported(s: State, c: Command) {
    s.master == Resting(Done(c, ZERO, if OutFdCount(c) == 1 then [0] else []))
  }

  /** The call is on its way to the reply ZERO, or ended with it. */
  predicate Reporting(s: State, c: Command) {
    Returning(s, c) || Handing(s, c) || Reported(s, c)
  }

  lemma ReportingStays(s: State, a: Action, t: State, c: Command)
    requires Reporting(s, c) && Next(s, a, t) && !a.Restart? && !a.Begin? && t.worker != Gone && s.worker != Gone
    ensures Reporting(t, c)
  {
    hide Returning, Handing, Reported, MasterNext, WorkerNext;
    if Returning(s, c) {
      ReturningStays(s, a, t, c);
    } else if Handing(s, c) {
      HandingStays(s, a, t, c);
    } else {
      ReportedStays(s, a, t, c);
    }
  }

  lemma HandingStays(s: State, a: Action, t: State, c: Command)
    requires Handing(s, c) && Next(s, a, t) && t.worker != Gone && s.worker != Gone
    ensures Handing(t, c) || Reported(t, c)
  {
  }

  lemma ReportedStays(s: State, a: Action, t: State, c: Command)
    requires Reported(s, c) && Next(s, a, t) && !a.Begin? && s.worker != Gone
    ensures Reported(t, c)
  {
  }

  lemma ReturningStays(s: State, a: Action, t: State, c: Command)
    requires Returning(s, c) && Next(s, a, t) && t.worker != Gone && s.worker != Gone
    ensures Returning(t, c) || Handing(t, c) || Reported(t, c)
  {
    if a.RecvRet? {
      assert s.toMaster[0] == Ret(ZERO);
      assert s.toMaster[1..] == if s.worker.SendingOut? then [] else OutMessages(c, ZERO);
    } else if a.WSendOut? {
      assert t.toMaster == [Ret(ZERO)] + OutMessages(c, ZERO);
    }
  }

  lemma {:induction false} ReportingAlong(ss: seq<State>, acts: seq<Action>, k: nat, n: nat, c: Command)
    requires Execution(ss, acts) && k <= n < |ss| && Reporting(ss[k], c)
    requires forall i | k <= i < n :: !acts[i].Restart? && !acts[i].Begin?
    requires forall i | k <= i <= n :: ss[i].worker != Gone
    ensures Reporting(ss[n], c)
    decreases n - k
  {
    hide Reporting, MasterNext, WorkerNext;
    if k < n {
      ReportingAlong(ss, acts, k, n - 1, c);
      assert Next(ss[n - 1], acts[n - 1], ss[n]);
      ReportingStays(ss[n - 1], acts[n - 1], ss[n], c);
    }
  }

  /**
   When demotion fails for any other command, the call ends, as long as the worker
   lives, as if the command had succeeded; an open returns descriptor 0.
   */
  lemma FailedDemotionReportsSuccess(ss: seq<State>, acts: seq<Action>, k: nat, n: nat)
    requires Execution(ss, acts) && k < n < |ss| && acts[k] == WDemote(false)
    requires ss[k].worker.Demoting? && !UseCwdFd(ss[k].worker.cmd) && InCall(ss[k].master)
    requires forall i | k < i < n :: !acts[i].Restart? && !acts[i].Begin?
    requires forall i | k < i <= n :: ss[i].worker != Gone
    ensures var c := ss[k].worker.cmd;
            || InCall(ss[n].master)
            || ss[n].master == Resting(Done(c, ZERO, if OutFdCount(c) == 1 then [0] else []))
    ensures !CanMove(ss[n]) ==> !InCall(ss[n].master)
  {
    hide CanMove, MasterNext, WorkerNext, Inv;
    InvHolds(ss, acts, k);
    assert Next(ss[k], acts[k], ss[k + 1]);
    var c := ss[k].worker.cmd;
    DemotingCall(ss[k]);
    NotDemoted(ss[k], ss[k + 1]);
    assert Reporting(ss[k + 1], c);
    ReportingAlong(ss, acts, k + 1, n, c);
    if InCall(ss[n].master) {
      NoDeadlock(ss, acts, n);
    }
  }
}
