/**
 src/common/futex.c: the N-wakers / 1-waiter scheme, as an interleaving step
 machine under sequential consistency, driven by the dispatcher loop that uses
 it (src/bin/lttng-relayd/main.c:1301-1344).

 Every load, store, queue operation and futex system call is one step. The
 kernel's compare-and-sleep of FUTEX_WAIT is one atomic step.
 */
module Futex {

  /** Where the one waiter is. */
  datatype Waiter =
    | Preparing    // about to store -1 (futex_nto1_prepare)
    | ReadingQuit  // prepared; about to read the exit flag
    | Draining     // about to dequeue
    | Reading      // in futex_nto1_wait, about to read the futex
    | Calling      // read -1; about to call FUTEX_WAIT
    | Asleep       // inside FUTEX_WAIT
    | Returned     // futex_nto1_wait returned
    | Exited       // saw the exit flag

  /** Where one waker is. */
  datatype Waker =
    | Idle         // nothing published since its last wake
    | Published    // about to read the futex (futex_nto1_wake)
    | Storing      // read -1; about to store 0
    | Waking       // stored 0; about to call FUTEX_WAKE

  datatype State = State(
    futex: int,
    pending: nat,       // items in the work queue
    quit: bool,         // the exit flag
    waiter: Waiter,
    wakers: seq<Waker>)

  datatype Action =
    | Prepare | ReadQuit | Dequeue | ReadFutex | FutexWait
    | Interrupted       // EINTR, or a wake-up by unrelated code on the same address
    | LoopAgain
    | PublishItem(i: nat) | PublishQuit(i: nat)
    | WakerRead(i: nat) | WakerStore(i: nat) | WakerWake(i: nat)

  predicate Init(s: State) {
    s.waiter == Preparing && s.pending == 0 && !s.quit && forall i | 0 <= i < |s.wakers| :: s.wakers[i] == Idle
  }

  predicate WakerAt(s: State, i: nat, w: Waker) {
    i < |s.wakers| && s.wakers[i] == w
  }

  function Move(s: State, i: nat, w: Waker): State
    requires i < |s.wakers|
  {
    s.(wakers := s.wakers[i := w])
  }

  /** FUTEX_WAKE wakes the waiter if it sleeps. */
  function Roused(w: Waiter): Waiter {
    if w == Asleep then Reading else w
  }

  predicate Next(s: State, a: Action, t: State) {
    match a
    case Prepare => s.waiter == Preparing && t == s.(futex := -1, waiter := ReadingQuit)
    case ReadQuit => s.waiter == ReadingQuit && t == s.(waiter := if s.quit then Exited else Draining)
    case Dequeue => s.waiter == Draining &&
      t == if s.pending == 0 then s.(waiter := Reading) else s.(pending := s.pending - 1)
    case ReadFutex => s.waiter == Reading &&
      t == s.(waiter := if s.futex == -1 then Calling else Returned)
    case FutexWait => s.waiter == Calling &&
      t == s.(waiter := if s.futex == -1 then Asleep else Returned)  // EAGAIN
    case Interrupted => s.waiter == Asleep && t == s.(waiter := Reading)
    case LoopAgain => s.waiter == Returned && t == s.(waiter := Preparing)
    case PublishItem(i) => WakerAt(s, i, Idle) && t == Move(s, i, Published).(pending := s.pending + 1)
    case PublishQuit(i) => WakerAt(s, i, Idle) && t == Move(s, i, Published).(quit := true)
    case WakerRead(i) => WakerAt(s, i, Published) &&
      t == Move(s, i, if s.futex == -1 then Storing else Idle)
    case WakerStore(i) => WakerAt(s, i, Storing) && t == Move(s, i, Waking).(futex := 0)
    case WakerWake(i) => WakerAt(s, i, Waking) && t == Move(s, i, Idle).(waiter := Roused(s.waiter))
  }

  /** A run: states s_0 .. s_n joined by n actions. */
  predicate Run(ss: seq<State>, acts: seq<Action>) {
    && |ss| == |acts| + 1
    && forall k | 0 <= k < |acts| :: Next(ss[k], acts[k], ss[k + 1])
  }

  predicate Execution(ss: seq<State>, acts: seq<Action>) {
    Run(ss, acts) && Init(ss[0])
  }

  // ---------------------------------------------------------------------
  // Safety

  /** The waiter has checked everything and is somewhere inside futex_nto1_wait. */
  predicate InWait(s: State) {
    s.waiter == Reading || s.waiter == Calling || s.waiter == Asleep
  }

  predicate HasWork(s: State) {
    s.pending > 0 || s.quit
  }

  /** Some waker stored 0 and has yet to call FUTEX_WAKE. */
  ghost predicate WakeUnderWay(s: State) {
    exists i :: WakerAt(s, i, Waking)
  }

  /** Some waker has published and has yet to look at the futex or to change it. */
  ghost predicate WakeAhead(s: State) {
    exists i :: WakerAt(s, i, Published) || WakerAt(s, i, Storing)
  }

  /** Some waker that published has not finished futex_nto1_wake. */
  ghost predicate WakerUnfinished(s: State) {
    exists i :: 0 <= i < |s.wakers| && s.wakers[i] != Idle
  }

  /** Work arriving after the waiter's check is covered by the futex or by a waker. */
  ghost predicate Covered(s: State) {
    s.futex != -1 || WakeAhead(s)
  }

  ghost predicate Inv(s: State) {
    && (s.waiter == Asleep ==> s.futex == -1 || WakeUnderWay(s))
    && (InWait(s) && HasWork(s) ==> Covered(s))
    && (s.waiter == Draining && s.quit ==> Covered(s))
    && (s.waiter == Returned ==> s.futex != -1)
  }

  lemma MoveKeeps(s: State, t: State, i: nat, w: Waker)
    requires i < |s.wakers| && t.wakers == s.wakers[i := w]
    ensures WakerAt(t, i, w)
    ensures forall j, v | j != i :: WakerAt(s, j, v) <==> WakerAt(t, j, v)
  {
  }

  lemma WaiterStepKeepsInv(s: State, a: Action, t: State)
    requires Inv(s) && Next(s, a, t)
    requires a.Prepare? || a.ReadQuit? || a.Dequeue? || a.ReadFutex? || a.FutexWait? || a.Interrupted? || a.LoopAgain?
    ensures Inv(t)
  {
    assert t.wakers == s.wakers;
    assert forall i, w :: WakerAt(s, i, w) ==> WakerAt(t, i, w);
  }

  lemma PublishKeepsInv(s: State, a: Action, t: State)
    requires Inv(s) && Next(s, a, t) && (a.PublishItem? || a.PublishQuit?)
    ensures Inv(t)
  {
    MoveKeeps(s, t, a.i, Published);
    assert WakeAhead(t);
    forall j | WakerAt(s, j, Waking) ensures WakerAt(t, j, Waking) {
    }
  }

  lemma WakerStepKeepsInv(s: State, a: Action, t: State)
    requires Inv(s) && Next(s, a, t) && (a.WakerRead? || a.WakerStore? || a.WakerWake?)
    ensures Inv(t)
  {
    var w := if a.WakerRead? then (if s.futex == -1 then Storing else Idle)
             else if a.WakerStore? then Waking else Idle;
    MoveKeeps(s, t, a.i, w);
    if a.WakerRead? {
      assert s.futex == -1 ==> WakeAhead(t);
      assert WakeUnderWay(s) ==> WakeUnderWay(t);
    } else if a.WakerStore? {
      assert WakeUnderWay(t);
    } else {
      assert WakeAhead(s) ==> WakeAhead(t);
    }
  }

  lemma InvIsInductive(s: State, a: Action, t: State)
    requires Inv(s) && Next(s, a, t)
    ensures Inv(t)
  {
    if a.PublishItem? || a.PublishQuit? {
      PublishKeepsInv(s, a, t);
    } else if a.WakerRead? || a.WakerStore? || a.WakerWake? {
      WakerStepKeepsInv(s, a, t);
    } else {
      WaiterStepKeepsInv(s, a, t);
    }
  }

  lemma {:induction false} InvAlong(ss: seq<State>, acts: seq<Action>, k: nat)
    requires Run(ss, acts) && Inv(ss[0]) && k < |ss|
    ensures Inv(ss[k])
    decreases k
  {
    if k > 0 {
      InvAlong(ss, acts, k - 1);
      InvIsInductive(ss[k - 1], acts[k - 1], ss[k]);
    }
  }

  lemma InvHolds(ss: seq<State>, acts: seq<Action>, k: nat)
    requires Execution(ss, acts) && k < |ss|
    ensures Inv(ss[k])
  {
    InvAlong(ss, acts, k);
  }

  /**
   No lost wake-up: at every point of every execution, a sleeping waiter has the
   futex at -1 or a FUTEX_WAKE on its way, and a sleeping waiter with work has
   a waker that is not done with it.
   */
  lemma NoLostWakeUp(ss: seq<State>, acts: seq<Action>, k: nat)
    requires Execution(ss, acts) && k < |ss| && ss[k].waiter == Asleep
    ensures ss[k].futex == -1 || WakeUnderWay(ss[k])
    ensures HasWork(ss[k]) ==> WakerUnfinished(ss[k])
  {
    InvHolds(ss, acts, k);
    var s := ss[k];
    if HasWork(s) {
      if s.futex == -1 {
        var i: nat :| WakerAt(s, i, Published) || WakerAt(s, i, Storing);
        assert s.wakers[i] != Idle;
      } else {
        var i: nat :| WakerAt(s, i, Waking);
        assert s.wakers[i] != Idle;
      }
    }
  }

  /** Once every waker is done, a waiter that still sleeps has nothing to do. */
  lemma QuiescentSleepIsIdle(ss: seq<State>, acts: seq<Action>, k: nat)
    requires Execution(ss, acts) && k < |ss|
    requires forall i | 0 <= i < |ss[k].wakers| :: ss[k].wakers[i] == Idle
    ensures ss[k].waiter == Asleep ==> ss[k].futex == -1 && ss[k].pending == 0 && !ss[k].quit
  {
    if ss[k].waiter == Asleep {
      NoLostWakeUp(ss, acts, k);
    }
  }

  /**
   futex_nto1_wait returns only when the value differs from -1, whatever
   interruptions and stray wake-ups happened, and the value still differs
   when the waiter prepares again.
   */
  lemma WaitReturnsOnlyWhenChanged(ss: seq<State>, acts: seq<Action>, k: nat)
    requires Execution(ss, acts) && k < |ss| && ss[k].waiter == Returned
    ensures ss[k].futex != -1
  {
    InvHolds(ss, acts, k);
  }

  // ---------------------------------------------------------------------
  // Causes: what must have happened before

  /** A waiter that is past its preparation prepared in this round of its loop. */
  lemma {:induction false} PreparedBefore(ss: seq<State>, acts: seq<Action>, k: nat) returns (p: nat)
    requires Execution(ss, acts) && k < |ss| && ss[k].waiter != Preparing
    ensures p < k && acts[p] == Prepare && ss[p + 1].futex == -1
    ensures forall m | p < m < k :: acts[m] != Prepare && acts[m] != LoopAgain
    decreases k
  {
    assert Next(ss[k - 1], acts[k - 1], ss[k]);
    if acts[k - 1] == Prepare {
      p := k - 1;
    } else {
      p := PreparedBefore(ss, acts, k - 1);
    }
  }

  /** A futex that no longer holds -1 after the preparation was changed by a waker since. */
  lemma {:induction false} StoredSincePrepare(ss: seq<State>, acts: seq<Action>, k: nat) returns (p: nat, j: nat)
    requires Execution(ss, acts) && k < |ss| && ss[k].waiter != Preparing && ss[k].futex != -1
    ensures p < j < k && acts[p] == Prepare && acts[j].WakerStore?
    ensures forall m | p < m < k :: acts[m] != Prepare && acts[m] != LoopAgain
    decreases k
  {
    assert Next(ss[k - 1], acts[k - 1], ss[k]);
    if ss[k - 1].futex == -1 {
      p := PreparedBefore(ss, acts, k);
      j := k - 1;
    } else {
      p, j := StoredSincePrepare(ss, acts, k - 1);
    }
  }

  /** The wait returns only because a waker stored to the futex since the waiter last prepared. */
  lemma WaitReturnsOnlyWhenWoken(ss: seq<State>, acts: seq<Action>, k: nat) returns (p: nat, j: nat)
    requires Execution(ss, acts) && k < |ss| && ss[k].waiter == Returned
    ensures p < j < k && acts[p] == Prepare && acts[j].WakerStore?
    ensures forall m | p < m < k :: acts[m] != Prepare && acts[m] != LoopAgain
  {
    WaitReturnsOnlyWhenChanged(ss, acts, k);
    p, j := StoredSincePrepare(ss, acts, k);
  }

  predicate OfWaker(a: Action, i: nat) {
    a in {PublishItem(i), PublishQuit(i), WakerRead(i), WakerStore(i), WakerWake(i)}
  }

  /** A waker changes nothing in the waiter but that it wakes it if it sleeps. */
  lemma WakersOnlyWake(s: State, a: Action, t: State, i: nat)
    requires Next(s, a, t) && OfWaker(a, i)
    ensures t.waiter == if a.WakerWake? && s.waiter == Asleep then Reading else s.waiter
  {
  }

  /** What a waker did last: it publishes before it reads, stores only if it read -1, and wakes only after it stored. */
  lemma {:induction false} WakerDidLast(ss: seq<State>, acts: seq<Action>, k: nat, i: nat) returns (j: nat)
    requires Execution(ss, acts) && k < |ss| && i < |ss[k].wakers| && ss[k].wakers[i] != Idle
    ensures j < k && forall m | j < m < k :: !OfWaker(acts[m], i)
    ensures ss[k].wakers[i] == Published ==> acts[j] == PublishItem(i) || acts[j] == PublishQuit(i)
    ensures ss[k].wakers[i] == Storing ==> acts[j] == WakerRead(i) && ss[j].futex == -1
    ensures ss[k].wakers[i] == Waking ==> acts[j] == WakerStore(i)
    decreases k
  {
    assert Next(ss[k - 1], acts[k - 1], ss[k]);
    if OfWaker(acts[k - 1], i) {
      j := k - 1;
    } else {
      j := WakerDidLast(ss, acts, k - 1, i);
    }
  }

  /** A waiter exits only after somebody asked it to. */
  lemma {:induction false} ExitsOnlyOnRequest(ss: seq<State>, acts: seq<Action>, k: nat) returns (j: nat)
    requires Execution(ss, acts) && k < |ss| && (ss[k].quit || ss[k].waiter == Exited)
    ensures j < k && acts[j].PublishQuit?
    decreases k
  {
    assert Next(ss[k - 1], acts[k - 1], ss[k]);
    if acts[k - 1].PublishQuit? {
      j := k - 1;
    } else {
      j := ExitsOnlyOnRequest(ss, acts, k - 1);
    }
  }

  /** Items published in the first `k` steps. */
  function Enqueued(acts: seq<Action>, k: nat): nat
    requires k <= |acts|
  {
    if k == 0 then 0 else Enqueued(acts, k - 1) + if acts[k - 1].PublishItem? then 1 else 0
  }

  /** Items taken from a queue that had any, in the first `k` steps. */
  function Dequeued(ss: seq<State>, acts: seq<Action>, k: nat): nat
    requires k <= |acts| < |ss|
  {
    if k == 0 then 0 else Dequeued(ss, acts, k - 1) + if acts[k - 1] == Dequeue && ss[k - 1].pending > 0 then 1 else 0
  }

  /** No item is lost, and none is taken twice. */
  lemma {:induction false} ItemsAreConserved(ss: seq<State>, acts: seq<Action>, k: nat)
    requires Execution(ss, acts) && k <= |acts|
    ensures Enqueued(acts, k) == Dequeued(ss, acts, k) + ss[k].pending
  {
    if k > 0 {
      ItemsAreConserved(ss, acts, k - 1);
      assert Next(ss[k - 1], acts[k - 1], ss[k]);
    }
  }

  /** What was written to the futex last, if anything was since it held `v`. */
  function LastWritten(acts: seq<Action>, v: int): int {
    if acts == [] then v else
    match acts[|acts| - 1]
    case Prepare => -1
    case WakerStore(_) => 0
    case _ => LastWritten(acts[..|acts| - 1], v)
  }

  /** Prepare makes the futex -1, a waker makes it 0, and nobody else writes to it. */
  lemma {:induction false} FutexIsLastWritten(ss: seq<State>, acts: seq<Action>, k: nat)
    requires Execution(ss, acts) && k < |ss|
    ensures ss[k].futex == LastWritten(acts[..k], ss[0].futex)
  {
    if k > 0 {
      FutexIsLastWritten(ss, acts, k - 1);
      assert Next(ss[k - 1], acts[k - 1], ss[k]) && acts[..k][..k - 1] == acts[..k - 1];
    }
  }

  /** A waiter that nobody has published to goes to sleep. */
  lemma IdleWaiterSleeps(s: State) returns (ss: seq<State>, acts: seq<Action>)
    requires Init(s)
    ensures Execution(ss, acts) && ss[0] == s && ss[|acts|].waiter == Asleep && |acts| == 5
  {
    var t := s.(futex := -1);
    acts := [Prepare, ReadQuit, Dequeue, ReadFutex, FutexWait];
    ss := [s, t.(waiter := ReadingQuit), t.(waiter := Draining), t.(waiter := Reading), t.(waiter := Calling),
           t.(waiter := Asleep)];
  }

  // ---------------------------------------------------------------------
  // Progress

  /** The waiter blocks nowhere but in FUTEX_WAIT. */
  lemma WaiterNeverBlocks(s: State) returns (a: Action, t: State)
    requires s.waiter != Asleep && s.waiter != Exited
    ensures Next(s, a, t) && a in {Prepare, ReadQuit, Dequeue, ReadFutex, FutexWait, LoopAgain}
  {
    match s.waiter
    case Preparing => a, t := Prepare, s.(futex := -1, waiter := ReadingQuit);
    case ReadingQuit => a, t := ReadQuit, s.(waiter := if s.quit then Exited else Draining);
    case Draining => a, t := Dequeue, if s.pending == 0 then s.(waiter := Reading) else s.(pending := s.pending - 1);
    case Reading => a, t := ReadFutex, s.(waiter := if s.futex == -1 then Calling else Returned);
    case Calling => a, t := FutexWait, s.(waiter := if s.futex == -1 then Asleep else Returned);
    case Returned => a, t := LoopAgain, s.(waiter := Preparing);
  }

  /** Whatever the others are doing, an idle waker may publish, and a sleep may be interrupted. */
  lemma MayHappenAnyTime(s: State, i: nat)
    ensures WakerAt(s, i, Idle) ==> (exists t :: Next(s, PublishItem(i), t)) && exists t :: Next(s, PublishQuit(i), t)
    ensures s.waiter == Asleep ==> exists t :: Next(s, Interrupted, t)
  {
    if WakerAt(s, i, Idle) {
      assert Next(s, PublishItem(i), Move(s, i, Published).(pending := s.pending + 1));
      assert Next(s, PublishQuit(i), Move(s, i, Published).(quit := true));
    }
    if s.waiter == Asleep {
      assert Next(s, Interrupted, s.(waiter := Reading));
    }
  }

  /** Steps a waker still needs to finish. */
  function Left(w: Waker): nat {
    match w
    case Idle => 0
    case Published => 3
    case Storing => 2
    case Waking => 1
  }

  function WorkLeft(ws: seq<Waker>): nat {
    if ws == [] then 0 else Left(ws[0]) + WorkLeft(ws[1..])
  }

  lemma {:induction false} WorkLeftUpdate(ws: seq<Waker>, i: nat, w: Waker)
    requires i < |ws|
    ensures WorkLeft(ws[i := w]) == WorkLeft(ws) - Left(ws[i]) + Left(w)
  {
    if i == 0 {
      assert ws[0 := w][1..] == ws[1..];
    } else {
      WorkLeftUpdate(ws[1..], i - 1, w);
      assert ws[i := w][1..] == ws[1..][i - 1 := w];
    }
  }

  predicate WakerStep(a: Action) {
    a.WakerRead? || a.WakerStore? || a.WakerWake?
  }

  lemma WakerStepUsesWork(s: State, a: Action, t: State)
    requires Next(s, a, t) && WakerStep(a)
    ensures WorkLeft(t.wakers) < WorkLeft(s.wakers)
  {
    WorkLeftUpdate(s.wakers, a.i, t.wakers[a.i]);
  }

  lemma {:induction false} WakerRunIsBounded(ss: seq<State>, acts: seq<Action>)
    requires Run(ss, acts) && forall a :: a in acts ==> WakerStep(a)
    ensures |acts| + WorkLeft(ss[|acts|].wakers) <= WorkLeft(ss[0].wakers)
    decreases |acts|
  {
    if |acts| > 0 {
      WakerStepUsesWork(ss[0], acts[0], ss[1]);
      WakerRunIsBounded(ss[1..], acts[1..]);
    }
  }

  lemma {:induction false} SomeoneLeft(ws: seq<Waker>, i: nat)
    requires i < |ws| && ws[i] != Idle
    ensures WorkLeft(ws) > 0
  {
    if i > 0 {
      SomeoneLeft(ws[1..], i - 1);
    }
  }

  /** An unfinished waker is never blocked. */
  lemma WakersNeverBlock(s: State, i: nat)
    requires i < |s.wakers| && s.wakers[i] != Idle
    ensures exists a, t :: WakerStep(a) && Next(s, a, t) && a.i == i
  {
    if s.wakers[i] == Published {
      assert Next(s, WakerRead(i), Move(s, i, if s.futex == -1 then Storing else Idle));
    } else if s.wakers[i] == Storing {
      assert Next(s, WakerStore(i), Move(s, i, Waking).(futex := 0));
    } else {
      assert Next(s, WakerWake(i), Move(s, i, Idle).(waiter := Roused(s.waiter)));
    }
  }

  /**
   Whatever the interleaving, once the wakers are done with what they have begun,
   a waiter that has work is awake.
   */
  lemma SleeperIsWoken(ss: seq<State>, acts: seq<Action>, before: seq<State>, prior: seq<Action>)
    requires Execution(before, prior) && Run(ss, acts) && ss[0] == before[|prior|]
    requires forall a :: a in acts ==> WakerStep(a)
    requires HasWork(ss[0]) && WorkLeft(ss[|acts|].wakers) == 0
    ensures ss[|acts|].waiter != Asleep
  {
    InvHolds(before, prior, |prior|);
    InvAlong(ss, acts, |acts|);
    WorkKept(ss, acts, |acts|);
    if ss[|acts|].waiter == Asleep {
      AsleepHasWaker(ss[|acts|]);
    }
  }

  /** From every state the wakers can finish by themselves, whatever the waiter does not do. */
  lemma WakersCanFinish(s: State) returns (ss: seq<State>, acts: seq<Action>)
    ensures Run(ss, acts) && ss[0] == s && (forall a :: a in acts ==> WakerStep(a))
    ensures WorkLeft(ss[|acts|].wakers) == 0
    decreases WorkLeft(s.wakers)
  {
    if WorkLeft(s.wakers) == 0 {
      ss, acts := [s], [];
    } else {
      var i := UnfinishedWaker(s.wakers);
      WakersNeverBlock(s, i);
      var a, t :| WakerStep(a) && Next(s, a, t) && a.i == i;
      WakerStepUsesWork(s, a, t);
      var rest, more := WakersCanFinish(t);
      ss, acts := [s] + rest, [a] + more;
    }
  }

  lemma {:induction false} UnfinishedWaker(ws: seq<Waker>) returns (i: nat)
    requires WorkLeft(ws) > 0
    ensures i < |ws| && ws[i] != Idle
  {
    if ws[0] != Idle {
      i := 0;
    } else {
      i := UnfinishedWaker(ws[1..]);
      i := i + 1;
    }
  }

  /** A run of the wakers that cannot be continued has nothing left to do. */
  lemma StuckWakersAreDone(s: State)
    requires forall a, t :: WakerStep(a) ==> !Next(s, a, t)
    ensures WorkLeft(s.wakers) == 0
  {
    if WorkLeft(s.wakers) > 0 {
      var i := UnfinishedWaker(s.wakers);
      WakersNeverBlock(s, i);
    }
  }

  /** From every reachable state in which the waiter sleeps with work, the wakers alone can wake it. */
  lemma SleeperCanBeWoken(before: seq<State>, prior: seq<Action>) returns (ss: seq<State>, acts: seq<Action>)
    requires Execution(before, prior) && HasWork(before[|prior|])
    ensures Run(ss, acts) && ss[0] == before[|prior|] && (forall a :: a in acts ==> WakerStep(a))
    ensures |acts| <= 3 * |before[|prior|].wakers| && ss[|acts|].waiter != Asleep
  {
    ss, acts := WakersCanFinish(before[|prior|]);
    SleeperIsWoken(ss, acts, before, prior);
    WakerRunIsBounded(ss, acts);
    AtMostThree(ss[0].wakers);
  }

  lemma {:induction false} AtMostThree(ws: seq<Waker>)
    ensures WorkLeft(ws) <= 3 * |ws|
  {
    if ws != [] {
      AtMostThree(ws[1..]);
    }
  }

  lemma {:induction false} WorkKept(ss: seq<State>, acts: seq<Action>, k: nat)
    requires Run(ss, acts) && HasWork(ss[0]) && k < |ss| && forall a :: a in acts ==> WakerStep(a)
    ensures HasWork(ss[k])
    decreases k
  {
    if k > 0 {
      WorkKept(ss, acts, k - 1);
      assert Next(ss[k - 1], acts[k - 1], ss[k]) && WakerStep(acts[k - 1]);
    }
  }

  lemma AsleepHasWaker(s: State)
    requires Inv(s) && HasWork(s) && s.waiter == Asleep
    ensures WorkLeft(s.wakers) > 0
  {
    if s.futex == -1 {
      var i: nat :| WakerAt(s, i, Published) || WakerAt(s, i, Storing);
      SomeoneLeft(s.wakers, i);
    } else {
      var i: nat :| WakerAt(s, i, Waking);
      SomeoneLeft(s.wakers, i);
    }
  }
}
