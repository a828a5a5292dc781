/**
 The stop and resume protocol of the debug server: per thread whether its core is halted, what the
 client last asked of it and which stop is still to be delivered, and how each request changes that.
 */
module StopResume {

  datatype Action = CONTINUE | STOP

  /** Emt is a system call trap; `syscall` tells the general system call from the older traps. */
  datatype Signal = NoSignal | Emt(syscall: bool) | Other(number: nat)

  const INT := Other(2)

  /** The two registers that a system call's result comes back in. */
  datatype Regs = Regs(r0: int, r3: int)

  /** `why` is the stop reason the server would find if it looked at the halted core now. */
  datatype Thread = Thread(halted: bool, last: Action, pending: Signal, why: Signal, regs: Regs)

  type Threads = seq<Thread>

  /** What a core is seen to do. */
  datatype Core = Core(halted: bool, why: Signal, regs: Regs)

  /** What a file-I/O reply says: a result and an error, a result alone, or nothing that can be read. */
  datatype Answer = Both(result: int, error: int) | ResultOnly(result: int) | Unreadable

  /** What is sent to the client (or, for Tty, to the server's own terminal). */
  datatype Event =
    | StopReply(thread: nat, sig: Signal)
    | Notification(thread: nat, sig: Signal)
    | FileIO(thread: nat)
    | Tty(thread: nat)
    | Ok
    | Drained
    | NoProcess

  /** `proc` gives each thread's process, in the order of the scans; `waiting` is inside the wait loop. */
  datatype State = State(ts: Threads, proc: seq<nat>, nonStop: bool, tty: bool,
                         notifying: bool, waiting: bool, current: nat, log: seq<Event>)

  // ----- Scans over the threads --------------------------------------------------------

  predicate Pending(t: Thread)
  {
    t.last == CONTINUE && t.pending != NoSignal
  }

  predicate Stopped(t: Thread)
  {
    t.last == CONTINUE && t.halted
  }

  /** The first continued thread with a pending stop, or the number of threads. */
  function PendingFrom(ts: Threads, i: nat): (r: nat)
    requires i <= |ts|
    ensures i <= r <= |ts| && (r < |ts| ==> Pending(ts[r])) && forall j | i <= j < r :: !Pending(ts[j])
    decreases |ts| - i
  {
    if i == |ts| || Pending(ts[i]) then i else PendingFrom(ts, i + 1)
  }

  /** The first continued thread that is halted, or the number of threads. */
  function StoppedFrom(ts: Threads, i: nat): (r: nat)
    requires i <= |ts|
    ensures i <= r <= |ts| && (r < |ts| ==> Stopped(ts[r])) && forall j | i <= j < r :: !Stopped(ts[j])
    decreases |ts| - i
  {
    if i == |ts| || Stopped(ts[i]) then i else StoppedFrom(ts, i + 1)
  }

  /** The first continued thread of the last process that has one, given the choice `r` so far. */
  function SignalFrom(ts: Threads, proc: seq<nat>, i: nat, r: nat): (k: nat)
    requires i <= |ts| == |proc| && r <= |ts|
    ensures k <= |ts|
    decreases |ts| - i
  {
    if i == |ts| then r
    else SignalFrom(ts, proc, i + 1, if ts[i].last == CONTINUE && (r == |ts| || proc[i] != proc[r]) then i else r)
  }

  function HaltAll(ts: Threads): Threads
  {
    seq(|ts|, i requires 0 <= i < |ts| => ts[i].(halted := true))
  }

  function SetLastAll(ts: Threads, a: Action): Threads
  {
    seq(|ts|, i requires 0 <= i < |ts| => ts[i].(last := a))
  }

  function Resumed(t: Thread): Thread
  {
    if t.last == CONTINUE && t.pending == NoSignal then t.(halted := false) else t
  }

  function ResumeAll(ts: Threads): Threads
  {
    seq(|ts|, i requires 0 <= i < |ts| => Resumed(ts[i]))
  }

  function Mark(t: Thread): Thread
  {
    if t.last == CONTINUE && t.pending == NoSignal then t.(pending := t.why) else t
  }

  function MarkPending(ts: Threads, reporting: nat): Threads
  {
    seq(|ts|, i requires 0 <= i < |ts| => if i == reporting then ts[i].(pending := NoSignal) else Mark(ts[i]))
  }

  function Seen(t: Thread, c: Core): Thread
  {
    if t.halted then t else t.(halted := c.halted, why := c.why, regs := c.regs)
  }

  /** Cores that run may halt of their own accord. */
  function Observe(ts: Threads, cores: seq<Core>): Threads
  {
    seq(|ts|, i requires 0 <= i < |ts| => if i < |cores| then Seen(ts[i], cores[i]) else ts[i])
  }

  // ----- Requests ----------------------------------------------------------------------

  function Report(s: State, i: nat, sig: Signal): State
  {
    var s1 := if s.nonStop then s else s.(ts := MarkPending(HaltAll(s.ts), i), current := i);
    s1.(log := s.log + [StopReply(i, sig)])
  }

  function DoContinue(s: State, i: nat): State
    requires i < |s.ts|
  {
    var sig := s.ts[i].pending;
    var ts := s.ts[i := s.ts[i].(pending := NoSignal)];
    var s1 := s.(waiting := false);
    if sig.Emt? then
      if s.tty && sig.syscall then s1.(ts := HaltAll(ts)[i := ts[i].(halted := false)], log := s.log + [Tty(i)])
      else s1.(ts := HaltAll(ts), log := s.log + [FileIO(i)])
    else
      var s2 := Report(s1.(ts := ts), i, sig);
      s2.(ts := SetLastAll(s2.ts, STOP))
  }

  function BeginWait(s: State): State
  {
    var i := PendingFrom(s.ts, 0);
    if i < |s.ts| then DoContinue(s, i) else s.(waiting := true)
  }

  function Suspend(s: State): State
    requires |s.proc| == |s.ts|
  {
    var s1 := s.(ts := HaltAll(s.ts), waiting := false);
    var i := SignalFrom(s1.ts, s.proc, 0, |s1.ts|);
    if i == |s.ts| then s1
    else
      var s2 := Report(s1, i, INT);
      s2.(ts := SetLastAll(s2.ts, STOP))
  }

  /** One turn of the wait loop: whether Ctrl-C has come, and what the cores have done since the last one. */
  function Poll(s: State, brk: bool, cores: seq<Core>): State
    requires |s.proc| == |s.ts|
  {
    var s1 := s.(ts := Observe(s.ts, cores));
    if brk then Suspend(s1)
    else
      var i := StoppedFrom(s1.ts, 0);
      if i < |s1.ts| then DoContinue(s1.(ts := s1.ts[i := s1.ts[i].(pending := s1.ts[i].why)]), i) else s1
  }

  function VStopped(s: State): State
  {
    var i := StoppedFrom(s.ts, 0);
    if i < |s.ts| then
      var s1 := Report(s.(ts := s.ts[i := s.ts[i].(pending := s.ts[i].why)]), i, s.ts[i].why);
      s1.(ts := s1.ts[i := s1.ts[i].(last := STOP, pending := NoSignal)])
    else s.(log := s.log + [Drained], notifying := false)
  }

  /** `?` at the start of a session. */
  function Status(s: State): State
  {
    var s1 := s.(ts := HaltAll(s.ts));
    if s.nonStop then VStopped(s1.(notifying := true, ts := SetLastAll(s1.ts, CONTINUE)))
    else if |s.ts| == 0 then s1.(log := s.log + [NoProcess])
    else
      var s2 := Report(s1, 0, s.ts[0].pending);
      s2.(ts := SetLastAll(s2.ts, STOP))
  }

  function Notifications(s: State): State
  {
    var i := StoppedFrom(s.ts, 0);
    if s.notifying || i == |s.ts| then s
    else s.(notifying := true, ts := s.ts[i := s.ts[i].(pending := NoSignal, last := STOP)],
            log := s.log + [Notification(i, s.ts[i].why)])
  }

  /** One action of a vCont packet and the threads its thread id matches. */
  datatype VAction = VAction(kind: Action, threads: set<nat>)

  function Applied(t: Thread, kind: Action): Thread
  {
    if kind == CONTINUE && t.last == STOP then
      if t.pending == NoSignal then t.(last := CONTINUE, halted := false) else t.(last := CONTINUE)
    else if kind == STOP && t.last == CONTINUE then t.(halted := true)
    else t
  }

  /** The first matching action counts. */
  function FirstMatch(t: Thread, i: nat, acts: seq<VAction>, k: nat): Thread
    requires k <= |acts|
    decreases |acts| - k
  {
    if k == |acts| then t
    else if i in acts[k].threads then Applied(t, acts[k].kind)
    else FirstMatch(t, i, acts, k + 1)
  }

  function VContThreads(ts: Threads, acts: seq<VAction>): Threads
  {
    seq(|ts|, i requires 0 <= i < |ts| => FirstMatch(ts[i], i, acts, 0))
  }

  /** `cores` is what the cores do once they have been restarted, before the server looks at them. */
  function VCont(s: State, acts: seq<VAction>, cores: seq<Core>): State
  {
    var s1 := s.(ts := VContThreads(s.ts, acts));
    if s.nonStop then s1.(log := s.log + [Ok]) else BeginWait(s1.(ts := Observe(s1.ts, cores)))
  }

  function VCtrlC(s: State): State
  {
    s.(ts := HaltAll(s.ts), log := s.log + [Ok])
  }

  /** The client selects a thread for what follows. */
  function Select(s: State, i: nat): State
  {
    s.(current := i, log := s.log + [Ok])
  }

  function Put(r: Regs, a: Answer): Regs
  {
    match a
    case Both(result, error) => Regs(result, error)
    case ResultOnly(result) => r.(r0 := result)
    case Unreadable => r
  }

  /** The reply's result goes to the current thread, whichever asked. */
  function WriteResult(s: State, a: Answer): Threads
  {
    if s.current < |s.ts| then s.ts[s.current := s.ts[s.current].(regs := Put(s.ts[s.current].regs, a))] else s.ts
  }

  function FileIOReply(s: State, a: Answer, cores: seq<Core>): State
  {
    BeginWait(s.(ts := Observe(ResumeAll(WriteResult(s, a)), cores)))
  }

  // ----- The machine -------------------------------------------------------------------

  datatype Op =
    | OpVCont(acts: seq<VAction>, cores: seq<Core>)
    | OpPoll(brk: bool, cores: seq<Core>)
    | OpVStopped
    | OpNotify
    | OpVCtrlC
    | OpFileIOReply(answer: Answer, cores: seq<Core>)
    | OpSelect(thread: nat)
    | OpCores(cores: seq<Core>)

  /** vStopped and notifications belong to non-stop mode, file I/O replies to all-stop mode. */
  predicate Enabled(s: State, op: Op)
  {
    match op
    case OpPoll(_, _) => s.waiting
    case OpVStopped => !s.waiting && s.nonStop
    case OpNotify => !s.waiting && s.nonStop
    case OpFileIOReply(_, _) => !s.waiting && !s.nonStop
    case OpSelect(i) => !s.waiting && i < |s.ts|
    case OpVCont(_, _) => !s.waiting
    case OpVCtrlC => !s.waiting
    case OpCores(_) => !s.waiting
  }

  function Next(s: State, op: Op): State
    requires |s.proc| == |s.ts|
  {
    match op
    case OpVCont(acts, cores) => VCont(s, acts, cores)
    case OpPoll(brk, cores) => Poll(s, brk, cores)
    case OpVStopped => VStopped(s)
    case OpNotify => Notifications(s)
    case OpVCtrlC => VCtrlC(s)
    case OpFileIOReply(a, cores) => FileIOReply(s, a, cores)
    case OpSelect(i) => Select(s, i)
    case OpCores(cores) => s.(ts := Observe(s.ts, cores))
  }

  /** Neither a core the client stopped nor one with an undelivered stop runs. */
  predicate Safe(t: Thread)
  {
    (t.last == STOP ==> t.halted) && (t.pending != NoSignal ==> t.halted)
  }

  ghost predicate AllSafe(ts: Threads)
  {
    forall i | 0 <= i < |ts| :: Safe(ts[i])
  }

  ghost predicate Inv(s: State)
  {
    && |s.proc| == |s.ts|
    && AllSafe(s.ts)
    && (s.nonStop ==> !s.waiting && forall i | 0 <= i < |s.ts| :: s.ts[i].pending == NoSignal)
    && (s.waiting ==> forall i | 0 <= i < |s.ts| :: !Pending(s.ts[i]))
  }

  /** A new session: the mode is chosen, no stop is outstanding from an earlier one in non-stop mode. */
  ghost predicate Connected(s: State)
  {
    && |s.proc| == |s.ts| && s.notifying && !s.waiting && s.log == []
    && (s.nonStop ==> forall i | 0 <= i < |s.ts| :: s.ts[i].pending == NoSignal)
  }

  lemma FirstMatchKeeps(t: Thread, i: nat, acts: seq<VAction>, k: nat)
    requires k <= |acts| && Safe(t)
    ensures var r := FirstMatch(t, i, acts, k); Safe(r) && r.pending == t.pending && r.why == t.why
    ensures t.pending != NoSignal ==> FirstMatch(t, i, acts, k).halted
    ensures t.last == CONTINUE ==> FirstMatch(t, i, acts, k).last == CONTINUE
    decreases |acts| - k
  {
    if k < |acts| && i !in acts[k].threads { FirstMatchKeeps(t, i, acts, k + 1); }
  }

  lemma VContThreadsKeep(ts: Threads, acts: seq<VAction>)
    requires forall i | 0 <= i < |ts| :: Safe(ts[i])
    ensures var r := VContThreads(ts, acts);
      forall i | 0 <= i < |ts| ::
        Safe(r[i]) && r[i].pending == ts[i].pending && (ts[i].last == CONTINUE ==> r[i].last == CONTINUE)
  {
    forall i | 0 <= i < |ts|
      ensures var r := VContThreads(ts, acts);
        Safe(r[i]) && r[i].pending == ts[i].pending && (ts[i].last == CONTINUE ==> r[i].last == CONTINUE)
    {
      FirstMatchKeeps(ts[i], i, acts, 0);
    }
  }

  // ----- What every step keeps ---------------------------------------------------------

  /** The step sends exactly the one event e. */
  ghost predicate Sends(s: State, s': State, e: Event)
  {
    s'.log == s.log + [e] && s'.log[|s.log|] == e
  }

  /** The stop pending for thread i goes out, as a stop reply or as a file-I/O request. */
  ghost predicate Delivers(s: State, s': State, i: nat, sig: Signal)
  {
    Sends(s, s', StopReply(i, sig)) || (sig.Emt? && (Sends(s, s', FileIO(i)) || (s.tty && Sends(s, s', Tty(i)))))
  }

  ghost predicate KeptOrDelivered(s: State, s': State, i: nat)
    requires i < |s.ts| == |s'.ts|
  {
    var sig := s.ts[i].pending;
    sig != NoSignal ==> (s'.ts[i].pending == sig && s'.ts[i].halted) || Delivers(s, s', i, sig)
  }

  ghost predicate AllStopped(s: State)
  {
    forall i | 0 <= i < |s.ts| :: s.ts[i].halted && s.ts[i].last == STOP
  }

  /** In all-stop mode a stop reply finds every thread halted and stopped, and selects the one reported. */
  ghost predicate ReplyStopsAll(s: State, s': State)
  {
    !s.nonStop ==> forall i, sig {:trigger StopReply(i, sig)} ::
      Sends(s, s', StopReply(i, sig)) ==> AllStopped(s') && s'.current == i
  }

  /** While the client serves a file-I/O request no core runs. */
  ghost predicate RequestHaltsAll(s: State, s': State)
  {
    forall i {:trigger FileIO(i)} :: Sends(s, s', FileIO(i)) ==> forall j | 0 <= j < |s'.ts| :: s'.ts[j].halted
  }

  /** A stop that has gone out is no longer pending. */
  ghost predicate DeliveryClears(s: State, s': State)
  {
    |s'.log| == |s.log| + 1 ==>
      var e := s'.log[|s.log|];
      (e.StopReply? || e.Notification? || e.FileIO? || e.Tty?) && e.thread < |s'.ts| ==>
        s'.ts[e.thread].pending == NoSignal
  }

  ghost predicate GoodStep(s: State, s': State)
  {
    && Inv(s') && |s'.ts| == |s.ts| && s'.proc == s.proc && s'.nonStop == s.nonStop && s'.tty == s.tty
    && (forall i: nat {:trigger KeptOrDelivered(s, s', i)} | i < |s.ts| :: KeptOrDelivered(s, s', i))
    && ReplyStopsAll(s, s') && RequestHaltsAll(s, s') && DeliveryClears(s, s')
  }

  /** Like Inv, but inside the wait loop a stop may just have been found. */
  ghost predicate Calm(s: State)
  {
    |s.proc| == |s.ts| && (forall i | 0 <= i < |s.ts| :: Safe(s.ts[i])) && !s.nonStop
  }

  lemma DoContinueGood(s: State, i: nat)
    requires Calm(s) && i < |s.ts| && Stopped(s.ts[i])
    ensures var s' := DoContinue(s, i);
      GoodStep(s, s') && !s'.waiting && Delivers(s, s', i, s.ts[i].pending)
  {
    if s.ts[i].pending.Emt? { CallGood(s, i); } else { StopGood(s, i); }
  }

  /** The stop is a system call. */
  lemma CallGood(s: State, i: nat)
    requires Calm(s) && i < |s.ts| && Stopped(s.ts[i]) && s.ts[i].pending.Emt?
    ensures var s' := DoContinue(s, i);
      GoodStep(s, s') && !s'.waiting && Delivers(s, s', i, s.ts[i].pending)
  {
    var s' := DoContinue(s, i);
    forall j: nat | j < |s.ts| ensures KeptOrDelivered(s, s', j) { }
  }

  /** Any other stop. */
  lemma StopGood(s: State, i: nat)
    requires Calm(s) && i < |s.ts| && Stopped(s.ts[i]) && !s.ts[i].pending.Emt?
    ensures var s' := DoContinue(s, i);
      GoodStep(s, s') && !s'.waiting && Delivers(s, s', i, s.ts[i].pending)
  {
    var s' := DoContinue(s, i);
    forall j: nat | j < |s.ts| ensures KeptOrDelivered(s, s', j) { }
  }

  lemma SuspendGood(s: State)
    requires Calm(s) && forall i | 0 <= i < |s.ts| :: !Pending(s.ts[i])
    ensures GoodStep(s, Suspend(s)) && !Suspend(s).waiting
  {
    var s' := Suspend(s);
    var i := SignalFrom(HaltAll(s.ts), s.proc, 0, |s.ts|);
    if i < |s.ts| { SignalIsContinued(HaltAll(s.ts), s.proc, 0, |s.ts|); }
    forall j: nat | j < |s.ts| ensures KeptOrDelivered(s, s', j) { }
  }

  lemma {:induction false} SignalIsContinued(ts: Threads, proc: seq<nat>, i: nat, r: nat)
    requires i <= |ts| == |proc| && r <= |ts| && (r < |ts| ==> ts[r].last == CONTINUE)
    ensures var k := SignalFrom(ts, proc, i, r); k < |ts| ==> ts[k].last == CONTINUE
    decreases |ts| - i
  {
    if i < |ts| {
      SignalIsContinued(ts, proc, i + 1, if ts[i].last == CONTINUE && (r == |ts| || proc[i] != proc[r]) then i else r);
    }
  }

  lemma BeginWaitGood(s: State)
    requires Calm(s)
    ensures GoodStep(s, BeginWait(s))
  {
    var i := PendingFrom(s.ts, 0);
    if i < |s.ts| { DoContinueGood(s, i); }
  }

  /** A step that first changes threads and notes new stops, without touching pending ones. */
  lemma Through(s: State, s1: State, s': State)
    requires GoodStep(s1, s')
    requires s1 == s.(ts := s1.ts) && |s1.ts| == |s.ts|
    requires forall j: nat | j < |s.ts| :: s.ts[j].pending != NoSignal ==> s1.ts[j].pending == s.ts[j].pending
    ensures GoodStep(s, s')
  {
    forall j: nat | j < |s.ts| ensures KeptOrDelivered(s, s', j) { assert KeptOrDelivered(s1, s', j); }
  }

  lemma ObserveKeeps(ts: Threads, cores: seq<Core>, j: nat)
    requires j < |ts| && Safe(ts[j])
    ensures var t := Observe(ts, cores)[j]; Safe(t) && t.last == ts[j].last && t.pending == ts[j].pending
  {
  }

  lemma PollGood(s: State, brk: bool, cores: seq<Core>)
    requires Inv(s) && s.waiting
    ensures GoodStep(s, Poll(s, brk, cores))
  {
    var s1 := s.(ts := Observe(s.ts, cores));
    forall j: nat | j < |s.ts|
      ensures Safe(s1.ts[j]) && s1.ts[j].pending == s.ts[j].pending && !Pending(s1.ts[j])
    {
      ObserveKeeps(s.ts, cores, j);
    }
    if brk {
      SuspendGood(s1);
      Through(s, s1, Poll(s, brk, cores));
    } else {
      TurnGood(s, s1);
    }
  }

  /** Beginning to wait once the restarted cores have moved on. */
  lemma WaitGood(s: State, s1: State, cores: seq<Core>)
    requires Inv(s) && !s.nonStop && s1 == s.(ts := s1.ts) && |s1.ts| == |s.ts|
    requires forall j: nat | j < |s.ts| :: Safe(s1.ts[j]) && s1.ts[j].pending == s.ts[j].pending
    ensures GoodStep(s, BeginWait(s1.(ts := Observe(s1.ts, cores))))
  {
    var s2 := s1.(ts := Observe(s1.ts, cores));
    forall j: nat | j < |s.ts| ensures Safe(s2.ts[j]) && s2.ts[j].pending == s.ts[j].pending {
      ObserveKeeps(s1.ts, cores, j);
    }
    BeginWaitGood(s2);
    Through(s, s2, BeginWait(s2));
  }

  /** The turn's scan, once the cores have moved on. */
  lemma TurnGood(s: State, s1: State)
    requires Inv(s) && s.waiting && s1 == s.(ts := s1.ts) && |s1.ts| == |s.ts|
    requires forall j: nat | j < |s.ts| :: Safe(s1.ts[j]) && s1.ts[j].pending == s.ts[j].pending && !Pending(s1.ts[j])
    ensures var i := StoppedFrom(s1.ts, 0);
      GoodStep(s, if i < |s.ts| then DoContinue(s1.(ts := s1.ts[i := s1.ts[i].(pending := s1.ts[i].why)]), i) else s1)
  {
    var i := StoppedFrom(s1.ts, 0);
    if i < |s.ts| {
      var s2 := s1.(ts := s1.ts[i := s1.ts[i].(pending := s1.ts[i].why)]);
      DoContinueGood(s2, i);
      Through(s, s2, DoContinue(s2, i));
    }
  }

  lemma VStoppedGood(s: State)
    requires s.nonStop && !s.waiting && |s.proc| == |s.ts|
    requires forall i | 0 <= i < |s.ts| :: Safe(s.ts[i]) && s.ts[i].pending == NoSignal
    ensures GoodStep(s, VStopped(s))
  {
  }

  /**
   Every step keeps stopped threads halted; a thread with a pending stop stays halted until that
   stop goes out; and an all-stop stop reply leaves every thread halted and stopped.
   */
  lemma StepIsGood(s: State, op: Op)
    requires Inv(s) && Enabled(s, op)
    ensures GoodStep(s, Next(s, op))
  {
    match op {
      case OpVCont(acts, cores) =>
        VContThreadsKeep(s.ts, acts);
        var s1 := s.(ts := VContThreads(s.ts, acts));
        if s.nonStop {
          Through(s, s1, Next(s, op));
        } else {
          WaitGood(s, s1, cores);
        }
      case OpPoll(brk, cores) => PollGood(s, brk, cores);
      case OpVStopped => VStoppedGood(s);
      case OpNotify =>
      case OpVCtrlC =>
      case OpFileIOReply(a, cores) =>
        WaitGood(s, s.(ts := ResumeAll(WriteResult(s, a))), cores);
      case OpSelect(_) =>
      case OpCores(cores) =>
    }
  }

  lemma StatusIsGood(s: State)
    requires Connected(s)
    ensures Inv(Status(s)) && ReplyStopsAll(s, Status(s)) && |Status(s).ts| == |s.ts| && Status(s).nonStop == s.nonStop
    ensures DeliveryClears(s, Status(s)) && forall i | 0 <= i < |s.ts| :: Status(s).ts[i].halted
    ensures !s.nonStop ==> Sends(s, Status(s), if s.ts == [] then NoProcess else StopReply(0, s.ts[0].pending))
  {
    if s.nonStop {
      VStoppedGood(s.(ts := SetLastAll(HaltAll(s.ts), CONTINUE), notifying := true));
    }
  }
}
