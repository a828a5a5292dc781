/** The server's thread objects and the handlers that work on them, each tied to its step of the protocol. */
module StopServer {
  import opened StopResume

  /** A thread of the debugged program: its core, and what the server remembers about it. */
  class CoreThread {
    var halted: bool
    var why: Signal
    var lastAction: Action
    var pendingSignal: Signal
    var r0: int
    var r3: int

    function View(): Thread
      reads this
    {
      Thread(halted, lastAction, pendingSignal, why, Regs(r0, r3))
    }

    /** Registers R0 and R3; the others play no part here. */
    method WriteR0(value: int)
      modifies this
      ensures View() == old(View()).(regs := old(View()).regs.(r0 := value))
    {
      r0 := value;
    }

    method WriteR3(value: int)
      modifies this
      ensures View() == old(View()).(regs := old(View()).regs.(r3 := value))
    {
      r3 := value;
    }

    method Halt()
      modifies this
      ensures View() == old(View()).(halted := true)
    {
      if !halted { halted := true; }
    }

    method Resume()
      modifies this
      ensures View() == old(View()).(halted := false)
    {
      halted := false;
    }

    method SetLastAction(a: Action)
      modifies this
      ensures View() == old(View()).(last := a)
    {
      lastAction := a;
    }

    method SetPendingSignal(sig: Signal)
      modifies this
      ensures View() == old(View()).(pending := sig)
    {
      pendingSignal := sig;
    }

    /** The core itself moves on: not something the server does. */
    method Run(core: Core)
      modifies this
      ensures View() == Seen(old(View()), core)
    {
      if !halted { halted, why, r0, r3 := core.halted, core.why, core.regs.r0, core.regs.r3; }
    }
  }

  /** What one turn of the wait loop meets. */
  datatype Turn = Turn(brk: bool, cores: seq<Core>)

  function AfterTurns(s: State, turns: seq<Turn>, i: nat): State
    requires i <= |turns| && |s.proc| == |s.ts|
    decreases |turns| - i
  {
    if i == |turns| || !s.waiting then s else AfterTurns(Poll(s, turns[i].brk, turns[i].cores), turns, i + 1)
  }

  ghost predicate NothingPending(ts: Threads)
  {
    forall j | 0 <= j < |ts| :: !Pending(ts[j])
  }

  /** The stop reason of the first stopped thread may be looked up: none is pending for it yet. */
  ghost predicate FirstIsFresh(ts: Threads)
  {
    var i := StoppedFrom(ts, 0);
    i < |ts| ==> ts[i].pending == NoSignal
  }

  class GdbServer {
    const threads: seq<CoreThread>
    const proc: seq<nat>
    const tty: bool
    var nonStop: bool
    var notifying: bool
    var current: nat
    var log: seq<Event>
    var waiting: bool

    /** The threads' states, kept up to date beside them. */
    ghost var view: Threads

    ghost predicate Valid()
      reads this`view, threads
    {
      && |view| == |threads| == |proc|
      && (forall i, j {:trigger Apart(i, j)} :: Apart(i, j))
      && forall i {:trigger Linked(i)} :: Linked(i)
    }

    ghost predicate Apart(i: int, j: int)
    {
      0 <= i < |threads| && 0 <= j < |threads| && i != j ==> threads[i] != threads[j]
    }

    ghost predicate Linked(i: int)
      reads this`view, threads
    {
      0 <= i < |threads| && i < |view| ==> threads[i].View() == view[i]
    }

    /** A new connection: until `?` is processed a notification counts as outstanding. */
    constructor (threads: seq<CoreThread>, proc: seq<nat>, tty: bool, nonStop: bool)
      requires |threads| == |proc| && forall i, j | 0 <= i < j < |threads| :: threads[i] != threads[j]
      ensures Valid() && this.threads == threads && this.proc == proc && this.tty == tty && this.nonStop == nonStop
      ensures notifying && !waiting && log == []
    {
      this.threads, this.proc, this.tty, this.nonStop := threads, proc, tty, nonStop;
      notifying, waiting, current, log := true, false, 0, [];
      new;
      view := seq(|threads|, i requires 0 <= i < |threads| reads threads => threads[i].View());
    }

    /** The list follows a change to thread i. */
    ghost method Follow(i: nat)
      requires i < |threads| == |view| == |proc| && forall a, b {:trigger Apart(a, b)} :: Apart(a, b)
      requires forall j {:trigger Linked(j)} :: j != i ==> Linked(j)
      modifies this`view
      ensures Valid() && view == old(view)[i := threads[i].View()]
    {
      view := view[i := threads[i].View()];
      forall j ensures Linked(j) { assert old(j != i ==> Linked(j)); }
    }

    ghost function Now(): State
      reads this
    {
      State(view, proc, nonStop, tty, notifying, waiting, current, log)
    }

    /** Changes to one thread, as seen in the list of all. */
    method SetPending(i: nat, sig: Signal)
      requires Valid() && i < |threads|
      modifies this, threads
      ensures Valid()
      ensures Now() == old(Now()).(ts := old(view)[i := old(view[i]).(pending := sig)])
    {
      assert Linked(i);
      threads[i].SetPendingSignal(sig);
      forall j ensures j != i ==> Linked(j) { assert old(Linked(j)) && Apart(i, j); }
      Follow(i);
    }

    method SetLast(i: nat, a: Action)
      requires Valid() && i < |threads|
      modifies this, threads
      ensures Valid()
      ensures Now() == old(Now()).(ts := old(view)[i := old(view[i]).(last := a)])
    {
      assert Linked(i);
      threads[i].SetLastAction(a);
      forall j ensures j != i ==> Linked(j) { assert old(Linked(j)) && Apart(i, j); }
      Follow(i);
    }

    method Release(i: nat)
      requires Valid() && i < |threads|
      modifies this, threads
      ensures Valid()
      ensures Now() == old(Now()).(ts := old(view)[i := old(view[i]).(halted := false)])
    {
      assert Linked(i);
      threads[i].Resume();
      forall j ensures j != i ==> Linked(j) { assert old(Linked(j)) && Apart(i, j); }
      Follow(i);
    }

    method HaltThread(i: nat)
      requires Valid() && i < |threads|
      modifies this, threads
      ensures Valid()
      ensures Now() == old(Now()).(ts := old(view)[i := old(view[i]).(halted := true)])
    {
      assert Linked(i);
      threads[i].Halt();
      forall j ensures j != i ==> Linked(j) { assert old(Linked(j)) && Apart(i, j); }
      Follow(i);
    }

    method RunThread(i: nat, core: Core)
      requires Valid() && i < |threads|
      modifies this, threads
      ensures Valid()
      ensures Now() == old(Now()).(ts := old(view)[i := Seen(old(view[i]), core)])
    {
      assert Linked(i);
      threads[i].Run(core);
      forall j ensures j != i ==> Linked(j) { assert old(Linked(j)) && Apart(i, j); }
      Follow(i);
    }

    method HaltAllThreads()
      requires Valid()
      modifies this, threads
      ensures Valid()
      ensures Now() == old(Now()).(ts := HaltAll(old(view)))
    {
      var i := 0;
      while i < |threads|
        invariant 0 <= i <= |threads|
        invariant Valid() && Now() == old(Now()).(ts := view)
        invariant forall j | 0 <= j < |threads| ::
          view[j] == if j < i then HaltAll(old(view))[j] else old(view[j])
      {
        HaltThread(i);
        i := i + 1;
      }
    }

    method ResumeAllThreads()
      requires Valid()
      modifies this, threads
      ensures Valid()
      ensures Now() == old(Now()).(ts := ResumeAll(old(view)))
    {
      var i := 0;
      while i < |threads|
        invariant 0 <= i <= |threads|
        invariant Valid() && Now() == old(Now()).(ts := view)
        invariant forall j | 0 <= j < |threads| ::
          view[j] == if j < i then ResumeAll(old(view))[j] else old(view[j])
      {
        assert Linked(i);
        if threads[i].lastAction == CONTINUE && threads[i].pendingSignal == NoSignal {
          Release(i);
        }
        i := i + 1;
      }
    }

    method SetLastActionAllThreads(a: Action)
      requires Valid()
      modifies this, threads
      ensures Valid()
      ensures Now() == old(Now()).(ts := SetLastAll(old(view), a))
    {
      var i := 0;
      while i < |threads|
        invariant 0 <= i <= |threads|
        invariant Valid() && Now() == old(Now()).(ts := view)
        invariant forall j | 0 <= j < |threads| ::
          view[j] == if j < i then SetLastAll(old(view), a)[j] else old(view[j])
      {
        SetLast(i, a);
        i := i + 1;
      }
    }

    /** Between two turns of the wait loop the cores run on. */
    method RunCores(cores: seq<Core>)
      requires Valid()
      modifies this, threads
      ensures Valid()
      ensures Now() == old(Now()).(ts := Observe(old(view), cores))
    {
      var i := 0;
      while i < |threads|
        invariant 0 <= i <= |threads|
        invariant Valid() && Now() == old(Now()).(ts := view)
        invariant forall j | 0 <= j < |threads| ::
          view[j] == if j < i then Observe(old(view), cores)[j] else old(view[j])
      {
        if i < |cores| { RunThread(i, cores[i]); }
        i := i + 1;
      }
    }

    /** The preconditions are the handler's own assertions. */
    method FindStopReason(thread: CoreThread) returns (sig: Signal)
      requires thread.halted && thread.pendingSignal == NoSignal
      ensures sig == thread.why
    {
      sig := thread.why;
    }

    /** Looks up a thread's stop reason and notes it as pending. */
    method NoteStop(i: nat)
      requires Valid() && i < |threads| && view[i].halted && view[i].pending == NoSignal
      modifies this, threads
      ensures Valid()
      ensures Now() == old(Now()).(ts := old(view)[i := old(view[i]).(pending := old(view[i]).why)])
    {
      assert Linked(i);
      var sig := FindStopReason(threads[i]);
      SetPending(i, sig);
    }

    method PendingOf(i: nat) returns (sig: Signal)
      requires Valid() && i < |threads|
      ensures sig == view[i].pending
    {
      assert Linked(i);
      sig := threads[i].pendingSignal;
    }

    method MarkPendingStops(reporting: nat)
      requires Valid() && reporting < |threads| && forall i | 0 <= i < |threads| :: view[i].halted
      modifies this, threads
      ensures Valid()
      ensures Now() == old(Now()).(ts := MarkPending(old(view), reporting))
    {
      var i := 0;
      while i < |threads|
        invariant 0 <= i <= |threads|
        invariant Valid() && Now() == old(Now()).(ts := view)
        invariant forall j | 0 <= j < |threads| ::
          view[j] == if j < i && j != reporting then MarkPending(old(view), reporting)[j] else old(view[j])
      {
        assert Linked(i);
        var thread := threads[i];
        if i != reporting && thread.lastAction == CONTINUE && thread.pendingSignal == NoSignal {
          var sig := FindStopReason(thread);
          if sig != NoSignal { SetPending(i, sig); }
        }
        i := i + 1;
      }
      SetPending(reporting, NoSignal);
    }

    method ReportException(i: nat, sig: Signal)
      requires Valid() && i < |threads|
      modifies this, threads
      ensures Valid()
      ensures Now() == Report(old(Now()), i, sig)
    {
      if !nonStop {
        HaltAllThreads();
        MarkPendingStops(i);
        current := i;
      }
      log := log + [StopReply(i, sig)];
    }

    /** Deal with a thread that stopped after it was continued. */
    method ContinueStopped(i: nat)
      requires Valid() && i < |threads| && view[i].halted
      modifies this, threads
      ensures Valid()
      ensures Now() == DoContinue(old(Now()), i)
    {
      var sig := PendingOf(i);
      SetPending(i, NoSignal);
      waiting := false;
      if sig.Emt? {
        HaltAllThreads();
        RedirectStdioOnTrap(i, sig.syscall);
      } else {
        ReportException(i, sig);
        SetLastActionAllThreads(STOP);
      }
    }

    /** System calls go to the client as file-I/O requests, or to the server's terminal if it has one. */
    method RedirectStdioOnTrap(i: nat, syscall: bool)
      requires Valid() && i < |threads|
      modifies this, threads
      ensures Valid()
      ensures Now() == if tty && syscall
                       then old(Now()).(ts := old(view)[i := old(view[i]).(halted := false)],
                                        log := old(log) + [Tty(i)])
                       else old(Now()).(log := old(log) + [FileIO(i)])
    {
      if tty && syscall {
        Release(i);
        log := log + [Tty(i)];
      } else {
        log := log + [FileIO(i)];
      }
    }

    method FindPending() returns (i: nat)
      requires Valid()
      ensures i == PendingFrom(view, 0)
    {
      i := 0;
      assert Linked(0);
      while i < |threads| && !(threads[i].lastAction == CONTINUE && threads[i].pendingSignal != NoSignal)
        invariant Linked(i)
        invariant 0 <= i <= |threads|
        invariant PendingFrom(view, 0) == PendingFrom(view, i)
      {
        i := i + 1;
        assert Linked(i);
      }
    }

    method FindHalted() returns (i: nat)
      requires Valid()
      ensures i == StoppedFrom(view, 0)
    {
      i := 0;
      assert Linked(0);
      while i < |threads| && !(threads[i].lastAction == CONTINUE && threads[i].halted)
        invariant Linked(i)
        invariant 0 <= i <= |threads|
        invariant StoppedFrom(view, 0) == StoppedFrom(view, i)
      {
        i := i + 1;
        assert Linked(i);
      }
    }

    method FindSignalThread() returns (signal: nat)
      requires Valid()
      ensures signal == SignalFrom(view, proc, 0, |threads|)
    {
      signal := |threads|;
      var i := 0;
      while i < |threads|
        invariant 0 <= i <= |threads| && signal <= |threads|
        invariant SignalFrom(view, proc, 0, |threads|) == SignalFrom(view, proc, i, signal)
      {
        assert Linked(i);
        if threads[i].lastAction == CONTINUE && (signal == |threads| || proc[i] != proc[signal]) {
          signal := i;
        }
        i := i + 1;
      }
    }

    method RspSuspend()
      requires Valid()
      modifies this, threads
      ensures Valid()
      ensures Now() == Suspend(old(Now())) && !waiting
    {
      HaltAllThreads();
      waiting := false;
      var signal := FindSignalThread();
      if signal < |threads| {
        ReportException(signal, INT);
        SetLastActionAllThreads(STOP);
      }
    }

    /** One turn of the wait loop. */
    method WaitTurn(turn: Turn)
      requires Valid() && waiting && NothingPending(view)
      modifies this, threads
      ensures Valid()
      ensures Now() == Poll(old(Now()), turn.brk, turn.cores)
      ensures waiting ==> NothingPending(view)
    {
      RunCores(turn.cores);
      assert NothingPending(view) by {
        forall j | 0 <= j < |view| ensures !Pending(view[j]) { assert !Pending(old(view[j])); }
      }
      if turn.brk {
        RspSuspend();
      } else {
        var i := FindHalted();
        if i < |threads| {
          assert !Pending(view[i]);
          NoteStop(i);
          ContinueStopped(i);
        }
      }
    }

    method WaitLoop(turns: seq<Turn>)
      requires Valid() && waiting && NothingPending(view)
      modifies this, threads
      ensures Valid()
      ensures Now() == AfterTurns(old(Now()), turns, 0)
    {
      var k := 0;
      while k < |turns| && waiting
        invariant 0 <= k <= |turns| && Valid()
        invariant waiting ==> NothingPending(view)
        invariant AfterTurns(old(Now()), turns, 0) == AfterTurns(Now(), turns, k)
      {
        WaitTurn(turns[k]);
        k := k + 1;
      }
    }

    /** Pending stops first, then the wait loop for the given turns; `waiting` tells whether it would go on. */
    method WaitAllThreads(turns: seq<Turn>)
      requires Valid() && AllSafe(view)
      modifies this, threads
      ensures Valid()
      ensures Now() == AfterTurns(BeginWait(old(Now())), turns, 0)
    {
      var i := FindPending();
      if i < |threads| {
        assert Safe(view[i]);
        ContinueStopped(i);
      } else {
        waiting := true;
        WaitLoop(turns);
      }
    }

    /** `cores` is what the restarted cores do before the server looks at them, as in RspFileIOReply. */
    method RspVCont(acts: seq<VAction>, cores: seq<Core>, turns: seq<Turn>)
      requires Valid() && Inv(Now()) && !waiting
      modifies this, threads
      ensures Valid()
      ensures Now() == AfterTurns(VCont(old(Now()), acts, cores), turns, 0)
    {
      VContThreadsKeep(view, acts);
      var i := 0;
      while i < |threads|
        invariant 0 <= i <= |threads|
        invariant Valid() && Now() == old(Now()).(ts := view)
        invariant forall j | 0 <= j < |threads| ::
          view[j] == if j < i then VContThreads(old(view), acts)[j] else old(view[j])
      {
        var k := 0;
        while k < |acts| && i !in acts[k].threads
          invariant 0 <= k <= |acts|
          invariant FirstMatch(old(view[i]), i, acts, 0) == FirstMatch(old(view[i]), i, acts, k)
        {
          k := k + 1;
        }
        if k < |acts| { Apply(i, acts[k].kind); }
        i := i + 1;
      }
      assert view == VContThreads(old(view), acts);
      if nonStop {
        log := log + [Ok];
      } else {
        RunCores(cores);
        WaitAllThreads(turns);
      }
    }

    method Apply(i: nat, kind: Action)
      requires Valid() && i < |threads|
      modifies this, threads
      ensures Valid()
      ensures Now() == old(Now()).(ts := old(view)[i := Applied(old(view[i]), kind)])
    {
      assert Linked(i);
      if kind == CONTINUE && threads[i].lastAction == STOP {
        SetLast(i, kind);
        assert Linked(i);
        if threads[i].pendingSignal == NoSignal { Release(i); }
      } else if kind == STOP && threads[i].lastAction == CONTINUE {
        HaltThread(i);
      }
    }

    method FindStoppedThread() returns (i: nat)
      requires Valid() && FirstIsFresh(view)
      modifies this, threads
      ensures Valid()
      ensures i == StoppedFrom(old(view), 0)
      ensures i < |threads| ==> Now() == old(Now()).(ts := old(view)[i := old(view[i]).(pending := old(view[i]).why)])
      ensures i == |threads| ==> Now() == old(Now())
    {
      i := FindHalted();
      if i < |threads| { NoteStop(i); }
    }

    method RspVStopped()
      requires Valid() && FirstIsFresh(view)
      modifies this, threads
      ensures Valid()
      ensures Now() == VStopped(old(Now()))
    {
      var i := FindStoppedThread();
      if i < |threads| {
        var sig := PendingOf(i);
        ReportException(i, sig);
        SetLast(i, STOP);
        SetPending(i, NoSignal);
      } else {
        log := log + [Drained];
        notifying := false;
      }
    }

    method RspClientNotifications()
      requires Valid() && FirstIsFresh(view)
      modifies this, threads
      ensures Valid()
      ensures Now() == Notifications(old(Now()))
    {
      if notifying { return; }
      var i := FindStoppedThread();
      if i < |threads| {
        var sig := PendingOf(i);
        notifying := true;
        log := log + [Notification(i, sig)];
        SetPending(i, NoSignal);
        SetLast(i, STOP);
      }
    }

    method RspVCtrlC()
      requires Valid()
      modifies this, threads
      ensures Valid()
      ensures Now() == VCtrlC(old(Now()))
    {
      HaltAllThreads();
      log := log + [Ok];
    }

    /** Selects the thread that later requests are about. */
    method RspSetThread(i: nat)
      requires Valid() && i < |threads|
      modifies this
      ensures Valid()
      ensures Now() == Select(old(Now()), i)
    {
      current := i;
      log := log + [Ok];
    }

    /** Puts the result into the current thread's registers. */
    method TakeAnswer(answer: Answer)
      requires Valid() && current < |threads|
      modifies this, threads
      ensures Valid()
      ensures Now() == old(Now()).(ts := WriteResult(old(Now()), answer))
    {
      assert Linked(current);
      var thread := threads[current];
      match answer {
        case Both(result, error) =>
          thread.WriteR0(result);
          thread.WriteR3(error);
        case ResultOnly(result) =>
          thread.WriteR0(result);
        case Unreadable =>
      }
      forall j ensures j != current ==> Linked(j) { assert old(Linked(j)) && Apart(current, j); }
      Follow(current);
    }

    method RspFileIOReply(answer: Answer, cores: seq<Core>, turns: seq<Turn>)
      requires Valid() && AllSafe(view) && current < |threads|
      modifies this, threads
      ensures Valid()
      ensures Now() == AfterTurns(FileIOReply(old(Now()), answer, cores), turns, 0)
    {
      TakeAnswer(answer);
      ResumeAllThreads();
      RunCores(cores);
      WaitAllThreads(turns);
    }

    method RspStatus()
      requires Valid() && (nonStop && |threads| > 0 ==> view[0].pending == NoSignal)
      modifies this, threads
      ensures Valid()
      ensures Now() == Status(old(Now()))
    {
      HaltAllThreads();
      if nonStop {
        notifying := true;
        SetLastActionAllThreads(CONTINUE);
        RspVStopped();
      } else if |threads| == 0 {
        log := log + [NoProcess];
      } else {
        current := 0;
        var sig := PendingOf(0);
        ReportException(0, sig);
        SetLastActionAllThreads(STOP);
      }
    }
  }
}
