/** What each request does to each thread and what it is answered, for all threads and in both modes. */
module StopEffects {
  import opened StopResume
  import opened StopWait

  // ----- Restarting threads --------------------------------------------------------------

  /** What a core that may have moved on shows of a thread. */
  ghost predicate MovedOn(t: Thread, cores: seq<Core>, i: nat, u: Thread)
  {
    if t.halted || i >= |cores| then u == t
    else u == Thread(cores[i].halted, t.last, t.pending, cores[i].why, cores[i].regs)
  }

  /**
   In non-stop mode vCont starts and halts each thread as its first matching action says, and is
   answered OK; nothing else changes.
   */
  lemma VContInNonStop(s: State, acts: seq<VAction>, cores: seq<Core>, i: nat, k: nat)
    requires Inv(s) && s.nonStop && i < |s.ts| && Matches(acts, i, k)
    ensures var s' := Next(s, OpVCont(acts, cores));
      && Sends(s, s', Ok) && |s'.ts| == |s.ts| && Obeys(s.ts[i], s'.ts[i], acts, k)
      && s'.current == s.current && s'.notifying == s.notifying && !s'.waiting
  {
    VContStartsAndHalts(s.ts, acts, i, k);
  }

  /** Some action of the packet continues thread i. */
  ghost predicate Starts(acts: seq<VAction>, i: nat)
  {
    exists k: nat :: Matches(acts, i, k) && k < |acts| && acts[k].kind == CONTINUE
  }

  lemma {:induction false} HasMatch(acts: seq<VAction>, i: nat, n: nat) returns (k: nat)
    requires n <= |acts| && forall j | 0 <= j < n :: i !in acts[j].threads
    ensures Matches(acts, i, k)
    decreases |acts| - n
  {
    if n == |acts| || i in acts[n].threads { k := n; } else { k := HasMatch(acts, i, n + 1); }
  }

  lemma OneMatch(acts: seq<VAction>, i: nat, k: nat, m: nat)
    requires Matches(acts, i, k) && Matches(acts, i, m)
    ensures k == m
  {
  }

  lemma StartedIsPending(ts: Threads, acts: seq<VAction>, i: nat)
    requires i < |ts| && Safe(ts[i])
    ensures Pending(VContThreads(ts, acts)[i]) <==>
      ts[i].pending != NoSignal && (ts[i].last == CONTINUE || Starts(acts, i))
  {
    var k := HasMatch(acts, i, 0);
    VContStartsAndHalts(ts, acts, i, k);
    if Starts(acts, i) {
      var m: nat :| Matches(acts, i, m) && m < |acts| && acts[m].kind == CONTINUE;
      OneMatch(acts, i, k, m);
    }
  }

  /**
   In all-stop mode vCont does the same to each thread before it waits; the wait goes on, nothing being
   sent yet, exactly if no thread that is continued has a stop pending.
   */
  lemma VContInAllStop(s: State, acts: seq<VAction>, cores: seq<Core>)
    requires Inv(s) && !s.nonStop && !s.waiting
    ensures Next(s, OpVCont(acts, cores)).waiting <==>
      forall j | 0 <= j < |s.ts| :: s.ts[j].pending != NoSignal ==> s.ts[j].last == STOP && !Starts(acts, j)
  {
    var ts := VContThreads(s.ts, acts);
    VContThreadsKeep(s.ts, acts);
    forall j: nat | j < |ts| ensures Pending(Observe(ts, cores)[j]) <==> Pending(ts[j]) { ObserveKeeps(ts, cores, j); }
    forall j: nat | j < |ts|
      ensures Pending(ts[j]) <==> s.ts[j].pending != NoSignal && (s.ts[j].last == CONTINUE || Starts(acts, j))
    {
      StartedIsPending(s.ts, acts, j);
    }
    var i := PendingFrom(Observe(ts, cores), 0);
  }

  lemma VContThenWaits(s: State, acts: seq<VAction>, cores: seq<Core>, i: nat, k: nat) returns (t: Thread)
    requires Inv(s) && !s.nonStop && !s.waiting && i < |s.ts| && Matches(acts, i, k)
    requires Next(s, OpVCont(acts, cores)).waiting
    ensures var s' := Next(s, OpVCont(acts, cores));
      && s'.log == s.log && s'.current == s.current && |s'.ts| == |s.ts|
      && Obeys(s.ts[i], t, acts, k) && MovedOn(t, cores, i, s'.ts[i])
  {
    VContStartsAndHalts(s.ts, acts, i, k);
    t := VContThreads(s.ts, acts)[i];
  }

  /** The registers of thread i once the client has answered a system call of the current thread. */
  ghost predicate HasAnswer(t: Thread, u: Thread, a: Answer, mine: bool)
  {
    && u.regs.r0 == (if mine && !a.Unreadable? then a.result else t.regs.r0)
    && u.regs.r3 == (if mine && a.Both? then a.error else t.regs.r3)
  }

  /** The threads once the result is in place and the cores are restarted. */
  lemma AnsweredAndRestarted(s: State, a: Answer, cores: seq<Core>, i: nat)
    requires i < |s.ts|
    ensures var ts := Restarted(s, OpFileIOReply(a, cores));
      && |ts| == |s.ts| && HasAnswer(s.ts[i], ts[i], a, i == s.current)
      && ts[i].last == s.ts[i].last && ts[i].pending == s.ts[i].pending && ts[i].why == s.ts[i].why
      && (ts[i].halted <==> s.ts[i].halted && (s.ts[i].last == STOP || s.ts[i].pending != NoSignal))
  {
  }

  /**
   A file-I/O reply puts result and error into R0 and R3 of the current thread, and then restarts
   exactly the continued threads without a pending stop.
   */
  lemma FileIOReplyRestarts(s: State, a: Answer, cores: seq<Core>, i: nat) returns (t: Thread)
    requires Inv(s) && !s.nonStop && !s.waiting && i < |s.ts|
    requires Next(s, OpFileIOReply(a, cores)).waiting
    ensures var s' := Next(s, OpFileIOReply(a, cores));
      && s'.log == s.log && s'.current == s.current && |s'.ts| == |s.ts| && MovedOn(t, cores, i, s'.ts[i])
    ensures HasAnswer(s.ts[i], t, a, i == s.current)
    ensures t.last == s.ts[i].last && t.pending == s.ts[i].pending && t.why == s.ts[i].why
    ensures t.halted <==> s.ts[i].halted && (s.ts[i].last == STOP || s.ts[i].pending != NoSignal)
  {
    AnsweredAndRestarted(s, a, cores, i);
    t := Restarted(s, OpFileIOReply(a, cores))[i];
  }

  // ----- A stop that goes out ------------------------------------------------------------

  /** What a stop with this signal makes of thread t; `own` is the thread that stopped. */
  ghost predicate StoppedBy(s: State, sig: Signal, own: bool, t: Thread, u: Thread)
  {
    && u.why == t.why && u.regs == t.regs
    && (u.halted <==> if sig.Emt? then !(own && OwnCall(s, sig)) else !s.nonStop || t.halted)
    && u.last == (if sig.Emt? then t.last else STOP)
    && u.pending == if own then NoSignal
                    else if !sig.Emt? && !s.nonStop && t.last == CONTINUE && t.pending == NoSignal then t.why
                    else t.pending
  }

  /**
   What is sent for a stop: a system call goes to the client, or to the server's terminal if it has one
   and the call is the general one; anything else is reported with its signal.
   */
  function SentFor(s: State, i: nat, sig: Signal): Event
  {
    match sig
    case Emt(general) => if s.tty && general then Tty(i) else FileIO(i)
    case _ => StopReply(i, sig)
  }

  ghost predicate GoesOut(s: State, i: nat, j: nat, s': State)
    requires i < |s.ts| && j < |s.ts|
  {
    var sig := s.ts[i].pending;
    && Sends(s, s', SentFor(s, i, sig)) && !s'.waiting && |s'.ts| == |s.ts|
    && s'.current == (if sig.Emt? || s.nonStop then s.current else i)
    && StoppedBy(s, sig, j == i, s.ts[j], s'.ts[j])
  }

  lemma CallGoesOut(s: State, i: nat, j: nat)
    requires i < |s.ts| && j < |s.ts| && s.ts[i].pending.Emt?
    ensures GoesOut(s, i, j, DoContinue(s, i))
  {
  }

  lemma OtherGoesOut(s: State, i: nat, j: nat)
    requires i < |s.ts| && j < |s.ts| && !s.ts[i].pending.Emt?
    ensures GoesOut(s, i, j, DoContinue(s, i))
  {
  }

  /** Every thread j after the stop pending for thread i has gone out. */
  lemma StopGoesOut(s: State, i: nat, j: nat)
    requires i < |s.ts| && j < |s.ts|
    ensures GoesOut(s, i, j, DoContinue(s, i))
  {
    if s.ts[i].pending.Emt? { CallGoesOut(s, i, j); } else { OtherGoesOut(s, i, j); }
  }

  /** Without Ctrl-C a turn of the wait loop delivers the stop of the first thread found, to this effect. */
  lemma TurnStops(s: State, cores: seq<Core>, i: nat, j: nat) returns (t: Thread)
    requires Inv(s) && s.waiting && FirstStopped(Observe(s.ts, cores), i) && j < |s.ts|
    ensures i < |s.ts| && MovedOn(s.ts[j], cores, j, t)
    ensures var s', why := Poll(s, false, cores), Observe(s.ts, cores)[i].why;
      && Sends(s, s', SentFor(s, i, why)) && !s'.waiting && |s'.ts| == |s.ts|
      && StoppedBy(s, why, j == i, t, s'.ts[j])
  {
    var ts := Observe(s.ts, cores);
    StoppedFromIs(ts, 0, i);
    var s2 := s.(ts := ts[i := ts[i].(pending := ts[i].why)]);
    StopGoesOut(s2, i, j);
    t := ts[j];
  }

  /** A stop that is pending when vCont or a file-I/O reply comes goes out to the same effect. */
  lemma PendingStops(s: State, op: Op, i: nat, j: nat) returns (t: Thread)
    requires Inv(s) && Enabled(s, op) && !s.nonStop && (op.OpVCont? || op.OpFileIOReply?)
    requires FirstPending(Restarted(s, op), i) && j < |s.ts|
    ensures i < |s.ts| && |Restarted(s, op)| == |s.ts| && MovedOn(Restarted(s, op)[j], op.cores, j, t)
    ensures var s' := Next(s, op);
      && Sends(s, s', SentFor(s, i, s.ts[i].pending)) && !s'.waiting && |s'.ts| == |s.ts|
      && StoppedBy(s, s.ts[i].pending, j == i, t, s'.ts[j])
  {
    PendingStep(s, op, i);
    var s1 := s.(ts := Observe(Restarted(s, op), op.cores));
    StopGoesOut(s1, i, j);
    t := s1.ts[j];
  }

  /** All is halted; thread k, if there is one, is reported with signal 2. */
  lemma SuspendStops(s: State, k: nat, j: nat)
    requires |s.proc| == |s.ts| && !s.nonStop && j < |s.ts| && k == SignalFrom(HaltAll(s.ts), s.proc, 0, |s.ts|)
    ensures var s' := Suspend(s);
      && |s'.ts| == |s.ts| && !s'.waiting
      && if k < |s.ts| then
           Sends(s, s', StopReply(k, Other(2))) && s'.current == k
           && StoppedBy(s, Other(2), j == k, s.ts[j], s'.ts[j])
         else s'.log == s.log && s'.current == s.current && s'.ts[j] == s.ts[j].(halted := true)
  {
  }

  /** Ctrl-C halts all and, if a thread is continued, reports signal 2 for it to the same effect. */
  lemma CtrlCStops(s: State, cores: seq<Core>, k: nat, j: nat) returns (t: Thread)
    requires Inv(s) && s.waiting && forall a, b | 0 <= a < b < |s.ts| :: s.proc[a] <= s.proc[b]
    requires IsChoice(s.ts, s.proc, |s.ts|, k) && j < |s.ts|
    ensures MovedOn(s.ts[j], cores, j, t)
    ensures var s' := Poll(s, true, cores);
      && |s'.ts| == |s.ts| && !s'.waiting
      && if k < |s.ts| then
           Sends(s, s', StopReply(k, Other(2))) && s'.current == k && StoppedBy(s, Other(2), j == k, t, s'.ts[j])
         else s'.log == s.log && s'.current == s.current && s'.ts[j] == t.(halted := true)
  {
    t := Observe(s.ts, cores)[j];
    ChoiceIsSignal(s, cores, k);
    SuspendStops(s.(ts := Observe(s.ts, cores)), k, j);
  }

  lemma ChoiceIsSignal(s: State, cores: seq<Core>, k: nat)
    requires |s.proc| == |s.ts| && forall a, b | 0 <= a < b < |s.ts| :: s.proc[a] <= s.proc[b]
    requires IsChoice(s.ts, s.proc, |s.ts|, k)
    ensures SignalFrom(HaltAll(Observe(s.ts, cores)), s.proc, 0, |s.ts|) == k
  {
    var ts := HaltAll(Observe(s.ts, cores));
    forall j | 0 <= j < |ts| ensures ts[j].last == s.ts[j].last { }
    SignalThreadIs(ts, s.proc, 0, |ts|);
  }

  // ----- The other requests --------------------------------------------------------------

  /** vCtrlC halts every core and is answered OK. */
  lemma VCtrlCHalts(s: State, i: nat)
    requires i < |s.ts| == |s.proc|
    ensures var s' := Next(s, OpVCtrlC);
      && Sends(s, s', Ok) && |s'.ts| == |s.ts| && s'.ts[i] == s.ts[i].(halted := true) && s'.current == s.current
  {
  }

  /** Selecting a thread is answered OK and touches none. */
  lemma SelectAnswers(s: State, k: nat)
    ensures Sends(s, Select(s, k), Ok) && Select(s, k).current == k && Select(s, k).ts == s.ts
  {
  }

  /** In non-stop mode reporting thread i makes it stopped, and leaves every other thread alone. */
  ghost predicate ReportedAlone(ts: Threads, ts': Threads, i: nat)
  {
    && |ts'| == |ts| && i < |ts|
    && ts'[i] == Thread(ts[i].halted, STOP, NoSignal, ts[i].why, ts[i].regs)
    && forall j | 0 <= j < |ts| && j != i :: ts'[j] == ts[j]
  }

  /** A notification or the next report of its sequence concerns the first stopped thread alone. */
  lemma ReportsAlone(s: State, i: nat)
    requires Inv(s) && s.nonStop
    requires FirstStopped(s.ts, i) || (i == |s.ts| && forall j | 0 <= j < |s.ts| :: !Stopped(s.ts[j]))
    ensures var v := Next(s, OpVStopped);
      && v.current == s.current
      && if i < |s.ts| then Sends(s, v, StopReply(i, s.ts[i].why)) && ReportedAlone(s.ts, v.ts, i)
                            && v.notifying == s.notifying
         else Sends(s, v, Drained) && v.ts == s.ts && !v.notifying
    ensures var n := Next(s, OpNotify);
      && n.current == s.current
      && if s.notifying || i == |s.ts| then n == s
         else Sends(s, n, Notification(i, s.ts[i].why)) && ReportedAlone(s.ts, n.ts, i) && n.notifying
  {
    StoppedFromIs(s.ts, 0, i);
  }

  /**
   `?` halts every core. In non-stop mode it reports the first thread, leaves the others to be reported
   by vStopped, and a sequence is outstanding; in all-stop mode it reports and selects the first thread
   and stops all.
   */
  lemma StatusReports(s: State, i: nat)
    requires Connected(s) && i < |s.ts|
    ensures var s' := Status(s);
      && |s'.ts| == |s.ts| && s'.ts[i].halted && s'.ts[i].regs == s.ts[i].regs && s'.ts[i].why == s.ts[i].why
      && s'.ts[i].last == (if s.nonStop && i > 0 then CONTINUE else STOP)
      && Sends(s, s', StopReply(0, if s.nonStop then s.ts[0].why else s.ts[0].pending))
      && s'.ts[0].pending == NoSignal && (s.nonStop ==> s'.notifying)
      && s'.current == if s.nonStop then s.current else 0
  {
    if s.nonStop {
      StoppedFromIs(SetLastAll(HaltAll(s.ts), CONTINUE), 0, 0);
    }
  }

  /** Without threads the sequence ends at once, or there is no process to speak of. */
  lemma StatusOfNone(s: State)
    requires Connected(s) && s.ts == []
    ensures Sends(s, Status(s), if s.nonStop then Drained else NoProcess) && Status(s).ts == []
    ensures s.nonStop ==> !Status(s).notifying
  {
  }

  /** Between requests the cores move on and the server notices nothing. */
  lemma CoresMoveOn(s: State, cores: seq<Core>, i: nat)
    requires i < |s.ts| == |s.proc|
    ensures var s' := Next(s, OpCores(cores));
      s'.log == s.log && |s'.ts| == |s.ts| && MovedOn(s.ts[i], cores, i, s'.ts[i]) && s' == s.(ts := s'.ts)
  {
  }
}
