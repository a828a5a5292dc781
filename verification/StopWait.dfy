/** The wait of all-stop mode: which stop ends it, who is told, and what becomes of the other stops. */
module StopWait {
  import opened StopResume

  /** Thread i is the first in scan order with a stop pending that the client has continued. */
  ghost predicate FirstPending(ts: Threads, i: nat)
  {
    i < |ts| && Pending(ts[i]) && forall j | 0 <= j < i :: !Pending(ts[j])
  }

  lemma {:induction false} PendingFromIs(ts: Threads, i: nat, k: nat)
    requires i <= k <= |ts| && (k < |ts| ==> Pending(ts[k])) && forall j | i <= j < k :: !Pending(ts[j])
    ensures PendingFrom(ts, i) == k
    decreases k - i
  {
    if i < k { PendingFromIs(ts, i + 1, k); }
  }

  /** The threads once a vCont or file-I/O reply has restarted what it restarts. */
  function Restarted(s: State, op: Op): Threads
    requires op.OpVCont? || op.OpFileIOReply?
  {
    if op.OpVCont? then VContThreads(s.ts, op.acts) else ResumeAll(WriteResult(s, op.answer))
  }

  lemma PendingStep(s: State, op: Op, i: nat)
    requires Inv(s) && Enabled(s, op) && !s.nonStop && (op.OpVCont? || op.OpFileIOReply?)
    requires FirstPending(Restarted(s, op), i)
    ensures var s1 := s.(ts := Observe(Restarted(s, op), op.cores));
      && i < |s.ts| && Next(s, op) == DoContinue(s1, i) && s1.ts[i].pending == s.ts[i].pending && Stopped(s1.ts[i])
      && forall j: nat | j < |s.ts| :: Safe(s1.ts[j])
  {
    var ts := Restarted(s, op);
    if op.OpVCont? { VContThreadsKeep(s.ts, op.acts); }
    forall j: nat | j < |ts|
      ensures Safe(ts[j]) && Safe(Observe(ts, op.cores)[j]) && (Pending(Observe(ts, op.cores)[j]) <==> Pending(ts[j]))
    {
      ObserveKeeps(ts, op.cores, j);
    }
    PendingFromIs(Observe(ts, op.cores), 0, i);
  }

  /** Continued pending stops are delivered before any new one is looked for. */
  lemma PendingGoesFirst(s: State, op: Op, i: nat)
    requires Inv(s) && Enabled(s, op) && !s.nonStop && (op.OpVCont? || op.OpFileIOReply?)
    requires FirstPending(Restarted(s, op), i)
    ensures i < |s.ts| && Delivers(s, Next(s, op), i, s.ts[i].pending) && !Next(s, op).waiting
  {
    PendingStep(s, op, i);
    DoContinueGood(s.(ts := Observe(Restarted(s, op), op.cores)), i);
  }

  /**
   A file-I/O request marks no pending stops: when the reply to it comes, no stop that another core
   made meanwhile is lost exactly if each of these stops was pending already.
   */
  lemma FileIOReplyKeepsStops(s: State, i: nat)
    requires i < |s.ts| && s.ts[i].pending.Emt? && !(s.tty && s.ts[i].pending.syscall)
    ensures forall j | 0 <= j < |s.ts| && j != i ::
      !ResumeAll(DoContinue(s, i).ts)[j].halted <==> s.ts[j].last == CONTINUE && s.ts[j].pending == NoSignal
    ensures var ts := ResumeAll(DoContinue(s, i).ts);
      (forall j | 0 <= j < |s.ts| && j != i && MadeStop(s.ts[j]) :: ts[j].halted)
      <==> forall j | 0 <= j < |s.ts| && j != i && MadeStop(s.ts[j]) :: s.ts[j].pending != NoSignal
  {
    var ts := ResumeAll(DoContinue(s, i).ts);
    forall j | 0 <= j < |s.ts| && j != i && MadeStop(s.ts[j]) ensures ts[j].halted <==> s.ts[j].pending != NoSignal { }
  }

  /** A core the client continued has stopped for a reason of its own. */
  predicate MadeStop(t: Thread)
  {
    Stopped(t) && t.why != NoSignal
  }

  /** Among the first n threads, k is the first continued one of the last process that has one. */
  ghost predicate IsChoice(ts: Threads, proc: seq<nat>, n: nat, k: nat)
    requires n <= |ts| == |proc|
  {
    if k < n then
      ts[k].last == CONTINUE && forall j | 0 <= j < n && ts[j].last == CONTINUE ::
        proc[j] <= proc[k] && (proc[j] == proc[k] ==> k <= j)
    else k == |ts| && forall j | 0 <= j < n :: ts[j].last == STOP
  }

  /** Ctrl-C is attributed to the first continued thread of the last process that has one. */
  lemma {:induction false} SignalThreadIs(ts: Threads, proc: seq<nat>, i: nat, r: nat)
    requires i <= |ts| == |proc| && forall a, b | 0 <= a < b < |ts| :: proc[a] <= proc[b]
    requires IsChoice(ts, proc, i, r) && r <= |ts|
    ensures IsChoice(ts, proc, |ts|, SignalFrom(ts, proc, i, r))
    decreases |ts| - i
  {
    if i < |ts| {
      SignalThreadIs(ts, proc, i + 1, if ts[i].last == CONTINUE && (r == |ts| || proc[i] != proc[r]) then i else r);
    }
  }

  /** Ctrl-C in the wait loop is answered for that thread, and stops all. */
  lemma CtrlCReply(s: State, cores: seq<Core>, k: nat)
    requires Inv(s) && s.waiting && forall a, b | 0 <= a < b < |s.ts| :: s.proc[a] <= s.proc[b]
    requires IsChoice(s.ts, s.proc, |s.ts|, k)
    ensures var s' := Poll(s, true, cores);
      if k < |s.ts| then Sends(s, s', StopReply(k, INT)) && AllStopped(s')
      else s'.log == s.log && forall j | 0 <= j < |s'.ts| :: s'.ts[j].halted
  {
    var ts := HaltAll(Observe(s.ts, cores));
    forall j | 0 <= j < |ts| ensures ts[j].last == s.ts[j].last { }
    SignalThreadIs(ts, s.proc, 0, |ts|);
    var r := SignalFrom(ts, s.proc, 0, |ts|);
    assert r == k;
    PollGood(s, true, cores);
  }

  // ----- Who gets an answer ------------------------------------------------------------

  /** The step sends the client exactly one packet. */
  ghost predicate Answers(s: State, s': State)
  {
    exists e: Event {:trigger Sends(s, s', e)} :: !e.Tty? && Sends(s, s', e)
  }

  /** The stop that ends the wait is a system call that the server serves on its own terminal. */
  predicate OwnCall(s: State, sig: Signal)
  {
    s.tty && sig == Emt(true)
  }

  lemma DoContinueAnswers(s: State, i: nat)
    requires i < |s.ts|
    ensures Answers(s, DoContinue(s, i)) <==> !OwnCall(s, s.ts[i].pending)
  {
    var s', sig := DoContinue(s, i), s.ts[i].pending;
    if OwnCall(s, sig) {
      forall e: Event | Sends(s, s', e) ensures e.Tty? { assert s'.log[|s.log|] == Tty(i); }
    } else {
      assert Sends(s, s', if sig.Emt? then FileIO(i) else StopReply(i, sig));
    }
  }

  /**
   A turn that ends the wait sends the client exactly one packet if and only if, on Ctrl-C, some thread
   is continued, and otherwise the first stopped thread's reason is not a call served on the terminal.
   */
  lemma TurnAnswers(s: State, brk: bool, cores: seq<Core>)
    requires Inv(s) && s.waiting && !Poll(s, brk, cores).waiting
    ensures var ts, i := Observe(s.ts, cores), StoppedFrom(Observe(s.ts, cores), 0);
      && (!brk ==> i < |ts|)
      && (Answers(s, Poll(s, brk, cores)) <==>
            if brk then exists j :: 0 <= j < |s.ts| && s.ts[j].last == CONTINUE else !OwnCall(s, ts[i].why))
  {
    if brk {
      CtrlCAnswers(s, cores);
    } else {
      var ts := Observe(s.ts, cores);
      var i := StoppedFrom(ts, 0);
      var s2 := s.(ts := ts[i := ts[i].(pending := ts[i].why)]);
      DoContinueAnswers(s2, i);
      AnswersSame(s, s2, DoContinue(s2, i));
    }
  }

  lemma AnswersSame(s: State, s1: State, s': State)
    requires s.log == s1.log
    ensures Answers(s, s') <==> Answers(s1, s')
  {
    forall e: Event ensures Sends(s, s', e) <==> Sends(s1, s', e) { }
  }

  lemma {:induction false} SignalFound(ts: Threads, proc: seq<nat>, i: nat, r: nat)
    requires i <= |ts| == |proc| && r <= |ts|
    ensures SignalFrom(ts, proc, i, r) < |ts| <==> r < |ts| || exists j :: i <= j < |ts| && ts[j].last == CONTINUE
    decreases |ts| - i
  {
    if i < |ts| {
      SignalFound(ts, proc, i + 1, if ts[i].last == CONTINUE && (r == |ts| || proc[i] != proc[r]) then i else r);
    }
  }

  lemma CtrlCAnswers(s: State, cores: seq<Core>)
    requires Inv(s) && s.waiting
    ensures Answers(s, Poll(s, true, cores)) <==> exists j :: 0 <= j < |s.ts| && s.ts[j].last == CONTINUE
  {
    var ts, s' := HaltAll(Observe(s.ts, cores)), Poll(s, true, cores);
    forall j | 0 <= j < |ts| ensures ts[j].last == s.ts[j].last { }
    SignalFound(ts, s.proc, 0, |ts|);
    var i := SignalFrom(ts, s.proc, 0, |ts|);
    if i < |ts| {
      assert Sends(s, s', StopReply(i, INT));
    } else {
      assert s'.log == s.log;
    }
  }

  /** Such a call restarts its thread alone: the others stay halted although continued, and the wait is over. */
  lemma OwnCallRestartsOne(s: State, i: nat, j: nat)
    requires i < |s.ts| && j < |s.ts| && OwnCall(s, s.ts[i].pending)
    ensures Sends(s, DoContinue(s, i), Tty(i)) && !DoContinue(s, i).waiting
    ensures (!DoContinue(s, i).ts[j].halted <==> i == j) && DoContinue(s, i).ts[j].last == s.ts[j].last
  {
  }

  /** A vCont or file-I/O reply that meets a stop pending already is answered at once on the same condition. */
  lemma PendingAnswers(s: State, op: Op, i: nat)
    requires Inv(s) && Enabled(s, op) && !s.nonStop && (op.OpVCont? || op.OpFileIOReply?)
    requires FirstPending(Restarted(s, op), i)
    ensures i < |s.ts| && (Answers(s, Next(s, op)) <==> !OwnCall(s, s.ts[i].pending))
  {
    PendingStep(s, op, i);
    var s1 := s.(ts := Observe(Restarted(s, op), op.cores));
    DoContinueAnswers(s1, i);
    AnswersSame(s, s1, DoContinue(s1, i));
  }

  // ----- What a request does to each thread --------------------------------------------

  /** Action k is the first that matches thread i; k is the number of actions if none does. */
  predicate Matches(acts: seq<VAction>, i: nat, k: nat)
  {
    k <= |acts| && (k < |acts| ==> i in acts[k].threads) && forall j | 0 <= j < k :: i !in acts[j].threads
  }

  lemma {:induction false} FirstMatchIs(t: Thread, i: nat, acts: seq<VAction>, k: nat, m: nat)
    requires k <= m && Matches(acts, i, m)
    ensures FirstMatch(t, i, acts, k) == if m < |acts| then Applied(t, acts[m].kind) else t
    decreases m - k
  {
    if k < m { FirstMatchIs(t, i, acts, k + 1, m); }
  }

  /**
   Thread t is started exactly if its first matching action, number k, is to continue, it was stopped,
   and no stop is pending for it; it is halted exactly if that action is to stop and its core runs; and
   without a matching action it is left as it is.
   */
  ghost predicate Obeys(t: Thread, u: Thread, acts: seq<VAction>, k: nat)
  {
    var matched := k < |acts|;
    && (t.halted && !u.halted <==> matched && acts[k].kind == CONTINUE && t.last == STOP && t.pending == NoSignal)
    && (!t.halted && u.halted <==> matched && acts[k].kind == STOP && !t.halted)
    && (u.last != t.last <==> matched && acts[k].kind == CONTINUE && t.last == STOP)
    && u.pending == t.pending && u.why == t.why && u.regs == t.regs
  }

  /** vCont does to each thread what its first matching action says. */
  lemma VContStartsAndHalts(ts: Threads, acts: seq<VAction>, i: nat, k: nat)
    requires i < |ts| && Safe(ts[i]) && Matches(acts, i, k)
    ensures Obeys(ts[i], VContThreads(ts, acts)[i], acts, k)
  {
    FirstMatchIs(ts[i], i, acts, 0, k);
  }

  /** Thread i is the first in scan order that the client has continued and that is halted. */
  ghost predicate FirstStopped(ts: Threads, i: nat)
  {
    i < |ts| && Stopped(ts[i]) && forall j | 0 <= j < i :: !Stopped(ts[j])
  }

  lemma {:induction false} StoppedFromIs(ts: Threads, i: nat, k: nat)
    requires i <= k <= |ts| && (k < |ts| ==> Stopped(ts[k])) && forall j | i <= j < k :: !Stopped(ts[j])
    ensures StoppedFrom(ts, i) == k
    decreases k - i
  {
    if i < k { StoppedFromIs(ts, i + 1, k); }
  }

  /** What goes out in non-stop mode: the first stopped thread with its reason, or the end of the sequence. */
  lemma ReportsFirstStopped(s: State, i: nat)
    requires Inv(s) && s.nonStop
    requires FirstStopped(s.ts, i) || (i == |s.ts| && forall j | 0 <= j < |s.ts| :: !Stopped(s.ts[j]))
    ensures Sends(s, VStopped(s), if i < |s.ts| then StopReply(i, s.ts[i].why) else Drained)
    ensures if s.notifying || i == |s.ts| then Notifications(s) == s
            else Sends(s, Notifications(s), Notification(i, s.ts[i].why)) && Notifications(s).notifying
  {
    StoppedFromIs(s.ts, 0, i);
  }

  /** A turn of the wait loop without Ctrl-C delivers the reason of the first thread found stopped, or goes on. */
  lemma TurnReportsFirstStopped(s: State, cores: seq<Core>, i: nat)
    requires Inv(s) && s.waiting
    requires var ts := Observe(s.ts, cores);
      FirstStopped(ts, i) || (i == |ts| && forall j | 0 <= j < |ts| :: !Stopped(ts[j]))
    ensures var ts, s' := Observe(s.ts, cores), Poll(s, false, cores);
      if i < |s.ts| then Delivers(s, s', i, ts[i].why) && !s'.waiting else s' == s.(ts := ts)
  {
    var ts := Observe(s.ts, cores);
    StoppedFromIs(ts, 0, i);
    if i < |ts| {
      assert Safe(ts[i]) && !Pending(s.ts[i]);
    }
  }

  /**
   In the turn that reports thread i no other stop is lost: every other continued thread has its
   reason pending afterwards, if it has one. Ctrl-C included.
   */
  lemma OtherStopsArePending(s: State, brk: bool, cores: seq<Core>, i: nat, sig: Signal, j: nat)
    requires Inv(s) && s.waiting && i < |s.ts| && j < |s.ts| && j != i && s.ts[j].last == CONTINUE
    requires Sends(s, Poll(s, brk, cores), StopReply(i, sig))
    ensures Poll(s, brk, cores).ts[j].pending == Observe(s.ts, cores)[j].why
  {
    var ts := Observe(s.ts, cores);
    assert !Pending(s.ts[j]);
    ObserveKeeps(s.ts, cores, j);
    if !brk {
      var k := StoppedFrom(ts, 0);
      assert k < |ts|;
    }
  }

  // ----- A file-I/O reply in non-stop mode ---------------------------------------------

  /**
   A turn of the wait loop in non-stop mode, which only a file-I/O reply leads to: it keeps stopped
   threads halted exactly if Ctrl-C ends it, nothing is found, what is found is a system call, or every
   core has halted anyway. Otherwise it marks all threads as stopped and halts none.
   */
  lemma NonStopTurn(s: State, brk: bool, cores: seq<Core>)
    requires |s.proc| == |s.ts| && s.nonStop && s.waiting && AllSafe(s.ts)
    requires forall j | 0 <= j < |s.ts| :: s.ts[j].pending == NoSignal
    ensures var ts, i := Observe(s.ts, cores), StoppedFrom(Observe(s.ts, cores), 0);
      AllSafe(Poll(s, brk, cores).ts)
      <==> brk || i == |ts| || ts[i].why.Emt? || forall j | 0 <= j < |ts| :: ts[j].halted
  {
    var ts, s' := Observe(s.ts, cores), Poll(s, brk, cores);
    var i := StoppedFrom(ts, 0);
    forall j: nat | j < |ts| ensures Safe(ts[j]) && ts[j].pending == NoSignal { ObserveKeeps(s.ts, cores, j); }
    if !brk && i < |ts| && !ts[i].why.Emt? {
      forall j | 0 <= j < |ts| ensures Safe(s'.ts[j]) <==> ts[j].halted { }
    }
  }

  /** A file-I/O reply in non-stop mode always goes on to wait, so its first turn is such a one. */
  lemma FileIOReplyInNonStop(s: State, a: Answer, cores: seq<Core>, brk: bool, cores': seq<Core>)
    requires Inv(s) && s.nonStop
    ensures var w := FileIOReply(s, a, cores);
      var ts, i := Observe(w.ts, cores'), StoppedFrom(Observe(w.ts, cores'), 0);
      && w.waiting && AllSafe(w.ts)
      && (AllSafe(Poll(w, brk, cores').ts)
          <==> brk || i == |ts| || ts[i].why.Emt? || forall j | 0 <= j < |ts| :: ts[j].halted)
  {
    var w := FileIOReply(s, a, cores);
    var ts := Observe(ResumeAll(WriteResult(s, a)), cores);
    forall j: nat | j < |ts| ensures Safe(ts[j]) && ts[j].pending == NoSignal && !Pending(ts[j]) {
      ObserveKeeps(ResumeAll(WriteResult(s, a)), cores, j);
    }
    PendingFromIs(ts, 0, |ts|);
    NonStopTurn(w, brk, cores');
  }

  /** One thread stops, the other runs on and counts as stopped. */
  lemma NonStopReplyStopsRunningThread(r: Regs, a: Answer)
    ensures var s := State([Thread(true, CONTINUE, NoSignal, Other(5), r),
                            Thread(false, CONTINUE, NoSignal, NoSignal, r)],
                           [1, 1], true, false, false, false, 0, []);
      var cores := [Core(true, Other(5), r), Core(false, NoSignal, r)];
      var s' := Poll(FileIOReply(s, a, cores), false, cores);
      Inv(s) && !s'.ts[1].halted && s'.ts[1].last == STOP
  {
  }
}
