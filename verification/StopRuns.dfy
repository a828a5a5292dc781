/** Sessions of the stop and resume protocol: what holds over every run of requests and core events. */
module StopRuns {
  import opened StopResume
  import opened StopWait

  /** A session: `?` first, then any requests, polls and halting cores. */
  ghost predicate IsSession(start: State, run: seq<State>, ops: seq<Op>)
  {
    && Connected(start) && |run| == |ops| + 1 && run[0] == Status(start)
    && forall n: nat {:trigger StepAt(run, ops, n)} | n < |ops| :: StepAt(run, ops, n)
  }

  ghost predicate StepAt(run: seq<State>, ops: seq<Op>, n: nat)
    requires n < |ops| && |run| == |ops| + 1
  {
    |run[n].proc| == |run[n].ts| && Enabled(run[n], ops[n]) && run[n + 1] == Next(run[n], ops[n])
  }

  /** Throughout a session a core runs only if the client continued its thread and no stop is pending for it. */
  lemma {:induction false} SessionsAreSafe(start: State, run: seq<State>, ops: seq<Op>, n: nat)
    requires IsSession(start, run, ops) && n <= |ops|
    ensures Inv(run[n]) && |run[n].ts| == |start.ts| && run[n].nonStop == start.nonStop
    ensures n < |ops| ==> GoodStep(run[n], run[n + 1])
    decreases n
  {
    if n == 0 {
      StatusIsGood(start);
    } else {
      SessionsAreSafe(start, run, ops, n - 1);
    }
    if n < |ops| {
      assert StepAt(run, ops, n);
      StepIsGood(run[n], ops[n]);
    }
  }

  lemma RunsOnlyIfContinued(start: State, run: seq<State>, ops: seq<Op>, n: nat, i: nat)
    requires IsSession(start, run, ops) && n <= |ops| && i < |start.ts|
    ensures i < |run[n].ts|
    ensures !run[n].ts[i].halted ==> run[n].ts[i].last == CONTINUE && run[n].ts[i].pending == NoSignal
  {
    SessionsAreSafe(start, run, ops, n);
    assert Safe(run[n].ts[i]);
  }

  // ----- Pending stops -----------------------------------------------------------------

  ghost predicate DeliveredAt(run: seq<State>, i: nat, sig: Signal, k: nat)
    requires k + 1 < |run|
  {
    Delivers(run[k], run[k + 1], i, sig)
  }

  /** No pending stop is overrun: the thread stays halted and its stop pending until the stop is delivered. */
  lemma {:induction false} NoPendingStopIsOverrun(start: State, run: seq<State>, ops: seq<Op>, m: nat, n: nat, i: nat)
    requires IsSession(start, run, ops) && m <= n <= |ops| && i < |run[m].ts|
    requires run[m].ts[i].pending != NoSignal
    requires forall k: nat | m <= k < n :: !DeliveredAt(run, i, run[m].ts[i].pending, k)
    ensures i < |run[n].ts| && run[n].ts[i].pending == run[m].ts[i].pending && run[n].ts[i].halted
    decreases n
  {
    SessionsAreSafe(start, run, ops, m);
    if m < n {
      NoPendingStopIsOverrun(start, run, ops, m, n - 1, i);
      SessionsAreSafe(start, run, ops, n - 1);
      assert KeptOrDelivered(run[n - 1], run[n], i) && !DeliveredAt(run, i, run[m].ts[i].pending, n - 1);
    } else {
      assert Safe(run[m].ts[i]);
    }
  }

  /**
   A stop that a continued thread has made when another is reported, Ctrl-C included, is pending from
   then on and the thread halted, until that very stop is delivered.
   */
  lemma StopsMadeMeanwhileAreKept(start: State, run: seq<State>, ops: seq<Op>, n: nat, m: nat,
                                  i: nat, sig: Signal, j: nat, why: Signal)
    requires IsSession(start, run, ops) && n < m <= |ops| && ReportsMeanwhile(run, ops, n, i, sig, j, why)
    requires forall k: nat | n + 1 <= k < m :: !DeliveredAt(run, j, why, k)
    ensures j < |run[m].ts| && run[m].ts[j].halted && run[m].ts[j].pending == why
  {
    StopIsMarked(start, run, ops, n, i, sig, j, why);
    NoPendingStopIsOverrun(start, run, ops, n + 1, m, j);
  }

  /** Step n reports thread i while the core of continued thread j has halted for a reason of its own. */
  ghost predicate ReportsMeanwhile(run: seq<State>, ops: seq<Op>, n: nat, i: nat, sig: Signal, j: nat, why: Signal)
    requires n < |ops| && |run| == |ops| + 1
  {
    && ops[n].OpPoll? && i < |run[n].ts| && j < |run[n].ts| && i != j && run[n].ts[j].last == CONTINUE
    && Sends(run[n], run[n + 1], StopReply(i, sig))
    && why == Observe(run[n].ts, ops[n].cores)[j].why && why != NoSignal
  }

  lemma StopIsMarked(start: State, run: seq<State>, ops: seq<Op>, n: nat, i: nat, sig: Signal, j: nat, why: Signal)
    requires IsSession(start, run, ops) && n < |ops| && ReportsMeanwhile(run, ops, n, i, sig, j, why)
    ensures j < |run[n + 1].ts| && run[n + 1].ts[j].pending == why
  {
    SessionsAreSafe(start, run, ops, n);
    assert StepAt(run, ops, n);
    OtherStopsArePending(run[n], ops[n].brk, ops[n].cores, i, sig, j);
  }

  // ----- Non-stop notifications --------------------------------------------------------

  /** Whether the client still has to finish the sequence of the last Stop notification (or of `?`). */
  function Outstanding(log: seq<Event>, n: nat): bool
    requires n <= |log|
  {
    if n == 0 then true
    else if log[n - 1].Notification? then true
    else if log[n - 1].Drained? then false
    else Outstanding(log, n - 1)
  }

  lemma {:induction false} OutstandingPrefix(log: seq<Event>, more: seq<Event>, n: nat)
    requires n <= |log|
    ensures Outstanding(log + more, n) == Outstanding(log, n)
  {
    if n > 0 { OutstandingPrefix(log, more, n - 1); }
  }

  /** `notifying` tells whether a sequence is outstanding, and no notification was sent while one was. */
  ghost predicate Orderly(s: State)
  {
    && s.notifying == Outstanding(s.log, |s.log|)
    && forall k: nat | k < |s.log| && s.log[k].Notification? :: !Outstanding(s.log, k)
  }

  lemma SendKeepsOrder(s: State, s': State, e: Event)
    requires Orderly(s) && s'.log == s.log + [e] && (e.Notification? ==> !s.notifying)
    requires s'.notifying == (if e.Notification? then true else if e.Drained? then false else s.notifying)
    ensures Orderly(s')
  {
    forall k: nat | k <= |s.log| ensures Outstanding(s'.log, k) == Outstanding(s.log, k) {
      OutstandingPrefix(s.log, [e], k);
    }
    forall k: nat | k < |s'.log| && s'.log[k].Notification? ensures !Outstanding(s'.log, k) {
      assert k < |s.log| ==> s'.log[k] == s.log[k];
      assert Outstanding(s'.log, k) == Outstanding(s.log, k);
    }
  }

  lemma NonStopOrder(s: State, op: Op)
    requires Inv(s) && Enabled(s, op) && s.nonStop && Orderly(s)
    ensures Orderly(Next(s, op))
  {
    var s' := Next(s, op);
    if |s'.log| > |s.log| {
      SendKeepsOrder(s, s', s'.log[|s.log|]);
    }
  }

  lemma {:induction false} SessionsAreOrderly(start: State, run: seq<State>, ops: seq<Op>, n: nat)
    requires IsSession(start, run, ops) && start.nonStop && n <= |ops|
    ensures Orderly(run[n])
    decreases n
  {
    if n == 0 {
      var s1 := start.(ts := SetLastAll(HaltAll(start.ts), CONTINUE), notifying := true);
      assert Orderly(s1) && run[0] == VStopped(s1);
      SendKeepsOrder(s1, run[0], run[0].log[0]);
    } else {
      SessionsAreOrderly(start, run, ops, n - 1);
      SessionsAreSafe(start, run, ops, n - 1);
      assert StepAt(run, ops, n - 1);
      NonStopOrder(run[n - 1], ops[n - 1]);
    }
  }

  /** A vStopped sequence that ended with OK lies between any two Stop notifications. */
  lemma {:induction false} DrainedBetween(log: seq<Event>, j: nat, k: nat)
    requires j < k <= |log| && log[j].Notification? && !Outstanding(log, k)
    ensures exists m :: j < m < k && log[m].Drained?
    decreases k
  {
    if !log[k - 1].Drained? && k - 1 > j {
      DrainedBetween(log, j, k - 1);
    }
  }

  /** At most one Stop notification is outstanding until its vStopped sequence ends with OK. */
  lemma OneNotificationAtATime(start: State, run: seq<State>, ops: seq<Op>, n: nat, j: nat, k: nat)
    requires IsSession(start, run, ops) && start.nonStop && n <= |ops|
    requires j < k < |run[n].log| && run[n].log[j].Notification? && run[n].log[k].Notification?
    ensures exists m :: j < m < k && run[n].log[m].Drained?
  {
    SessionsAreOrderly(start, run, ops, n);
    DrainedBetween(run[n].log, j, k);
  }

  /**
   Whenever in a session the server has looked for notifications, or answered a vStopped of a sequence,
   and no sequence is outstanding, no continued thread is left halted and unreported.
   */
  lemma NothingLeftUnreported(start: State, run: seq<State>, ops: seq<Op>, n: nat, i: nat)
    requires IsSession(start, run, ops) && start.nonStop && n < |ops| && i < |start.ts|
    requires ops[n].OpNotify? || (ops[n].OpVStopped? && Outstanding(run[n].log, |run[n].log|))
    ensures |run[n + 1].ts| == |start.ts|
    ensures !Outstanding(run[n + 1].log, |run[n + 1].log|) ==> !Stopped(run[n + 1].ts[i])
  {
    SessionsAreSafe(start, run, ops, n);
    SessionsAreOrderly(start, run, ops, n);
    SessionsAreOrderly(start, run, ops, n + 1);
    assert StepAt(run, ops, n);
    LookedAt(run[n], ops[n], i);
  }

  lemma LookedAt(s: State, op: Op, i: nat)
    requires Inv(s) && Enabled(s, op) && s.nonStop && i < |s.ts| && (op.OpNotify? || (op.OpVStopped? && s.notifying))
    ensures |Next(s, op).ts| == |s.ts| && (!Next(s, op).notifying ==> !Stopped(Next(s, op).ts[i]))
  {
  }

  // ----- Each stop is reported once ----------------------------------------------------

  predicate Reports(e: Event, i: nat)
  {
    (e.StopReply? || e.Notification?) && e.thread == i
  }

  /** The reports for thread i among the first n events. */
  function Reported(log: seq<Event>, i: nat, n: nat): nat
    requires n <= |log|
  {
    if n == 0 then 0 else Reported(log, i, n - 1) + if Reports(log[n - 1], i) then 1 else 0
  }

  lemma {:induction false} ReportedPrefix(log: seq<Event>, e: Event, i: nat, n: nat)
    requires n <= |log|
    ensures Reported(log + [e], i, n) == Reported(log, i, n)
  {
    if n > 0 { ReportedPrefix(log, e, i, n - 1); }
  }

  function Running(ts: Threads, i: nat): nat
    requires i < |ts|
  {
    if ts[i].last == CONTINUE then 1 else 0
  }

  /** The step continues thread i. */
  predicate Continues(s: State, s': State, i: nat)
    requires i < |s.ts| == |s'.ts|
  {
    s.ts[i].last == STOP && s'.ts[i].last == CONTINUE
  }

  /** How often thread i was continued in the first n steps. */
  ghost function Continued(run: seq<State>, i: nat, n: nat): nat
    requires n < |run| && forall k | 0 <= k < |run| :: i < |run[k].ts| && |run[k].ts| == |run[0].ts|
  {
    if n == 0 then 0 else Continued(run, i, n - 1) + if Continues(run[n - 1], run[n], i) then 1 else 0
  }

  /** The step accounts for thread i: a report ends its running, a continue starts it. */
  ghost predicate Accounted(s: State, s': State, i: nat)
    requires i < |s.ts| == |s'.ts|
  {
    Reported(s'.log, i, |s'.log|) + Running(s'.ts, i)
      == Reported(s.log, i, |s.log|) + Running(s.ts, i) + if Continues(s, s', i) then 1 else 0
  }

  lemma Account(s: State, s': State, e: Event, i: nat)
    requires i < |s.ts| == |s'.ts| && s'.log == s.log + [e]
    requires (if Reports(e, i) then 1 else 0) + Running(s'.ts, i)
               == Running(s.ts, i) + if Continues(s, s', i) then 1 else 0
    ensures Accounted(s, s', i)
  {
    ReportedPrefix(s.log, e, i, |s.log|);
  }

  lemma VStoppedAccounted(s: State, i: nat)
    requires s.nonStop && i < |s.ts|
    ensures |VStopped(s).ts| == |s.ts| && Accounted(s, VStopped(s), i)
  {
    var k := StoppedFrom(s.ts, 0);
    Account(s, VStopped(s), if k < |s.ts| then StopReply(k, s.ts[k].why) else Drained, i);
  }

  lemma NotifyAccounted(s: State, i: nat)
    requires i < |s.ts|
    ensures |Notifications(s).ts| == |s.ts| && Accounted(s, Notifications(s), i)
  {
    var k := StoppedFrom(s.ts, 0);
    if !s.notifying && k < |s.ts| { Account(s, Notifications(s), Notification(k, s.ts[k].why), i); }
  }

  lemma VContAccounted(s: State, acts: seq<VAction>, cores: seq<Core>, i: nat)
    requires s.nonStop && i < |s.ts| && Safe(s.ts[i])
    ensures |VCont(s, acts, cores).ts| == |s.ts| && Accounted(s, VCont(s, acts, cores), i)
  {
    FirstMatchKeeps(s.ts[i], i, acts, 0);
    Account(s, VCont(s, acts, cores), Ok, i);
  }

  lemma VCtrlCAccounted(s: State, i: nat)
    requires i < |s.ts|
    ensures |VCtrlC(s).ts| == |s.ts| && Accounted(s, VCtrlC(s), i)
  {
    Account(s, VCtrlC(s), Ok, i);
  }

  lemma ReportsOnce(s: State, op: Op, i: nat)
    requires Inv(s) && Enabled(s, op) && s.nonStop && i < |s.ts|
    ensures |Next(s, op).ts| == |s.ts| && Accounted(s, Next(s, op), i)
  {
    match op {
      case OpVStopped => VStoppedAccounted(s, i);
      case OpNotify => NotifyAccounted(s, i);
      case OpVCont(acts, cores) => VContAccounted(s, acts, cores, i);
      case OpVCtrlC => VCtrlCAccounted(s, i);
      case OpSelect(k) => Account(s, Select(s, k), Ok, i);
      case OpCores(_) =>
    }
  }

  lemma StatusReports(start: State, i: nat)
    requires Connected(start) && start.nonStop && i < |start.ts|
    ensures |Status(start).log| == 1 && Reported(Status(start).log, i, 1) + Running(Status(start).ts, i) == 1
  {
    assert Reported(Status(start).log, i, 0) == 0;
  }

  lemma SameThreads(start: State, run: seq<State>, ops: seq<Op>)
    requires IsSession(start, run, ops)
    ensures forall k | 0 <= k < |run| :: |run[k].ts| == |start.ts|
  {
    forall k | 0 <= k < |run| ensures |run[k].ts| == |start.ts| { SessionsAreSafe(start, run, ops, k); }
  }

  lemma StepAccounted(start: State, run: seq<State>, ops: seq<Op>, n: nat, i: nat)
    requires IsSession(start, run, ops) && start.nonStop && n < |ops| && i < |start.ts|
    ensures |run[n].ts| == |run[n + 1].ts| == |start.ts| && Accounted(run[n], run[n + 1], i)
  {
    SessionsAreSafe(start, run, ops, n);
    assert StepAt(run, ops, n);
    ReportsOnce(run[n], ops[n], i);
  }

  /**
   In non-stop mode the reports for a thread number its continues, plus the one `?` asks for, less
   one while the thread has yet to be reported stopped.
   */
  lemma {:induction false} EachStopReportedOnce(start: State, run: seq<State>, ops: seq<Op>, n: nat, i: nat)
    requires IsSession(start, run, ops) && start.nonStop && n <= |ops| && i < |start.ts|
    ensures forall k | 0 <= k < |run| :: |run[k].ts| == |start.ts|
    ensures Reported(run[n].log, i, |run[n].log|) == Continued(run, i, n) + 1 - Running(run[n].ts, i)
    decreases n
  {
    SameThreads(start, run, ops);
    if n == 0 {
      StatusReports(start, i);
    } else {
      EachStopReportedOnce(start, run, ops, n - 1, i);
      StepAccounted(start, run, ops, n - 1, i);
    }
  }

  // ----- The vStopped sequence ends ----------------------------------------------------

  function ContinuedThreads(ts: Threads): nat
  {
    if ts == [] then 0 else ContinuedThreads(ts[..|ts| - 1]) + if ts[|ts| - 1].last == CONTINUE then 1 else 0
  }

  lemma {:induction false} SameCount(ts: Threads, us: Threads)
    requires |ts| == |us| && forall i | 0 <= i < |ts| :: ts[i].last == us[i].last
    ensures ContinuedThreads(ts) == ContinuedThreads(us)
  {
    if ts != [] { SameCount(ts[..|ts| - 1], us[..|us| - 1]); }
  }

  lemma {:induction false} OneLess(ts: Threads, us: Threads, i: nat)
    requires |ts| == |us| && i < |ts| && ts[i].last == CONTINUE && us[i].last == STOP
    requires forall j | 0 <= j < |ts| && j != i :: ts[j].last == us[j].last
    ensures ContinuedThreads(us) == ContinuedThreads(ts) - 1
  {
    if i == |ts| - 1 {
      SameCount(ts[..i], us[..i]);
    } else {
      OneLess(ts[..|ts| - 1], us[..|us| - 1], i);
    }
  }

  /** How many of the steps from m to n are vStopped requests. */
  function VStoppeds(ops: seq<Op>, m: nat, n: nat): nat
    requires m <= n <= |ops|
  {
    if m == n then 0 else VStoppeds(ops, m, n - 1) + if ops[n - 1].OpVStopped? then 1 else 0
  }

  lemma DrainStep(s: State, op: Op)
    requires Inv(s) && Enabled(s, op) && s.nonStop && !op.OpVCont?
    ensures var s' := Next(s, op);
      && ContinuedThreads(s'.ts) <= ContinuedThreads(s.ts)
      && (op.OpVStopped? && !Sends(s, s', Drained) ==> ContinuedThreads(s'.ts) == ContinuedThreads(s.ts) - 1)
  {
    var i := StoppedFrom(s.ts, 0);
    if (op.OpVStopped? || (op.OpNotify? && !s.notifying)) && i < |s.ts| {
      OneLess(s.ts, Next(s, op).ts, i);
    } else {
      SameCount(s.ts, Next(s, op).ts);
    }
  }

  ghost predicate DrainedAt(run: seq<State>, k: nat)
    requires k + 1 < |run|
  {
    Sends(run[k], run[k + 1], Drained)
  }

  /** While nothing is continued, one vStopped more than there are continued threads gets the final OK. */
  lemma {:induction false} DrainEnds(start: State, run: seq<State>, ops: seq<Op>, m: nat, n: nat)
    requires IsSession(start, run, ops) && start.nonStop && m <= n <= |ops|
    requires forall k | m <= k < n :: !ops[k].OpVCont?
    ensures VStoppeds(ops, m, n) > ContinuedThreads(run[m].ts) ==>
              exists k: nat :: m <= k < n && ops[k].OpVStopped? && DrainedAt(run, k)
    ensures (forall k: nat | m <= k < n && ops[k].OpVStopped? :: !DrainedAt(run, k)) ==>
              ContinuedThreads(run[n].ts) + VStoppeds(ops, m, n) <= ContinuedThreads(run[m].ts)
    decreases n
  {
    if m < n {
      DrainEnds(start, run, ops, m, n - 1);
      SessionsAreSafe(start, run, ops, n - 1);
      assert StepAt(run, ops, n - 1);
      DrainStep(run[n - 1], ops[n - 1]);
      assert ops[n - 1].OpVStopped? ==> (DrainedAt(run, n - 1) <==> Sends(run[n - 1], run[n], Drained));
    }
  }

  // ----- vCtrlC ------------------------------------------------------------------------

  /** Every core is halted, and stays so while the client continues none. */
  lemma StaysHalted(s: State, op: Op)
    requires Inv(s) && Enabled(s, op) && s.nonStop && !op.OpVCont? && forall j | 0 <= j < |s.ts| :: s.ts[j].halted
    ensures |Next(s, op).ts| == |s.ts|
    ensures forall j | 0 <= j < |s.ts| ::
      Next(s, op).ts[j].halted && (s.ts[j].last == STOP ==> Next(s, op).ts[j].last == STOP)
  {
  }

  lemma {:induction false} HaltedUntil(start: State, run: seq<State>, ops: seq<Op>, m: nat, n: nat, i: nat)
    requires IsSession(start, run, ops) && start.nonStop && m < n <= |ops| && i < |start.ts|
    requires ops[m].OpVCtrlC? && forall k | m < k < n :: !ops[k].OpVCont?
    ensures |run[n].ts| == |start.ts| && forall j | 0 <= j < |start.ts| :: run[n].ts[j].halted
    ensures forall k: nat | m < k <= n && i < |run[k].ts| && run[k].ts[i].last == STOP :: run[n].ts[i].last == STOP
    decreases n
  {
    SessionsAreSafe(start, run, ops, n - 1);
    assert StepAt(run, ops, n - 1);
    if m < n - 1 {
      HaltedUntil(start, run, ops, m, n - 1, i);
      StaysHalted(run[n - 1], ops[n - 1]);
    }
  }

  /** The vStopped sequence ends only when no halted thread is left to report. */
  lemma DrainedMeansNone(s: State, i: nat)
    requires i < |s.ts| && Sends(s, VStopped(s), Drained)
    ensures VStopped(s).ts == s.ts && !Stopped(s.ts[i])
  {
  }

  lemma OnlyVContContinues(s: State, op: Op, i: nat)
    requires Inv(s) && Enabled(s, op) && s.nonStop && !op.OpVCont? && i < |s.ts|
    ensures |Next(s, op).ts| == |s.ts| && !Continues(s, Next(s, op), i)
  {
  }

  lemma {:induction false} NothingContinued(start: State, run: seq<State>, ops: seq<Op>, i: nat, m: nat, n: nat)
    requires IsSession(start, run, ops) && start.nonStop && i < |start.ts| && m <= n <= |ops|
    requires forall k | m <= k < n :: !ops[k].OpVCont?
    ensures forall k | 0 <= k < |run| :: |run[k].ts| == |start.ts|
    ensures Continued(run, i, n) == Continued(run, i, m)
    decreases n
  {
    SameThreads(start, run, ops);
    if m < n {
      NothingContinued(start, run, ops, i, m, n - 1);
      SessionsAreSafe(start, run, ops, n - 1);
      assert StepAt(run, ops, n - 1);
      OnlyVContContinues(run[n - 1], ops[n - 1], i);
    }
  }

  /**
   After vCtrlC each thread that was continued is reported exactly once by the time the client has sent
   one vStopped more than there were continued threads, if it continues none meanwhile.
   */
  lemma CtrlCReportsAll(start: State, run: seq<State>, ops: seq<Op>, m: nat, n: nat, i: nat)
    requires IsSession(start, run, ops) && start.nonStop && m < n <= |ops| && i < |start.ts|
    requires ops[m].OpVCtrlC? && (forall k | m < k < n :: !ops[k].OpVCont?) && i < |run[m].ts|
    requires run[m].ts[i].last == CONTINUE && VStoppeds(ops, m, n) > ContinuedThreads(run[m].ts)
    ensures |run[n].ts| == |start.ts| && run[n].ts[i].last == STOP
    ensures Reported(run[n].log, i, |run[n].log|) == Reported(run[m].log, i, |run[m].log|) + 1
  {
    DrainEnds(start, run, ops, m, n);
    var k: nat :| m <= k < n && ops[k].OpVStopped? && DrainedAt(run, k);
    StoppedByDrain(start, run, ops, m, k, n, i);
    EachStopReportedOnce(start, run, ops, m, i);
    EachStopReportedOnce(start, run, ops, n, i);
    NothingContinued(start, run, ops, i, m, n);
  }

  lemma StoppedByDrain(start: State, run: seq<State>, ops: seq<Op>, m: nat, k: nat, n: nat, i: nat)
    requires IsSession(start, run, ops) && start.nonStop && m < k < n <= |ops| && i < |start.ts|
    requires ops[m].OpVCtrlC? && forall j | m < j < n :: !ops[j].OpVCont?
    requires ops[k].OpVStopped? && DrainedAt(run, k)
    ensures |run[n].ts| == |start.ts| && run[n].ts[i].last == STOP
  {
    HaltedUntil(start, run, ops, m, k, i);
    SessionsAreSafe(start, run, ops, k);
    assert StepAt(run, ops, k);
    DrainedMeansNone(run[k], i);
    HaltedUntil(start, run, ops, m, n, i);
  }

  // ----- Where a file-I/O result goes --------------------------------------------------

  /** The thread that the client selected or was told of last; `?` starts with the first. */
  ghost function Chosen(run: seq<State>, ops: seq<Op>, n: nat): nat
    requires n < |run| == |ops| + 1
  {
    if n == 0 then 0
    else if ops[n - 1].OpSelect? then ops[n - 1].thread
    else
      var k, log := |run[n - 1].log|, run[n].log;
      if k < |log| && log[k].StopReply? then log[k].thread else Chosen(run, ops, n - 1)
  }

  /** A stop reply selects the thread it is about; nothing else sent changes the selection. */
  ghost predicate SelectsReported(s: State, s': State)
  {
    s'.current == if |s.log| < |s'.log| && s'.log[|s.log|].StopReply? then s'.log[|s.log|].thread else s.current
  }

  lemma DoContinueSelects(s: State, i: nat)
    requires i < |s.ts| && !s.nonStop
    ensures SelectsReported(s, DoContinue(s, i))
  {
  }

  lemma SuspendSelects(s: State)
    requires |s.proc| == |s.ts| && !s.nonStop
    ensures SelectsReported(s, Suspend(s))
  {
  }

  lemma BeginWaitSelects(s: State)
    requires !s.nonStop
    ensures SelectsReported(s, BeginWait(s))
  {
    var i := PendingFrom(s.ts, 0);
    if i < |s.ts| { DoContinueSelects(s, i); }
  }

  lemma PollSelects(s: State, brk: bool, cores: seq<Core>)
    requires |s.proc| == |s.ts| && !s.nonStop
    ensures SelectsReported(s, Poll(s, brk, cores))
  {
    var s1 := s.(ts := Observe(s.ts, cores));
    var i := StoppedFrom(s1.ts, 0);
    if brk {
      SuspendSelects(s1);
    } else if i < |s1.ts| {
      DoContinueSelects(s1.(ts := s1.ts[i := s1.ts[i].(pending := s1.ts[i].why)]), i);
    }
  }

  lemma CurrentAfter(s: State, op: Op)
    requires Inv(s) && Enabled(s, op) && !s.nonStop
    ensures if op.OpSelect? then Next(s, op).current == op.thread else SelectsReported(s, Next(s, op))
  {
    match op {
      case OpVCont(acts, cores) => BeginWaitSelects(s.(ts := Observe(VContThreads(s.ts, acts), cores)));
      case OpPoll(brk, cores) => PollSelects(s, brk, cores);
      case OpFileIOReply(a, cores) => BeginWaitSelects(s.(ts := Observe(ResumeAll(WriteResult(s, a)), cores)));
      case OpVCtrlC =>
      case OpSelect(_) =>
      case OpCores(_) =>
    }
  }

  lemma {:induction false} CurrentIsChosen(start: State, run: seq<State>, ops: seq<Op>, n: nat)
    requires IsSession(start, run, ops) && !start.nonStop && start.ts != [] && n <= |ops|
    ensures run[n].current == Chosen(run, ops, n)
    decreases n
  {
    if n > 0 {
      CurrentIsChosen(start, run, ops, n - 1);
      SessionsAreSafe(start, run, ops, n - 1);
      assert StepAt(run, ops, n - 1);
      CurrentAfter(run[n - 1], ops[n - 1]);
    }
  }

  /**
   The result of a system call reaches the thread that made it exactly if that thread is also the one
   the client selected or was told of last before the request: it is put into the registers of that
   one, and of no other.
   */
  lemma ResultGoesToChosen(start: State, run: seq<State>, ops: seq<Op>, m: nat, n: nat, i: nat, j: nat)
    requires IsSession(start, run, ops) && !start.nonStop && m < n < |ops| && i < |start.ts| && j < |start.ts|
    requires !ops[m].OpSelect? && Sends(run[m], run[m + 1], FileIO(i))
    requires ops[n].OpFileIOReply? && forall k | m < k < n :: ops[k].OpCores?
    ensures j < |run[n].ts| == |WriteResult(run[n], ops[n].answer)|
    ensures var before, after := run[n].ts[j].regs, WriteResult(run[n], ops[n].answer)[j].regs;
      after == if j == Chosen(run, ops, m) then Put(before, ops[n].answer) else before
  {
    SessionsAreSafe(start, run, ops, n);
    CurrentIsChosen(start, run, ops, n);
    SameChosen(start, run, ops, m, n);
  }

  lemma {:induction false} SameChosen(start: State, run: seq<State>, ops: seq<Op>, m: nat, n: nat)
    requires IsSession(start, run, ops) && m < n <= |ops| && !ops[m].OpSelect?
    requires exists i :: Sends(run[m], run[m + 1], FileIO(i))
    requires forall k | m < k < n :: ops[k].OpCores?
    ensures Chosen(run, ops, n) == Chosen(run, ops, m)
    decreases n
  {
    if m + 1 < n {
      SameChosen(start, run, ops, m, n - 1);
      assert StepAt(run, ops, n - 1);
    }
  }

  // ----- Sessions that end badly -------------------------------------------------------

  const ANY := Regs(0, 0)
  const IDLE := Thread(true, STOP, NoSignal, NoSignal, ANY)
  const RUNS := Thread(false, CONTINUE, NoSignal, NoSignal, ANY)
  const ON := Core(false, NoSignal, ANY)
  const CALLS := Core(true, Emt(true), ANY)

  lemma TwoSteps(start: State, run: seq<State>, ops: seq<Op>)
    requires Connected(start) && |ops| == 2 && |run| == 3 && run[0] == Status(start)
    requires StepAt(run, ops, 0) && StepAt(run, ops, 1)
    ensures IsSession(start, run, ops)
  {
    forall n: nat | n < |ops| ensures StepAt(run, ops, n) {
      assert n == 0 || n == 1;
    }
  }

  /** A session in which vCont is never answered: the server serves the only stop on its own terminal. */
  lemma OwnCallEndsWait() returns (start: State, run: seq<State>, ops: seq<Op>)
    ensures IsSession(start, run, ops) && |ops| == 2 && ops[0].OpVCont? && run[1].waiting
    ensures !run[2].waiting && run[2].log == [StopReply(0, NoSignal), Tty(0)]
  {
    start := State([IDLE], [1], false, true, true, false, 0, []);
    ops := [OpVCont([VAction(CONTINUE, {0})], [ON]), OpPoll(false, [CALLS])];
    var s0 := Status(start);
    var s1 := Next(s0, ops[0]);
    run := [s0, s1, Next(s1, ops[1])];
    assert FirstMatch(s0.ts[0], 0, ops[0].acts, 0) == RUNS;
    assert PendingFrom(Observe(VContThreads(s0.ts, ops[0].acts), ops[0].cores), 0) == 1;
    assert s1.waiting;
    assert StoppedFrom(Observe(s1.ts, ops[1].cores), 0) == 0;
    TwoSteps(start, run, ops);
  }

  /** And one where Ctrl-C is not: vCont has continued no thread. */
  lemma CtrlCEndsWait() returns (start: State, run: seq<State>, ops: seq<Op>)
    ensures IsSession(start, run, ops) && |ops| == 2 && ops[0].OpVCont? && run[1].waiting && ops[1] == OpPoll(true, [])
    ensures !run[2].waiting && run[2].log == [StopReply(0, NoSignal)]
  {
    start := State([IDLE], [1], false, false, true, false, 0, []);
    ops := [OpVCont([], []), OpPoll(true, [])];
    var s0 := Status(start);
    var s1 := Next(s0, ops[0]);
    run := [s0, s1, Next(s1, ops[1])];
    assert PendingFrom(Observe(VContThreads(s0.ts, []), []), 0) == 1;
    assert s1.waiting;
    assert SignalFrom(HaltAll(Observe(s1.ts, [])), [1], 0, 1) == 1;
    TwoSteps(start, run, ops);
  }

  /** Two threads of one process, in all-stop mode and without a terminal of the server's own. */
  function Two(t: Thread, u: Thread, waiting: bool, log: seq<Event>): State
  {
    State([t, u], [1, 1], false, false, true, waiting, 0, log)
  }

  /** Both threads run once `?` and a vCont have been served. */
  lemma BothContinued(s0: State, op: Op)
    requires s0 == Two(IDLE, IDLE, false, [StopReply(0, NoSignal)])
    requires op == OpVCont([VAction(CONTINUE, {0, 1})], [ON, ON])
    ensures Connected(Two(IDLE, IDLE, false, [])) && Status(Two(IDLE, IDLE, false, [])) == s0
    ensures Enabled(s0, op) && Next(s0, op) == Two(RUNS, RUNS, true, [StopReply(0, NoSignal)])
  {
    assert Status(Two(IDLE, IDLE, false, [])).ts == [IDLE, IDLE];
    assert FirstMatch(IDLE, 0, op.acts, 0) == RUNS && FirstMatch(IDLE, 1, op.acts, 0) == RUNS;
    assert Observe(VContThreads(s0.ts, op.acts), op.cores) == [RUNS, RUNS];
    PendingFromIs([RUNS, RUNS], 0, 2);
  }

  /** Thread i is found at a system call, the other one as its core says. */
  lemma OneCalls(s1: State, op: Op, i: nat, other: Core)
    requires s1 == Two(RUNS, RUNS, true, [StopReply(0, NoSignal)]) && i < 2 && (i == 0 || !other.halted)
    requires op == OpPoll(false, if i == 0 then [CALLS, other] else [other, CALLS])
    ensures var called, beside := Thread(true, CONTINUE, NoSignal, Emt(true), ANY), Seen(RUNS, other).(halted := true);
      Enabled(s1, op) && Next(s1, op) ==
        if i == 0 then Two(called, beside, false, [StopReply(0, NoSignal), FileIO(0)])
        else Two(beside, called, false, [StopReply(0, NoSignal), FileIO(1)])
  {
    var ts := Observe(s1.ts, op.cores);
    StoppedFromIs(ts, 0, i);
    var called := ts[i].(pending := ts[i].why);
    assert HaltAll(ts[i := called][i := called.(pending := NoSignal)]) == Next(s1, op).ts;
  }

  lemma ThreeSteps(start: State, run: seq<State>, ops: seq<Op>)
    requires Connected(start) && |ops| == 3 && |run| == 4 && run[0] == Status(start)
    requires StepAt(run, ops, 0) && StepAt(run, ops, 1) && StepAt(run, ops, 2)
    ensures IsSession(start, run, ops)
  {
    forall n: nat | n < |ops| ensures StepAt(run, ops, n) {
      assert n == 0 || n == 1 || n == 2;
    }
  }

  /** The session in which thread i makes a system call and the client answers it. */
  lemma CallSession(i: nat, other: Core, a: Answer) returns (start: State, run: seq<State>, ops: seq<Op>)
    requires i < 2 && (i == 0 || !other.halted)
    ensures IsSession(start, run, ops) && |ops| == 3 && ops[2] == OpFileIOReply(a, [])
    ensures ops[1] == OpPoll(false, if i == 0 then [CALLS, other] else [other, CALLS])
    ensures var called, beside := Thread(true, CONTINUE, NoSignal, Emt(true), ANY), Seen(RUNS, other).(halted := true);
      run[2] == if i == 0 then Two(called, beside, false, [StopReply(0, NoSignal), FileIO(0)])
                else Two(beside, called, false, [StopReply(0, NoSignal), FileIO(1)])
    ensures run[3] == FileIOReply(run[2], a, [])
  {
    start := Two(IDLE, IDLE, false, []);
    var s0, s1 := Two(IDLE, IDLE, false, [StopReply(0, NoSignal)]), Two(RUNS, RUNS, true, [StopReply(0, NoSignal)]);
    var poll := OpPoll(false, if i == 0 then [CALLS, other] else [other, CALLS]);
    ops := [OpVCont([VAction(CONTINUE, {0, 1})], [ON, ON]), poll, OpFileIOReply(a, [])];
    BothContinued(s0, ops[0]);
    OneCalls(s1, poll, i, other);
    var s2 := Next(s1, poll);
    run := [s0, s1, s2, FileIOReply(s2, a, [])];
    ThreeSteps(start, run, ops);
  }

  /** A reply finds both cores halted and no stop pending, and restarts both. */
  lemma BothRestarted(s: State, a: Answer)
    requires |s.ts| == 2 && s.current == 0
    requires forall i | 0 <= i < 2 :: s.ts[i].last == CONTINUE && s.ts[i].pending == NoSignal
    ensures var s' := FileIOReply(s, a, []);
      && s'.waiting && s'.log == s.log && |s'.ts| == 2
      && s'.ts[0] == s.ts[0].(halted := false, regs := Put(s.ts[0].regs, a)) && s'.ts[1] == s.ts[1].(halted := false)
  {
    PendingFromIs(Observe(ResumeAll(WriteResult(s, a)), []), 0, 2);
  }

  /** A session in which thread 1 hits a breakpoint that is never reported: it runs again, nothing pending. */
  lemma FileIOReplyLosesStop() returns (start: State, run: seq<State>, ops: seq<Op>)
    ensures IsSession(start, run, ops) && |ops| == 3
    ensures ops[1] == OpPoll(false, [CALLS, Core(true, Other(5), ANY)]) && ops[2].OpFileIOReply?
    ensures run[3].waiting && run[3].log == [StopReply(0, NoSignal), FileIO(0)]
    ensures |run[3].ts| == 2 && !run[3].ts[1].halted && run[3].ts[1].pending == NoSignal
  {
    start, run, ops := CallSession(0, Core(true, Other(5), ANY), Unreadable);
    BothRestarted(run[2], Unreadable);
  }

  /** A session in which thread 1 makes a system call and thread 0 gets the result in its registers. */
  lemma ResultGoesToOther() returns (start: State, run: seq<State>, ops: seq<Op>)
    ensures IsSession(start, run, ops) && |ops| == 3 && ops[2] == OpFileIOReply(ResultOnly(42), [])
    ensures run[2].log == [StopReply(0, NoSignal), FileIO(1)]
    ensures |run[3].ts| == 2 && run[3].ts[0].regs == Regs(42, 0) && run[3].ts[1].regs == ANY
  {
    start, run, ops := CallSession(1, ON, ResultOnly(42));
    BothRestarted(run[2], ResultOnly(42));
  }

  // ----- A session in non-stop mode ------------------------------------------------------

  /** One thread, in non-stop mode. */
  function One(t: Thread, notifying: bool, log: seq<Event>): State
  {
    State([t], [1], true, false, notifying, false, 0, log)
  }

  const HIT := Core(true, Other(5), ANY)

  ghost predicate StepTo(s: State, op: Op, s': State)
  {
    |s.proc| == |s.ts| && Enabled(s, op) && s' == Next(s, op)
  }

  lemma OneStarts(log: seq<Event>)
    ensures Connected(One(IDLE, true, []))
    ensures Status(One(IDLE, true, [])) == One(IDLE, true, [StopReply(0, NoSignal)])
    ensures StepTo(One(IDLE, true, log), OpVStopped, One(IDLE, false, log + [Drained]))
    ensures StepTo(One(IDLE, false, log), OpVCont([VAction(CONTINUE, {0})], []), One(RUNS, false, log + [Ok]))
  {
    StoppedFromIs([IDLE.(last := CONTINUE)], 0, 0);
    StoppedFromIs([IDLE], 0, 1);
    assert Status(One(IDLE, true, [])).ts == [IDLE];
    assert VContThreads([IDLE], [VAction(CONTINUE, {0})]) == [RUNS];
  }

  lemma OneHits(log: seq<Event>)
    ensures var hit := Thread(true, CONTINUE, NoSignal, Other(5), ANY);
      && StepTo(One(RUNS, false, log), OpCores([HIT]), One(hit, false, log))
      && StepTo(One(hit, false, log), OpNotify, One(hit.(last := STOP), true, log + [Notification(0, Other(5))]))
  {
    var hit := Thread(true, CONTINUE, NoSignal, Other(5), ANY);
    assert Observe([RUNS], [HIT]) == [hit];
    StoppedFromIs([hit], 0, 0);
  }

  lemma OneEnds(log: seq<Event>)
    ensures var told := Thread(true, STOP, NoSignal, Other(5), ANY);
      && StepTo(One(told, true, log), OpVStopped, One(told, false, log + [Drained]))
      && StepTo(One(told, false, log), OpSelect(0), One(told, false, log + [Ok]))
      && StepTo(One(told, false, log), OpVCtrlC, One(told, false, log + [Ok]))
  {
    var told := Thread(true, STOP, NoSignal, Other(5), ANY);
    StoppedFromIs([told], 0, 1);
    assert HaltAll([told]) == [told];
  }

  /** From `?` over a breakpoint hit to its notification and the end of the sequence, packet by packet. */
  lemma NonStopSession() returns (start: State, run: seq<State>, ops: seq<Op>)
    ensures IsSession(start, run, ops) && start.nonStop && |ops| == 7
    ensures ops == [OpVStopped, OpVCont([VAction(CONTINUE, {0})], []), OpCores([HIT]), OpNotify, OpVStopped,
                    OpSelect(0), OpVCtrlC]
    ensures run[7].log == [StopReply(0, NoSignal), Drained, Ok, Notification(0, Other(5)), Drained, Ok, Ok]
  {
    var hit, told := Thread(true, CONTINUE, NoSignal, Other(5), ANY), Thread(true, STOP, NoSignal, Other(5), ANY);
    var l0 := [StopReply(0, NoSignal)];
    var l1 := l0 + [Drained];
    var l2 := l1 + [Ok];
    var l3 := l2 + [Notification(0, Other(5))];
    var l4 := l3 + [Drained];
    var l5 := l4 + [Ok];
    OneStarts(l0);
    OneStarts(l1);
    OneHits(l2);
    OneEnds(l3);
    OneEnds(l4);
    OneEnds(l5);
    start := One(IDLE, true, []);
    ops := [OpVStopped, OpVCont([VAction(CONTINUE, {0})], []), OpCores([HIT]), OpNotify, OpVStopped,
            OpSelect(0), OpVCtrlC];
    run := [One(IDLE, true, l0), One(IDLE, false, l1), One(RUNS, false, l2), One(hit, false, l2), One(told, true, l3),
            One(told, false, l4), One(told, false, l5), One(told, false, l5 + [Ok])];
    SevenSteps(start, run, ops);
  }

  lemma SevenSteps(start: State, run: seq<State>, ops: seq<Op>)
    requires Connected(start) && |ops| == 7 && |run| == 8 && run[0] == Status(start)
    requires StepTo(run[0], ops[0], run[1]) && StepTo(run[1], ops[1], run[2]) && StepTo(run[2], ops[2], run[3])
    requires StepTo(run[3], ops[3], run[4]) && StepTo(run[4], ops[4], run[5]) && StepTo(run[5], ops[5], run[6])
    requires StepTo(run[6], ops[6], run[7])
    ensures IsSession(start, run, ops)
  {
    forall n: nat | n < |ops| ensures StepAt(run, ops, n) {
      assert n == 0 || n == 1 || n == 2 || n == 3 || n == 4 || n == 5 || n == 6;
      assert StepTo(run[n], ops[n], run[n + 1]);
    }
  }
}
