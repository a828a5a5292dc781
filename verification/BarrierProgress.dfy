/**
 Progress of the barrier: until every core has returned from its T-th call there is always
 a step to take that is not an idle poll, and only finitely many such steps exist.
 */
module BarrierProgress {
  import opened Arith
  import opened Barrier

  /** A step that changes something and does not start a core's call T + 1. */
  ghost predicate Productive(cfg: Config, s: State, a: Action, T: nat)
    requires Wired(cfg) && Shape(cfg, s) && Enabled(cfg, s, a)
  {
    && Do(cfg, s, a) != s
    && (a.Core? && s.pc[a.c].Outside? ==> s.entered[a.c] < T)
  }

  /** Work left in the current call; posting a store counts twice as it is also delivered. */
  function Left(n: nat, pc: Pc): int
  {
    match pc
    case Outside => 0
    case Mark => 1 + n + (n + 1) + (2 * n - 1)
    case Gather(i) => (n - i + 1) + (n + 1) + (2 * n - 1)
    case Clear(i) => (n - i + 1) + (2 * n - 1)
    case Release(i) => 2 * (n - i) + 1
    case Signal => 4
    case Wait => 2
    case Reset => 1
  }

  /** Work of one whole call, entering included. */
  function CallWork(n: nat, c: nat): int
  {
    1 + Left(n, if c == 0 then Mark else Signal)
  }

  function Work(cfg: Config, s: State, T: nat, c: nat): int
    requires Shape(cfg, s) && c < cfg.n
  {
    (T - s.entered[c]) * CallWork(cfg.n, c) + Left(cfg.n, s.pc[c])
  }

  function SumWork(cfg: Config, s: State, T: nat, k: nat): int
    requires Shape(cfg, s) && k <= cfg.n
  {
    if k == 0 then 0 else SumWork(cfg, s, T, k - 1) + Work(cfg, s, T, k - 1)
  }

  function Measure(cfg: Config, s: State, T: nat): int
    requires Shape(cfg, s)
  {
    SumWork(cfg, s, T, cfg.n) + |s.flight|
  }

  /** No core has started its call T + 1. */
  ghost predicate Within(cfg: Config, s: State, T: nat)
    requires Shape(cfg, s)
  {
    forall c | 0 <= c < cfg.n :: s.entered[c] <= T
  }

  lemma WorkNonNegative(cfg: Config, s: State, T: nat, c: nat)
    requires Wired(cfg) && Shape(cfg, s) && Within(cfg, s, T) && c < cfg.n
    ensures Work(cfg, s, T, c) >= 0
  {
    assert PcOk(cfg.n, c, s.pc[c]);
    MulNonNegative(T - s.entered[c], CallWork(cfg.n, c));
  }

  lemma {:induction false} SumNonNegative(cfg: Config, s: State, T: nat, k: nat)
    requires Wired(cfg) && Shape(cfg, s) && Within(cfg, s, T) && k <= cfg.n
    ensures SumWork(cfg, s, T, k) >= 0
  {
    if k > 0 {
      SumNonNegative(cfg, s, T, k - 1);
      WorkNonNegative(cfg, s, T, k - 1);
    }
  }

  /** If only core c's work differs, the sum differs by just that much. */
  lemma {:induction false} SumChange(cfg: Config, s: State, t: State, T: nat, c: nat, k: nat)
    requires Shape(cfg, s) && Shape(cfg, t) && c < cfg.n && k <= cfg.n
    requires forall d | 0 <= d < cfg.n && d != c :: s.entered[d] == t.entered[d] && s.pc[d] == t.pc[d]
    ensures SumWork(cfg, t, T, k) ==
            SumWork(cfg, s, T, k) + if c < k then Work(cfg, t, T, c) - Work(cfg, s, T, c) else 0
  {
    if k > 0 {
      SumChange(cfg, s, t, T, c, k - 1);
      assert k - 1 != c ==> Work(cfg, t, T, k - 1) == Work(cfg, s, T, k - 1);
    }
  }

  lemma LeftDrops(cfg: Config, s: State, c: nat)
    requires Wired(cfg) && Shape(cfg, s) && c < cfg.n && CoreStep(cfg, s, c) != s
    requires !s.pc[c].Outside?
    ensures var t := CoreStep(cfg, s, c);
            && t.entered == s.entered && c < |t.pc|
            && |t.flight| - |s.flight| + Left(cfg.n, t.pc[c]) == Left(cfg.n, s.pc[c]) - 1
  {
    assert PcOk(cfg.n, c, s.pc[c]);
    if c == 0 { LeaderDrops(cfg, s); } else { MemberDrops(cfg, s, c); }
  }

  lemma LeaderDrops(cfg: Config, s: State)
    requires Wired(cfg) && Shape(cfg, s) && CoreStep(cfg, s, 0) != s
    requires s.pc[0].Mark? || s.pc[0].Gather? || s.pc[0].Clear? || s.pc[0].Release?
    ensures var t := CoreStep(cfg, s, 0);
            && t.entered == s.entered && 0 < |t.pc|
            && |t.flight| - |s.flight| + Left(cfg.n, t.pc[0]) == Left(cfg.n, s.pc[0]) - 1
  {
    assert PcOk(cfg.n, 0, s.pc[0]);
  }

  lemma MemberDrops(cfg: Config, s: State, c: nat)
    requires Wired(cfg) && Shape(cfg, s) && 1 <= c < cfg.n && CoreStep(cfg, s, c) != s
    requires s.pc[c].Signal? || s.pc[c].Wait? || s.pc[c].Reset?
    ensures var t := CoreStep(cfg, s, c);
            && t.entered == s.entered && c < |t.pc|
            && |t.flight| - |s.flight| + Left(cfg.n, t.pc[c]) == Left(cfg.n, s.pc[c]) - 1
  {
  }

  lemma CoreWorkDrops(cfg: Config, s: State, c: nat, T: nat)
    requires Wired(cfg) && Shape(cfg, s) && c < cfg.n && CoreStep(cfg, s, c) != s
    requires Shape(cfg, CoreStep(cfg, s, c))
    ensures var t := CoreStep(cfg, s, c);
            |t.flight| - |s.flight| + Work(cfg, t, T, c) - Work(cfg, s, T, c) == -1
  {
    var t := CoreStep(cfg, s, c);
    if s.pc[c].Outside? {
      OneCallLess(T, s.entered[c], CallWork(cfg.n, c));
      assert t.flight == s.flight && t.entered[c] == s.entered[c] + 1;
    } else {
      LeftDrops(cfg, s, c);
    }
  }

  lemma OneCallLess(T: int, e: int, w: int)
    ensures (T - (e + 1)) * w == (T - e) * w - w
  {
  }

  lemma OthersKept(cfg: Config, s: State, c: nat, d: nat)
    requires Wired(cfg) && Shape(cfg, s) && c < cfg.n && d < cfg.n && d != c
    ensures var t := CoreStep(cfg, s, c);
            |t.entered| == |t.pc| == cfg.n && t.entered[d] == s.entered[d] && t.pc[d] == s.pc[d]
  {
  }

  lemma CoreStepMeasure(cfg: Config, s: State, c: nat, T: nat)
    requires Wired(cfg) && Shape(cfg, s) && c < cfg.n && CoreStep(cfg, s, c) != s
    requires Shape(cfg, CoreStep(cfg, s, c))
    ensures Measure(cfg, CoreStep(cfg, s, c), T) == Measure(cfg, s, T) - 1
  {
    var t := CoreStep(cfg, s, c);
    forall d | 0 <= d < cfg.n && d != c ensures s.entered[d] == t.entered[d] && s.pc[d] == t.pc[d] {
      OthersKept(cfg, s, c, d);
    }
    SumChange(cfg, s, t, T, c, cfg.n);
    CoreWorkDrops(cfg, s, c, T);
  }

  lemma CoreStepWithin(cfg: Config, s: State, c: nat, T: nat)
    requires Wired(cfg) && Shape(cfg, s) && Within(cfg, s, T) && c < cfg.n && Shape(cfg, CoreStep(cfg, s, c))
    requires s.pc[c].Outside? ==> s.entered[c] < T
    ensures Within(cfg, CoreStep(cfg, s, c), T)
  {
    var t := CoreStep(cfg, s, c);
    forall d | 0 <= d < cfg.n ensures t.entered[d] <= T {
      if d != c { OthersKept(cfg, s, c, d); }
    }
  }

  lemma StepMeasure(cfg: Config, s: State, a: Action, T: nat)
    requires Wired(cfg) && Shape(cfg, s) && Within(cfg, s, T)
    requires Enabled(cfg, s, a) && Productive(cfg, s, a, T) && Shape(cfg, Do(cfg, s, a))
    ensures var t := Do(cfg, s, a);
            Within(cfg, t, T) && Measure(cfg, t, T) == Measure(cfg, s, T) - 1
  {
    var t := Do(cfg, s, a);
    match a {
      case Core(c) =>
        CoreStepMeasure(cfg, s, c, T);
        CoreStepWithin(cfg, s, c, T);
      case Deliver(m) =>
        SumChange(cfg, s, t, T, 0, cfg.n);
        assert t.entered[0] == s.entered[0] && t.pc[0] == s.pc[0];
    }
  }

  /** Every productive step uses up exactly one unit of work. */
  lemma StepUsesWork(cfg: Config, s: State, a: Action, T: nat)
    requires Inv(cfg, s) && Within(cfg, s, T) && Enabled(cfg, s, a) && Productive(cfg, s, a, T)
    ensures var t := Do(cfg, s, a);
            Inv(cfg, t) && Within(cfg, t, T) && 0 <= Measure(cfg, t, T) == Measure(cfg, s, T) - 1
  {
    var t := Do(cfg, s, a);
    StepInv(cfg, s, a);
    StepMeasure(cfg, s, a, T);
    SumNonNegative(cfg, t, T, cfg.n);
  }

  lemma MemberCanStep(cfg: Config, s: State, i: nat, T: nat) returns (a: Action)
    requires Inv(cfg, s) && Within(cfg, s, T) && s.flight == multiset{} && 1 <= i < cfg.n
    requires s.returned[i] < T
    requires !Signalled(cfg, s, i) && !Consumed(cfg, s, i)
    ensures Enabled(cfg, s, a) && Productive(cfg, s, a, T)
  {
    a := Core(i);
    assert CoreInv(cfg, s, i);
    var t := CoreStep(cfg, s, i);
    if s.pc[i].Outside? {
      assert t.entered[i] != s.entered[i];
    } else {
      assert t.pc[i] != s.pc[i];
    }
  }

  lemma LeaderCanStep(cfg: Config, s: State, T: nat)
    requires Inv(cfg, s) && Within(cfg, s, T)
    requires s.pc[0].Outside? ==> s.returned[0] < T
    requires s.pc[0].Gather? && s.pc[0].i < cfg.n ==> Signalled(cfg, s, s.pc[0].i)
    ensures Productive(cfg, s, Core(0), T)
  {
    var t := CoreStep(cfg, s, 0);
    if s.pc[0].Outside? {
      assert t.entered[0] != s.entered[0];
    } else {
      assert t.pc[0] != s.pc[0];
    }
  }

  /** Deadlock freedom: a productive step exists until all cores have returned T times. */
  lemma NotStuck(cfg: Config, s: State, T: nat) returns (a: Action)
    requires Inv(cfg, s) && Within(cfg, s, T)
    requires exists c | 0 <= c < cfg.n :: s.returned[c] < T
    ensures Enabled(cfg, s, a) && Productive(cfg, s, a, T)
  {
    if m :| m in s.flight {
      a := Deliver(m);
      assert Arrive(s, m).flight[m] != s.flight[m];
      return;
    }
    if s.pc[0].Gather? && s.pc[0].i < cfg.n && !Signalled(cfg, s, s.pc[0].i) {
      // Core 0 still waits for this core, which is not blocked itself.
      var i := s.pc[0].i;
      assert CoreInv(cfg, s, i);
      a := MemberCanStep(cfg, s, i, T);
    } else if s.pc[0].Outside? && s.returned[0] >= T {
      // Core 0 is done, so every release has been sent.
      var i :| 0 <= i < cfg.n && s.returned[i] < T;
      assert CoreInv(cfg, s, i);
      a := MemberCanStep(cfg, s, i, T);
    } else {
      LeaderCanStep(cfg, s, T);
      a := Core(0);
    }
  }

  /** A sequence of productive steps from s. */
  ghost predicate ProductiveRun(cfg: Config, s: State, T: nat, acts: seq<Action>)
    requires Wired(cfg)
    decreases |acts|
  {
    acts == [] ||
    (&& Shape(cfg, s) && Enabled(cfg, s, acts[0]) && Productive(cfg, s, acts[0], T)
     && ProductiveRun(cfg, Do(cfg, s, acts[0]), T, acts[1..]))
  }

  ghost function After(cfg: Config, s: State, T: nat, acts: seq<Action>): State
    requires Wired(cfg) && ProductiveRun(cfg, s, T, acts)
    decreases |acts|
  {
    if acts == [] then s else After(cfg, Do(cfg, s, acts[0]), T, acts[1..])
  }

  /** Whatever the schedule, productive steps run out after `Measure` many. */
  lemma {:induction false} ProductiveRunsAreBounded(cfg: Config, s: State, T: nat, acts: seq<Action>)
    requires Inv(cfg, s) && Within(cfg, s, T) && ProductiveRun(cfg, s, T, acts)
    ensures var t := After(cfg, s, T, acts);
            Inv(cfg, t) && Within(cfg, t, T) && 0 <= Measure(cfg, t, T) == Measure(cfg, s, T) - |acts|
    decreases |acts|
  {
    if acts == [] {
      SumNonNegative(cfg, s, T, cfg.n);
    } else {
      StepUsesWork(cfg, s, acts[0], T);
      ProductiveRunsAreBounded(cfg, Do(cfg, s, acts[0]), T, acts[1..]);
    }
  }

  /**
   Every productive schedule is shorter than `Measure`, and one that cannot be extended
   has taken every core through exactly T calls and left the memory cleared and quiet.
   */
  lemma BarrierCompletes(cfg: Config, s: State, T: nat, acts: seq<Action>)
    requires Inv(cfg, s) && Within(cfg, s, T) && ProductiveRun(cfg, s, T, acts)
    ensures |acts| <= Measure(cfg, s, T)
    ensures var t := After(cfg, s, T, acts);
            Inv(cfg, t) &&
            ((forall a | Enabled(cfg, t, a) :: !Productive(cfg, t, a, T)) <==>
             forall c | 0 <= c < cfg.n :: t.returned[c] == T)
    ensures var t := After(cfg, s, T, acts);
            (forall c | 0 <= c < cfg.n :: t.returned[c] == T) ==> Clean(cfg, t)
  {
    ProductiveRunsAreBounded(cfg, s, T, acts);
    var t := After(cfg, s, T, acts);
    forall c | 0 <= c < cfg.n ensures t.returned[c] <= T {
      NotAheadOf(cfg, t, c, c);
    }
    if c :| 0 <= c < cfg.n && t.returned[c] < T {
      var a := NotStuck(cfg, t, T);
    } else {
      AllDone(cfg, t, T);
      forall a | Enabled(cfg, t, a) ensures !Productive(cfg, t, a, T) {
      }
    }
  }

  /** Nothing travels and every byte of every `bar_array` is zero, as before the first call. */
  ghost predicate Clean(cfg: Config, s: State)
    requires Shape(cfg, s)
  {
    && s.flight == multiset{}
    && forall c, i | 0 <= c < cfg.n && 0 <= i < cfg.n :: s.bar[Cell(c, i)].value == 0
  }

  lemma AllDone(cfg: Config, s: State, T: nat)
    requires Inv(cfg, s) && Within(cfg, s, T)
    requires forall c | 0 <= c < cfg.n :: s.returned[c] == T
    ensures Clean(cfg, s) && forall c | 0 <= c < cfg.n :: s.pc[c].Outside? && s.entered[c] == T
  {
    forall c | 1 <= c < cfg.n
      ensures s.pc[c].Outside? && s.entered[c] == T
      ensures s.bar[Cell(0, c)].value == 0 && s.bar[Cell(c, 0)].value == 0
      ensures forall m | m in s.flight :: m.to != Cell(0, c) && m.to != Cell(c, 0)
    {
      assert CoreInv(cfg, s, c);
      NoStrayStore(cfg, s, c);
    }
    assert s.pc[0].Outside?;
    forall m ensures m !in s.flight {
      if m in s.flight {
        var i := Owner(cfg, s, m);
      }
    }
  }

  lemma Owner(cfg: Config, s: State, m: Store) returns (i: nat)
    requires Inv(cfg, s) && m in s.flight
    ensures 1 <= i < cfg.n && (m.to == Cell(0, i) || m.to == Cell(i, 0))
  {
    assert Current(cfg, s, m);
    i := if m.to.core == 0 then m.to.slot else m.to.core;
  }
}
