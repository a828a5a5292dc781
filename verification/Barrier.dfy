/**
 The reusable flip-flop barrier of the Epiphany device library.

 Core 0 gathers one signal byte per core in its own `bar_array`, clears them and then
 releases every other core by storing into that core's slot 0. Every remote store is
 posted: it travels through the mesh for an arbitrary time and stores may overtake one
 another. The machine below runs any number of cores for any number of calls.
 */
module Barrier {

  /** One byte of one core's `bar_array`. */
  datatype Cell = Cell(core: nat, slot: nat)

  /** A byte of `bar_array`. `stamp` only records in which call its last writer was. */
  datatype Slot = Slot(value: int, stamp: nat)

  /** A posted remote store that has not arrived yet. */
  datatype Store = Store(to: Cell, value: int, stamp: nat)

  /** `tgt[c]` is what the pointers in core c's `tgt_bar_array` point at. */
  datatype Config = Config(n: nat, tgt: seq<seq<Cell>>)

  /** Where a core is in `e_barrier`; the indices are the loop variable `i`. */
  datatype Pc =
    | Outside
    | Mark | Gather(i: nat) | Clear(i: nat) | Release(i: nat)  // core 0
    | Signal | Wait | Reset                                    // the others

  /** `entered[c]` and `returned[c]` count core c's calls and returns. */
  datatype State = State(
    bar: map<Cell, Slot>,
    flight: multiset<Store>,
    pc: seq<Pc>,
    entered: seq<nat>,
    returned: seq<nat>)

  datatype Action = Core(c: nat) | Deliver(m: Store)

  /** The pointers set up by `e_barrier_init`. */
  ghost predicate Wired(cfg: Config)
  {
    && cfg.n > 0
    && |cfg.tgt| == cfg.n
    && |cfg.tgt[0]| >= cfg.n
    && (forall k | 1 <= k < cfg.n :: cfg.tgt[0][k] == Cell(k, 0))
    && (forall c | 1 <= c < cfg.n :: |cfg.tgt[c]| >= 1 && cfg.tgt[c][0] == Cell(0, c))
  }

  ghost predicate Shape(cfg: Config, s: State)
  {
    && |s.pc| == |s.entered| == |s.returned| == cfg.n
    && (forall c, i | 0 <= c < cfg.n && 0 <= i < cfg.n :: Cell(c, i) in s.bar)
    && (forall c | 0 <= c < cfg.n :: PcOk(cfg.n, c, s.pc[c]))
    && (forall m | m in s.flight :: m.to in s.bar)
  }

  predicate PcOk(n: nat, c: nat, pc: Pc)
  {
    match pc
    case Outside => true
    case Mark => c == 0
    case Gather(i) => c == 0 && 1 <= i <= n
    case Clear(i) => c == 0 && 0 <= i <= n
    case Release(i) => c == 0 && 1 <= i <= n
    case Signal => c != 0
    case Wait => c != 0
    case Reset => c != 0
  }

  function GoTo(s: State, c: nat, pc: Pc): State
    requires c < |s.pc|
  {
    s.(pc := s.pc[c := pc])
  }

  function Return(s: State, c: nat): State
    requires c < |s.pc| && c < |s.returned|
  {
    s.(pc := s.pc[c := Outside], returned := s.returned[c := s.returned[c] + 1])
  }

  function SetSlot(s: State, c: nat, i: nat, value: int): State
    requires c < |s.entered|
  {
    s.(bar := s.bar[Cell(c, i) := Slot(value, s.entered[c])])
  }

  function Post(s: State, c: nat, to: Cell): State
    requires c < |s.entered|
  {
    s.(flight := s.flight + multiset{Store(to, 1, s.entered[c])})
  }

  /** One step of core c. A poll that finds zero leaves the state as it is. */
  function CoreStep(cfg: Config, s: State, c: nat): State
    requires Wired(cfg) && Shape(cfg, s) && c < cfg.n
  {
    match s.pc[c]
    case Outside =>
      GoTo(s.(entered := s.entered[c := s.entered[c] + 1]), c, if c == 0 then Mark else Signal)
    case Mark => GoTo(SetSlot(s, c, c, 1), c, Gather(1))
    case Gather(i) =>
      if i >= cfg.n then GoTo(s, c, Clear(0))
      else if s.bar[Cell(c, i)].value == 0 then s
      else GoTo(s, c, Gather(i + 1))
    case Clear(i) =>
      if i >= cfg.n then GoTo(s, c, Release(1))
      else GoTo(SetSlot(s, c, i, 0), c, Clear(i + 1))
    case Release(i) =>
      if i >= cfg.n then Return(s, c)
      else GoTo(Post(s, c, cfg.tgt[c][i]), c, Release(i + 1))
    case Signal => GoTo(Post(s, c, cfg.tgt[c][0]), c, Wait)
    case Wait => if s.bar[Cell(c, 0)].value == 0 then s else GoTo(s, c, Reset)
    case Reset => Return(SetSlot(s, c, 0, 0), c)
  }

  function Arrive(s: State, m: Store): State
  {
    s.(bar := s.bar[m.to := Slot(m.value, m.stamp)], flight := s.flight - multiset{m})
  }

  ghost predicate Enabled(cfg: Config, s: State, a: Action)
  {
    match a
    case Core(c) => c < cfg.n
    case Deliver(m) => m in s.flight
  }

  function Do(cfg: Config, s: State, a: Action): State
    requires Wired(cfg) && Shape(cfg, s) && Enabled(cfg, s, a)
  {
    match a
    case Core(c) => CoreStep(cfg, s, c)
    case Deliver(m) => Arrive(s, m)
  }

  ghost predicate Init(cfg: Config, s: State)
  {
    && Shape(cfg, s)
    && s.flight == multiset{}
    && (forall c, i | 0 <= c < cfg.n && 0 <= i < cfg.n :: s.bar[Cell(c, i)].value == 0)
    && (forall c | 0 <= c < cfg.n :: s.pc[c] == Outside && s.entered[c] == 0 && s.returned[c] == 0)
  }

  /** A run: any interleaving of core steps and store deliveries. */
  ghost predicate IsRun(cfg: Config, run: seq<State>, acts: seq<Action>)
    requires Wired(cfg)
  {
    && |run| == |acts| + 1
    && Init(cfg, run[0])
    && forall k | 0 <= k < |acts| ::
         Shape(cfg, run[k]) && Enabled(cfg, run[k], acts[k]) && run[k + 1] == Do(cfg, run[k], acts[k])
  }

  // ----- The invariant ---------------------------------------------------------------

  // How far core 0 is with core i in its current call.
  predicate Gathered(p: Pc, i: nat)
  {
    (p.Gather? && i < p.i) || p.Clear? || p.Release?
  }

  predicate Cleared(p: Pc, i: nat)
  {
    (p.Clear? && i < p.i) || p.Release?
  }

  predicate Released(p: Pc, i: nat)
  {
    p.Release? && i < p.i
  }

  /** The number of releases core 0 has posted to core i so far. */
  function Releases(s: State, i: nat): nat
    requires |s.returned| == |s.pc| > 0
  {
    s.returned[0] + if Released(s.pc[0], i) then 1 else 0
  }

  function Signals(s: State, i: nat): nat
    requires i < |s.entered|
  {
    s.flight[Store(Cell(0, i), 1, s.entered[i])]
  }

  function Grants(s: State, i: nat): nat
    requires i < |s.entered|
  {
    s.flight[Store(Cell(i, 0), 1, s.entered[i])]
  }

  /** Core i has not signalled for its next round yet. */
  ghost predicate Away(cfg: Config, s: State, i: nat)
    requires Shape(cfg, s) && 1 <= i < cfg.n
  {
    && (s.pc[i].Outside? || s.pc[i].Signal?)
    && Signals(s, i) == 0 && Grants(s, i) == 0
    && s.bar[Cell(0, i)].value == 0 && s.bar[Cell(i, 0)].value == 0
    && s.entered[i] == s.returned[i] + (if s.pc[i].Signal? then 1 else 0)
    && s.returned[i] == Releases(s, i)
    && (Gathered(s.pc[0], i) ==> Released(s.pc[0], i))
  }

  ghost predicate Waiting(cfg: Config, s: State, i: nat)
    requires Shape(cfg, s) && 1 <= i < cfg.n
  {
    s.pc[i].Wait? && s.entered[i] == s.returned[i] + 1
  }

  /** The signal of core i is travelling to core 0. */
  ghost predicate Signalling(cfg: Config, s: State, i: nat)
    requires Shape(cfg, s) && 1 <= i < cfg.n
  {
    && Waiting(cfg, s, i)
    && Signals(s, i) == 1 && Grants(s, i) == 0
    && s.bar[Cell(0, i)].value == 0 && s.bar[Cell(i, 0)].value == 0
    && s.returned[i] == Releases(s, i)
    && (Gathered(s.pc[0], i) ==> Released(s.pc[0], i))
  }

  /** The signal of core i lies in core 0's slot i. */
  ghost predicate Signalled(cfg: Config, s: State, i: nat)
    requires Shape(cfg, s) && 1 <= i < cfg.n
  {
    && Waiting(cfg, s, i)
    && Signals(s, i) == 0 && Grants(s, i) == 0
    && s.bar[Cell(0, i)] == Slot(1, s.entered[i]) && s.bar[Cell(i, 0)].value == 0
    && s.returned[i] == Releases(s, i)
    && (Cleared(s.pc[0], i) ==> Released(s.pc[0], i))
  }

  /** Core 0 has consumed the signal of core i and has still to release it. */
  ghost predicate Consumed(cfg: Config, s: State, i: nat)
    requires Shape(cfg, s) && 1 <= i < cfg.n
  {
    && Waiting(cfg, s, i)
    && Signals(s, i) == 0 && Grants(s, i) == 0
    && s.bar[Cell(0, i)].value == 0 && s.bar[Cell(i, 0)].value == 0
    && s.returned[i] == Releases(s, i)
    && Cleared(s.pc[0], i) && !Released(s.pc[0], i)
  }

  /** The release of core i is travelling to it. */
  ghost predicate Granting(cfg: Config, s: State, i: nat)
    requires Shape(cfg, s) && 1 <= i < cfg.n
  {
    && Waiting(cfg, s, i)
    && Signals(s, i) == 0 && Grants(s, i) == 1
    && s.bar[Cell(0, i)].value == 0 && s.bar[Cell(i, 0)].value == 0
    && s.returned[i] + 1 == Releases(s, i)
    && (Gathered(s.pc[0], i) ==> Released(s.pc[0], i))
  }

  /** The release of core i has arrived. */
  ghost predicate Granted(cfg: Config, s: State, i: nat)
    requires Shape(cfg, s) && 1 <= i < cfg.n
  {
    && (s.pc[i].Wait? || s.pc[i].Reset?)
    && s.entered[i] == s.returned[i] + 1
    && Signals(s, i) == 0 && Grants(s, i) == 0
    && s.bar[Cell(0, i)].value == 0 && s.bar[Cell(i, 0)] == Slot(1, s.entered[i])
    && s.returned[i] + 1 == Releases(s, i)
    && (Gathered(s.pc[0], i) ==> Released(s.pc[0], i))
  }

  ghost predicate CoreInv(cfg: Config, s: State, i: nat)
    requires Shape(cfg, s) && 1 <= i < cfg.n
  {
    || Away(cfg, s, i) || Signalling(cfg, s, i) || Signalled(cfg, s, i)
    || Consumed(cfg, s, i) || Granting(cfg, s, i) || Granted(cfg, s, i)
  }

  /** Every store in flight is the current signal or the current release of some core. */
  ghost predicate FlightInv(cfg: Config, s: State)
    requires Shape(cfg, s)
  {
    forall m | m in s.flight :: Current(cfg, s, m)
  }

  ghost predicate Current(cfg: Config, s: State, m: Store)
    requires Shape(cfg, s)
  {
    && m.value == 1
    && (|| (m.to.core == 0 && 1 <= m.to.slot < cfg.n && m.stamp == s.entered[m.to.slot])
        || (m.to.slot == 0 && 1 <= m.to.core < cfg.n && m.stamp == s.entered[m.to.core]))
  }

  /** Bytes no other core is concerned with: core 0's own slot and the unused slots. */
  ghost predicate OwnInv(cfg: Config, s: State)
    requires cfg.n > 0 && Shape(cfg, s)
  {
    && s.bar[Cell(0, 0)].value == (if s.pc[0].Gather? || s.pc[0] == Clear(0) then 1 else 0)
    && forall c, i | 1 <= c < cfg.n && 1 <= i < cfg.n :: s.bar[Cell(c, i)].value == 0
  }

  ghost predicate Inv(cfg: Config, s: State)
  {
    && Wired(cfg)
    && Shape(cfg, s)
    && OwnInv(cfg, s)
    && s.entered[0] == s.returned[0] + (if s.pc[0].Outside? then 0 else 1)
    && FlightInv(cfg, s)
    && forall i | 1 <= i < cfg.n :: CoreInv(cfg, s, i)
  }

  lemma InitInv(cfg: Config, s: State)
    requires Wired(cfg) && Init(cfg, s)
    ensures Inv(cfg, s)
  {
    forall i | 1 <= i < cfg.n ensures CoreInv(cfg, s, i) {
      assert Away(cfg, s, i);
    }
  }

  lemma ShapeKept(cfg: Config, s: State, c: nat)
    requires Wired(cfg) && Shape(cfg, s) && c < cfg.n
    ensures Shape(cfg, CoreStep(cfg, s, c))
  {
    if c == 0 { LeaderShape(cfg, s); } else { MemberShape(cfg, s, c); }
  }

  lemma LeaderShape(cfg: Config, s: State)
    requires Wired(cfg) && Shape(cfg, s)
    ensures Shape(cfg, CoreStep(cfg, s, 0))
  {
    assert PcOk(cfg.n, 0, s.pc[0]);
    if s.pc[0].Release? && s.pc[0].i < cfg.n { assert cfg.tgt[0][s.pc[0].i] == Cell(s.pc[0].i, 0); }
  }

  lemma MemberShape(cfg: Config, s: State, c: nat)
    requires Wired(cfg) && Shape(cfg, s) && 1 <= c < cfg.n
    ensures Shape(cfg, CoreStep(cfg, s, c))
  {
    assert PcOk(cfg.n, c, s.pc[c]) && cfg.tgt[c][0] == Cell(0, c);
  }

  /** A core's posted store is current, and it is the only new one. */
  lemma CoreStepFlight(cfg: Config, s: State, c: nat)
    requires Inv(cfg, s) && c < cfg.n
    ensures Shape(cfg, CoreStep(cfg, s, c)) && FlightInv(cfg, CoreStep(cfg, s, c))
  {
    ShapeKept(cfg, s, c);
    var t := CoreStep(cfg, s, c);
    forall m | m in t.flight ensures Current(cfg, t, m) {
      assert m in s.flight ==> Current(cfg, s, m);
      if c == 0 { LeaderStore(cfg, s, m); } else { MemberStore(cfg, s, c, m); }
    }
  }

  lemma LeaderStore(cfg: Config, s: State, m: Store)
    requires Inv(cfg, s) && Shape(cfg, CoreStep(cfg, s, 0)) && m in CoreStep(cfg, s, 0).flight
    requires m in s.flight ==> Current(cfg, s, m)
    ensures Current(cfg, CoreStep(cfg, s, 0), m)
  {
    if s.pc[0].Release? && s.pc[0].i < cfg.n { assert CoreInv(cfg, s, s.pc[0].i); }
  }

  lemma MemberStore(cfg: Config, s: State, c: nat, m: Store)
    requires Inv(cfg, s) && 1 <= c < cfg.n && Shape(cfg, CoreStep(cfg, s, c)) && m in CoreStep(cfg, s, c).flight
    requires m in s.flight ==> Current(cfg, s, m)
    ensures Current(cfg, CoreStep(cfg, s, c), m)
  {
    assert CoreInv(cfg, s, c);
    assert m == Store(m.to, m.value, m.stamp) && m.to == Cell(m.to.core, m.to.slot);
  }

  /** Before core 0 clears slots, its steps leave what concerns core i alone. */
  lemma LeaderGathers(cfg: Config, s: State, i: nat)
    requires Wired(cfg) && Shape(cfg, s) && 1 <= i < cfg.n && (s.pc[0].Outside? || s.pc[0].Mark? || s.pc[0].Gather?)
    requires CoreInv(cfg, s, i)
    ensures Shape(cfg, CoreStep(cfg, s, 0)) && CoreInv(cfg, CoreStep(cfg, s, 0), i)
  {
    ShapeKept(cfg, s, 0);
    var t := CoreStep(cfg, s, 0);
    assert s.pc[i] == t.pc[i] && s.entered[i] == t.entered[i] && s.returned == t.returned && s.flight == t.flight;
    assert t.bar[Cell(0, i)] == s.bar[Cell(0, i)] && t.bar[Cell(i, 0)] == s.bar[Cell(i, 0)];
  }

  lemma LeaderClears(cfg: Config, s: State, i: nat)
    requires Wired(cfg) && Shape(cfg, s) && 1 <= i < cfg.n && s.pc[0].Clear?
    requires CoreInv(cfg, s, i)
    ensures Shape(cfg, CoreStep(cfg, s, 0)) && CoreInv(cfg, CoreStep(cfg, s, 0), i)
  {
    ShapeKept(cfg, s, 0);
    var t := CoreStep(cfg, s, 0);
    assert s.pc[i] == t.pc[i] && s.entered[i] == t.entered[i] && s.returned == t.returned && s.flight == t.flight;
    assert t.bar[Cell(i, 0)] == s.bar[Cell(i, 0)];
  }

  lemma LeaderReleasesCore(cfg: Config, s: State, i: nat)
    requires Wired(cfg) && Shape(cfg, s) && 1 <= i < cfg.n && s.pc[0] == Release(i)
    requires CoreInv(cfg, s, i) && s.entered[0] == s.returned[0] + 1
    ensures Shape(cfg, CoreStep(cfg, s, 0)) && CoreInv(cfg, CoreStep(cfg, s, 0), i)
  {
    ShapeKept(cfg, s, 0);
    assert Consumed(cfg, s, i) && Granting(cfg, CoreStep(cfg, s, 0), i);
  }

  lemma LeaderReleasesOther(cfg: Config, s: State, i: nat)
    requires Wired(cfg) && Shape(cfg, s) && 1 <= i < cfg.n && s.pc[0].Release? && s.pc[0].i != i
    requires CoreInv(cfg, s, i)
    ensures Shape(cfg, CoreStep(cfg, s, 0)) && CoreInv(cfg, CoreStep(cfg, s, 0), i)
  {
    ShapeKept(cfg, s, 0);
    var t := CoreStep(cfg, s, 0);
    assert Signals(t, i) == Signals(s, i) && Grants(t, i) == Grants(s, i) && t.bar == s.bar;
  }

  lemma LeaderStepCore(cfg: Config, s: State, i: nat)
    requires Inv(cfg, s) && 1 <= i < cfg.n
    ensures Shape(cfg, CoreStep(cfg, s, 0)) && CoreInv(cfg, CoreStep(cfg, s, 0), i)
  {
    assert CoreInv(cfg, s, i) && PcOk(cfg.n, 0, s.pc[0]);
    if s.pc[0] == Release(i) {
      LeaderReleasesCore(cfg, s, i);
    } else if s.pc[0].Release? {
      LeaderReleasesOther(cfg, s, i);
    } else if s.pc[0].Clear? {
      LeaderClears(cfg, s, i);
    } else {
      LeaderGathers(cfg, s, i);
    }
  }

  lemma MemberStepCore(cfg: Config, s: State, c: nat, i: nat)
    requires Inv(cfg, s) && 1 <= c < cfg.n && 1 <= i < cfg.n
    ensures Shape(cfg, CoreStep(cfg, s, c)) && CoreInv(cfg, CoreStep(cfg, s, c), i)
  {
    if i == c { MemberStepOwn(cfg, s, c); } else { MemberStepOther(cfg, s, c, i); }
  }

  lemma MemberStepOwn(cfg: Config, s: State, c: nat)
    requires Inv(cfg, s) && 1 <= c < cfg.n
    ensures Shape(cfg, CoreStep(cfg, s, c)) && CoreInv(cfg, CoreStep(cfg, s, c), c)
  {
    ShapeKept(cfg, s, c);
    var t := CoreStep(cfg, s, c);
    assert CoreInv(cfg, s, c) && Releases(t, c) == Releases(s, c);
    match s.pc[c]
    case Outside =>
      NoStrayStore(cfg, s, c);
    case Signal =>
    case Wait =>
    case Reset =>
      assert Granted(cfg, s, c);
      assert Away(cfg, t, c);
  }

  lemma MemberStepOther(cfg: Config, s: State, c: nat, i: nat)
    requires Inv(cfg, s) && 1 <= c < cfg.n && 1 <= i < cfg.n && i != c
    ensures Shape(cfg, CoreStep(cfg, s, c)) && CoreInv(cfg, CoreStep(cfg, s, c), i)
  {
    ShapeKept(cfg, s, c);
    MemberFrame(cfg, s, c, i);
    assert CoreInv(cfg, s, i);
    SameCoreInv(cfg, s, CoreStep(cfg, s, c), i);
  }

  /** What concerns core i is the same in both states. */
  ghost predicate SameFor(cfg: Config, s: State, t: State, i: nat)
    requires Shape(cfg, s) && Shape(cfg, t) && 1 <= i < cfg.n
  {
    && t.pc[i] == s.pc[i] && t.entered[i] == s.entered[i] && t.returned[i] == s.returned[i]
    && t.pc[0] == s.pc[0] && t.returned[0] == s.returned[0]
    && t.bar[Cell(0, i)] == s.bar[Cell(0, i)] && t.bar[Cell(i, 0)] == s.bar[Cell(i, 0)]
    && Signals(t, i) == Signals(s, i) && Grants(t, i) == Grants(s, i)
  }

  lemma MemberFrame(cfg: Config, s: State, c: nat, i: nat)
    requires Wired(cfg) && Shape(cfg, s) && 1 <= c < cfg.n && 1 <= i < cfg.n && i != c
    requires Shape(cfg, CoreStep(cfg, s, c))
    ensures SameFor(cfg, s, CoreStep(cfg, s, c), i)
  {
    assert PcOk(cfg.n, c, s.pc[c]);
  }

  lemma SameCoreInv(cfg: Config, s: State, t: State, i: nat)
    requires Shape(cfg, s) && Shape(cfg, t) && 1 <= i < cfg.n && SameFor(cfg, s, t, i) && CoreInv(cfg, s, i)
    ensures CoreInv(cfg, t, i)
  {
  }

  /** While core i is away nothing travels to or from it. */
  lemma NoStrayStore(cfg: Config, s: State, i: nat)
    requires Inv(cfg, s) && 1 <= i < cfg.n && Away(cfg, s, i)
    ensures forall m | m in s.flight :: m.to != Cell(0, i) && m.to != Cell(i, 0)
  {
    forall m | m in s.flight ensures m.to != Cell(0, i) && m.to != Cell(i, 0) {
      assert Current(cfg, s, m);
      assert m == Store(m.to, m.value, m.stamp);
    }
  }

  lemma ArriveInv(cfg: Config, s: State, m: Store)
    requires Inv(cfg, s) && m in s.flight
    ensures Inv(cfg, Arrive(s, m))
  {
    var t := Arrive(s, m);
    assert Current(cfg, s, m);
    forall i | 1 <= i < cfg.n ensures CoreInv(cfg, t, i) {
      ArriveCore(cfg, s, m, i);
    }
  }

  lemma ArriveCore(cfg: Config, s: State, m: Store, i: nat)
    requires Wired(cfg) && Shape(cfg, s) && m in s.flight && Current(cfg, s, m) && 1 <= i < cfg.n && CoreInv(cfg, s, i)
    ensures Shape(cfg, Arrive(s, m)) && CoreInv(cfg, Arrive(s, m), i)
  {
    assert m == Store(m.to, m.value, m.stamp) && m.to == Cell(m.to.core, m.to.slot);
  }

  lemma OwnKept(cfg: Config, s: State, c: nat)
    requires Wired(cfg) && Shape(cfg, s) && OwnInv(cfg, s) && c < cfg.n
    requires Shape(cfg, CoreStep(cfg, s, c))
    ensures OwnInv(cfg, CoreStep(cfg, s, c))
  {
    assert PcOk(cfg.n, c, s.pc[c]);
  }

  lemma LeaderCount(cfg: Config, s: State, c: nat)
    requires Wired(cfg) && Shape(cfg, s) && c < cfg.n
    requires s.entered[0] == s.returned[0] + (if s.pc[0].Outside? then 0 else 1)
    ensures var t := CoreStep(cfg, s, c);
            |t.pc| == |t.entered| == |t.returned| == cfg.n &&
            t.entered[0] == t.returned[0] + (if t.pc[0].Outside? then 0 else 1)
  {
  }

  lemma StepInv(cfg: Config, s: State, a: Action)
    requires Inv(cfg, s) && Enabled(cfg, s, a)
    ensures Inv(cfg, Do(cfg, s, a))
  {
    match a
    case Core(c) =>
      var t := CoreStep(cfg, s, c);
      CoreStepFlight(cfg, s, c);
      OwnKept(cfg, s, c);
      LeaderCount(cfg, s, c);
      forall i | 1 <= i < cfg.n ensures CoreInv(cfg, t, i) {
        if c == 0 { LeaderStepCore(cfg, s, i); } else { MemberStepCore(cfg, s, c, i); }
      }
    case Deliver(m) => ArriveInv(cfg, s, m);
  }

  lemma {:induction false} RunInv(cfg: Config, run: seq<State>, acts: seq<Action>, k: nat)
    requires Wired(cfg) && IsRun(cfg, run, acts) && k < |run|
    ensures Inv(cfg, run[k])
    decreases k
  {
    if k == 0 {
      InitInv(cfg, run[0]);
    } else {
      RunInv(cfg, run, acts, k - 1);
      StepInv(cfg, run[k - 1], acts[k - 1]);
    }
  }

  // ----- Safety over whole runs ------------------------------------------------------

  lemma NotAheadOf(cfg: Config, s: State, c: nat, d: nat)
    requires Inv(cfg, s) && c < cfg.n && d < cfg.n
    ensures s.returned[c] <= s.entered[d]
    ensures s.entered[c] <= s.entered[d] + 1
    ensures s.returned[c] <= s.returned[d] + 1
  {
    assert c != 0 ==> CoreInv(cfg, s, c);
    assert d != 0 ==> CoreInv(cfg, s, d);
  }

  /**
   No core returns from its r-th call before every core has entered its r-th call, and
   no core is ever more than one round ahead of another.
   */
  lemma BarrierSafety(cfg: Config, run: seq<State>, acts: seq<Action>, k: nat, c: nat, d: nat)
    requires Wired(cfg) && IsRun(cfg, run, acts) && k < |run|
    requires c < cfg.n && d < cfg.n
    ensures Inv(cfg, run[k])
    ensures run[k].returned[c] <= run[k].entered[d]
    ensures run[k].entered[c] <= run[k].entered[d] + 1
    ensures run[k].returned[c] <= run[k].returned[d] + 1
  {
    RunInv(cfg, run, acts, k);
    NotAheadOf(cfg, run[k], c, d);
  }

  /**
   No signal of one round is consumed in another: the byte core 0's poll lets through was
   sent in the call core 0 is in, and the byte that frees core c answers core c's call.
   */
  lemma ConsumedInItsRound(cfg: Config, run: seq<State>, acts: seq<Action>, k: nat, c: nat)
    requires Wired(cfg) && IsRun(cfg, run, acts) && k < |acts| && acts[k] == Core(c)
    requires run[k + 1] != run[k]
    ensures run[k].pc[c].Gather? && run[k].pc[c].i < cfg.n ==>
              run[k].bar[Cell(0, run[k].pc[c].i)] == Slot(1, run[k].entered[0])
    ensures run[k].pc[c].Wait? ==>
              run[k].bar[Cell(c, 0)] == Slot(1, run[k].entered[c]) && run[k].entered[0] >= run[k].entered[c]
  {
    var s := run[k];
    RunInv(cfg, run, acts, k);
    if s.pc[c].Gather? && s.pc[c].i < cfg.n {
      assert CoreInv(cfg, s, s.pc[c].i);
    } else if s.pc[c].Wait? {
      assert CoreInv(cfg, s, c);
    }
  }

  /** A store never arrives on a byte that still holds an unconsumed signal. */
  lemma NoSignalLost(cfg: Config, run: seq<State>, acts: seq<Action>, k: nat, m: Store)
    requires Wired(cfg) && IsRun(cfg, run, acts) && k < |run| && m in run[k].flight
    ensures m.to in run[k].bar && run[k].bar[m.to].value == 0
    ensures run[k].flight[m] == 1
  {
    var s := run[k];
    RunInv(cfg, run, acts, k);
    assert Current(cfg, s, m);
    assert m == Store(m.to, m.value, m.stamp) && m.to == Cell(m.to.core, m.to.slot);
    var i := if m.to.core == 0 then m.to.slot else m.to.core;
    assert CoreInv(cfg, s, i);
  }
}
