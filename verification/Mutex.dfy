/**
 The e-core mutex: a word acquired with the atomic `testset` instruction and released
 with a plain store of zero. The releasing store is posted, so it may arrive long after
 `e_mutex_unlock` has returned and even after the core has started to lock again.
 */
module Mutex {

  /** Where a core is with respect to one mutex. */
  datatype Pc = Idle | Locking | Trying | Holding

  /** `zeros[c]` counts core c's releasing stores that have not arrived yet. */
  datatype State = State(word: int, pc: seq<Pc>, zeros: seq<nat>)

  datatype Action =
    | CallLock(c: nat)
    | CallTry(c: nat)
    | TestSet(c: nat)     // the loop body of e_mutex_lock, or e_mutex_trylock's only access
    | Unlock(c: nat)
    | Arrive(c: nat)

  /** The instruction: the new word and the value left in the register. */
  function Testset(word: int, reg: int): (int, int)
  {
    if word == 0 then (reg, 0) else (word, word)
  }

  /** `ids[c]` is core c's id, the value it writes. */
  ghost predicate Cores(ids: seq<int>)
  {
    && (forall c | 0 <= c < |ids| :: ids[c] != 0)
    && (forall c, d | 0 <= c < |ids| && 0 <= d < |ids| && c != d :: ids[c] != ids[d])
  }

  ghost predicate Shape(ids: seq<int>, s: State)
  {
    |s.pc| == |s.zeros| == |ids|
  }

  /** Unlock is called by the holder only; everything else is up to the cores. */
  ghost predicate Enabled(ids: seq<int>, s: State, a: Action)
    requires Shape(ids, s)
  {
    && a.c < |ids|
    && match a
       case CallLock(c) => s.pc[c].Idle?
       case CallTry(c) => s.pc[c].Idle?
       case TestSet(c) => s.pc[c].Locking? || s.pc[c].Trying?
       case Unlock(c) => s.pc[c].Holding?
       case Arrive(c) => s.zeros[c] > 0
  }

  /** The register value the core's test sees, which `e_mutex_trylock` returns. */
  function Result(ids: seq<int>, s: State, c: nat): int
    requires c < |ids|
  {
    Testset(s.word, ids[c]).1
  }

  function Do(ids: seq<int>, s: State, a: Action): State
    requires Shape(ids, s) && Enabled(ids, s, a)
  {
    match a
    case CallLock(c) => s.(pc := s.pc[c := Locking])
    case CallTry(c) => s.(pc := s.pc[c := Trying])
    case TestSet(c) =>
      var (word, val) := Testset(s.word, ids[c]);
      var next := if val == 0 then Holding else if s.pc[c].Trying? then Idle else Locking;
      s.(word := word, pc := s.pc[c := next])
    case Unlock(c) => s.(pc := s.pc[c := Idle], zeros := s.zeros[c := s.zeros[c] + 1])
    case Arrive(c) => s.(word := 0, zeros := s.zeros[c := s.zeros[c] - 1])
  }

  ghost predicate Init(ids: seq<int>, s: State)
  {
    Shape(ids, s) && s.word == 0 && forall c | 0 <= c < |ids| :: s.pc[c].Idle? && s.zeros[c] == 0
  }

  ghost predicate IsRun(ids: seq<int>, run: seq<State>, acts: seq<Action>)
  {
    && |run| == |acts| + 1
    && Init(ids, run[0])
    && forall k | 0 <= k < |acts| ::
         Shape(ids, run[k]) && Enabled(ids, run[k], acts[k]) && run[k + 1] == Do(ids, run[k], acts[k])
  }

  /** Core c is inside the critical section, or has left it and the word does not show it yet. */
  predicate Owns(s: State, c: nat)
    requires c < |s.pc| == |s.zeros|
  {
    s.pc[c].Holding? || s.zeros[c] > 0
  }

  ghost predicate Inv(ids: seq<int>, s: State)
  {
    && Cores(ids) && Shape(ids, s)
    && (forall c | 0 <= c < |ids| && Owns(s, c) :: s.word == ids[c])
    && (forall c | 0 <= c < |ids| :: s.zeros[c] <= if s.pc[c].Holding? then 0 else 1)
    && (s.word == 0 || exists c | 0 <= c < |ids| :: Owns(s, c))
  }

  lemma SoleOwner(ids: seq<int>, s: State, c: nat, d: nat)
    requires Inv(ids, s) && c < |ids| && d < |ids| && Owns(s, c) && Owns(s, d)
    ensures c == d
  {
    assert ids[c] == s.word == ids[d];
  }

  lemma StepInv(ids: seq<int>, s: State, a: Action)
    requires Inv(ids, s) && Enabled(ids, s, a)
    ensures Inv(ids, Do(ids, s, a))
  {
    var t := Do(ids, s, a);
    if a.Arrive? {
      forall d | 0 <= d < |ids| && Owns(t, d) ensures false {
        SoleOwner(ids, s, d, a.c);
      }
    }
    if t.word != 0 && s.word != 0 {
      var o :| 0 <= o < |ids| && Owns(s, o);
      assert Owns(t, o);
    } else if t.word != 0 {
      assert Owns(t, a.c);
    }
  }

  lemma {:induction false} RunInv(ids: seq<int>, run: seq<State>, acts: seq<Action>, k: nat)
    requires Cores(ids) && IsRun(ids, run, acts) && k < |run|
    ensures Inv(ids, run[k])
    decreases k
  {
    if k > 0 {
      RunInv(ids, run, acts, k - 1);
      StepInv(ids, run[k - 1], acts[k - 1]);
    }
  }

  /**
   Mutual exclusion in every reachable state. The word names the owner and is zero just
   when there is none; a core only holds the mutex after the last owner's store arrived.
   */
  lemma MutualExclusion(ids: seq<int>, run: seq<State>, acts: seq<Action>, k: nat)
    requires Cores(ids) && IsRun(ids, run, acts) && k < |run|
    ensures Inv(ids, run[k])
    ensures forall c, d | 0 <= c < |ids| && 0 <= d < |ids| && Owns(run[k], c) && Owns(run[k], d) :: c == d
    ensures forall c | 0 <= c < |ids| :: Owns(run[k], c) <==> run[k].word == ids[c]
    ensures run[k].word == 0 <==> forall c | 0 <= c < |ids| :: !Owns(run[k], c)
  {
    RunInv(ids, run, acts, k);
  }

  /** `e_mutex_trylock` returns zero exactly when it acquired, and else the owner's id. */
  lemma TryLockResult(ids: seq<int>, run: seq<State>, acts: seq<Action>, k: nat, c: nat)
    requires Cores(ids) && IsRun(ids, run, acts) && k < |acts| && acts[k] == TestSet(c)
    ensures Result(ids, run[k], c) == 0 <==> run[k + 1].pc[c].Holding?
    ensures Result(ids, run[k], c) != 0 <==>
            exists o | 0 <= o < |ids| :: Owns(run[k], o) && Result(ids, run[k], c) == ids[o]
    ensures Result(ids, run[k], c) != 0 ==> forall d | 0 <= d < |ids| :: Owns(run[k], d) == Owns(run[k + 1], d)
  {
    RunInv(ids, run, acts, k);
    var s := run[k];
    if s.word != 0 {
      var o :| 0 <= o < |ids| && Owns(s, o);
      assert Result(ids, s, c) == ids[o];
    }
  }

  /** A spinning core gets in as soon as it tests while nobody owns the mutex. */
  lemma LockSucceedsWhenFree(ids: seq<int>, run: seq<State>, acts: seq<Action>, k: nat, c: nat)
    requires Cores(ids) && IsRun(ids, run, acts) && k < |acts| && acts[k] == TestSet(c)
    ensures run[k + 1].pc[c].Holding? <==> forall d | 0 <= d < |ids| :: !Owns(run[k], d)
  {
    RunInv(ids, run, acts, k);
  }

  // ----- What a call does from its start to its return -----------------------------------

  /** A core's place changes by its own actions only, and not by the arrival of a store. */
  lemma OthersUnmoved(ids: seq<int>, s: State, a: Action, c: nat)
    requires Shape(ids, s) && Enabled(ids, s, a) && c < |ids| && (a.c != c || a.Arrive?)
    ensures Shape(ids, Do(ids, s, a)) && Do(ids, s, a).pc[c] == s.pc[c]
  {
  }

  /** A core in `e_mutex_lock` stays there until it has the mutex. */
  lemma LockGoesOn(ids: seq<int>, s: State, a: Action, c: nat)
    requires Shape(ids, s) && Enabled(ids, s, a) && c < |ids| && s.pc[c].Locking?
    ensures Shape(ids, Do(ids, s, a))
    ensures Do(ids, s, a).pc[c].Locking? || (a == TestSet(c) && Do(ids, s, a).pc[c].Holding?)
  {
    if a.c != c { OthersUnmoved(ids, s, a, c); }
  }

  /**
   `e_mutex_lock` returns with the mutex only: from the call on the core is still locking, unless one of
   its tests since then has made it the holder.
   */
  lemma {:induction false} LockReturnsHolding(ids: seq<int>, run: seq<State>, acts: seq<Action>, m: nat, n: nat, c: nat)
    requires IsRun(ids, run, acts) && m < n < |run| && acts[m] == CallLock(c)
    ensures Shape(ids, run[n])
    ensures run[n].pc[c].Locking? ||
            exists k: nat :: m < k < n && acts[k] == TestSet(c) && c < |run[k + 1].pc| && run[k + 1].pc[c].Holding?
    decreases n
  {
    if m + 1 < n {
      LockReturnsHolding(ids, run, acts, m, n - 1, c);
      if run[n - 1].pc[c].Locking? {
        LockGoesOn(ids, run[n - 1], acts[n - 1], c);
      }
    }
    EveryShape(ids, run, acts, n);
  }

  lemma EveryShape(ids: seq<int>, run: seq<State>, acts: seq<Action>, n: nat)
    requires IsRun(ids, run, acts) && n < |run|
    ensures Shape(ids, run[n])
  {
    if n > 0 { assert run[n] == Do(ids, run[n - 1], acts[n - 1]); }
  }

  predicate Unowned(s: State)
    requires |s.pc| == |s.zeros|
  {
    forall d | 0 <= d < |s.pc| :: !Owns(s, d)
  }

  /**
   `e_mutex_trylock` tests once: until that test the core is trying, after it the call has returned, with
   the mutex exactly if nobody owned it.
   */
  lemma {:induction false} TryReturnsAtOnce(ids: seq<int>, run: seq<State>, acts: seq<Action>, m: nat, n: nat, c: nat)
    requires Cores(ids) && IsRun(ids, run, acts) && m < n < |run| && acts[m] == CallTry(c)
    requires forall k | m < k < n - 1 :: acts[k] != TestSet(c)
    ensures Shape(ids, run[n - 1]) && Shape(ids, run[n])
    ensures if m < n - 1 && acts[n - 1] == TestSet(c) then
              if Unowned(run[n - 1]) then run[n].pc[c].Holding? else run[n].pc[c].Idle?
            else run[n].pc[c].Trying?
    decreases n
  {
    EveryShape(ids, run, acts, n - 1);
    EveryShape(ids, run, acts, n);
    if m + 1 < n {
      TryReturnsAtOnce(ids, run, acts, m, n - 1, c);
      if acts[n - 1] == TestSet(c) {
        LockSucceedsWhenFree(ids, run, acts, n - 1, c);
      } else {
        OthersUnmoved(ids, run[n - 1], acts[n - 1], c);
      }
    }
  }

  /** The holder keeps the mutex until it calls `e_mutex_unlock`. */
  lemma {:induction false} HeldUntilUnlock(ids: seq<int>, run: seq<State>, acts: seq<Action>, m: nat, n: nat, c: nat)
    requires IsRun(ids, run, acts) && m <= n < |run| && c < |ids| && c < |run[m].pc| && run[m].pc[c].Holding?
    requires forall k | m <= k < n :: acts[k] != Unlock(c)
    ensures Shape(ids, run[n]) && run[n].pc[c].Holding?
    decreases n
  {
    EveryShape(ids, run, acts, n);
    if m < n {
      HeldUntilUnlock(ids, run, acts, m, n - 1, c);
      if acts[n - 1].c != c || acts[n - 1].Arrive? { OthersUnmoved(ids, run[n - 1], acts[n - 1], c); }
    }
  }

  /** The unlocking core goes on at once; the word keeps its id until the store arrives, and is zero then. */
  lemma UnlockIsPosted(ids: seq<int>, run: seq<State>, acts: seq<Action>, k: nat, c: nat)
    requires Cores(ids) && IsRun(ids, run, acts) && k < |acts|
    ensures Shape(ids, run[k]) && Shape(ids, run[k + 1])
    ensures acts[k] == Unlock(c) ==> run[k + 1].pc[c].Idle? && run[k + 1].zeros[c] == 1 && run[k + 1].word == ids[c]
    ensures acts[k] == Arrive(c) ==> run[k].word == ids[c] && run[k + 1].word == 0 && run[k + 1].zeros[c] == 0
  {
    RunInv(ids, run, acts, k);
    RunInv(ids, run, acts, k + 1);
  }

  function HandOverRun(): seq<State>
  {
    [State(0, [Idle, Idle], [0, 0]), State(0, [Locking, Idle], [0, 0]), State(1, [Holding, Idle], [0, 0]),
     State(1, [Holding, Trying], [0, 0]), State(1, [Holding, Idle], [0, 0]), State(1, [Holding, Locking], [0, 0]),
     State(1, [Holding, Locking], [0, 0]), State(1, [Idle, Locking], [1, 0]), State(1, [Idle, Locking], [1, 0]),
     State(0, [Idle, Locking], [0, 0]), State(2, [Idle, Holding], [0, 0])]
  }

  function HandOverActs(): seq<Action>
  {
    [CallLock(0), TestSet(0), CallTry(1), TestSet(1), CallLock(1), TestSet(1), Unlock(0), TestSet(1),
     Arrive(0), TestSet(1)]
  }

  ghost predicate Goes(ids: seq<int>, s: State, a: Action, t: State)
  {
    Shape(ids, s) && Enabled(ids, s, a) && t == Do(ids, s, a)
  }

  lemma HandOverBegins(k: nat)
    requires k < 5
    ensures Goes([1, 2], HandOverRun()[k], HandOverActs()[k], HandOverRun()[k + 1])
  {
    assert k == 0 || k == 1 || k == 2 || k == 3 || k == 4;
  }

  lemma HandOverEnds(k: nat)
    requires 5 <= k < 10
    ensures Goes([1, 2], HandOverRun()[k], HandOverActs()[k], HandOverRun()[k + 1])
  {
    assert k == 5 || k == 6 || k == 7 || k == 8 || k == 9;
  }

  /**
   A run of two cores with ids 1 and 2: a try and a lock of the second fail while the first holds the
   mutex and until its unlocking store has arrived; the next test succeeds.
   */
  lemma HandOver()
    ensures IsRun([1, 2], HandOverRun(), HandOverActs())
    ensures var run := HandOverRun();
      && run[4].pc == [Holding, Idle] && run[6].pc == [Holding, Locking] && run[8].pc == [Idle, Locking]
      && run[8].word == 1 && run[9].word == 0 && run[10] == State(2, [Idle, Holding], [0, 0])
  {
    var run, acts := HandOverRun(), HandOverActs();
    forall k | 0 <= k < |acts| ensures Goes([1, 2], run[k], acts[k], run[k + 1]) {
      if k < 5 { HandOverBegins(k); } else { HandOverEnds(k); }
    }
    forall k | 0 <= k < |acts|
      ensures Shape([1, 2], run[k]) && Enabled([1, 2], run[k], acts[k]) && run[k + 1] == Do([1, 2], run[k], acts[k])
    {
      assert Goes([1, 2], run[k], acts[k], run[k + 1]);
    }
  }
}
