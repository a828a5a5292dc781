/** Whole runs of the heap manager: alloc, free and the clients' own writes, interleaved. */
module HeapRuns {
  import opened Arith
  import opened Memman
  import opened HeapLayout

  /** The heap bytes and what the clients hold: payload offset to requested size. */
  datatype State = State(h: seq<Byte>, live: map<nat, nat>)

  datatype Op = Alloc(size: nat) | Free(ptr: nat) | Write(ptr: nat)

  /** The walk of `memman_alloc` ends, at a block whose header is in the heap or at none. */
  ghost predicate AllocEnds(s: State, size: nat)
  {
    match WalkFrom(s.h, Need(size), 0)
    case Found(f) => f + HEADER <= |s.h|
    case Full => true
    case Stuck => false
  }

  /** The walk of `memman_free` of p ends inside the heap. */
  ghost predicate Freeable(s: State, p: nat)
  {
    p >= HEADER && CanFree(s.h, p - HEADER)
  }

  /**
   Clients free what they hold and write inside what they hold. A call whose walk does not end
   may leave anything behind.
   */
  ghost predicate Step(s: State, op: Op, t: State)
  {
    match op
    case Alloc(size) =>
      AllocEnds(s, size) ==>
        (match WalkFrom(s.h, Need(size), 0)
         case Found(f) => t == State(Taken(s.h, f, Need(size)), s.live[f + HEADER := size])
         case _ => t == s)
    case Free(ptr) =>
      && ptr in s.live
      && (Freeable(s, ptr) ==> t == State(Released(s.h, ptr - HEADER), s.live - {ptr}))
    case Write(ptr) =>
      && ptr in s.live && t.live == s.live && |t.h| == |s.h|
      && forall k | 0 <= k < |s.h| && !(ptr <= k < ptr + s.live[ptr]) :: t.h[k] == s.h[k]
  }

  /** A holder may write anything anywhere in its block. */
  lemma HoldersWrite(s: State, ptr: nat, k: nat, b: Byte)
    requires ptr in s.live && ptr <= k < ptr + s.live[ptr] && k < |s.h|
    ensures Step(s, Write(ptr), s.(h := s.h[k := b]))
  {
  }

  ghost predicate IsRun(run: seq<State>, ops: seq<Op>)
  {
    && |run| == |ops| + 1
    && run[0].live == map[] && |run[0].h| < UINT && (|run[0].h| == 0 || |run[0].h| >= HEADER)
    && (forall k | 0 <= k < |run[0].h| :: run[0].h[k] == 0)
    && forall k | 0 <= k < |ops| :: Step(run[k], ops[k], run[k + 1])
  }

  /** The clients' blocks are the live blocks of a layout of the bytes. */
  ghost predicate Good(s: State, l: Layout)
  {
    && Valid(l) && Represents(s.h, l)
    && (forall p {:trigger IsBlock(s, l, p)} | p in s.live :: IsBlock(s, l, p))
    && (forall o {:trigger Held(s, l, o)} | o in l.slots && l.slots[o].live :: Held(s, l, o))
  }

  predicate Held(s: State, l: Layout, o: nat)
  {
    o + HEADER in s.live
  }

  predicate IsBlock(s: State, l: Layout, p: nat)
    requires p in s.live
  {
    && p >= HEADER && p - HEADER in l.slots && l.slots[p - HEADER].live
    && l.slots[p - HEADER].next == p + s.live[p]
  }

  lemma BlockOf(s: State, l: Layout, p: nat)
    requires Good(s, l) && p in s.live
    ensures IsBlock(s, l, p)
  {
  }

  /** No two blocks overlap, headers included, and all lie in the heap. */
  ghost predicate Disjoint(s: State)
  {
    && (forall p | p in s.live :: HEADER <= p && p + s.live[p] <= |s.h|)
    && (forall p, q | p in s.live && q in s.live && p < q :: p + s.live[p] + HEADER <= q)
  }

  lemma GoodIsDisjoint(s: State, l: Layout)
    requires Good(s, l)
    ensures Disjoint(s)
  {
    forall p | p in s.live ensures HEADER <= p && p + s.live[p] <= |s.h| {
      assert IsBlock(s, l, p) && SlotOk(l, p - HEADER);
    }
    forall p, q | p in s.live && q in s.live && p < q ensures p + s.live[p] + HEADER <= q {
      assert IsBlock(s, l, p) && IsBlock(s, l, q) && SlotOk(l, p - HEADER);
    }
  }

  /** What the allocator must never do to bytes a client keeps holding. */
  ghost predicate PayloadsKept(s: State, t: State)
  {
    |t.h| == |s.h| &&
    forall p, k | p in s.live && p in t.live && p <= k < p + s.live[p] && k < |s.h| :: t.h[k] == s.h[k]
  }

  /** A block held before keeps its place when another one is taken. */
  lemma BlockStays(s: State, l: Layout, f: nat, need: nat, p: nat)
    requires Good(s, l) && Boundary(l, f) && (f < l.top ==> f + need <= l.top && Boundary(l, f + need))
    requires p in s.live && need >= HEADER
    requires f in l.slots ==> f < l.top && !l.slots[f].live && SpansFree(l, f) && l.slots[f].span >= need
    ensures p != f + HEADER && IsBlock(s, Allocated(l, f, need), p)
    ensures p + s.live[p] <= f || f + need <= p - HEADER
  {
    assert IsBlock(s, l, p) && SlotOk(l, p - HEADER);
    if f in l.slots { assert SlotOk(l, f); }
  }

  /** The state after a client got the block at f. */
  ghost function Took(s: State, f: nat, need: nat): State
    requires f + HEADER <= |s.h| && need >= HEADER
  {
    State(Taken(s.h, f, need), s.live[f + HEADER := need - HEADER])
  }

  /** An alloc step takes what `Find` finds, or changes nothing when the list is exhausted. */
  lemma StepTakes(s: State, l: Layout, size: nat, t: State)
    requires Good(s, l) && Step(s, Alloc(size), t) && Need(size) == size + HEADER
    ensures var f := Find(l, Need(size), 0);
            if f < |s.h| then f + HEADER <= |s.h| && t == Took(s, f, Need(size)) else t == s
  {
    GoodAllocEnds(s, l, size);
  }

  /** On a laid-out heap the alloc walk ends, whatever the size. */
  lemma GoodAllocEnds(s: State, l: Layout, size: nat)
    requires Good(s, l)
    ensures AllocEnds(s, size)
    ensures var f := Find(l, Need(size), 0); WalkFrom(s.h, Need(size), 0) == if f < |s.h| then Found(f) else Full
  {
    WalkFollows(s.h, l, Need(size), 0);
    if Find(l, Need(size), 0) < |s.h| { FoundHeader(s.h, l, Need(size)); }
  }

  lemma AllocGood(s: State, l: Layout, need: nat)
    requires Good(s, l) && need >= HEADER
    requires var f := Find(l, need, 0); f < |s.h| && Fits(l, |s.h|, f, need)
    ensures var f := Find(l, need, 0);
            && f + HEADER <= |s.h| && f + HEADER !in s.live
            && Good(Took(s, f, need), Allocated(l, f, need)) && PayloadsKept(s, Took(s, f, need))
  {
    var f := Find(l, need, 0);
    FittingFollows(s.h, l, need);
    FoundIsFree(l, need);
    TakenBlocks(s, l, f, need, Took(s, f, need));
  }

  lemma FoundIsFree(l: Layout, need: nat)
    requires Valid(l)
    ensures var f := Find(l, need, 0);
            Boundary(l, f) &&
            (f in l.slots ==> f < l.top && !l.slots[f].live && SpansFree(l, f) && l.slots[f].span >= need)
  {
    FindIsFirstFit(l, need, 0);
    var f := Find(l, need, 0);
    if f in l.slots { assert SlotOk(l, f); }
  }

  lemma TakenBlocks(s: State, l: Layout, f: nat, need: nat, t: State)
    requires Good(s, l) && Boundary(l, f) && (f < l.top ==> f + need <= l.top && Boundary(l, f + need))
    requires f in l.slots ==> f < l.top && !l.slots[f].live && SpansFree(l, f) && l.slots[f].span >= need
    requires f + HEADER <= |s.h| && need >= HEADER
    requires t == State(Taken(s.h, f, need), s.live[f + HEADER := need - HEADER])
    requires Valid(Allocated(l, f, need)) && Represents(t.h, Allocated(l, f, need))
    ensures Good(t, Allocated(l, f, need)) && f + HEADER !in s.live && PayloadsKept(s, t)
  {
    var m := Allocated(l, f, need);
    forall p | p in s.live
      ensures p != f + HEADER && IsBlock(t, m, p)
      ensures p + s.live[p] <= f || f + need <= p - HEADER
    {
      BlockStays(s, l, f, need, p);
    }
    assert IsBlock(t, m, f + HEADER);
    forall o | o in m.slots && m.slots[o].live ensures Held(t, m, o) {
      if o != f { assert Held(s, l, o); }
    }
  }

  lemma FreeGood(s: State, l: Layout, ptr: nat, t: State)
    requires Good(s, l) && Step(s, Free(ptr), t) && Freeable(s, ptr)
    ensures ptr - HEADER in l.slots && Good(t, Freed(l, ptr - HEADER)) && PayloadsKept(s, t)
  {
    var o := ptr - HEADER;
    assert IsBlock(s, l, ptr);
    FreeFollows(s.h, l, o);
    BlocksAfterFree(s, l, ptr, t);
  }

  lemma BlocksAfterFree(s: State, l: Layout, ptr: nat, t: State)
    requires Good(s, l) && ptr in s.live && ptr >= HEADER && ptr - HEADER in l.slots && t.live == s.live - {ptr}
    requires |t.h| == |s.h| && forall k | 0 <= k < |s.h| && !(ptr - HEADER <= k < ptr) :: t.h[k] == s.h[k]
    requires Valid(Freed(l, ptr - HEADER)) && Represents(t.h, Freed(l, ptr - HEADER))
    ensures Good(t, Freed(l, ptr - HEADER)) && PayloadsKept(s, t)
  {
    var o := ptr - HEADER;
    var m := Freed(l, o);
    forall p | p in t.live
      ensures IsBlock(t, m, p)
      ensures p + s.live[p] <= o || ptr <= p - HEADER
    {
      assert IsBlock(s, l, p) && SlotOk(l, p - HEADER) && SlotOk(l, o);
    }
    forall q | q in m.slots && m.slots[q].live ensures Held(t, m, q) {
      assert Held(s, l, q);
    }
  }

  /** No header lies in a payload. */
  lemma HeaderOutside(s: State, l: Layout, ptr: nat, o: nat)
    requires Good(s, l) && ptr in s.live && o in l.slots
    ensures o + HEADER <= ptr || ptr + s.live[ptr] <= o
  {
    assert IsBlock(s, l, ptr) && SlotOk(l, ptr - HEADER) && SlotOk(l, o);
  }

  lemma WriteGood(s: State, l: Layout, ptr: nat, t: State)
    requires Good(s, l) && Step(s, Write(ptr), t)
    ensures Good(t, l)
  {
    assert IsBlock(s, l, ptr) && SlotOk(l, ptr - HEADER);
    assert Represents(t.h, l) by {
      forall o | o in l.slots ensures HeaderOk(t.h, l, o) {
        HeaderOutside(s, l, ptr, o);
        assert HeaderOk(s.h, l, o);
        HeaderKept(s.h, l, t.h, l, o);
      }
    }
    forall p | p in t.live ensures IsBlock(t, l, p) {
      assert IsBlock(s, l, p);
    }
    forall o | o in l.slots && l.slots[o].live ensures Held(t, l, o) {
      assert Held(s, l, o);
    }
  }

  // ----- Any sizes ----------------------------------------------------------------------

  /** The chosen block is a reused block of just the right size, or the tail with room. */
  ghost predicate ExactFit(s: State, size: nat)
  {
    match WalkFrom(s.h, Need(size), 0)
    case Found(f) =>
      f + HEADER <= |s.h| &&
      var chunk := U32(s.h, f + 4);
      if chunk == 0 then f + size + HEADER == |s.h| || f + size + 2 * HEADER <= |s.h|
      else chunk == size + HEADER
    case _ => true
  }

  /** An exact fit is one for the size asked for. */
  lemma ExactFitNeed(s: State, size: nat, f: nat)
    requires WalkFrom(s.h, Need(size), 0) == Found(f) && ExactFit(s, size) && |s.h| < UINT
    ensures f + HEADER <= |s.h| && Need(size) == size + HEADER
    ensures var chunk := U32(s.h, f + 4);
      if chunk == 0 then f + Need(size) == |s.h| || f + Need(size) + HEADER <= |s.h| else chunk == Need(size)
  {
    U32Bound(s.h, f + 4);
    NeedFits(size);
  }

  lemma ExactFitFits(s: State, l: Layout, size: nat)
    requires Good(s, l) && ExactFit(s, size) && Find(l, Need(size), 0) < |s.h|
    ensures Need(size) == size + HEADER && Fits(l, |s.h|, Find(l, Need(size), 0), Need(size))
  {
    var need := Need(size);
    WalkFollows(s.h, l, need, 0);
    ExactFitNeed(s, size, Find(l, need, 0));
    FoundSize(s, l, need);
  }

  /** The size field at the block found: that of the free space, or zero at the tail. */
  lemma FoundSize(s: State, l: Layout, need: nat)
    requires Good(s, l) && Find(l, need, 0) < |s.h|
    ensures var f := Find(l, need, 0);
      && f + HEADER <= |s.h| && (f < l.top <==> f in l.slots)
      && (f in l.slots ==> U32(s.h, f + 4) == l.slots[f].span > 0 && Boundary(l, f + l.slots[f].span))
      && (f !in l.slots ==> U32(s.h, f + 4) == 0)
  {
    var f := Find(l, need, 0);
    FoundIsFree(l, need);
    if f in l.slots {
      assert SlotOk(l, f) && HeaderOk(s.h, l, f);
    } else {
      TopIsSentinel(s.h, l);
    }
  }

  /** Alloc handed out p, which nobody held. */
  ghost predicate NewBlock(s: State, t: State, size: nat, p: nat)
  {
    p !in s.live && t.live == s.live[p := size]
  }

  /** Alloc found nothing, or handed out a block nobody held. */
  ghost predicate GotNew(s: State, t: State, size: nat)
  {
    t == s || exists p: nat :: NewBlock(s, t, size, p)
  }

  /** The headers reachable from `mem_start` tile the used part of the heap. */
  ghost predicate Tiled(s: State)
  {
    exists l :: Good(s, l)
  }

  lemma TookGood(s: State, l: Layout, size: nat)
    requires Good(s, l) && ExactFit(s, size) && Find(l, Need(size), 0) < |s.h|
    ensures var f := Find(l, Need(size), 0);
      && Need(size) == size + HEADER && f + HEADER <= |s.h| && f + HEADER !in s.live
      && Good(Took(s, f, Need(size)), Allocated(l, f, Need(size))) && PayloadsKept(s, Took(s, f, Need(size)))
  {
    ExactFitFits(s, l, size);
    AllocGood(s, l, Need(size));
  }

  lemma TookNew(s: State, f: nat, size: nat)
    requires f + HEADER <= |s.h| && f + HEADER !in s.live && Need(size) == size + HEADER
    ensures GotNew(s, Took(s, f, Need(size)), size)
  {
    assert NewBlock(s, Took(s, f, Need(size)), size, f + HEADER);
  }

  /** An exact fit was found, and is what the step took. */
  lemma TiledTakes(s: State, l: Layout, size: nat, t: State)
    requires Good(s, l) && Step(s, Alloc(size), t) && ExactFit(s, size) && Find(l, Need(size), 0) < |s.h|
    ensures Good(t, Allocated(l, Find(l, Need(size), 0), Need(size))) && PayloadsKept(s, t) && GotNew(s, t, size)
  {
    TookGood(s, l, size);
    StepTakes(s, l, size, t);
    TookNew(s, Find(l, Need(size), 0), size);
  }

  lemma TiledAlloc(s: State, l: Layout, size: nat, t: State)
    requires Good(s, l) && Step(s, Alloc(size), t) && ExactFit(s, size)
    ensures Good(t, AfterAlloc(s, l, size)) && PayloadsKept(s, t) && GotNew(s, t, size)
  {
    if Find(l, Need(size), 0) < |s.h| {
      TiledTakes(s, l, size, t);
    } else {
      GoodAllocEnds(s, l, size);
    }
  }

  function AfterAlloc(s: State, l: Layout, size: nat): Layout
  {
    var f := Find(l, Need(size), 0);
    if f < |s.h| then Allocated(l, f, Need(size)) else l
  }

  lemma TiledStep(s: State, op: Op, t: State)
    requires Tiled(s) && Step(s, op, t) && (op.Alloc? ==> ExactFit(s, op.size)) && (op.Free? ==> Freeable(s, op.ptr))
    ensures Tiled(t)
    ensures !op.Write? ==> PayloadsKept(s, t)
    ensures op.Alloc? ==> GotNew(s, t, op.size)
  {
    var l :| Good(s, l);
    var m: Layout;
    match op {
      case Alloc(size) =>
        TiledAlloc(s, l, size, t);
        m := AfterAlloc(s, l, size);
      case Free(ptr) =>
        FreeGood(s, l, ptr, t);
        m := Freed(l, ptr - HEADER);
      case Write(ptr) =>
        WriteGood(s, l, ptr, t);
        m := l;
    }
  }

  /** Every alloc walk ends; live blocks are disjoint and lie in the heap. */
  ghost predicate Sound(s: State)
  {
    Tiled(s) && Disjoint(s) && forall size: nat {:trigger AllocEnds(s, size)} :: AllocEnds(s, size)
  }

  lemma TiledIsSound(s: State)
    requires Tiled(s)
    ensures Sound(s)
  {
    var l :| Good(s, l);
    GoodIsDisjoint(s, l);
    forall size: nat ensures AllocEnds(s, size) { GoodAllocEnds(s, l, size); }
  }

  /** What is asked of a call: an exact fit, and a free that ends. */
  ghost predicate FitAt(run: seq<State>, ops: seq<Op>, j: nat)
    requires j < |run| && j < |ops|
  {
    (ops[j].Alloc? ==> ExactFit(run[j], ops[j].size)) && (ops[j].Free? ==> Freeable(run[j], ops[j].ptr))
  }

  lemma {:induction false} AlwaysTiled(run: seq<State>, ops: seq<Op>, k: nat)
    requires IsRun(run, ops) && k < |run| && forall j | 0 <= j < k :: FitAt(run, ops, j)
    ensures Tiled(run[k])
    decreases k
  {
    if k == 0 {
      assert Good(run[0], Layout(map[], 0));
    } else {
      AlwaysTiled(run, ops, k - 1);
      assert FitAt(run, ops, k - 1);
      TiledStep(run[k - 1], ops[k - 1], run[k]);
    }
  }

  /**
   Blocks of any sizes, also when they fill the heap to its last byte: as long as reused blocks fit
   exactly and frees end, the headers tile the heap, every alloc walk ends, live blocks never overlap
   or leave the heap, a new block is none of the old ones, and no byte of a held block is touched.
   Which frees end is what `FreeFollows` says.
   */
  lemma ExactFitRunsAreSafe(run: seq<State>, ops: seq<Op>, k: nat)
    requires IsRun(run, ops) && k <= |ops| && forall j | 0 <= j < k :: FitAt(run, ops, j)
    ensures Sound(run[k])
    ensures k < |ops| && FitAt(run, ops, k) && !ops[k].Write? ==> PayloadsKept(run[k], run[k + 1])
    ensures k < |ops| && FitAt(run, ops, k) && ops[k].Alloc? ==> GotNew(run[k], run[k + 1], ops[k].size)
  {
    AlwaysTiled(run, ops, k);
    TiledIsSound(run[k]);
    if k < |ops| && FitAt(run, ops, k) { TiledStep(run[k], ops[k], run[k + 1]); }
  }

  // ----- Any sizes, with the tail never used up -----------------------------------------

  /** An exact fit that leaves room for one more header behind the tail. */
  ghost predicate RoomyFit(s: State, size: nat)
  {
    ExactFit(s, size) &&
    match WalkFrom(s.h, Need(size), 0)
    case Found(f) => U32(s.h, f + 4) == 0 ==> f + size + 2 * HEADER <= |s.h|
    case _ => true
  }

  /** Tiled, with the sentinel that ends the list still in the heap. */
  ghost predicate Roomy(s: State, l: Layout)
  {
    Good(s, l) && l.top + HEADER <= |s.h|
  }

  ghost predicate AllFreeable(s: State)
  {
    forall p {:trigger Freeable(s, p)} | p in s.live :: Freeable(s, p)
  }

  lemma RoomyIsFreeable(s: State, l: Layout)
    requires Roomy(s, l)
    ensures AllFreeable(s)
  {
    forall p | p in s.live ensures Freeable(s, p) {
      assert IsBlock(s, l, p);
      FreeFollows(s.h, l, p - HEADER);
      UnmarkedValid(l, p - HEADER);
      RunIsMaximal(Unmarked(l, p - HEADER), p - HEADER);
    }
  }

  lemma RoomyAlloc(s: State, l: Layout, size: nat, t: State) returns (m: Layout)
    requires Roomy(s, l) && Step(s, Alloc(size), t) && RoomyFit(s, size)
    ensures Roomy(t, m) && PayloadsKept(s, t) && GotNew(s, t, size)
  {
    TiledAlloc(s, l, size, t);
    m := AfterAlloc(s, l, size);
    RoomLeft(s, l, size);
    assert |t.h| == |s.h|;
  }

  lemma RoomLeft(s: State, l: Layout, size: nat)
    requires Roomy(s, l) && RoomyFit(s, size)
    ensures AfterAlloc(s, l, size).top + HEADER <= |s.h|
  {
    var need := Need(size);
    var f := Find(l, need, 0);
    WalkFollows(s.h, l, need, 0);
    if f < |s.h| {
      ExactFitNeed(s, size, f);
      FoundSize(s, l, need);
    }
  }

  lemma RoomyStep(s: State, l: Layout, op: Op, t: State) returns (m: Layout)
    requires Roomy(s, l) && Step(s, op, t) && (op.Alloc? ==> RoomyFit(s, op.size))
    ensures Roomy(t, m)
    ensures !op.Write? ==> PayloadsKept(s, t)
    ensures op.Alloc? ==> GotNew(s, t, op.size)
  {
    match op {
      case Alloc(size) =>
        m := RoomyAlloc(s, l, size, t);
      case Free(ptr) =>
        RoomyIsFreeable(s, l);
        assert Freeable(s, ptr);
        FreeGood(s, l, ptr, t);
        m := Freed(l, ptr - HEADER);
      case Write(ptr) =>
        WriteGood(s, l, ptr, t);
        m := l;
    }
  }

  lemma {:induction false} AlwaysRoomy(run: seq<State>, ops: seq<Op>, k: nat) returns (l: Layout)
    requires IsRun(run, ops) && k < |run| && |run[0].h| >= HEADER
    requires forall j | 0 <= j < k && ops[j].Alloc? :: RoomyFit(run[j], ops[j].size)
    ensures Roomy(run[k], l)
    decreases k
  {
    if k == 0 {
      l := Layout(map[], 0);
    } else {
      l := AlwaysRoomy(run, ops, k - 1);
      l := RoomyStep(run[k - 1], l, ops[k - 1], run[k]);
    }
  }

  /**
   Blocks of any sizes: as long as reused blocks fit exactly and the tail keeps room for a header, no
   call ever fails to end: every alloc walk ends and every held block can be freed. The headers tile
   the heap, live blocks never overlap or leave it, new blocks are new and held bytes untouched.
   */
  lemma RoomyRunsAreSafe(run: seq<State>, ops: seq<Op>, k: nat)
    requires IsRun(run, ops) && k <= |ops| && |run[0].h| >= HEADER
    requires forall j | 0 <= j <= k && j < |ops| && ops[j].Alloc? :: RoomyFit(run[j], ops[j].size)
    ensures Sound(run[k]) && AllFreeable(run[k])
    ensures k < |ops| && !ops[k].Write? ==> PayloadsKept(run[k], run[k + 1])
    ensures k < |ops| && ops[k].Alloc? ==> GotNew(run[k], run[k + 1], ops[k].size)
  {
    var l := AlwaysRoomy(run, ops, k);
    TiledIsSound(run[k]);
    RoomyIsFreeable(run[k], l);
    if k < |ops| { var _ := RoomyStep(run[k], l, ops[k], run[k + 1]); }
  }

  /** The tail is not checked against `mem_end`: exactly then a block sticks out of the heap. */
  lemma BlockInHeap(s: State, l: Layout, size: nat)
    requires Good(s, l) && WalkFrom(s.h, Need(size), 0).Found?
    ensures var f := WalkFrom(s.h, Need(size), 0).at;
            f + size + HEADER <= |s.h| <==> (f < l.top && size + HEADER < UINT) || size + HEADER <= |s.h| - l.top
  {
    WalkFollows(s.h, l, Need(size), 0);
    FindIsFirstFit(l, Need(size), 0);
    var f := WalkFrom(s.h, Need(size), 0).at;
    if f in l.slots { assert SlotOk(l, f); }
  }

  // ----- One size -----------------------------------------------------------------------

  /** All boundaries are multiples of the block size, and a block's worth is still untouched. */
  ghost predicate Uniform(s: State, l: Layout, block: nat)
    requires block > 0
  {
    && Good(s, l)
    && l.top % block == 0 && l.top + block <= |s.h|
    && forall o {:trigger OneBlock(l, block, o)} | o in l.slots :: OneBlock(l, block, o)
  }

  predicate OneBlock(l: Layout, block: nat, o: nat)
    requires block > 0 && o in l.slots
  {
    l.slots[o].next == o + block && o % block == 0
  }

  lemma {:induction false} EveryMultiple(s: State, l: Layout, block: nat, k: nat)
    requires block > 0 && Uniform(s, l, block) && k * block <= l.top
    ensures Boundary(l, k * block)
  {
    if k > 0 {
      MulDistribute(k - 1, 1, block);
      MulNonNegative(k - 1, block);
      var o := (k - 1) * block;
      EveryMultiple(s, l, block, k - 1);
      assert SlotOk(l, o) && OneBlock(l, block, o);
    }
  }

  lemma {:induction false} ManyLive(live: map<nat, nat>, block: nat, k: nat)
    requires block > 0 && forall j: nat | j < k :: j * block + HEADER in live
    ensures |live| >= k
  {
    if k > 0 {
      var p := (k - 1) * block + HEADER;
      forall j: nat | j < k - 1 ensures j * block + HEADER in live - {p} {
        MulMonotone(j + 1, k - 1, block);
        MulDistribute(j, 1, block);
      }
      ManyLive(live - {p}, block, k - 1);
      assert (live - {p}).Keys == live.Keys - {p};
      assert |live.Keys - {p}| == |live.Keys| - 1;
    }
  }

  /** The slot index of the block the allocator must return: the lowest one not live. */
  ghost predicate LowestFree(s: State, block: nat, k: nat)
  {
    k * block + HEADER !in s.live && forall j: nat | j < k :: j * block + HEADER in s.live
  }

  lemma BelowFoundIsLive(s: State, l: Layout, block: nat, f: nat, j: nat)
    requires block >= HEADER && Uniform(s, l, block) && j * block < f <= l.top
    requires forall o | o in l.slots && o < f && !l.slots[o].live :: l.slots[o].span < block
    ensures j * block + HEADER in s.live
  {
    EveryMultiple(s, l, block, j);
    var o := j * block;
    assert SlotOk(l, o) && OneBlock(l, block, o);
    assert l.slots[o].live;
    assert Held(s, l, o);
  }

  lemma FoundDivides(s: State, l: Layout, block: nat)
    requires block >= HEADER && Uniform(s, l, block)
    ensures var f := Find(l, block, 0);
            f % block == 0 && f <= l.top && f + HEADER !in s.live && (f in l.slots ==> f + block <= l.top)
  {
    var f := Find(l, block, 0);
    FindIsFirstFit(l, block, 0);
    if f in l.slots { assert OneBlock(l, block, f) && SlotOk(l, f); }
    if f + HEADER in s.live {
      BlockOf(s, l, f + HEADER);
    }
  }

  lemma FoundIsMultiple(s: State, l: Layout, block: nat) returns (k: nat)
    requires block >= HEADER && Uniform(s, l, block)
    ensures Find(l, block, 0) == k * block <= l.top && k * block + HEADER !in s.live && Find(l, block, 0) % block == 0
    ensures Boundary(l, k * block)
    ensures k * block < l.top ==> (k + 1) * block <= l.top && Boundary(l, (k + 1) * block)
  {
    FoundDivides(s, l, block);
    FindIsFirstFit(l, block, 0);
    k := Quotient(Find(l, block, 0), block);
    MulDistribute(k, 1, block);
    if k * block in l.slots { assert OneBlock(l, block, k * block) && SlotOk(l, k * block); }
  }

  lemma Quotient(f: nat, block: nat) returns (k: nat)
    requires block > 0 && f % block == 0
    ensures f == k * block
  {
    k := f / block;
    DivMod(f, block);
  }

  lemma FoundIsLowest(s: State, l: Layout, block: nat) returns (k: nat)
    requires block >= HEADER && Uniform(s, l, block)
    ensures Find(l, block, 0) == k * block <= l.top && LowestFree(s, block, k) && |s.live| >= k
    ensures Find(l, block, 0) % block == 0
    ensures Boundary(l, k * block)
    ensures k * block < l.top ==> (k + 1) * block <= l.top && Boundary(l, (k + 1) * block)
  {
    k := FoundIsMultiple(s, l, block);
    FindIsFirstFit(l, block, 0);
    forall j: nat | j < k ensures j * block + HEADER in s.live {
      MulMonotone(j + 1, k, block);
      MulDistribute(j, 1, block);
      BelowFoundIsLive(s, l, block, k * block, j);
    }
    ManyLive(s.live, block, k);
  }

  /** With at most n - 2 blocks live before, the block found fits and leaves the last slot. */
  lemma UniformFits(s: State, l: Layout, block: nat, n: nat) returns (k: nat)
    requires block >= HEADER && Uniform(s, l, block) && |s.h| == n * block && |s.live| <= n - 2
    ensures Find(l, block, 0) == k * block && LowestFree(s, block, k) && k < n - 1 && Find(l, block, 0) % block == 0
    ensures k * block < |s.h| && Fits(l, |s.h|, k * block, block) && Boundary(l, k * block)
    ensures k * block + 2 * block <= |s.h|
  {
    k := FoundIsLowest(s, l, block);
    MulMonotone(k + 2, n, block);
    MulDistribute(k, 2, block);
    MulDistribute(k, 1, block);
  }

  lemma AllocatedUniform(l: Layout, block: nat, f: nat)
    requires block >= HEADER && f % block == 0 && Boundary(l, f) && l.top % block == 0
    requires forall o {:trigger OneBlock(l, block, o)} | o in l.slots :: OneBlock(l, block, o)
    ensures var m := Allocated(l, f, block);
            && m.top % block == 0
            && forall o {:trigger OneBlock(m, block, o)} | o in m.slots :: OneBlock(m, block, o)
  {
    var m := Allocated(l, f, block);
    var k := Quotient(f, block);
    MulDistribute(k, 1, block);
    DivModUnique(k + 1, block, 0);
    forall o | o in m.slots ensures OneBlock(m, block, o) {
      if o != f { assert OneBlock(l, block, o); }
    }
  }

  /** Slot i was the lowest free one, is not the last one, and is what alloc returned. */
  ghost predicate TookLowest(s: State, t: State, block: nat, n: nat, i: nat)
  {
    && block >= HEADER && LowestFree(s, block, i) && i < n - 1
    && t.live == s.live[i * block + HEADER := block - HEADER]
  }

  /** Alloc with the one size: the lowest free slot, split out of coalesced space if need be. */
  lemma UniformAlloc(s: State, l: Layout, block: nat, n: nat) returns (m: Layout, k: nat)
    requires block >= HEADER && Uniform(s, l, block) && |s.h| == n * block && |s.live| <= n - 2
    ensures Find(l, block, 0) == k * block < |s.h| && k * block + HEADER <= |s.h|
    ensures Uniform(Took(s, k * block, block), m, block)
    ensures TookLowest(s, Took(s, k * block, block), block, n, k)
    ensures PayloadsKept(s, Took(s, k * block, block))
  {
    k := UniformFits(s, l, block, n);
    var f := Find(l, block, 0);
    m := Allocated(l, f, block);
    AllocGood(s, l, block);
    UniformAfter(l, block, f, Took(s, f, block));
  }

  lemma UniformAfter(l: Layout, block: nat, f: nat, t: State)
    requires block >= HEADER && f % block == 0 && Boundary(l, f) && l.top % block == 0
    requires forall o {:trigger OneBlock(l, block, o)} | o in l.slots :: OneBlock(l, block, o)
    requires Good(t, Allocated(l, f, block)) && f + 2 * block <= |t.h| && l.top + block <= |t.h|
    ensures Uniform(t, Allocated(l, f, block), block)
  {
    AllocatedUniform(l, block, f);
  }

  /** The clients' limit on live blocks, seen before the step. */
  lemma OneMoreLive(s: State, l: Layout, block: nat, n: nat, size: nat, t: State)
    requires block == size + HEADER && Uniform(s, l, block) && Step(s, Alloc(size), t) && |t.live| <= n - 1
    ensures |s.live| <= n - 2
  {
    var k := FoundIsLowest(s, l, block);
    StepTakes(s, l, size, t);
    Grows(s.live, k * block + HEADER, size);
  }

  lemma Grows(live: map<nat, nat>, p: nat, size: nat)
    requires p !in live
    ensures |live[p := size]| == |live| + 1
  {
    assert live[p := size].Keys == live.Keys + {p};
  }

  /** Free never runs off the heap, because the last slot is never handed out. */
  lemma UniformFree(s: State, l: Layout, block: nat, ptr: nat) returns (m: Layout)
    requires block >= HEADER && Uniform(s, l, block) && ptr in s.live
    ensures ptr >= HEADER && CanFree(s.h, ptr - HEADER)
    ensures Uniform(State(Released(s.h, ptr - HEADER), s.live - {ptr}), m, block)
    ensures PayloadsKept(s, State(Released(s.h, ptr - HEADER), s.live - {ptr}))
  {
    var o := ptr - HEADER;
    assert IsBlock(s, l, ptr);
    FreeFollows(s.h, l, o);
    UnmarkedValid(l, o);
    RunIsMaximal(Unmarked(l, o), o);
    FreeGood(s, l, ptr, State(Released(s.h, o), s.live - {ptr}));
    m := Freed(l, o);
    forall p | p in m.slots ensures OneBlock(m, block, p) {
      assert OneBlock(l, block, p);
    }
  }

  lemma UniformStart(s: State, block: nat, n: nat) returns (l: Layout)
    requires block >= HEADER && n > 0 && |s.h| == n * block < UINT && s.live == map[]
    requires forall k | 0 <= k < |s.h| :: s.h[k] == 0
    ensures Uniform(s, l, block)
  {
    l := Layout(map[], 0);
    MulMonotone(1, n, block);
  }

  /** A heap of n slots of the one size, in some state of use. */
  ghost predicate Laid(s: State, block: nat, n: nat)
  {
    block >= HEADER && |s.h| == n * block && exists l :: Uniform(s, l, block)
  }

  /** The clients' requests are all of the one size, and leave a slot unused. */
  predicate OneSize(op: Op, t: State, block: nat, n: nat)
  {
    |t.live| <= n - 1 && (op.Alloc? ==> op.size + HEADER == block)
  }

  /** Alloc took the lowest free slot, and no held byte was touched. */
  ghost predicate SafeStep(s: State, op: Op, t: State, block: nat, n: nat)
  {
    && (op.Alloc? ==> GotLowest(s, t, block, n))
    && (op.Write? || PayloadsKept(s, t))
  }

  ghost predicate GotLowest(s: State, t: State, block: nat, n: nat)
  {
    exists i: nat :: TookLowest(s, t, block, n, i)
  }

  /** An alloc of the one size takes what is found, and there was a slot to spare. */
  lemma UniformTakes(s: State, l: Layout, block: nat, n: nat, size: nat, t: State)
    requires block == size + HEADER && Uniform(s, l, block) && |s.h| == n * block
    requires Step(s, Alloc(size), t) && |t.live| <= n - 1
    ensures |s.live| <= n - 2
    ensures var f := Find(l, block, 0); if f < |s.h| then f + HEADER <= |s.h| && t == Took(s, f, block) else t == s
  {
    OneMoreLive(s, l, block, n, size, t);
    StepTakes(s, l, size, t);
  }

  lemma LaidAlloc(s: State, l: Layout, block: nat, n: nat, size: nat, t: State)
    requires block == size + HEADER && Uniform(s, l, block) && |s.h| == n * block
    requires Step(s, Alloc(size), t) && |t.live| <= n - 1
    ensures Laid(t, block, n) && GotLowest(s, t, block, n) && PayloadsKept(s, t)
  {
    UniformTakes(s, l, block, n, size, t);
    var m, i := UniformAlloc(s, l, block, n);
    LaidAfter(s, t, m, block, n, i);
  }

  lemma LaidAfter(s: State, t: State, m: Layout, block: nat, n: nat, i: nat)
    requires block >= HEADER && |t.h| == n * block && Uniform(t, m, block) && TookLowest(s, t, block, n, i)
    ensures Laid(t, block, n) && GotLowest(s, t, block, n)
  {
  }

  lemma LaidStep(s: State, block: nat, n: nat, op: Op, t: State)
    requires Laid(s, block, n) && Step(s, op, t) && OneSize(op, t, block, n)
    ensures Laid(t, block, n) && SafeStep(s, op, t, block, n)
  {
    var l :| Uniform(s, l, block);
    match op
    case Alloc(size) =>
      LaidAlloc(s, l, block, n, size, t);
    case Free(ptr) =>
      var m := UniformFree(s, l, block, ptr);
      assert Freeable(s, ptr);
    case Write(ptr) =>
      WriteGood(s, l, ptr, t);
      assert Uniform(t, l, block);
  }

  lemma LaidIsSafe(s: State, block: nat, n: nat)
    requires Laid(s, block, n)
    ensures Sound(s) && AllFreeable(s)
  {
    var l :| Uniform(s, l, block);
    assert Good(s, l);
    TiledIsSound(s);
    forall p | p in s.live ensures Freeable(s, p) {
      var _ := UniformFree(s, l, block, p);
    }
  }

  /** Every request in the run has the one size, and at most n - 1 blocks are ever live. */
  ghost predicate UniformRun(run: seq<State>, ops: seq<Op>, block: nat, n: nat)
  {
    && IsRun(run, ops) && n > 0 && block >= HEADER && |run[0].h| == n * block
    && forall k | 0 <= k < |ops| :: OneSize(ops[k], run[k + 1], block, n)
  }

  lemma {:induction false} AlwaysLaid(run: seq<State>, ops: seq<Op>, block: nat, n: nat, k: nat)
    requires UniformRun(run, ops, block, n) && k < |run|
    ensures Laid(run[k], block, n)
    decreases k
  {
    if k == 0 {
      var l := UniformStart(run[0], block, n);
    } else {
      AlwaysLaid(run, ops, block, n, k - 1);
      LaidStep(run[k - 1], block, n, ops[k - 1], run[k]);
    }
  }

  /**
   One request size: under any interleaving of alloc, free and writes with at most n - 1
   of n slots live, every walk ends, alloc returns the lowest free slot, every held block can be
   freed, and no live payload is ever touched or shared - although freed blocks coalesce and are
   split again.
   */
  lemma UniformRunsAreSafe(run: seq<State>, ops: seq<Op>, block: nat, n: nat, k: nat)
    requires UniformRun(run, ops, block, n) && k <= |ops|
    ensures Sound(run[k]) && AllFreeable(run[k])
    ensures k < |ops| ==> SafeStep(run[k], ops[k], run[k + 1], block, n)
  {
    AlwaysLaid(run, ops, block, n, k);
    LaidIsSafe(run[k], block, n);
    if k < |ops| { LaidStep(run[k], block, n, ops[k], run[k + 1]); }
  }

  // ----- Where it goes wrong --------------------------------------------------------------

  /** A call that ends. */
  ghost predicate Ends(s: State, op: Op, t: State)
  {
    Step(s, op, t) && (op.Alloc? ==> AllocEnds(s, op.size)) && (op.Free? ==> Freeable(s, op.ptr))
  }

  /** On a heap of 16 bytes a request for 16 is granted: its block ends 8 bytes behind the heap. */
  lemma BlockSticksOut(h: seq<Byte>)
    requires |h| == 16 && forall k | 0 <= k < 16 :: h[k] == 0
    ensures var t := State(Taken(h, 0, 24), map[8 := 16]);
      Ends(State(h, map[]), Alloc(16), t) && !Disjoint(t) && 8 + t.live[8] == |t.h| + 8
  {
    U32Zero(h, 0);
    U32Zero(h, 4);
    AllocStep(h, map[], 16, 0);
    assert 8 in State(Taken(h, 0, 24), map[8 := 16]).live;
  }

  /**
   A request for 2 to the 32 less 8 bytes needs none once its header is counted: it is granted a block
   without size, at which every later walk stays for ever.
   */
  lemma HugeRequestStopsHeap(h: seq<Byte>)
    requires HEADER <= |h| < UINT && forall k | 0 <= k < |h| :: h[k] == 0
    ensures var t := State(Taken(h, 0, 0), map[8 := UINT - HEADER]);
      && Ends(State(h, map[]), Alloc(UINT - HEADER), t) && !Disjoint(t)
      && forall size: nat {:trigger AllocEnds(t, size)} :: !AllocEnds(t, size)
  {
    U32Zero(h, 0);
    U32Zero(h, 4);
    assert Need(UINT - HEADER) == 0;
    AllocStep(h, map[], UINT - HEADER, 0);
    var t := State(Taken(h, 0, 0), map[8 := UINT - HEADER]);
    assert 8 in t.live;
    forall size: nat ensures !AllocEnds(t, size) { assert WalkFrom(t.h, Need(size), 0) == Stuck; }
  }

  /** On a heap of 16 bytes a request for 8 fills it; freeing that block walks off the end. */
  lemma FullHeapCannotFree(h: seq<Byte>)
    requires |h| == 16 && forall k | 0 <= k < 16 :: h[k] == 0
    ensures var t := State(Taken(h, 0, 16), map[8 := 8]);
      Ends(State(h, map[]), Alloc(8), t) && ExactFit(State(h, map[]), 8) && Disjoint(t) && !Freeable(t, 8)
  {
    U32Zero(h, 0);
    U32Zero(h, 4);
    AllocStep(h, map[], 8, 0);
    var g := Taken(h, 0, 16);
    var u := PutU32(g, 0, 0);
    U32Same(g, u, 4);
    assert RunFrom(u, 16) == Stuck;
    assert RunFrom(u, 0) == RunFrom(u, 16);
  }

  lemma U32Same(h: seq<Byte>, g: seq<Byte>, o: nat)
    requires o + 4 <= |h| == |g| && forall k | o <= k < o + 4 :: g[k] == h[k]
    ensures U32(g, o) == U32(h, o)
  {
  }

  lemma U32Zero(h: seq<Byte>, o: nat)
    requires o + 4 <= |h| && forall k | o <= k < o + 4 :: h[k] == 0
    ensures U32(h, o) == 0
  {
  }

  /** Blocks of 16 and 8 bytes, then the first one is freed. */
  lemma TwoBlocksOneFreed(h0: seq<Byte>) returns (h3: seq<Byte>)
    requires |h0| == 48 && forall k | 0 <= k < 48 :: h0[k] == 0
    ensures WalkFrom(h0, 24, 0) == Found(0) && WalkFrom(Taken(h0, 0, 24), 16, 0) == Found(24)
    ensures var h2 := Taken(Taken(h0, 0, 24), 24, 16); CanFree(h2, 0) && h3 == Released(h2, 0)
    ensures |h3| == 48 && U32(h3, 0) == 0 && U32(h3, 4) == 24
    ensures forall k | 8 <= k < 24 :: h3[k] == 0
  {
    U32Zero(h0, 0);
    U32Zero(h0, 4);
    var h1 := Taken(h0, 0, 24);
    U32Zero(h1, 24);
    U32Zero(h1, 28);
    assert WalkFrom(h1, 16, 24) == Found(24);
    var h2 := Taken(h1, 24, 16);
    U32Same(h1, h2, 4);
    var u := PutU32(h2, 0, 0);
    U32Same(h2, u, 4);
    U32Same(h2, u, 24);
    assert RunFrom(u, 24) == Found(24);
    assert RunFrom(u, 0) == Found(24);
    h3 := Released(h2, 0);
    U32Same(u, h3, 0);
  }

  /**
   A larger free block is reused without being split: of a 24-byte block only 16 bytes are
   taken, the walk then reads the former payload as a header, and the next request gets
   memory that belongs to the second, live block.
   */
  lemma LargerReuseOverlaps(h0: seq<Byte>) returns (s1: State, s2: State, s3: State, s4: State, s5: State)
    requires |h0| == 48 && forall k | 0 <= k < 48 :: h0[k] == 0
    ensures Ends(State(h0, map[]), Alloc(16), s1) && Ends(s1, Alloc(8), s2) && Ends(s2, Free(8), s3)
    ensures Ends(s3, Alloc(8), s4) && Ends(s4, Alloc(8), s5)
    ensures ExactFit(State(h0, map[]), 16) && ExactFit(s1, 8) && !ExactFit(s3, 8) && ExactFit(s4, 8)
    ensures Disjoint(s4) && !Disjoint(s5)
  {
    s1, s2, s3 := FirstSteps(h0);
    s4, s5 := LastSteps(s3);
  }

  lemma FirstSteps(h0: seq<Byte>) returns (s1: State, s2: State, s3: State)
    requires |h0| == 48 && forall k | 0 <= k < 48 :: h0[k] == 0
    ensures Ends(State(h0, map[]), Alloc(16), s1) && Ends(s1, Alloc(8), s2) && Ends(s2, Free(8), s3)
    ensures ExactFit(State(h0, map[]), 16) && ExactFit(s1, 8)
    ensures |s3.h| == 48 && U32(s3.h, 0) == 0 && U32(s3.h, 4) == 24 && s3.live == map[32 := 8]
    ensures forall k | 8 <= k < 24 :: s3.h[k] == 0
  {
    s1 := State(Taken(h0, 0, 24), map[8 := 16]);
    s2 := State(Taken(s1.h, 24, 16), map[8 := 16, 32 := 8]);
    var h3 := TwoBlocksOneFreed(h0);
    s3 := State(h3, map[32 := 8]);
    AllocStep(h0, map[], 16, 0);
    AllocStep(s1.h, s1.live, 8, 24);
    FreeStep(s2, 8, s3);
    TailFits(State(h0, map[]), 16, 0);
    TailFits(s1, 8, 24);
  }

  lemma LastSteps(s3: State) returns (s4: State, s5: State)
    requires |s3.h| == 48 && U32(s3.h, 0) == 0 && U32(s3.h, 4) == 24 && s3.live == map[32 := 8]
    requires forall k | 8 <= k < 24 :: s3.h[k] == 0
    ensures Ends(s3, Alloc(8), s4) && Ends(s4, Alloc(8), s5)
    ensures !ExactFit(s3, 8) && ExactFit(s4, 8)
    ensures Disjoint(s4) && !Disjoint(s5)
  {
    SecondReuse(s3.h);
    s4 := State(Taken(s3.h, 0, 16), map[32 := 8, 8 := 8]);
    s5 := State(Taken(s4.h, 16, 16), map[32 := 8, 8 := 8, 24 := 8]);
    AllocStep(s3.h, s3.live, 8, 0);
    AllocStep(s4.h, s4.live, 8, 16);
    TailFits(s4, 8, 16);
    NotExact(s3, 8);
    assert 24 in s5.live && 32 in s5.live;
  }

  lemma FreeStep(s: State, ptr: nat, t: State)
    requires ptr in s.live && ptr >= HEADER && CanFree(s.h, ptr - HEADER)
    requires t.h == Released(s.h, ptr - HEADER) && t.live == s.live - {ptr}
    ensures Ends(s, Free(ptr), t)
  {
  }

  lemma NotExact(s: State, size: nat)
    requires WalkFrom(s.h, Need(size), 0) == Found(0) && HEADER <= |s.h|
    requires U32(s.h, 4) != 0 && U32(s.h, 4) != size + HEADER
    ensures !ExactFit(s, size)
  {
  }

  lemma TailFits(s: State, size: nat, f: nat)
    requires WalkFrom(s.h, Need(size), 0) == Found(f) && f + size + 2 * HEADER <= |s.h|
    requires forall k | f <= k < f + HEADER :: s.h[k] == 0
    ensures ExactFit(s, size)
  {
    U32Zero(s.h, f + 4);
  }

  lemma AllocStep(h: seq<Byte>, live: map<nat, nat>, size: nat, f: nat)
    requires WalkFrom(h, Need(size), 0) == Found(f) && f + HEADER <= |h|
    ensures Ends(State(h, live), Alloc(size), State(Taken(h, f, Need(size)), live[f + HEADER := size]))
  {
  }

  lemma SecondReuse(h3: seq<Byte>)
    requires |h3| == 48 && U32(h3, 0) == 0 && U32(h3, 4) == 24 && forall k | 8 <= k < 24 :: h3[k] == 0
    ensures WalkFrom(h3, 16, 0) == Found(0)
    ensures var h4 := Taken(h3, 0, 16);
            && WalkFrom(h4, 16, 0) == Found(16) && U32(h4, 20) == 0
  {
    var h4 := Taken(h3, 0, 16);
    U32Zero(h4, 16);
    U32Zero(h4, 20);
    assert WalkFrom(h4, 16, 16) == Found(16);
  }
}
