/**
 The region table together with the bytes of the heap it allocates from: whatever hosts allocate,
 attach, release and write, regions of different names never share memory.
 */
module ShmRuns {
  import H = HeapRuns
  import HeapLayout
  import Memman
  import T = ShmTable

  /** `base` is where the heap's first byte lies for the host. */
  datatype State = State(tab: T.State, heap: H.State, base: nat)

  datatype Op = Alloc(name: T.Chars, size: nat) | Attach(name: T.Chars) | Release(name: T.Chars) | Write(name: T.Chars)

  function Region(s: State, name: T.Chars): (k: nat)
    ensures k <= |s.tab.t|
  {
    T.Lookup(s.tab.t, T.Str(name), 0)
  }

  /** The call gets as far as asking memman for memory. */
  predicate Asks(s: State, name: T.Chars, size: nat)
  {
    size > 0 && Region(s, name) == |s.tab.t| && T.FreeSlot(s.tab.t, 0) < |s.tab.t|
  }

  /** The address memman answers with, 0 for none. */
  function Answer(s: State, size: nat): nat
  {
    match Memman.WalkFrom(s.heap.h, Memman.Need(size), 0)
    case Found(f) => s.base + f + Memman.HEADER
    case _ => 0
  }

  /** What each call does, and what the holders of a region may do to its bytes. */
  ghost predicate Step(s: State, op: Op, s': State)
  {
    && T.GoodName(op.name) && s'.base == s.base
    && var k := Region(s, op.name);
       match op
       case Alloc(name, size) =>
         if Asks(s, name, size) then
           && H.Step(s.heap, H.Alloc(size), s'.heap)
           && s'.tab == T.AllocAt(s.tab, T.FreeSlot(s.tab.t, 0), name, size, Answer(s, size))
         else s' == s
       case Attach(_) => s' == if k < |s.tab.t| then s.(tab := T.AttachAt(s.tab, k)) else s
       case Release(_) =>
         if k < |s.tab.t| then
           && s'.tab == T.ReleaseAt(s.tab, k)
           && if s.tab.t[k].refcnt == 1 then
                s.tab.t[k].addr >= s.base && H.Step(s.heap, H.Free(s.tab.t[k].addr - s.base), s'.heap)
              else s'.heap == s.heap
         else s' == s
       case Write(_) =>
         && k < |s.tab.t| && s'.tab == s.tab
         && s.tab.t[k].addr >= s.base && H.Step(s.heap, H.Write(s.tab.t[k].addr - s.base), s'.heap)
  }

  /** What is asked of a call: a fit that leaves room, and a counter that does not wrap. */
  ghost predicate Fit(s: State, op: Op)
  {
    && (op.Alloc? && Asks(s, op.name, op.size) ==> H.RoomyFit(s.heap, op.size))
    && (op.Attach? ==> T.Count(s.tab.t, T.Str(op.name)) < T.UINT - 1)
  }

  /** Region i has a block of its size in the heap. */
  ghost predicate Held(s: State, i: nat)
  {
    i < |s.tab.t| && s.tab.t[i].valid == 1 ==>
      var r := s.tab.t[i];
      r.addr >= s.base && r.addr - s.base in s.heap.live && s.heap.live[r.addr - s.base] == r.size
  }

  ghost predicate InTable(s: State, p: nat)
  {
    p in s.heap.live ==> s.base + p in s.tab.live
  }

  ghost predicate FromHeap(s: State, a: nat)
  {
    a in s.tab.live ==> a >= s.base && a - s.base in s.heap.live
  }

  /** The table's live blocks are the heap's. */
  ghost predicate BlocksMatch(s: State)
  {
    (forall p {:trigger InTable(s, p)} :: InTable(s, p)) && forall a {:trigger FromHeap(s, a)} :: FromHeap(s, a)
  }

  ghost predicate Linked(s: State)
  {
    s.base > 0 && BlocksMatch(s) && forall i {:trigger Held(s, i)} :: Held(s, i)
  }

  ghost predicate Good(s: State, l: HeapLayout.Layout)
  {
    T.Inv(s.tab) && H.Roomy(s.heap, l) && Linked(s)
  }

  ghost predicate Apart(s: State, i: nat, j: nat)
  {
    i < |s.tab.t| && j < |s.tab.t| && i != j && s.tab.t[i].valid == 1 && s.tab.t[j].valid == 1 ==>
      var q, r := s.tab.t[i], s.tab.t[j];
      q.addr + q.size <= r.addr || r.addr + r.size <= q.addr
  }

  ghost predicate InHeap(s: State, i: nat)
  {
    i < |s.tab.t| && s.tab.t[i].valid == 1 ==>
      s.base <= s.tab.t[i].addr && s.tab.t[i].addr + s.tab.t[i].size <= s.base + |s.heap.h|
  }

  /** Regions lie in the heap and share no byte. */
  ghost predicate RegionsApart(s: State)
  {
    (forall i {:trigger InHeap(s, i)} :: InHeap(s, i)) && forall i, j {:trigger Apart(s, i, j)} :: Apart(s, i, j)
  }

  /** Byte x of region i is what it was, if the region is still there and this call does not write it. */
  ghost predicate ByteKept(s: State, op: Op, s': State, i: nat, x: nat)
  {
    && i < |s.tab.t| == |s'.tab.t| && s.tab.t[i].valid == 1 && s'.tab.t[i].valid == 1
    && s.tab.t[i].addr <= x < s.tab.t[i].addr + s.tab.t[i].size && (op.Write? ==> i != Region(s, op.name)) ==>
      var k := x - s.base;
      0 <= k < |s.heap.h| == |s'.heap.h| && s'.heap.h[k] == s.heap.h[k] && s'.tab.t[i].addr == s.tab.t[i].addr
  }

  lemma LinkedIsApart(s: State, l: HeapLayout.Layout)
    requires Good(s, l)
    ensures RegionsApart(s)
  {
    H.GoodIsDisjoint(s.heap, l);
    forall i: nat ensures InHeap(s, i) { assert Held(s, i); }
    forall i: nat, j: nat ensures Apart(s, i, j) {
      assert Held(s, i) && Held(s, j) && T.Distinct(s.tab.t, i, j);
    }
  }

  // ----- The calls ---------------------------------------------------------------------

  /** What memman does when asked: a new block, or nothing. */
  lemma HeapAnswers(s: State, l: HeapLayout.Layout, size: nat, heap': H.State)
    requires s.base > 0 && H.Good(s.heap, l) && H.Step(s.heap, H.Alloc(size), heap') && H.RoomyFit(s.heap, size)
    ensures var a := Answer(s, size);
      if a == 0 then heap' == s.heap
      else a > s.base && a - s.base !in s.heap.live && heap'.live == s.heap.live[a - s.base := size]
  {
    H.GoodAllocEnds(s.heap, l, size);
    if HeapLayout.Find(l, Memman.Need(size), 0) < |s.heap.h| { H.TookGood(s.heap, l, size); }
  }

  lemma AllocLinks(s: State, l: HeapLayout.Layout, name: T.Chars, size: nat, s': State) returns (m: HeapLayout.Layout)
    requires Good(s, l) && Step(s, Alloc(name, size), s') && Fit(s, Alloc(name, size))
    ensures Good(s', m) && H.PayloadsKept(s.heap, s'.heap)
  {
    if Asks(s, name, size) {
      HeapAnswers(s, l, size, s'.heap);
      m := H.RoomyStep(s.heap, l, H.Alloc(size), s'.heap);
      var a, i := Answer(s, size), T.FreeSlot(s.tab.t, 0);
      assert FromHeap(s, a);
      T.AllocKeeps(s.tab, i, name, size, a);
      AllocLinked(s, name, size, i, a, s');
    } else {
      m := l;
    }
  }

  lemma AllocLinked(s: State, name: T.Chars, size: nat, i: nat, a: nat, s': State)
    requires Linked(s) && T.Inv(s.tab) && s'.base == s.base && i < |s.tab.t| && s.tab.t[i].valid == 0
    requires s'.tab == T.AllocAt(s.tab, i, name, size, a)
    requires if a == 0 then s'.heap.live == s.heap.live
             else a > s.base && a - s.base !in s.heap.live && s'.heap.live == s.heap.live[a - s.base := size]
    ensures Linked(s')
  {
    forall k: nat ensures Held(s', k) { HeldAfterAlloc(s, name, size, i, a, s', k); }
    if a != 0 { OneMoreBlock(s, a, size, s'); } else { SameBlocks(s, s'); }
  }

  lemma HeldAfterAlloc(s: State, name: T.Chars, size: nat, i: nat, a: nat, s': State, k: nat)
    requires Linked(s) && s'.base == s.base && i < |s.tab.t| && s.tab.t[i].valid == 0
    requires s'.tab == T.AllocAt(s.tab, i, name, size, a)
    requires if a == 0 then s'.heap.live == s.heap.live
             else a > s.base && a - s.base !in s.heap.live && s'.heap.live == s.heap.live[a - s.base := size]
    ensures Held(s', k)
  {
    assert Held(s, k);
  }

  lemma OneMoreBlock(s: State, a: nat, size: nat, s': State)
    requires Linked(s) && s'.base == s.base && a > s.base && s'.tab.live == s.tab.live + {a}
    requires s'.heap.live == s.heap.live[a - s.base := size]
    ensures BlocksMatch(s')
  {
    forall p: nat ensures InTable(s', p) { assert InTable(s, p); }
    forall b: nat ensures FromHeap(s', b) { assert FromHeap(s, b); }
  }

  lemma SameBlocks(s: State, s': State)
    requires Linked(s) && s'.base == s.base && s'.tab.live == s.tab.live && s'.heap.live == s.heap.live
    ensures BlocksMatch(s')
  {
    forall p: nat ensures InTable(s', p) { assert InTable(s, p); }
    forall b: nat ensures FromHeap(s', b) { assert FromHeap(s, b); }
  }

  lemma OneBlockLess(s: State, a: nat, s': State)
    requires Linked(s) && s'.base == s.base && a >= s.base && s'.tab.live == s.tab.live - {a}
    requires s'.heap.live == s.heap.live - {a - s.base}
    ensures BlocksMatch(s')
  {
    forall p: nat ensures InTable(s', p) { assert InTable(s, p); }
    forall b: nat ensures FromHeap(s', b) { assert FromHeap(s, b); }
  }

  lemma AttachLinks(s: State, l: HeapLayout.Layout, name: T.Chars, s': State)
    requires Good(s, l) && Step(s, Attach(name), s') && Fit(s, Attach(name))
    ensures Good(s', l) && s'.heap == s.heap
  {
    if Region(s, name) < |s.tab.t| { T.AttachKeeps(s.tab, T.Str(name)); }
    SameBlocks(s, s');
    forall k: nat ensures Held(s', k) { assert Held(s, k); }
  }

  lemma ReleaseLinks(s: State, l: HeapLayout.Layout, name: T.Chars, s': State) returns (m: HeapLayout.Layout)
    requires Good(s, l) && Step(s, Release(name), s')
    ensures Good(s', m) && H.PayloadsKept(s.heap, s'.heap)
  {
    var k := Region(s, name);
    m := l;
    if k < |s.tab.t| {
      T.ReleaseInv(s.tab, T.Str(name));
      assert T.SoundRegion(s.tab, k);
      if s.tab.t[k].refcnt == 1 {
        m := FreeLinks(s, l, k, s');
      } else {
        OneLessLinked(s, k, s');
      }
    }
  }

  lemma OneLessLinked(s: State, k: nat, s': State)
    requires Linked(s) && k < |s.tab.t| && 1 < s.tab.t[k].refcnt < T.UINT && s'.base == s.base && s'.heap == s.heap
    requires s'.tab == T.ReleaseAt(s.tab, k)
    ensures Linked(s')
  {
    SameBlocks(s, s');
    forall i: nat ensures Held(s', i) { assert Held(s, i); }
  }

  /** The last reference goes, and with it the block. */
  lemma FreeLinks(s: State, l: HeapLayout.Layout, k: nat, s': State) returns (m: HeapLayout.Layout)
    requires Good(s, l) && k < |s.tab.t| && s.tab.t[k].valid == 1 && s.tab.t[k].refcnt == 1 && s'.base == s.base
    requires s'.tab == T.ReleaseAt(s.tab, k) && T.Inv(s'.tab)
    requires s.tab.t[k].addr >= s.base && H.Step(s.heap, H.Free(s.tab.t[k].addr - s.base), s'.heap)
    ensures Good(s', m) && H.PayloadsKept(s.heap, s'.heap)
  {
    var p := s.tab.t[k].addr - s.base;
    m := H.RoomyStep(s.heap, l, H.Free(p), s'.heap);
    H.RoomyIsFreeable(s.heap, l);
    assert H.Freeable(s.heap, p);
    FreeLinked(s, k, s');
  }

  lemma FreeLinked(s: State, k: nat, s': State)
    requires Linked(s) && T.Inv(s.tab) && k < |s.tab.t| && s.tab.t[k].valid == 1 && s.tab.t[k].refcnt == 1
    requires s'.base == s.base && s'.tab == T.ReleaseAt(s.tab, k) && s.tab.t[k].addr >= s.base
    requires s'.heap.live == s.heap.live - {s.tab.t[k].addr - s.base}
    ensures Linked(s')
  {
    OneBlockLess(s, s.tab.t[k].addr, s');
    forall i: nat ensures Held(s', i) { HeldAfterFree(s, k, s', i); }
  }

  lemma HeldAfterFree(s: State, k: nat, s': State, i: nat)
    requires Linked(s) && T.Inv(s.tab) && k < |s.tab.t| && s.tab.t[k].valid == 1 && s.tab.t[k].refcnt == 1
    requires s'.base == s.base && s'.tab == T.ReleaseAt(s.tab, k) && s.tab.t[k].addr >= s.base
    requires s'.heap.live == s.heap.live - {s.tab.t[k].addr - s.base}
    ensures Held(s', i)
  {
    assert Held(s, i) && T.Distinct(s.tab.t, i, k);
  }

  lemma WriteLinks(s: State, l: HeapLayout.Layout, name: T.Chars, s': State)
    requires Good(s, l) && Step(s, Write(name), s')
    ensures Good(s', l)
  {
    H.WriteGood(s.heap, l, s.tab.t[Region(s, name)].addr - s.base, s'.heap);
    SameBlocks(s, s');
    forall i: nat ensures Held(s', i) { assert Held(s, i); }
  }

  lemma StepLinks(s: State, l: HeapLayout.Layout, op: Op, s': State) returns (m: HeapLayout.Layout)
    requires Good(s, l) && Step(s, op, s') && Fit(s, op)
    ensures Good(s', m) && (!op.Write? ==> H.PayloadsKept(s.heap, s'.heap))
  {
    m := l;
    match op {
      case Alloc(name, size) => m := AllocLinks(s, l, name, size, s');
      case Attach(name) => AttachLinks(s, l, name, s');
      case Release(name) => m := ReleaseLinks(s, l, name, s');
      case Write(name) => WriteLinks(s, l, name, s');
    }
  }

  /** The slot of a region that stays keeps its block. */
  lemma SlotStays(s: State, op: Op, s': State, i: nat)
    requires T.Inv(s.tab) && Step(s, op, s') && i < |s.tab.t| && s.tab.t[i].valid == 1
    ensures |s'.tab.t| == |s.tab.t| && s'.tab.t[i].addr == s.tab.t[i].addr && s'.tab.t[i].size == s.tab.t[i].size
  {
  }

  lemma PayloadByteKept(s: State, op: Op, s': State, i: nat, x: nat)
    requires H.PayloadsKept(s.heap, s'.heap) && Held(s, i) && Held(s', i) && InHeap(s, i) && s'.base == s.base
    requires i < |s.tab.t| == |s'.tab.t|
    requires s'.tab.t[i].addr == s.tab.t[i].addr && s'.tab.t[i].size == s.tab.t[i].size
    ensures ByteKept(s, op, s', i, x)
  {
  }

  /** A write to another region does not reach this one. */
  lemma WriteKeepsBytes(s: State, name: T.Chars, s': State, i: nat, x: nat)
    requires T.Inv(s.tab) && Step(s, Write(name), s') && Held(s, Region(s, name))
    requires InHeap(s, i) && Apart(s, i, Region(s, name))
    ensures ByteKept(s, Write(name), s', i, x)
  {
    assert T.SoundRegion(s.tab, Region(s, name));
  }

  lemma StepKeepsBytes(s: State, l: HeapLayout.Layout, op: Op, s': State, i: nat, x: nat)
    requires Good(s, l) && Step(s, op, s') && Fit(s, op) && RegionsApart(s)
    ensures ByteKept(s, op, s', i, x)
  {
    if i < |s.tab.t| && s.tab.t[i].valid == 1 {
      if op.Write? {
        assert Held(s, Region(s, op.name)) && InHeap(s, i) && Apart(s, i, Region(s, op.name));
        WriteKeepsBytes(s, op.name, s', i, x);
      } else {
        var m := StepLinks(s, l, op, s');
        SlotStays(s, op, s', i);
        assert Held(s, i) && Held(s', i) && InHeap(s, i);
        PayloadByteKept(s, op, s', i, x);
      }
    }
  }

  /** No call changes bytes of a region that stays, except a write to it. */
  ghost predicate BytesKept(s: State, op: Op, s': State)
  {
    forall i: nat, x: nat {:trigger ByteKept(s, op, s', i, x)} :: ByteKept(s, op, s', i, x)
  }

  lemma StepKeepsAll(s: State, l: HeapLayout.Layout, op: Op, s': State)
    requires Good(s, l) && Step(s, op, s') && Fit(s, op) && RegionsApart(s)
    ensures BytesKept(s, op, s')
  {
    forall i: nat, x: nat ensures ByteKept(s, op, s', i, x) { StepKeepsBytes(s, l, op, s', i, x); }
  }

  // ----- Runs --------------------------------------------------------------------------

  ghost predicate Start(s: State)
  {
    && T.Inv(s.tab) && s.tab.live == {} && s.base > 0
    && s.heap.live == map[] && Memman.HEADER <= |s.heap.h| < Memman.UINT
    && forall k | 0 <= k < |s.heap.h| :: s.heap.h[k] == 0
  }

  ghost predicate StepAt(run: seq<State>, ops: seq<Op>, n: nat)
    requires n < |ops| && |run| == |ops| + 1
  {
    Step(run[n], ops[n], run[n + 1]) && Fit(run[n], ops[n])
  }

  ghost predicate IsRun(run: seq<State>, ops: seq<Op>)
  {
    && |run| == |ops| + 1 && Start(run[0])
    && forall n: nat {:trigger StepAt(run, ops, n)} | n < |ops| :: StepAt(run, ops, n)
  }

  lemma StartIsGood(s: State) returns (l: HeapLayout.Layout)
    requires Start(s)
    ensures Good(s, l)
  {
    l := HeapLayout.Layout(map[], 0);
    forall i: nat ensures Held(s, i) { assert T.SoundRegion(s.tab, i); }
  }

  lemma {:induction false} AlwaysGood(run: seq<State>, ops: seq<Op>, n: nat) returns (l: HeapLayout.Layout)
    requires IsRun(run, ops) && n <= |ops|
    ensures Good(run[n], l)
    decreases n
  {
    if n == 0 {
      l := StartIsGood(run[0]);
    } else {
      l := AlwaysGood(run, ops, n - 1);
      assert StepAt(run, ops, n - 1);
      l := StepLinks(run[n - 1], l, ops[n - 1], run[n]);
    }
  }

  /**
   Over every run of calls on table and heap, with fits that leave room: regions lie in the heap and
   share no byte, every call ends, and no call and no write to another region changes a region's bytes.
   */
  lemma RegionsNeverShare(run: seq<State>, ops: seq<Op>, n: nat)
    requires IsRun(run, ops) && n <= |ops|
    ensures T.Inv(run[n].tab) && RegionsApart(run[n]) && H.Sound(run[n].heap) && H.AllFreeable(run[n].heap)
    ensures n < |ops| ==> BytesKept(run[n], ops[n], run[n + 1])
  {
    var l := AlwaysGood(run, ops, n);
    LinkedIsApart(run[n], l);
    H.TiledIsSound(run[n].heap);
    H.RoomyIsFreeable(run[n].heap, l);
    if n < |ops| {
      assert StepAt(run, ops, n);
      StepKeepsAll(run[n], l, ops[n], run[n + 1]);
    }
  }
}
