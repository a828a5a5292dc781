/**
 What the heap manager's bytes mean: boundaries that have carried a header, each the start
 of a live block or of free space. The header of a free block spans free space only, but
 it may span several former blocks whose stale headers remain inside it.
 */
module HeapLayout {
  import opened Memman

  /** `next` is the next boundary; `span` is the size field of the header. */
  datatype Slot = Slot(next: nat, live: bool, span: nat)

  /** `top` is where untouched zero bytes begin. */
  datatype Layout = Layout(slots: map<nat, Slot>, top: nat)

  predicate Boundary(l: Layout, o: nat)
  {
    o in l.slots || o == l.top
  }

  ghost predicate Valid(l: Layout)
  {
    && Boundary(l, 0)
    && (forall o {:trigger SlotOk(l, o)} | o in l.slots :: SlotOk(l, o))
  }

  ghost predicate SlotOk(l: Layout, o: nat)
    requires o in l.slots
  {
    var s := l.slots[o];
    && o + HEADER <= s.next <= l.top && Boundary(l, s.next)
    && (forall p | p in l.slots && o < p :: s.next <= p)
    && if s.live then s.span == s.next - o else SpansFree(l, o)
  }

  /** The free header at o covers whole free slots, and the stale headers in it stay in it. */
  ghost predicate SpansFree(l: Layout, o: nat)
    requires o in l.slots
  {
    var end := o + l.slots[o].span;
    && l.slots[o].next <= end <= l.top && Boundary(l, end)
    && forall p | p in l.slots && o < p < end :: !l.slots[p].live && p + l.slots[p].span <= end
  }

  /** The bytes carry the headers of the layout, and nothing has been written from `top` on. */
  ghost predicate Represents(h: seq<Byte>, l: Layout)
  {
    && |h| < UINT
    && (l.top == |h| || l.top + HEADER <= |h|)
    && (forall o {:trigger HeaderOk(h, l, o)} | o in l.slots :: HeaderOk(h, l, o))
    && (forall k | l.top <= k < |h| :: h[k] == 0)
  }

  ghost predicate HeaderOk(h: seq<Byte>, l: Layout, o: nat)
    requires o in l.slots
  {
    o + HEADER <= |h| && U32(h, o) == (if l.slots[o].live then 1 else 0) && U32(h, o + 4) == l.slots[o].span
  }

  // ----- First fit ----------------------------------------------------------------------

  /** The block `memman_alloc` settles on: a walk from header to header. */
  function Find(l: Layout, need: nat, cur: nat): nat
    decreases l.top - cur
  {
    if cur !in l.slots || l.slots[cur].span == 0 || cur >= l.top then cur
    else if !l.slots[cur].live && l.slots[cur].span >= need then cur
    else Find(l, need, cur + l.slots[cur].span)
  }

  /** The end of the free run that starts at cur. */
  function Run(l: Layout, cur: nat): nat
    decreases l.top - cur
  {
    if cur !in l.slots || l.slots[cur].live || l.slots[cur].span == 0 || cur >= l.top then cur
    else Run(l, cur + l.slots[cur].span)
  }

  /** First fit means first among all boundaries, stale ones included; none spans past it. */
  lemma {:induction false} FindIsFirstFit(l: Layout, need: nat, cur: nat)
    requires Valid(l) && Boundary(l, cur)
    ensures var f := Find(l, need, cur);
            && cur <= f && Boundary(l, f)
            && (f in l.slots ==> f < l.top && !l.slots[f].live && l.slots[f].span >= need)
            && (forall o | o in l.slots && cur <= o < f :: o + l.slots[o].span <= f)
            && (forall o | o in l.slots && cur <= o < f && !l.slots[o].live :: l.slots[o].span < need)
    decreases l.top - cur
  {
    if cur in l.slots {
      assert SlotOk(l, cur);
      if l.slots[cur].live || l.slots[cur].span < need {
        FindIsFirstFit(l, need, cur + l.slots[cur].span);
      }
    }
  }

  /** A run ends at the top or at a live block, and holds free slots only. */
  lemma {:induction false} RunIsMaximal(l: Layout, cur: nat)
    requires Valid(l) && Boundary(l, cur)
    ensures var e := Run(l, cur);
            && cur <= e <= l.top && Boundary(l, e)
            && (e in l.slots ==> l.slots[e].live)
            && forall p | p in l.slots && cur <= p < e :: !l.slots[p].live && p + l.slots[p].span <= e
    decreases l.top - cur
  {
    if cur in l.slots && !l.slots[cur].live {
      assert SlotOk(l, cur);
      RunIsMaximal(l, cur + l.slots[cur].span);
    }
  }

  // ----- The operations -----------------------------------------------------------------

  /** The block found ends at a boundary, or there is room for it and the next header. */
  predicate Fits(l: Layout, len: nat, f: nat, need: nat)
  {
    if f < l.top then Boundary(l, f + need)
    else f + need == len || f + need + HEADER <= len
  }

  /** The boundaries inside the block disappear: they become payload. */
  function Allocated(l: Layout, f: nat, need: nat): (m: Layout)
    ensures m.top == if f < l.top then l.top else f + need
    ensures f in m.slots && m.slots[f] == Slot(f + need, true, need)
  {
    Layout((map o | o in l.slots && !(f <= o < f + need) :: l.slots[o])[f := Slot(f + need, true, need)],
           if f < l.top then l.top else f + need)
  }

  /** The block at o is marked free and not coalesced yet. */
  function Unmarked(l: Layout, o: nat): Layout
    requires o in l.slots
  {
    l.(slots := l.slots[o := l.slots[o].(live := false)])
  }

  function Freed(l: Layout, o: nat): Layout
    requires o in l.slots
  {
    var e := Run(Unmarked(l, o), o);
    l.(slots := l.slots[o := Slot(l.slots[o].next, false, if e < o then 0 else e - o)])
  }

  /** A slot the allocation does not swallow keeps its meaning. */
  lemma KeptSlot(l: Layout, f: nat, need: nat, o: nat)
    requires Valid(l) && Boundary(l, f) && need >= HEADER && (f < l.top ==> Boundary(l, f + need))
    requires o in l.slots && !(f <= o < f + need)
    requires o < f ==> o + l.slots[o].span <= f
    ensures o in Allocated(l, f, need).slots && SlotOk(Allocated(l, f, need), o)
  {
    var m := Allocated(l, f, need);
    assert SlotOk(l, o) && (f in l.slots ==> SlotOk(l, f));
    var next, end := l.slots[o].next, o + l.slots[o].span;
    if o < f {
      assert f in l.slots ==> next <= f;
      assert next in l.slots && next != f ==> next in m.slots;
      assert end in l.slots && end != f ==> end in m.slots;
    } else {
      assert f < l.top;
      assert next in l.slots ==> next in m.slots;
      assert end in l.slots ==> end in m.slots;
    }
  }

  /** The new block ends at a boundary, and no header is left inside it. */
  lemma NewSlot(l: Layout, f: nat, need: nat)
    requires Valid(l) && Boundary(l, f) && need >= HEADER && (f < l.top ==> Boundary(l, f + need))
    ensures f in Allocated(l, f, need).slots && SlotOk(Allocated(l, f, need), f)
  {
    var m := Allocated(l, f, need);
    if f < l.top && f + need in l.slots { assert SlotOk(l, f + need) && f + need in m.slots; }
    forall p | p in m.slots && f < p ensures f + need <= p { assert p in l.slots && !(f <= p < f + need); }
  }

  lemma AllocatedValid(l: Layout, need: nat)
    requires Valid(l) && need >= HEADER
    requires var f := Find(l, need, 0); f < l.top ==> Boundary(l, f + need)
    ensures Valid(Allocated(l, Find(l, need, 0), need))
  {
    var f := Find(l, need, 0);
    FindIsFirstFit(l, need, 0);
    NewSlot(l, f, need);
    SlotsValid(l, f, need);
  }

  lemma SlotsValid(l: Layout, f: nat, need: nat)
    requires Valid(l) && Boundary(l, f) && need >= HEADER && (f < l.top ==> Boundary(l, f + need))
    requires forall o | o in l.slots && o < f :: o + l.slots[o].span <= f
    requires f in Allocated(l, f, need).slots && SlotOk(Allocated(l, f, need), f)
    ensures Valid(Allocated(l, f, need))
  {
    var m := Allocated(l, f, need);
    forall o | o in m.slots ensures SlotOk(m, o) {
      if o != f {
        assert o in l.slots && !(f <= o < f + need);
        KeptSlot(l, f, need, o);
      }
    }
    assert f in l.slots ==> SlotOk(l, f);
    assert 0 < f ==> 0 in m.slots;
  }

  lemma UnmarkedValid(l: Layout, o: nat)
    requires Valid(l) && o in l.slots && l.slots[o].live
    ensures Valid(Unmarked(l, o))
  {
    var m := Unmarked(l, o);
    assert SlotOk(l, o);
    forall p | p in m.slots ensures SlotOk(m, p) {
      assert SlotOk(l, p);
    }
  }

  /** The run coalesced into a freed block covers the block itself. */
  lemma RunCoversBlock(l: Layout, o: nat)
    requires Valid(l) && o in l.slots && l.slots[o].live
    ensures var u := Unmarked(l, o); Valid(u) && Boundary(u, o) && l.slots[o].next <= Run(u, o) <= l.top
  {
    UnmarkedValid(l, o);
    var u := Unmarked(l, o);
    assert SlotOk(l, o);
    RunIsMaximal(u, o);
    assert Run(u, o) == Run(u, l.slots[o].next);
    RunIsMaximal(u, l.slots[o].next);
  }

  /** Any other slot keeps its meaning; the freed one covers free slots only. */
  lemma FreedSlot(l: Layout, o: nat, p: nat)
    requires Valid(l) && o in l.slots && l.slots[o].live && p in l.slots
    ensures p in Freed(l, o).slots && SlotOk(Freed(l, o), p)
  {
    RunCoversBlock(l, o);
    var u, m := Unmarked(l, o), Freed(l, o);
    assert SlotOk(l, p) && SlotOk(l, o);
    if p == o {
      RunIsMaximal(u, o);
      forall q | q in m.slots && o < q < Run(u, o)
        ensures !m.slots[q].live && q + m.slots[q].span <= Run(u, o)
      {
        assert q in u.slots && u.slots[q] == m.slots[q];
      }
    }
  }

  lemma FreedValid(l: Layout, o: nat)
    requires Valid(l) && o in l.slots && l.slots[o].live
    ensures Valid(Freed(l, o))
  {
    forall p | p in Freed(l, o).slots ensures SlotOk(Freed(l, o), p) {
      FreedSlot(l, o, p);
    }
  }

  // ----- The bytes follow the layout ----------------------------------------------------

  lemma TopIsSentinel(h: seq<Byte>, l: Layout)
    requires Represents(h, l) && l.top < |h|
    ensures l.top + HEADER <= |h| && U32(h, l.top) == 0 && U32(h, l.top + 4) == 0
  {
  }

  lemma {:induction false} WalkFollows(h: seq<Byte>, l: Layout, need: nat, cur: nat)
    requires Valid(l) && Represents(h, l) && Boundary(l, cur)
    ensures var f := Find(l, need, cur);
            WalkFrom(h, need, cur) == if f < |h| then Found(f) else Full
    decreases l.top - cur
  {
    if cur in l.slots {
      assert SlotOk(l, cur) && HeaderOk(h, l, cur);
      if l.slots[cur].live || l.slots[cur].span < need {
        WalkFollows(h, l, need, cur + l.slots[cur].span);
      }
    } else if l.top < |h| {
      TopIsSentinel(h, l);
    }
  }

  lemma {:induction false} RunFollows(h: seq<Byte>, l: Layout, cur: nat)
    requires Valid(l) && Represents(h, l) && Boundary(l, cur)
    ensures var e := Run(l, cur);
            RunFrom(h, cur) == if e < |h| then Found(e) else Stuck
    decreases l.top - cur
  {
    if cur in l.slots {
      assert SlotOk(l, cur) && HeaderOk(h, l, cur);
      if !l.slots[cur].live {
        RunFollows(h, l, cur + l.slots[cur].span);
      }
    } else if l.top < |h| {
      TopIsSentinel(h, l);
    }
  }

  /** Headers lie apart from each other and from live payloads. */
  lemma HeadersApart(l: Layout, o: nat, p: nat)
    requires Valid(l) && o in l.slots && p in l.slots && o != p
    ensures o + HEADER <= p || p + HEADER <= o
  {
    assert SlotOk(l, o) && SlotOk(l, p);
  }

  /** A slot whose header bytes and fields are unchanged still has its header. */
  lemma HeaderKept(h: seq<Byte>, l: Layout, g: seq<Byte>, m: Layout, o: nat)
    requires o in l.slots && o in m.slots && l.slots[o] == m.slots[o] && HeaderOk(h, l, o) && |g| == |h|
    requires forall k | o <= k < o + HEADER :: g[k] == h[k]
    ensures HeaderOk(g, m, o)
  {
  }

  /** Bytes that differ in the header at f only, for a layout that differs in the slot at f only. */
  lemma OneHeaderFollows(h: seq<Byte>, l: Layout, g: seq<Byte>, m: Layout, f: nat)
    requires Represents(h, l) && Valid(m) && f in m.slots && HeaderOk(g, m, f)
    requires |g| == |h| && forall k | 0 <= k < |h| && !(f <= k < f + HEADER) :: g[k] == h[k]
    requires forall o | o in m.slots && o != f :: o in l.slots && m.slots[o] == l.slots[o]
    requires l.top <= m.top && f + HEADER <= m.top && (m.top == |g| || m.top + HEADER <= |g|)
    ensures Represents(g, m)
  {
    forall o | o in m.slots ensures HeaderOk(g, m, o) {
      if o != f {
        assert HeaderOk(h, l, o);
        HeadersApart(m, o, f);
        HeaderKept(h, l, g, m, o);
      }
    }
  }

  /** Writing the header of a taken block gives the bytes of `Allocated`. */
  lemma TakenFollows(h: seq<Byte>, l: Layout, f: nat, need: nat)
    requires Represents(h, l) && need < UINT && f + HEADER <= |h|
    requires f < l.top || f == l.top
    requires f < l.top || f + need == |h| || f + need + HEADER <= |h|
    requires need >= HEADER && (f < l.top ==> f + need <= l.top)
    requires Valid(Allocated(l, f, need))
    ensures Represents(Taken(h, f, need), Allocated(l, f, need))
  {
    OneHeaderFollows(h, l, Taken(h, f, need), Allocated(l, f, need), f);
  }

  lemma FittingFollows(h: seq<Byte>, l: Layout, need: nat)
    requires Valid(l) && Represents(h, l) && need >= HEADER
    requires var f := Find(l, need, 0); f < |h| && Fits(l, |h|, f, need)
    ensures var f, m := Find(l, need, 0), Allocated(l, Find(l, need, 0), need);
            f + HEADER <= |h| && need < UINT && Valid(m) && Represents(Taken(h, f, need), m)
  {
    var f := Find(l, need, 0);
    FindIsFirstFit(l, need, 0);
    AllocatedValid(l, need);
    if f in l.slots { assert SlotOk(l, f) && HeaderOk(h, l, f); }
    assert SlotOk(Allocated(l, f, need), f);
    TakenFollows(h, l, f, need);
  }

  lemma FoundHeader(h: seq<Byte>, l: Layout, need: nat)
    requires Valid(l) && Represents(h, l) && Find(l, need, 0) < |h|
    ensures Find(l, need, 0) + HEADER <= |h|
  {
    var f := Find(l, need, 0);
    FindIsFirstFit(l, need, 0);
    if f in l.slots { assert HeaderOk(h, l, f); }
  }

  lemma UnfitBreaks(l: Layout, len: nat, f: nat, need: nat, g: seq<Byte>)
    requires need >= HEADER && !Fits(l, len, f, need) && |g| == len
    ensures !(Valid(Allocated(l, f, need)) && Represents(g, Allocated(l, f, need)))
  {
    var m := Allocated(l, f, need);
    if Valid(m) { assert SlotOk(m, f) && (f + need in m.slots ==> f + need in l.slots); }
  }

  /**
   `memman_alloc` on a laid-out heap finds the block of the layout, and goes from one layout to the
   next exactly if that block ends at a boundary, old or new, or the tail has room for it.
   */
  lemma AllocFollows(h: seq<Byte>, l: Layout, need: nat)
    requires Valid(l) && Represents(h, l) && HEADER <= need < UINT && Find(l, need, 0) < |h|
    ensures var f, m := Find(l, need, 0), Allocated(l, Find(l, need, 0), need);
            && WalkFrom(h, need, 0) == Found(f) && f + HEADER <= |h|
            && (Valid(m) && Represents(Taken(h, f, need), m) <==> Fits(l, |h|, f, need))
  {
    var f := Find(l, need, 0);
    FoundHeader(h, l, need);
    WalkFollows(h, l, need, 0);
    if Fits(l, |h|, f, need) {
      FittingFollows(h, l, need);
    } else {
      UnfitBreaks(l, |h|, f, need, Taken(h, f, need));
    }
  }

  /** Clearing the flag of a live block gives the bytes of `Unmarked`. */
  lemma UnmarkFollows(h: seq<Byte>, l: Layout, o: nat)
    requires Valid(l) && Represents(h, l) && o in l.slots && l.slots[o].live
    ensures o + HEADER <= |h|
    ensures Valid(Unmarked(l, o)) && Represents(PutU32(h, o, 0), Unmarked(l, o))
  {
    var u := Unmarked(l, o);
    UnmarkedValid(l, o);
    assert HeaderOk(h, l, o) && SlotOk(l, o);
    var h1 := PutU32(h, o, 0);
    assert HeaderOk(h1, u, o);
    forall p | p in u.slots ensures HeaderOk(h1, u, p) {
      if p != o {
        assert HeaderOk(h, l, p);
        HeadersApart(l, p, o);
        HeaderKept(h, l, h1, u, p);
      }
    }
  }

  /** Storing the size of the coalesced run gives the bytes of `Freed`. */
  lemma CoalesceFollows(h: seq<Byte>, l: Layout, o: nat)
    requires Valid(l) && Represents(h, l) && o in l.slots && l.slots[o].live
    requires CanFree(h, o) && RunFrom(PutU32(h, o, 0), o) == Found(Run(Unmarked(l, o), o))
    ensures Valid(Freed(l, o)) && Represents(Released(h, o), Freed(l, o))
  {
    FreedValid(l, o);
    FreedHeader(h, l, o);
    assert SlotOk(l, o);
    OneHeaderFollows(h, l, Released(h, o), Freed(l, o), o);
  }

  lemma FreedHeader(h: seq<Byte>, l: Layout, o: nat)
    requires Valid(l) && Represents(h, l) && o in l.slots && l.slots[o].live
    requires CanFree(h, o) && RunFrom(PutU32(h, o, 0), o) == Found(Run(Unmarked(l, o), o))
    ensures HeaderOk(Released(h, o), Freed(l, o), o)
    ensures |Released(h, o)| == |h|
    ensures forall k | 0 <= k < |h| && !(o <= k < o + HEADER) :: Released(h, o)[k] == h[k]
  {
    UnmarkFollows(h, l, o);
    RunCoversBlock(l, o);
    assert HeaderOk(PutU32(h, o, 0), Unmarked(l, o), o);
  }

  /**
   `memman_free` of a live block works exactly when its free run does not reach the end of
   an exhausted heap: there is no sentinel left for the coalescing walk to stop at.
   */
  lemma FreeFollows(h: seq<Byte>, l: Layout, o: nat)
    requires Valid(l) && Represents(h, l) && o in l.slots && l.slots[o].live
    ensures CanFree(h, o) <==> Run(Unmarked(l, o), o) < |h|
    ensures CanFree(h, o) ==> Valid(Freed(l, o)) && Represents(Released(h, o), Freed(l, o))
  {
    UnmarkFollows(h, l, o);
    RunFollows(PutU32(h, o, 0), Unmarked(l, o), o);
    if CanFree(h, o) {
      CoalesceFollows(h, l, o);
    }
  }
}
