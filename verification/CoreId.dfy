/**
 Core numbers, global addresses and the neighbour ring of an e-core workgroup.
 Machine words are 32 bits wide and wrap.
 */
module CoreId {
  import opened Arith

  const WORD: int := 0x1_0000_0000
  const LOCAL_SPACE: int := 0x10_0000
  const E_SELF: int := 0xffff_ffff

  datatype Group = Group(id: int, rows: nat, cols: nat)

  /** A workgroup that fits the 64 x 64 mesh of 12-bit core ids. */
  predicate OnMesh(g: Group)
  {
    && 1 <= g.rows && 1 <= g.cols <= 64
    && 0 <= g.id && g.id + (g.rows - 1) * 64 + g.cols <= 4096
  }

  function CoreAt(g: Group, row: nat, col: nat): nat
  {
    row * g.cols + col
  }

  /** The core id that coordinates name; `self` is the caller's own. */
  function Named(g: Group, self: int, row: int, col: int): int
  {
    if row == E_SELF || col == E_SELF then self else (row * 0x40 + col + g.id) % WORD
  }

  /** The address another core uses for `ptr`. */
  function GlobalAddress(g: Group, self: int, row: int, col: int, ptr: int): int
    requires 0 <= ptr < WORD
  {
    if ptr >= LOCAL_SPACE then ptr else (Named(g, self, row, col) * LOCAL_SPACE) % WORD + ptr
  }

  /** Where core number `core`'s private byte `ptr` appears in the global address space. */
  function HomeAddress(g: Group, core: nat, ptr: int): int
    requires g.cols > 0
  {
    (g.id + core / g.cols * 64 + core % g.cols) * LOCAL_SPACE + ptr
  }

  /** The core number and private address behind a global address. */
  function Locate(g: Group, addr: int): (int, int)
    requires g.cols > 0
  {
    var mesh := addr / LOCAL_SPACE - g.id;
    (mesh / 64 * g.cols + mesh % 64, addr % LOCAL_SPACE)
  }

  lemma CoreCoordinates(g: Group, row: nat, col: nat)
    requires g.cols > 0 && col < g.cols && row < g.rows
    ensures CoreAt(g, row, col) / g.cols == row && CoreAt(g, row, col) % g.cols == col
    ensures CoreAt(g, row, col) < g.rows * g.cols
  {
    DivModUnique(row, g.cols, col);
    MulMonotone(row + 1, g.rows, g.cols);
    MulDistribute(row, 1, g.cols);
  }

  lemma CoreSplit(g: Group, core: nat)
    requires g.cols > 0 && core < g.rows * g.cols
    ensures 0 <= core / g.cols < g.rows && 0 <= core % g.cols < g.cols
    ensures CoreAt(g, core / g.cols, core % g.cols) == core
  {
    DivMod(core, g.cols);
    if core / g.cols >= g.rows {
      MulMonotone(g.rows, core / g.cols, g.cols);
      assert false;
    }
  }

  /** `e_get_global_address` of a private pointer names that byte of that very core. */
  lemma GlobalAddressIsHome(g: Group, self: int, row: nat, col: nat, ptr: int)
    requires OnMesh(g) && row < g.rows && col < g.cols && 0 <= ptr < LOCAL_SPACE
    ensures GlobalAddress(g, self, row, col, ptr) == HomeAddress(g, CoreAt(g, row, col), ptr)
    ensures Locate(g, GlobalAddress(g, self, row, col, ptr)) == (CoreAt(g, row, col), ptr)
    ensures GlobalAddress(g, self, row, col, ptr) == (g.id + row * 64 + col) * 0x10_0000 + ptr
  {
    CoreCoordinates(g, row, col);
    NamedCore(g, self, row, col, ptr);
    LocateNamed(g, row, col, ptr);
  }

  lemma LocateNamed(g: Group, row: nat, col: nat, ptr: int)
    requires g.cols > 0 && col < 64 && 0 <= ptr < LOCAL_SPACE
    ensures Locate(g, (g.id + row * 64 + col) * LOCAL_SPACE + ptr) == (CoreAt(g, row, col), ptr)
  {
    DivModUnique(g.id + row * 64 + col, LOCAL_SPACE, ptr);
    DivModUnique(row, 64, col);
  }

  /** Nothing wraps around for a core of the mesh. */
  lemma NamedCore(g: Group, self: int, row: nat, col: nat, ptr: int)
    requires OnMesh(g) && row < g.rows && col < g.cols && 0 <= ptr < LOCAL_SPACE
    ensures GlobalAddress(g, self, row, col, ptr) == (g.id + row * 64 + col) * LOCAL_SPACE + ptr
  {
    var coreid := g.id + row * 64 + col;
    assert 0 <= coreid < 4096;
    assert (row * 0x40 + col + g.id) % WORD == coreid && (coreid * LOCAL_SPACE) % WORD == coreid * LOCAL_SPACE;
  }

  /** With E_SELF for either coordinate it names that byte of the calling core. */
  lemma SelfAddressIsHome(g: Group, here: (nat, nat), row: int, col: int, ptr: int)
    requires OnMesh(g) && here.0 < g.rows && here.1 < g.cols && 0 <= ptr < LOCAL_SPACE
    requires row == 0xffff_ffff || col == 0xffff_ffff
    ensures var self := g.id + here.0 * 64 + here.1;
            Locate(g, GlobalAddress(g, self, row, col, ptr)) == (CoreAt(g, here.0, here.1), ptr)
  {
    var self := g.id + here.0 * 64 + here.1;
    GlobalAddressIsHome(g, self, here.0, here.1, ptr);
    SelfIsNamed(g, self, here.0, here.1, row, col, ptr);
  }

  lemma SelfIsNamed(g: Group, self: int, here: nat, there: nat, row: int, col: int, ptr: int)
    requires 0 <= self < 4096 && self == g.id + here * 64 + there && here < 64 && there < 64
    requires 0 <= ptr < LOCAL_SPACE
    requires row == E_SELF || col == E_SELF
    ensures GlobalAddress(g, self, row, col, ptr) == GlobalAddress(g, self, here, there, ptr)
  {
    assert (here * 0x40 + there + g.id) % WORD == self;
  }

  /**
   Converting a converted pointer again changes nothing, whatever core is named, unless the first
   conversion named core 0, whose addresses look local, and the second another one.
   */
  lemma GlobalAddressIdempotent(g: Group, self: int, row: int, col: int, row': int, col': int, ptr: int)
    requires 0 <= ptr < WORD
    ensures var a := GlobalAddress(g, self, row, col, ptr);
      && 0 <= a < WORD
      && (GlobalAddress(g, self, row', col', a) == a <==>
            ptr >= LOCAL_SPACE || Named(g, self, row, col) % 4096 != 0 || Named(g, self, row', col') % 4096 == 0)
  {
    ShiftedCore(Named(g, self, row, col));
    ShiftedCore(Named(g, self, row', col'));
  }

  lemma ShiftedCore(id: int)
    ensures (id * LOCAL_SPACE) % WORD == id % 4096 * LOCAL_SPACE
  {
    DivMod(id, 4096);
    assert id * LOCAL_SPACE == id / 4096 * WORD + id % 4096 * LOCAL_SPACE;
    DivModUnique(id / 4096, WORD, id % 4096 * LOCAL_SPACE);
  }

  // ----- e_neighbor_id ----------------------------------------------------------------

  datatype Wrap = GroupWrap | RowWrap | ColWrap
  datatype Dir = Prev | Next

  function Pow2(k: nat): nat
  {
    if k == 0 then 1 else 2 * Pow2(k - 1)
  }

  /** Bitwise and of two words. */
  function And(x: nat, y: nat): nat
    decreases x
  {
    if x == 0 then 0 else 2 * And(x / 2, y / 2) + (x % 2) * (y % 2)
  }

  lemma {:induction false} AndLowMask(x: nat, k: nat)
    ensures Pow2(k) > 0 && And(x, Pow2(k) - 1) == x % Pow2(k)
    decreases k, x
  {
    Pow2Positive(k);
    if x == 0 {
    } else if k == 0 {
      AndZero(x);
    } else {
      AndLowMask(x / 2, k - 1);
      var p := Pow2(k - 1);
      assert (2 * p - 1) / 2 == p - 1 && (2 * p - 1) % 2 == 1;
      DoubleMod(x, p);
    }
  }

  lemma DoubleMod(x: nat, p: nat)
    requires p > 0
    ensures x % (2 * p) == 2 * (x / 2 % p) + x % 2
  {
    var q, r := x / 2 / p, x / 2 % p;
    DivMod(x / 2, p);
    assert x == 2 * (q * p + r) + x % 2;
    assert 2 * (q * p) == q * (2 * p);
    DivModUnique(q, 2 * p, 2 * r + x % 2);
  }

  lemma {:induction false} AndZero(x: nat)
    ensures And(x, 0) == 0
  {
    if x > 0 { AndZero(x / 2); }
  }

  lemma {:induction false} Pow2Positive(k: nat)
    ensures Pow2(k) >= 1
  {
    if k > 0 { Pow2Positive(k - 1); }
  }

  /** x plus or minus one as an unsigned word. */
  function Bump(x: nat, d: Dir): nat
  {
    (x + if d.Prev? then WORD - 1 else 1) % WORD
  }

  lemma BumpValue(x: nat, d: Dir)
    requires x < WORD
    ensures Bump(x, d) == if d.Next? then (if x + 1 == WORD then 0 else x + 1) else if x == 0 then WORD - 1 else x - 1
  {
  }

  /** Coordinates of the neighbour, computed in wrapping unsigned arithmetic. */
  function NeighborId(rows: nat, cols: nat, row: nat, col: nat, w: Wrap, d: Dir): (nat, nat)
    requires rows > 0 && cols > 0
  {
    var c := if w.ColWrap? then col else Bump(col, d);
    var r0 := if w.ColWrap? then Bump(row, d) else row;
    var r := if w.GroupWrap? && c >= cols then Bump(r0, d) else r0;
    (And(r, rows - 1), And(c, cols - 1))
  }

  predicate RingDims(rows: nat, cols: nat, kr: nat, kc: nat)
  {
    rows == Pow2(kr) && cols == Pow2(kc) && kr <= 31 && kc <= 31
  }

  lemma Pow2Divides(k: nat) returns (q: nat)
    requires k <= 31
    ensures 1 <= Pow2(k) < WORD && q >= 2 && WORD == q * Pow2(k)
  {
    q := Pow2(32 - k);
    Pow2Sum(32 - k, k);
    Pow2Of32();
    Pow2Positive(31 - k);
    Pow2Positive(k);
    MulMonotone(2, q, Pow2(k));
  }

  lemma {:induction false} Pow2Sum(a: nat, b: nat)
    ensures Pow2(a) * Pow2(b) == Pow2(a + b)
  {
    if a > 0 {
      Pow2Sum(a - 1, b);
      DoubleProduct(Pow2(a - 1), Pow2(b));
    }
  }

  lemma DoubleProduct(x: nat, y: nat)
    ensures (2 * x) * y == 2 * (x * y)
  {
  }

  lemma Pow2Of32()
    ensures Pow2(32) == WORD
  {
    assert Pow2(4) == 16;
    Pow2Sum(4, 4);
    Pow2Sum(8, 8);
    Pow2Sum(16, 16);
  }

  /** Stepping a coordinate by one in either direction, masked, is a step on its ring. */
  lemma MaskedStep(x: nat, n: nat, k: nat, d: Dir)
    requires n == Pow2(k) && k <= 31 && x < n
    ensures And(Bump(x, d), n - 1) == StepOnRing(x, n, d)
    ensures Bump(x, d) >= n <==> if d.Next? then x + 1 == n else x == 0
    ensures And(x, n - 1) == x
  {
    var q := Pow2Divides(k);
    BumpValue(x, d);
    AndLowMask(x, k);
    DivModUnique(0, n, x);
    AndLowMask(Bump(x, d), k);
    WrappedRemainder(q, n, x, d);
  }

  lemma WrappedRemainder(q: nat, n: nat, x: nat, d: Dir)
    requires 1 <= n < WORD && WORD == q * n && x < n
    requires Bump(x, d) == if d.Next? then x + 1 else if x == 0 then WORD - 1 else x - 1
    ensures Bump(x, d) % n == StepOnRing(x, n, d)
  {
    if d.Prev? && x == 0 {
      MulDistribute(q, -1, n);
      DivModUnique(q - 1, n, n - 1);
    } else if d.Next? && x + 1 == n {
      DivModUnique(1, n, 0);
    } else {
      DivModUnique(0, n, Bump(x, d));
    }
  }

  function StepOnRing(x: nat, n: nat, d: Dir): nat
    requires x < n
  {
    if d.Next? then (if x + 1 == n then 0 else x + 1) else if x == 0 then n - 1 else x - 1
  }

  lemma IndexBound(rows: nat, cols: nat, row: nat, col: nat)
    requires row < rows && col < cols
    ensures 0 <= row * cols + col < rows * cols
    ensures row > 0 ==> row * cols == (row - 1) * cols + cols
  {
    MulNonNegative(row, cols);
    MulMonotone(row + 1, rows, cols);
    MulDistribute(row, 1, cols);
    MulDistribute(row, -1, cols);
  }

  /** The neighbour in ring steps: the row only moves when the column wraps or in a column ring. */
  lemma NeighborCoordinates(rows: nat, cols: nat, kr: nat, kc: nat, row: nat, col: nat, w: Wrap, d: Dir)
    requires RingDims(rows, cols, kr, kc) && row < rows && col < cols
    ensures NeighborId(rows, cols, row, col, w, d)
            == (if w.ColWrap? || (w.GroupWrap? && (if d.Next? then col + 1 == cols else col == 0))
                then StepOnRing(row, rows, d) else row,
                if w.ColWrap? then col else StepOnRing(col, cols, d))
  {
    MaskedStep(col, cols, kc, d);
    MaskedStep(row, rows, kr, d);
  }

  /** Group wrap: the neighbour's core number is one away modulo the group size. */
  lemma GroupWrapIsRing(rows: nat, cols: nat, kr: nat, kc: nat, row: nat, col: nat, d: Dir)
    requires RingDims(rows, cols, kr, kc) && row < rows && col < cols
    ensures var (r, c) := NeighborId(rows, cols, row, col, GroupWrap, d);
            && r < rows && c < cols && 0 < rows * cols
            && r * cols + c == (row * cols + col + (if d.Next? then 1 else rows * cols - 1)) % (rows * cols)
  {
    NeighborCoordinates(rows, cols, kr, kc, row, col, GroupWrap, d);
    RingIndex(rows, cols, row, col, d);
  }

  lemma RingIndex(rows: nat, cols: nat, row: nat, col: nat, d: Dir)
    requires row < rows && col < cols
    ensures 0 < rows * cols
    ensures var r := if (if d.Next? then col + 1 == cols else col == 0) then StepOnRing(row, rows, d) else row;
            r * cols + StepOnRing(col, cols, d)
            == (row * cols + col + (if d.Next? then 1 else rows * cols - 1)) % (rows * cols)
  {
    IndexBound(rows, cols, row, col);
    match d
    case Next => NextIndex(rows, cols, row, col);
    case Prev => PrevIndex(rows, cols, row, col);
  }

  lemma NextIndex(rows: nat, cols: nat, row: nat, col: nat)
    requires row < rows && col < cols && 0 < rows * cols
    ensures var r := if col + 1 == cols then StepOnRing(row, rows, Next) else row;
            r * cols + StepOnRing(col, cols, Next) == (row * cols + col + 1) % (rows * cols)
  {
    var n, x := rows * cols, row * cols + col;
    if col + 1 < cols {
      IndexBound(rows, cols, row, col + 1);
      DivModUnique(0, n, x + 1);
    } else if row + 1 < rows {
      IndexBound(rows, cols, row + 1, 0);
      DivModUnique(0, n, x + 1);
    } else {
      MulDistribute(row, 1, cols);
      DivModUnique(1, n, 0);
    }
  }

  lemma PrevIndex(rows: nat, cols: nat, row: nat, col: nat)
    requires row < rows && col < cols && 0 < rows * cols
    ensures var r := if col == 0 then StepOnRing(row, rows, Prev) else row;
            r * cols + StepOnRing(col, cols, Prev) == (row * cols + col + rows * cols - 1) % (rows * cols)
  {
    var n, x := rows * cols, row * cols + col;
    IndexBound(rows, cols, row, col);
    if col > 0 || row > 0 {
      MulNonNegative(row, cols);
      if row > 0 { MulMonotone(1, row, cols); }
      DivModUnique(1, n, x - 1);
      if col == 0 { MulDistribute(row, -1, cols); }
    } else {
      MulDistribute(rows, -1, cols);
      DivModUnique(0, n, n - 1);
    }
  }

  /** In every wrap mode going to the next core and back leads home. */
  lemma NextPrevInverse(rows: nat, cols: nat, kr: nat, kc: nat, row: nat, col: nat, w: Wrap, d: Dir)
    requires RingDims(rows, cols, kr, kc) && row < rows && col < cols
    ensures rows > 0 && cols > 0
    ensures var (r, c) := NeighborId(rows, cols, row, col, w, d);
            r < rows && c < cols &&
            NeighborId(rows, cols, r, c, w, if d.Next? then Prev else Next) == (row, col)
  {
    NeighborCoordinates(rows, cols, kr, kc, row, col, w, d);
    var (r, c) := NeighborId(rows, cols, row, col, w, d);
    NeighborCoordinates(rows, cols, kr, kc, r, c, w, if d.Next? then Prev else Next);
  }

  /** The coordinates reached after n group-wrap steps to the next core. */
  function Walk(rows: nat, cols: nat, start: (nat, nat), n: nat): (nat, nat)
    requires rows > 0 && cols > 0
  {
    if n == 0 then start
    else
      var (r, c) := Walk(rows, cols, start, n - 1);
      NeighborId(rows, cols, r, c, GroupWrap, Next)
  }

  lemma {:induction false} WalkIndex(rows: nat, cols: nat, kr: nat, kc: nat, start: (nat, nat), n: nat)
    requires RingDims(rows, cols, kr, kc) && start.0 < rows && start.1 < cols
    ensures var (r, c) := Walk(rows, cols, start, n);
            r < rows && c < cols && 0 < rows * cols &&
            r * cols + c == (start.0 * cols + start.1 + n) % (rows * cols)
  {
    IndexBound(rows, cols, start.0, start.1);
    if n == 0 {
      DivModUnique(0, rows * cols, start.0 * cols + start.1);
    } else {
      WalkIndex(rows, cols, kr, kc, start, n - 1);
      var (r, c) := Walk(rows, cols, start, n - 1);
      NextOnRing(rows, cols, kr, kc, r, c, start.0 * cols + start.1 + n - 1);
    }
  }

  lemma NextOnRing(rows: nat, cols: nat, kr: nat, kc: nat, row: nat, col: nat, x: nat)
    requires RingDims(rows, cols, kr, kc) && row < rows && col < cols
    requires 0 < rows * cols && row * cols + col == x % (rows * cols)
    ensures rows > 0 && cols > 0
    ensures var (r, c) := NeighborId(rows, cols, row, col, GroupWrap, Next);
            r < rows && c < cols && r * cols + c == (x + 1) % (rows * cols)
  {
    GroupWrapIsRing(rows, cols, kr, kc, row, col, Next);
    ModSuccessor(x, rows * cols);
  }

  function Cores(rows: nat, cols: nat): nat
  {
    MulNonNegative(rows, cols);
    rows * cols
  }

  /** Walking the ring from any core meets every core exactly once and then returns. */
  lemma RingVisitsAll(rows: nat, cols: nat, kr: nat, kc: nat, start: (nat, nat), target: (nat, nat))
    requires RingDims(rows, cols, kr, kc)
    requires start.0 < rows && start.1 < cols && target.0 < rows && target.1 < cols
    ensures Walk(rows, cols, start, Cores(rows, cols)) == start
    ensures exists n: nat :: n < Cores(rows, cols) && Walk(rows, cols, start, n) == target
    ensures forall m: nat, n: nat | m < n < Cores(rows, cols) ::
              Walk(rows, cols, start, m) != Walk(rows, cols, start, n)
  {
    var size := Cores(rows, cols);
    var s, t := start.0 * cols + start.1, target.0 * cols + target.1;
    IndexBound(rows, cols, start.0, start.1);
    IndexBound(rows, cols, target.0, target.1);
    WalkTo(rows, cols, kr, kc, start, size);
    SameCore(cols, Walk(rows, cols, start, size), start);
    var n := if t >= s then t - s else t + size - s;
    WalkTo(rows, cols, kr, kc, start, n);
    SameCore(cols, Walk(rows, cols, start, n), target);
    forall i: nat, j: nat | i < j < size
      ensures Walk(rows, cols, start, i) != Walk(rows, cols, start, j)
    {
      WalkTo(rows, cols, kr, kc, start, i);
      WalkTo(rows, cols, kr, kc, start, j);
    }
  }

  lemma WalkTo(rows: nat, cols: nat, kr: nat, kc: nat, start: (nat, nat), n: nat)
    requires RingDims(rows, cols, kr, kc) && start.0 < rows && start.1 < cols && n <= rows * cols
    ensures var s, size, (r, c) := start.0 * cols + start.1, rows * cols, Walk(rows, cols, start, n);
            r < rows && c < cols && r * cols + c == if s + n < size then s + n else s + n - size
  {
    var s, size := start.0 * cols + start.1, rows * cols;
    IndexBound(rows, cols, start.0, start.1);
    WalkIndex(rows, cols, kr, kc, start, n);
    if s + n < size {
      DivModUnique(0, size, s + n);
    } else {
      DivModUnique(1, size, s + n - size);
    }
  }

  lemma SameCore(cols: nat, a: (nat, nat), b: (nat, nat))
    requires a.1 < cols && b.1 < cols && a.0 * cols + a.1 == b.0 * cols + b.1
    ensures a == b
  {
    DivModUnique(a.0, cols, a.1);
    DivModUnique(b.0, cols, b.1);
  }
}
