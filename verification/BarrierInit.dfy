/** `e_barrier_init`: the target pointers, and that they are the ones the barrier needs. */
module BarrierInit {
  import opened Arith
  import opened CoreId
  import opened Barrier

  /** Where byte `slot` of core number `core`'s `bar_array` (at private address `base`) is. */
  function BarAddress(g: Group, base: int, core: nat, slot: nat): int
    requires g.cols > 0
  {
    HomeAddress(g, core, base + slot)
  }

  /** Fill this core's `tgt_bar_array`. The array of slots is not touched. */
  method BarrierInit(g: Group, row: nat, col: nat, base: int, tgt: array<int>)
    requires OnMesh(g) && row < g.rows && col < g.cols
    requires 0 <= base && base + g.rows * g.cols <= LOCAL_SPACE
    requires tgt.Length >= g.rows * g.cols
    modifies tgt
    ensures CoreAt(g, row, col) == 0 ==>
              forall k | 0 <= k < g.rows * g.cols :: tgt[k] == BarAddress(g, base, k, 0)
    ensures CoreAt(g, row, col) != 0 ==>
              tgt.Length > 0 && tgt[0] == BarAddress(g, base, 0, CoreAt(g, row, col))
    ensures forall k | g.rows * g.cols <= k < tgt.Length :: tgt[k] == old(tgt[k])
    ensures CoreAt(g, row, col) != 0 ==> forall k | 1 <= k < tgt.Length :: tgt[k] == old(tgt[k])
  {
    var self := (row * 0x40 + col + g.id) % WORD;
    var corenum := row * g.cols + col;
    CoreCoordinates(g, row, col);
    if corenum == 0 {
      var i := 0;
      while i < g.rows
        invariant 0 <= i <= g.rows && corenum == i * g.cols <= g.rows * g.cols
        invariant forall k | 0 <= k < corenum :: tgt[k] == BarAddress(g, base, k, 0)
        invariant forall k | g.rows * g.cols <= k < tgt.Length :: tgt[k] == old(tgt[k])
      {
        var j := 0;
        MulMonotone(i + 1, g.rows, g.cols);
        MulDistribute(i, 1, g.cols);
        while j < g.cols
          invariant 0 <= j <= g.cols && corenum == i * g.cols + j <= g.rows * g.cols
          invariant forall k | 0 <= k < corenum :: tgt[k] == BarAddress(g, base, k, 0)
          invariant forall k | g.rows * g.cols <= k < tgt.Length :: tgt[k] == old(tgt[k])
        {
          GlobalAddressIsHome(g, self, i, j, base);
          tgt[corenum] := GlobalAddress(g, self, i, j, base);
          corenum := corenum + 1;
          j := j + 1;
        }
        i := i + 1;
      }
    } else {
      GlobalAddressIsHome(g, self, 0, 0, base + corenum);
      tgt[0] := GlobalAddress(g, self, 0, 0, base + corenum);
    }
  }

  /** The byte of some core's `bar_array` that a target pointer designates. */
  function Target(g: Group, base: int, addr: int): Cell
    requires g.cols > 0
  {
    var (core, ptr) := Locate(g, addr);
    Cell(if core < 0 then 0 else core, if ptr < base then 0 else ptr - base)
  }

  /** The pointer tables `e_barrier_init` leaves on all the cores. */
  ghost predicate Initialised(g: Group, base: int, tables: seq<seq<int>>)
    requires OnMesh(g)
  {
    var n := g.rows * g.cols;
    && |tables| == n
    && (forall c | 0 <= c < n :: |tables[c]| == n)
    && (forall k | 0 <= k < n :: tables[0][k] == BarAddress(g, base, k, 0))
    && (forall c | 1 <= c < n :: tables[c][0] == BarAddress(g, base, 0, c))
  }

  function Targets(g: Group, base: int, table: seq<int>): (r: seq<Cell>)
    requires g.cols > 0
  {
    seq(|table|, k requires 0 <= k < |table| => Target(g, base, table[k]))
  }

  /** What a pointer set by `BarrierInit` designates. */
  lemma TargetOfBarAddress(g: Group, base: int, core: nat, slot: nat)
    requires OnMesh(g) && core < g.rows * g.cols && 0 <= base && base + slot < LOCAL_SPACE
    ensures Target(g, base, BarAddress(g, base, core, slot)) == Cell(core, slot)
  {
    CoreSplit(g, core);
    GlobalAddressIsHome(g, 0, core / g.cols, core % g.cols, base + slot);
  }

  /** Initialisation on every core wires the barrier: the machine's starting condition. */
  lemma InitWires(g: Group, base: int, tables: seq<seq<int>>)
    requires OnMesh(g) && 0 <= base && base + g.rows * g.cols <= LOCAL_SPACE
    requires Initialised(g, base, tables)
    ensures var n := g.rows * g.cols;
            n > 0 && Wired(Config(n, seq(n, c requires 0 <= c < n => Targets(g, base, tables[c]))))
  {
    var n := g.rows * g.cols;
    MulMonotone(1, g.rows, g.cols);
    forall k | 0 <= k < n ensures Targets(g, base, tables[0])[k] == Cell(k, 0) {
      TargetOfBarAddress(g, base, k, 0);
    }
    forall c | 1 <= c < n ensures Targets(g, base, tables[c])[0] == Cell(0, c) {
      TargetOfBarAddress(g, base, 0, c);
    }
  }
}
