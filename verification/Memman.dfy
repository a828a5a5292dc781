/**
 The shared-memory heap manager: a first-fit allocator whose block headers lie in the
 managed bytes themselves, in front of each block. A zero-size free header ends the list.
 Offsets are relative to `mem_start`.
 */
module Memman {

  newtype Byte = x: int | 0 <= x < 256

  datatype Option<T> = None | Some(value: T)

  const WIDTH: nat := 4
  const HEADER: nat := 8
  const UINT: nat := 0x1_0000_0000

  // ----- Headers in bytes -------------------------------------------------------------

  /** The little-endian number in n bytes, and how to store one. */
  function Get(h: seq<Byte>, o: nat, n: nat): nat
    requires o + n <= |h|
    decreases n
  {
    if n == 0 then 0 else h[o] as nat + 0x100 * Get(h, o + 1, n - 1)
  }

  function Put(h: seq<Byte>, o: nat, v: nat, n: nat): (r: seq<Byte>)
    requires o + n <= |h|
    ensures |r| == |h|
    ensures forall k | 0 <= k < |h| && !(o <= k < o + n) :: r[k] == h[k]
    decreases n
  {
    if n == 0 then h else Put(h[o := (v % 0x100) as Byte], o + 1, v / 0x100, n - 1)
  }

  function Limit(n: nat): nat
  {
    if n == 0 then 1 else 0x100 * Limit(n - 1)
  }

  lemma {:induction false} GetPut(h: seq<Byte>, o: nat, v: nat, n: nat)
    requires o + n <= |h| && v < Limit(n)
    ensures Get(Put(h, o, v, n), o, n) == v
    decreases n
  {
    if n > 0 {
      var h1 := h[o := (v % 0x100) as Byte];
      GetPut(h1, o + 1, v / 0x100, n - 1);
      assert Put(h, o, v, n)[o] == h1[o];
    }
  }

  /** An `unsigned int` field of a header. */
  function U32(h: seq<Byte>, o: nat): nat
    requires o + WIDTH <= |h|
  {
    h[o] as nat + 0x100 * h[o + 1] as nat + 0x1_0000 * h[o + 2] as nat + 0x100_0000 * h[o + 3] as nat
  }

  lemma U32IsGet(h: seq<Byte>, o: nat)
    requires o + WIDTH <= |h|
    ensures U32(h, o) == Get(h, o, WIDTH)
  {
    assert Get(h, o + 3, 1) == h[o + 3] as nat;
    assert Get(h, o + 2, 2) == h[o + 2] as nat + 0x100 * Get(h, o + 3, 1);
    assert Get(h, o + 1, 3) == h[o + 1] as nat + 0x100 * Get(h, o + 2, 2);
  }

  /** `r` is `h` with the 32-bit number v stored at o. */
  ghost predicate IsPut(h: seq<Byte>, o: nat, v: nat, r: seq<Byte>)
    requires o + WIDTH <= |h|
  {
    |r| == |h| && U32(r, o) == v && forall k | 0 <= k < |h| && !(o <= k < o + WIDTH) :: r[k] == h[k]
  }

  lemma PutIsPut(h: seq<Byte>, o: nat, v: nat)
    requires o + WIDTH <= |h| && v < UINT
    ensures IsPut(h, o, v, Put(h, o, v, WIDTH))
  {
    LimitIsUint();
    GetPut(h, o, v, WIDTH);
    U32IsGet(Put(h, o, v, WIDTH), o);
  }

  lemma PutUnique(h: seq<Byte>, o: nat, v: nat, r: seq<Byte>, s: seq<Byte>)
    requires o + WIDTH <= |h| && IsPut(h, o, v, r) && IsPut(h, o, v, s)
    ensures r == s
  {
    U32IsGet(r, o);
    U32IsGet(s, o);
    GetInjective(r, s, o, WIDTH);
  }

  lemma SameDigit(a: nat, x: nat, b: nat, y: nat)
    requires a < 0x100 && b < 0x100 && a + 0x100 * x == b + 0x100 * y
    ensures a == b && x == y
  {
    assert a % 0x100 == (a + 0x100 * x) % 0x100 == (b + 0x100 * y) % 0x100 == b % 0x100;
  }

  lemma {:induction false} GetInjective(r: seq<Byte>, s: seq<Byte>, o: nat, n: nat)
    requires o + n <= |r| == |s| && Get(r, o, n) == Get(s, o, n)
    ensures forall k | o <= k < o + n :: r[k] == s[k]
    decreases n
  {
    if n > 0 {
      SameDigit(r[o] as nat, Get(r, o + 1, n - 1), s[o] as nat, Get(s, o + 1, n - 1));
      GetInjective(r, s, o + 1, n - 1);
    }
  }

  ghost function PutU32(h: seq<Byte>, o: nat, v: nat): (r: seq<Byte>)
    requires o + WIDTH <= |h| && v < UINT
    ensures IsPut(h, o, v, r)
  {
    PutIsPut(h, o, v);
    var r :| IsPut(h, o, v, r);
    r
  }

  lemma LimitIsUint()
    ensures Limit(WIDTH) == UINT
  {
    assert Limit(2) == 0x1_0000;
    assert Limit(4) == 0x100 * Limit(3);
  }

  ghost function PutHeader(h: seq<Byte>, o: nat, inUse: nat, size: nat): (r: seq<Byte>)
    requires o + HEADER <= |h| && inUse < UINT && size < UINT
    ensures |r| == |h| && U32(r, o) == inUse && U32(r, o + 4) == size
    ensures forall k | 0 <= k < |h| && !(o <= k < o + HEADER) :: r[k] == h[k]
  {
    var h1 := PutU32(h, o, inUse);
    var r := PutU32(h1, o + 4, size);
    r
  }

  /** What the two pointer walks come to. Stuck: they loop forever or leave the heap. */
  datatype Walk = Found(at: nat) | Full | Stuck

  function WalkFrom(h: seq<Byte>, need: nat, cur: nat): Walk
    decreases |h| - cur
  {
    if cur >= |h| then Full
    else if cur + HEADER > |h| then Stuck
    else
      var inUse, size := U32(h, cur), U32(h, cur + 4);
      if inUse == 0 && (size == 0 || size >= need) then Found(cur)
      else if size == 0 then Stuck
      else WalkFrom(h, need, cur + size)
  }

  function RunFrom(h: seq<Byte>, cur: nat): (r: Walk)
    ensures r.Found? ==> cur <= r.at && r.at + HEADER <= |h|
    ensures !r.Full?
    decreases |h| - cur
  {
    if cur + HEADER > |h| then Stuck
    else
      var inUse, size := U32(h, cur), U32(h, cur + 4);
      if inUse != 0 || size == 0 then Found(cur) else RunFrom(h, cur + size)
  }

  /** Memory after `memman_alloc` has taken the block at f. */
  ghost function Taken(h: seq<Byte>, f: nat, need: nat): seq<Byte>
    requires f + HEADER <= |h|
  {
    PutHeader(h, f, 1, need % 0x1_0000_0000)
  }

  lemma LowByte(b: nat, x: nat)
    requires b < 0x100
    ensures (b + 0x100 * x) % 0x100 == b && (b + 0x100 * x) / 0x100 == x
  {
  }

  lemma BytesOf(h: seq<Byte>, o: nat, v: nat)
    requires o + WIDTH <= |h| && U32(h, o) == v
    ensures h[o] as nat == v % 0x100 && h[o + 1] as nat == v / 0x100 % 0x100
    ensures h[o + 2] as nat == v / 0x100 / 0x100 % 0x100 && h[o + 3] as nat == v / 0x100 / 0x100 / 0x100
  {
    var b0, b1, b2, b3 := h[o] as nat, h[o + 1] as nat, h[o + 2] as nat, h[o + 3] as nat;
    LowByte(b0, b1 + 0x100 * (b2 + 0x100 * b3));
    LowByte(b1, b2 + 0x100 * b3);
    LowByte(b2, b3);
  }

  /** The header of a taken block, byte by byte: the flag, then the size, lowest byte first. */
  lemma TakenHeader(h: seq<Byte>, f: nat, need: nat)
    requires f + HEADER <= |h| && need < UINT
    ensures var r := Taken(h, f, need);
      && |r| == |h| && r[f] == 1 && r[f + 1] == 0 && r[f + 2] == 0 && r[f + 3] == 0
      && r[f + 4] as nat == need % 0x100 && r[f + 5] as nat == need / 0x100 % 0x100
      && r[f + 6] as nat == need / 0x100 / 0x100 % 0x100 && r[f + 7] as nat == need / 0x100 / 0x100 / 0x100
  {
    BytesOf(Taken(h, f, need), f, 1);
    BytesOf(Taken(h, f, need), f + 4, need);
  }

  /** The walk of `memman_free` at o stays inside the heap. */
  ghost predicate CanFree(h: seq<Byte>, o: nat)
  {
    o + HEADER <= |h| < UINT && RunFrom(PutU32(h, o, 0), o).Found?
  }

  /** Memory after `memman_free` of the block at o. */
  ghost function Released(h: seq<Byte>, o: nat): seq<Byte>
    requires CanFree(h, o)
  {
    var h1 := PutU32(h, o, 0);
    PutU32(h1, o + 4, RunFrom(h1, o).at - o)
  }

  lemma RunStep(h: seq<Byte>, p: nat)
    requires RunFrom(h, p).Found? && p + HEADER <= |h| && U32(h, p) == 0 && U32(h, p + 4) != 0
    ensures RunFrom(h, p + U32(h, p + 4)) == RunFrom(h, p)
    ensures p + U32(h, p + 4) + HEADER <= |h|
  {
  }

  lemma NoWrap(x: nat)
    requires x < UINT
    ensures x % 0x1_0000_0000 == x
  {
  }

  /** The bytes a request needs with its header, added in a 32-bit `size_t`. */
  function Need(size: nat): nat
  {
    (size + HEADER) % 0x1_0000_0000
  }

  lemma NeedFits(size: nat)
    requires size + HEADER < UINT
    ensures Need(size) == size + HEADER
  {
  }

  lemma U32Bound(h: seq<Byte>, o: nat)
    requires o + WIDTH <= |h|
    ensures U32(h, o) < UINT
  {
  }

  // ----- The program ------------------------------------------------------------------

  class MemManager {
    var initialized: bool
    var mem: array<Byte>

    constructor ()
      ensures !initialized && fresh(mem)
    {
      initialized := false;
      mem := new Byte[0];
    }

    /** `memman_init`: -1 for a null or empty region, else the region is zeroed and managed. */
    method Init(start: array?<Byte>) returns (rc: int)
      modifies this, start
      ensures rc == if start == null || start.Length == 0 then -1 else 0
      ensures rc == 0 ==> initialized && mem == start && forall k | 0 <= k < mem.Length :: mem[k] == 0
      ensures rc != 0 ==> initialized == old(initialized) && mem == old(mem)
    {
      if start == null || start.Length == 0 {
        return -1;
      }
      mem := start;
      var k := 0;
      while k < start.Length
        invariant 0 <= k <= start.Length && mem == start
        invariant forall i | 0 <= i < k :: start[i] == 0
      {
        start[k] := 0;
        k := k + 1;
      }
      initialized := true;
      return 0;
    }

    method ReadU32(o: nat) returns (v: nat)
      requires o + WIDTH <= mem.Length
      ensures v == U32(mem[..], o)
    {
      v := mem[o] as nat + 0x100 * mem[o + 1] as nat + 0x1_0000 * mem[o + 2] as nat
           + 0x100_0000 * mem[o + 3] as nat;
    }

    method WriteU32(o: nat, v: nat)
      requires o + WIDTH <= mem.Length && v < UINT
      modifies mem
      ensures mem[..] == PutU32(old(mem[..]), o, v)
    {
      var rest := v;
      for k := 0 to WIDTH
        invariant Put(mem[..], o + k, rest, WIDTH - k) == Put(old(mem[..]), o, v, WIDTH)
      {
        assert mem[..][o + k := (rest % 0x100) as Byte] == mem[..o + k] + [(rest % 0x100) as Byte] + mem[o + k + 1..];
        mem[o + k] := (rest % 0x100) as Byte;
        rest := rest / 0x100;
      }
      PutIsPut(old(mem[..]), o, v);
      PutUnique(old(mem[..]), o, v, mem[..], PutU32(old(mem[..]), o, v));
    }

    /** `memman_alloc`: the offset of the payload, or nothing when the list is exhausted. */
    method Alloc(size: nat) returns (r: Option<nat>)
      requires initialized ==> WalkFrom(mem[..], Need(size), 0) != Stuck
      modifies mem
      ensures !initialized ==> r == None && mem[..] == old(mem[..])
      ensures initialized ==>
                match WalkFrom(old(mem[..]), Need(size), 0)
                case Found(f) =>
                  f + HEADER <= mem.Length && r == Some(f + HEADER)
                  && mem[..] == Taken(old(mem[..]), f, Need(size))
                case _ => r == None && mem[..] == old(mem[..])
    {
      var need := (size + HEADER) % 0x1_0000_0000;
      var current := 0;
      if !initialized {
        return None;
      }
      while current < mem.Length
        invariant mem[..] == old(mem[..])
        invariant WalkFrom(mem[..], need, current) == WalkFrom(mem[..], need, 0) != Stuck
        decreases mem.Length - current
      {
        var inUse := ReadU32(current);
        var chunk := ReadU32(current + 4);
        if inUse == 0 {
          if chunk == 0 || chunk >= need {
            WriteU32(current, 1);
            WriteU32(current + 4, need % 0x1_0000_0000);
            return Some(current + HEADER);
          }
        }
        current := current + chunk;
      }
      return None;
    }

    /** The loop of `coalesce`: the bytes of the free blocks that lie in a row from mcb on. */
    method FreeSpace(mcb: nat) returns (space: nat)
      requires mem.Length < UINT && RunFrom(mem[..], mcb).Found?
      ensures space == RunFrom(mem[..], mcb).at - mcb
    {
      ghost var h := mem[..];
      ghost var end := RunFrom(h, mcb);
      var p := mcb;
      space := 0;
      var inUse := ReadU32(p);
      var chunk := ReadU32(p + 4);
      while inUse == 0 && chunk != 0
        invariant p + HEADER <= |h| && inUse == U32(h, p) && chunk == U32(h, p + 4)
        invariant RunFrom(h, p) == end && space == p - mcb
        decreases |h| - p
      {
        RunStep(h, p);
        NoWrap(space + chunk);
        p, space := p + chunk, (space + chunk) % 0x1_0000_0000;
        inUse := ReadU32(p);
        chunk := ReadU32(p + 4);
      }
    }

    /** `coalesce`: absorb the free blocks that follow; only the size field at mcb changes. */
    method Coalesce(mcb: nat)
      requires mem.Length < UINT && RunFrom(mem[..], mcb).Found?
      modifies mem
      ensures mem[..] == PutU32(old(mem[..]), mcb + 4, RunFrom(old(mem[..]), mcb).at - mcb)
    {
      var space := FreeSpace(mcb);
      WriteU32(mcb + 4, space);
    }

    /** `memman_free` of a payload offset. */
    method Free(ptr: nat)
      requires HEADER <= ptr && CanFree(mem[..], ptr - HEADER)
      modifies mem
      ensures mem[..] == Released(old(mem[..]), ptr - HEADER)
    {
      var mcb := ptr - HEADER;
      ghost var h := mem[..];
      WriteU32(mcb, 0);
      assert mem[..] == PutU32(h, mcb, 0);
      Coalesce(mcb);
    }
  }
}
