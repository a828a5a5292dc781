/**
 The table of named, reference-counted shared-memory regions: the host's allocate, attach and
 release under the table lock, and the lookup the Epiphany cores make on the same table.
 */
module ShmTable {
  import Memman
  import RspFraming

  type Byte = RspFraming.Byte
  type Chars = seq<Byte>

  const MAX_SHM_REGIONS: nat := 64
  const NAME_SIZE: nat := 256
  const UINT: nat := 0x1_0000_0000

  // ----- C strings ---------------------------------------------------------------------

  function StrLen(s: Chars, i: nat): (n: nat)
    requires i <= |s|
    ensures i <= n <= |s| && (n < |s| ==> s[n] == 0) && forall k | i <= k < n :: s[k] != 0
    decreases |s| - i
  {
    if i == |s| || s[i] == 0 then i else StrLen(s, i + 1)
  }

  predicate Terminated(s: Chars)
  {
    StrLen(s, 0) < |s|
  }

  /** The string in a NUL-terminated buffer. */
  function Str(s: Chars): Chars
  {
    s[..StrLen(s, 0)]
  }

  /** `strncpy` of a whole name field: cut off or padded with NULs. */
  function StrNCpy(src: Chars): (r: Chars)
    ensures |r| == 256
  {
    var n := StrLen(src, 0);
    seq(NAME_SIZE, i requires 0 <= i < NAME_SIZE => if i < n then src[i] else 0)
  }

  lemma StrLenIs(s: Chars, i: nat, n: nat)
    requires i <= n < |s| && s[n] == 0 && forall k | i <= k < n :: s[k] != 0
    ensures StrLen(s, i) == n
    decreases n - i
  {
    if i < n { StrLenIs(s, i + 1, n); }
  }

  lemma StrNCpyKeepsName(src: Chars)
    requires StrLen(src, 0) < NAME_SIZE
    ensures Terminated(StrNCpy(src)) && Str(StrNCpy(src)) == Str(src)
  {
    StrLenIs(StrNCpy(src), 0, StrLen(src, 0));
  }

  /** Equal strings have equal bytes up to and including the NUL. */
  lemma SameStr(a: Chars, b: Chars)
    requires Terminated(a) && Terminated(b)
    ensures Str(a) == Str(b) <==> StrLen(a, 0) == StrLen(b, 0) && forall k | 0 <= k < StrLen(a, 0) :: a[k] == b[k]
  {
    if Str(a) == Str(b) {
      assert |Str(a)| == |Str(b)|;
      forall k | 0 <= k < StrLen(a, 0) ensures a[k] == b[k] { assert Str(a)[k] == Str(b)[k]; }
    }
  }

  /** The first place where two strings differ. */
  function FirstDiff(a: Chars, b: Chars, i: nat): (k: nat)
    requires i <= |a| && i <= |b|
    ensures i <= k <= |a| && k <= |b| && forall j | i <= j < k :: a[j] == b[j]
    decreases |a| - i
  {
    if i == |a| || i == |b| || a[i] != b[i] then i else FirstDiff(a, b, i + 1)
  }

  /** The comparison loop of the device. */
  method EStrCmp(a: Chars, b: Chars) returns (r: int)
    requires Terminated(a) && Terminated(b)
    ensures r == 0 <==> Str(a) == Str(b)
    ensures r != 0 ==> var k := FirstDiff(a, b, 0); k < |a| && k < |b| && r == if a[k] > b[k] then 1 else -1
  {
    var i := 0;
    while a[i] != 0 || b[i] != 0
      invariant 0 <= i <= StrLen(a, 0) && i <= StrLen(b, 0)
      invariant forall k | 0 <= k < i :: a[k] == b[k]
      invariant FirstDiff(a, b, 0) == FirstDiff(a, b, i)
      decreases |a| - i
    {
      SameStr(a, b);
      if a[i] > b[i] { return 1; }
      if a[i] < b[i] { return -1; }
      i := i + 1;
    }
    SameStr(a, b);
    r := 0;
  }

  // ----- The table ---------------------------------------------------------------------

  /** `offset` is the block's distance from the table, `paddr` its address as the cores see it. */
  datatype Region = Region(valid: nat, refcnt: nat, name: Chars, addr: nat, size: nat, offset: int, paddr: int)

  type Regions = seq<Region>

  /** Where the table lies for the host program, for the host's bus and for the cores, and its size. */
  datatype Placement = Placement(tbl: int, paddrCpu: int, paddrEpi: int, size: nat)

  /** The table and the memory blocks handed out for it and not given back. */
  datatype State = State(t: Regions, live: set<nat>, at: Placement)

  predicate Named(r: Region, s: Chars)
  {
    r.valid != 0 && Str(r.name) == s
  }

  /** The host's scan: the first valid region of that name, or the number of regions. */
  function Lookup(t: Regions, s: Chars, i: nat): (k: nat)
    requires i <= |t|
    ensures i <= k <= |t| && (k < |t| ==> Named(t[k], s)) && forall j | i <= j < k :: !Named(t[j], s)
    decreases |t| - i
  {
    if i == |t| || Named(t[i], s) then i else Lookup(t, s, i + 1)
  }

  function FreeSlot(t: Regions, i: nat): (k: nat)
    requires i <= |t|
    ensures i <= k <= |t| && (k < |t| ==> t[k].valid == 0) && forall j | i <= j < k :: t[j].valid != 0
    decreases |t| - i
  {
    if i == |t| || t[i].valid == 0 then i else FreeSlot(t, i + 1)
  }

  /** References to the region of a name; none if there is no such region. */
  function Count(t: Regions, s: Chars): nat
  {
    var i := Lookup(t, s, 0);
    if i < |t| then t[i].refcnt else 0
  }

  ghost predicate SoundRegion(st: State, i: nat)
  {
    i < |st.t| ==>
      var r := st.t[i];
      r.valid <= 1 && r.refcnt < UINT && |r.name| == NAME_SIZE
      && (r.valid == 1 ==> Terminated(r.name) && r.refcnt > 0 && r.addr in st.live)
      && (r.valid == 1 ==> r.offset == r.addr - st.at.tbl && r.paddr == st.at.paddrEpi + r.offset)
  }

  ghost predicate Distinct(t: Regions, i: nat, j: nat)
  {
    i < |t| && j < |t| && i != j && t[i].valid == 1 && t[j].valid == 1 ==>
      Str(t[i].name) != Str(t[j].name) && t[i].addr != t[j].addr
  }

  /** Valid regions have distinct names and blocks and positive counts, and exactly their blocks are live. */
  ghost predicate Inv(st: State)
  {
    && (forall i {:trigger SoundRegion(st, i)} :: SoundRegion(st, i))
    && (forall i, j {:trigger Distinct(st.t, i, j)} :: Distinct(st.t, i, j))
    && forall a {:trigger Owned(st.t, a)} | a in st.live :: Owned(st.t, a)
  }

  ghost predicate Owned(t: Regions, a: nat)
  {
    exists i :: 0 <= i < |t| && t[i].valid == 1 && t[i].addr == a
  }

  lemma CountAt(st: State, s: Chars, i: nat)
    requires Inv(st) && i < |st.t| && Named(st.t[i], s)
    ensures Lookup(st.t, s, 0) == i && Count(st.t, s) == st.t[i].refcnt > 0
  {
    var k := Lookup(st.t, s, 0);
    assert SoundRegion(st, i) && SoundRegion(st, k) && Distinct(st.t, i, k);
  }

  /** A region of that name exists exactly when its count is positive. */
  lemma CountIsPositive(st: State, s: Chars)
    requires Inv(st)
    ensures Count(st.t, s) > 0 <==> Lookup(st.t, s, 0) < |st.t|
    ensures Count(st.t, s) < UINT
  {
    var k := Lookup(st.t, s, 0);
    assert SoundRegion(st, k);
  }

  /** Changing one region changes the counts of at most its old and its new name. */
  lemma CountElsewhere(st: State, st': State, i: nat, s: Chars)
    requires Inv(st) && Inv(st') && i < |st.t| == |st'.t| && !Named(st.t[i], s) && !Named(st'.t[i], s)
    requires forall j | 0 <= j < |st.t| && j != i :: st'.t[j] == st.t[j]
    ensures Count(st'.t, s) == Count(st.t, s)
  {
    var k := Lookup(st.t, s, 0);
    if k < |st.t| {
      CountAt(st', s, k);
    } else {
      forall j | 0 <= j < |st.t| ensures !Named(st'.t[j], s) { assert !Named(st.t[j], s); }
    }
  }

  // ----- Operations --------------------------------------------------------------------

  /** The scan has found the free slot i, and memman answers `block` (0 if it has no room). */
  function AllocAt(st: State, i: nat, name: Chars, size: nat, block: nat): State
    requires i < |st.t|
  {
    var r := st.t[i].(name := StrNCpy(name), addr := block);
    if block == 0 then st.(t := st.t[i := r])
    else
      var offset := block - st.at.tbl;
      var r' := r.(size := size, valid := 1, refcnt := 1, offset := offset, paddr := st.at.paddrEpi + offset);
      st.(t := st.t[i := r'], live := st.live + {block})
  }

  function AttachAt(st: State, i: nat): State
    requires i < |st.t|
  {
    st.(t := st.t[i := st.t[i].(refcnt := (st.t[i].refcnt + 1) % UINT)])
  }

  function ReleaseAt(st: State, i: nat): State
    requires i < |st.t|
  {
    var r := st.t[i].(refcnt := (st.t[i].refcnt + UINT - 1) % UINT);
    if r.refcnt == 0 then st.(t := st.t[i := r.(valid := 0)], live := st.live - {r.addr})
    else st.(t := st.t[i := r])
  }

  /** A name the operations are meant for: a NUL-terminated string that fits the name field. */
  predicate GoodName(name: Chars)
  {
    Terminated(name) && StrLen(name, 0) < NAME_SIZE
  }

  lemma AllocKeeps(st: State, i: nat, name: Chars, size: nat, block: nat)
    requires Inv(st) && GoodName(name) && Lookup(st.t, Str(name), 0) == |st.t|
    requires i < |st.t| && st.t[i].valid == 0 && (block != 0 ==> block !in st.live)
    ensures var st' := AllocAt(st, i, name, size, block);
      && Inv(st')
      && Count(st'.t, Str(name)) == (if block == 0 then 0 else 1)
      && (block != 0 ==>
            var k := Lookup(st'.t, Str(name), 0); k == i && st'.t[k].addr == block && st'.t[k].size == size)
      && (block == 0 ==> st'.live == st.live && st'.t[i].addr == 0 && Str(st'.t[i].name) == Str(name))
      && forall s | s != Str(name) :: Count(st'.t, s) == Count(st.t, s)
  {
    var st' := AllocAt(st, i, name, size, block);
    StrNCpyKeepsName(name);
    forall k: nat ensures SoundRegion(st', k) { assert SoundRegion(st, k); }
    forall j: nat, k: nat ensures Distinct(st'.t, j, k) {
      assert Distinct(st.t, j, k) && SoundRegion(st, j) && SoundRegion(st, k);
    }
    forall a | a in st'.live ensures Owned(st'.t, a) {
      if a in st.live {
        assert Owned(st.t, a);
        var k :| 0 <= k < |st.t| && st.t[k].valid == 1 && st.t[k].addr == a;
        assert st'.t[k].valid == 1 && st'.t[k].addr == a;
      } else {
        assert st'.t[i].valid == 1 && st'.t[i].addr == a;
      }
    }
    forall s | s != Str(name) ensures Count(st'.t, s) == Count(st.t, s) { CountElsewhere(st, st', i, s); }
    if block != 0 {
      CountAt(st', Str(name), i);
    } else {
      CountElsewhere(st, st', i, Str(name));
    }
  }

  /** Attaching keeps the table sound exactly unless the 32-bit count wraps round to zero. */
  lemma AttachKeeps(st: State, s: Chars)
    requires Inv(st) && Lookup(st.t, s, 0) < |st.t|
    ensures var st' := AttachAt(st, Lookup(st.t, s, 0));
      && (Inv(st') <==> Count(st.t, s) < 0xffff_ffff)
      && (Inv(st') ==> Count(st'.t, s) == Count(st.t, s) + 1 && forall u | u != s :: Count(st'.t, u) == Count(st.t, u))
  {
    var i := Lookup(st.t, s, 0);
    var st' := AttachAt(st, i);
    assert SoundRegion(st, i);
    if Inv(st') {
      assert SoundRegion(st', i);
    }
    if Count(st.t, s) < UINT - 1 {
      forall k: nat ensures SoundRegion(st', k) { assert SoundRegion(st, k); }
      forall j: nat, k: nat ensures Distinct(st'.t, j, k) { assert Distinct(st.t, j, k); }
      forall a | a in st'.live ensures Owned(st'.t, a) {
        assert Owned(st.t, a);
        var k :| 0 <= k < |st.t| && st.t[k].valid == 1 && st.t[k].addr == a;
        assert st'.t[k].valid == 1 && st'.t[k].addr == a;
      }
      CountAt(st', s, i);
      forall u | u != s ensures Count(st'.t, u) == Count(st.t, u) { CountElsewhere(st, st', i, u); }
    }
  }

  lemma ReleaseInv(st: State, s: Chars)
    requires Inv(st) && Lookup(st.t, s, 0) < |st.t|
    ensures Inv(ReleaseAt(st, Lookup(st.t, s, 0)))
  {
    var i := Lookup(st.t, s, 0);
    var st' := ReleaseAt(st, i);
    assert SoundRegion(st, i);
    forall k: nat ensures SoundRegion(st', k) { assert SoundRegion(st, k) && Distinct(st.t, i, k); }
    forall j: nat, k: nat ensures Distinct(st'.t, j, k) { assert Distinct(st.t, j, k); }
    forall a | a in st'.live ensures Owned(st'.t, a) {
      assert Owned(st.t, a);
      var k :| 0 <= k < |st.t| && st.t[k].valid == 1 && st.t[k].addr == a;
      assert st'.t[k].valid == 1 && st'.t[k].addr == a;
    }
  }

  lemma ReleaseCount(st: State, s: Chars)
    requires Inv(st) && Lookup(st.t, s, 0) < |st.t|
    requires Inv(ReleaseAt(st, Lookup(st.t, s, 0)))
    ensures Count(ReleaseAt(st, Lookup(st.t, s, 0)).t, s) == Count(st.t, s) - 1
  {
    var i := Lookup(st.t, s, 0);
    var st' := ReleaseAt(st, i);
    assert SoundRegion(st, i);
    if Count(st.t, s) > 1 {
      CountAt(st', s, i);
    } else {
      var k := Lookup(st'.t, s, 0);
      if k < |st.t| { CountAt(st, s, k); }
    }
  }

  /** Releasing gives the block back exactly when the last reference goes, and then only its own. */
  lemma ReleaseKeeps(st: State, s: Chars)
    requires Inv(st) && Lookup(st.t, s, 0) < |st.t|
    ensures var st' := ReleaseAt(st, Lookup(st.t, s, 0));
      && Inv(st') && Count(st'.t, s) == Count(st.t, s) - 1 && (forall u | u != s :: Count(st'.t, u) == Count(st.t, u))
      && st.t[Lookup(st.t, s, 0)].addr in st.live
      && st'.live == if Count(st.t, s) == 1 then st.live - {st.t[Lookup(st.t, s, 0)].addr} else st.live
  {
    var i := Lookup(st.t, s, 0);
    var st' := ReleaseAt(st, i);
    ReleaseInv(st, s);
    ReleaseCount(st, s);
    assert SoundRegion(st, i);
    forall u | u != s ensures Count(st'.t, u) == Count(st.t, u) { CountElsewhere(st, st', i, u); }
  }

  /** A region with as many references as the counter holds loses them all to one more. */
  lemma AttachWraps(st: State)
    requires st.t == [Region(1, UINT - 1, StrNCpy([0x61, 0]), 8, 1, 8, 8)] && st.live == {8}
    requires st.at == Placement(0, 0, 0, 8)
    ensures Inv(st) && Lookup(st.t, [0x61], 0) == 0 && Count(AttachAt(st, 0).t, [0x61]) == 0 && !Inv(AttachAt(st, 0))
  {
    StrLenIs([0x61, 0], 0, 1);
    StrNCpyKeepsName([0x61, 0]);
    assert Str([0x61, 0]) == [0x61];
    assert st.t[0].valid == 1 && st.t[0].addr == 8;
    assert Owned(st.t, 8);
    forall i: nat ensures SoundRegion(st, i) { }
    AttachKeeps(st, [0x61]);
    var t := AttachAt(st, 0).t;
    assert Named(t[0], [0x61]);
  }

  // ----- Descriptors -------------------------------------------------------------------

  /** What a host program is told about the region's memory. */
  datatype Buffer = Buffer(phyBase: int, ephyBase: int, pageOffset: int, mapSize: nat,
                           mappedBase: int, base: int, emapSize: nat)

  function AllocBuffer(at: Placement, r: Region): Buffer
  {
    Buffer(at.paddrCpu, at.paddrEpi, r.offset, r.size, at.tbl, at.tbl + r.offset, r.size)
  }

  /** Attaching counts the table's size into the physical bases, allocating does not. */
  function AttachBuffer(at: Placement, r: Region): Buffer
  {
    Buffer(at.paddrCpu + at.size, at.paddrEpi + at.size, r.offset, r.size, at.tbl, at.tbl + r.offset, r.size)
  }

  /** What a core is told by its own attach call. */
  datatype DeviceBuffer = DeviceBuffer(phyBase: int, ephyBase: int, size: nat)

  function AttachOnDevice(at: Placement, r: Region): DeviceBuffer
  {
    DeviceBuffer(at.paddrCpu + r.offset, r.paddr, r.size)
  }

  /**
   Allocating and attaching give a host program the same memory, that of the region's block. The
   physical address a core is given is that of the allocating host program; an attaching one gets it
   exactly if the table takes no room.
   */
  lemma BuffersAgree(st: State, i: nat)
    requires Inv(st) && i < |st.t| && st.t[i].valid == 1
    ensures var r := st.t[i];
      var alloc, attach, device := AllocBuffer(st.at, r), AttachBuffer(st.at, r), AttachOnDevice(st.at, r);
      && alloc.base == attach.base == r.addr && alloc.mapSize == attach.mapSize == device.size == r.size
      && alloc.emapSize == attach.emapSize == r.size && alloc.mappedBase == attach.mappedBase == st.at.tbl
      && alloc.mappedBase + alloc.pageOffset == alloc.base && attach.mappedBase + attach.pageOffset == attach.base
      && alloc.phyBase == st.at.paddrCpu && alloc.ephyBase == st.at.paddrEpi
      && attach.phyBase - alloc.phyBase == attach.ephyBase - alloc.ephyBase == st.at.size
      && device.phyBase == alloc.phyBase + alloc.pageOffset && device.ephyBase == alloc.ephyBase + alloc.pageOffset
      && (device.phyBase == attach.phyBase + attach.pageOffset <==> st.at.size == 0)
      && (device.ephyBase == attach.ephyBase + attach.pageOffset <==> st.at.size == 0)
  {
    assert SoundRegion(st, i);
  }

  // ----- The table in memory -----------------------------------------------------------

  datatype Status = E_OK | EINVAL | EEXIST | ENOMEM | E_ERR

  const SHM_MAGIC: nat := 0xabcdef00

  class Table {
    const regions: array<Region>
    var initialized: bool
    var magic: nat
    const at: Placement
    ghost var live: set<nat>

    /** The table that the driver has cleared. */
    constructor (at: Placement)
      ensures this.at == at && fresh(regions) && regions.Length == 64 && magic == 0xabcdef00
      ensures Sane() && Now().live == {} && Inv(Now())
      ensures forall s :: Count(Now().t, s) == 0
    {
      regions := new Region[MAX_SHM_REGIONS](_ => Region(0, 0, seq(NAME_SIZE, _ => 0), 0, 0, 0, 0));
      initialized, magic, live := true, SHM_MAGIC, {};
      this.at := at;
      new;
      forall i: nat ensures SoundRegion(Now(), i) { }
      forall i: nat, j: nat ensures Distinct(Now().t, i, j) { }
    }

    ghost function Now(): State
      reads this, regions
    {
      State(regions[..], live, at)
    }

    predicate Sane()
      reads this
    {
      initialized && magic == SHM_MAGIC
    }

    method LookupRegion(name: Chars) returns (i: nat)
      ensures i == Lookup(regions[..], Str(name), 0)
    {
      i := 0;
      while i < regions.Length && !(regions[i].valid != 0 && Str(regions[i].name) == Str(name))
        invariant 0 <= i <= regions.Length
        invariant Lookup(regions[..], Str(name), 0) == Lookup(regions[..], Str(name), i)
      {
        i := i + 1;
      }
    }

    /** The lookup of the device: it never writes, and asks for a valid flag of exactly 1. */
    method DeviceLookup(name: Chars) returns (i: nat)
      requires Inv(Now()) && Terminated(name)
      ensures i == Lookup(regions[..], Str(name), 0)
    {
      i := 0;
      var found := false;
      while i < regions.Length && !found
        invariant 0 <= i <= regions.Length
        invariant Lookup(regions[..], Str(name), 0) == Lookup(regions[..], Str(name), i)
        invariant found ==> i < regions.Length && Named(regions[i], Str(name))
        decreases regions.Length - i, !found
      {
        assert SoundRegion(Now(), i) && Now().t[i] == regions[i];
        if regions[i].valid == 1 {
          var c := EStrCmp(name, regions[i].name);
          found := c == 0;
        }
        if !found { i := i + 1; }
      }
    }

    /** Takes the first free slot; `block` is what memman answers if asked, 0 for no room. */
    method AllocRegion(name: Chars, size: nat, block: nat) returns (i: nat)
      modifies this, regions
      ensures var k := FreeSlot(old(Now().t), 0);
        && Now() == (if k < regions.Length then AllocAt(old(Now()), k, name, size, block) else old(Now()))
        && i == (if block == 0 then regions.Length else k)
      ensures initialized == old(initialized) && magic == old(magic)
    {
      i := 0;
      while i < regions.Length && regions[i].valid != 0
        invariant 0 <= i <= regions.Length
        invariant FreeSlot(regions[..], 0) == FreeSlot(regions[..], i)
      {
        i := i + 1;
      }
      if i == regions.Length { return; }
      regions[i] := regions[i].(name := StrNCpy(name), addr := block);
      if block == 0 {
        assert Now().t == old(Now().t)[i := regions[i]];
        return regions.Length;
      }
      live := live + {block};
      var offset := block - at.tbl;
      regions[i] := regions[i].(offset := offset, paddr := at.paddrEpi + offset, size := size, valid := 1, refcnt := 1);
      assert Now().t == old(Now().t)[i := regions[i]];
    }

    /** `given` says that both pointers are; `mapped` is what the target makes of the new descriptor. */
    method Alloc(given: bool, name: Chars, size: nat, block: nat, mapped: Status)
      returns (status: Status, mbuf: Memman.Option<Buffer>)
      requires GoodName(name) && Inv(Now()) && block !in live
      modifies this, regions
      ensures Inv(Now())
      ensures forall u | u != Str(name) :: Count(Now().t, u) == old(Count(Now().t, u))
      ensures if !given || size == 0 || !old(Sane()) then status == EINVAL && Now() == old(Now()) && mbuf.None?
              else if Count(old(Now().t), Str(name)) > 0 then status == EEXIST && Now() == old(Now()) && mbuf.None?
              else if FreeSlot(old(Now().t), 0) == regions.Length || block == 0 then
                status == ENOMEM && Count(Now().t, Str(name)) == 0 && live == old(live) && mbuf.None?
              else
                var k := Lookup(Now().t, Str(name), 0);
                && status == mapped && Count(Now().t, Str(name)) == 1 && live == old(live) + {block}
                && k < |Now().t| && Now().t[k].addr == block && mbuf == Memman.Some(AllocBuffer(at, Now().t[k]))
    {
      ghost var st := Now();
      mbuf := Memman.None;
      if !given || size == 0 { return EINVAL, mbuf; }
      if !Sane() { return EINVAL, mbuf; }
      CountIsPositive(st, Str(name));
      var found := LookupRegion(name);
      if found < regions.Length { return EEXIST, mbuf; }
      var i := AllocRegion(name, size, block);
      var k := FreeSlot(st.t, 0);
      if k < |st.t| { AllocKeeps(st, k, name, size, block); }
      if i == regions.Length { return ENOMEM, mbuf; }
      mbuf := Memman.Some(AllocBuffer(at, regions[i]));
      status := mapped;
    }

    method Attach(given: bool, name: Chars, mapped: Status) returns (status: Status, mbuf: Memman.Option<Buffer>)
      modifies regions
      ensures var k := Lookup(old(Now().t), Str(name), 0);
        if !given || !Sane() || k == regions.Length then status == E_ERR && Now() == old(Now()) && mbuf.None?
        else status == mapped && Now() == AttachAt(old(Now()), k) && mbuf == Memman.Some(AttachBuffer(at, Now().t[k]))
    {
      mbuf := Memman.None;
      if !given || !Sane() { return E_ERR, mbuf; }
      var i := LookupRegion(name);
      if i == regions.Length { return E_ERR, mbuf; }
      regions[i] := regions[i].(refcnt := (regions[i].refcnt + 1) % UINT);
      assert Now().t == old(Now().t)[i := regions[i]];
      mbuf := Memman.Some(AttachBuffer(at, regions[i]));
      status := mapped;
    }

    /** Back to memman, which must have handed the block out. */
    method Free(block: nat)
      requires block in live
      modifies this
      ensures live == old(live) - {block} && initialized == old(initialized) && magic == old(magic)
    {
      live := live - {block};
    }

    method Release(name: Chars) returns (status: Status)
      requires Inv(Now())
      modifies this, regions
      ensures var k := Lookup(old(Now().t), Str(name), 0);
        if k == regions.Length then status == E_ERR && Now() == old(Now())
        else status == E_OK && Now() == ReleaseAt(old(Now()), k)
      ensures Inv(Now())
    {
      ghost var st := Now();
      var i := LookupRegion(name);
      if i == regions.Length { return E_ERR; }
      ReleaseKeeps(st, Str(name));
      assert SoundRegion(st, i) && st.t[i] == regions[i];
      regions[i] := regions[i].(refcnt := (regions[i].refcnt + UINT - 1) % UINT);
      if regions[i].refcnt == 0 {
        regions[i] := regions[i].(valid := 0);
        Free(regions[i].addr);
      }
      assert Now().t == st.t[i := regions[i]];
      status := E_OK;
    }
  }

  // ----- Runs --------------------------------------------------------------------------

  datatype Op = Alloc(name: Chars, size: nat, block: nat) | Attach(name: Chars) | Release(name: Chars)

  /** What each call does to a sound table; memman never hands out a block that is live. */
  ghost predicate Step(st: State, op: Op, st': State)
  {
    var s := Str(op.name);
    var k := Lookup(st.t, s, 0);
    GoodName(op.name) &&
    match op
    case Alloc(name, size, block) =>
      (block == 0 || block !in st.live) &&
      st' == if size > 0 && k == |st.t| && FreeSlot(st.t, 0) < |st.t|
             then AllocAt(st, FreeSlot(st.t, 0), name, size, block) else st
    case Attach(_) => st' == if k < |st.t| then AttachAt(st, k) else st
    case Release(_) => st' == if k < |st.t| then ReleaseAt(st, k) else st
  }

  /** One for a successful allocation or attachment of the name s, minus one for a release of it. */
  function Change(st: State, op: Op, s: Chars): int
  {
    if Str(op.name) != s then 0
    else if op.Alloc? then
      if op.size > 0 && op.block != 0 && Lookup(st.t, s, 0) == |st.t| && FreeSlot(st.t, 0) < |st.t| then 1 else 0
    else if Lookup(st.t, s, 0) == |st.t| then 0
    else if op.Attach? then 1 else -1
  }

  ghost predicate IsRun(run: seq<State>, ops: seq<Op>)
  {
    && |run| == |ops| + 1 && Inv(run[0])
    && forall n: nat {:trigger StepAt(run, ops, n)} | n < |ops| :: StepAt(run, ops, n)
  }

  ghost predicate StepAt(run: seq<State>, ops: seq<Op>, n: nat)
    requires n < |ops| && |run| == |ops| + 1
  {
    && Step(run[n], ops[n], run[n + 1])
    && (ops[n].Attach? ==> Count(run[n].t, Str(ops[n].name)) < UINT - 1)
  }

  ghost function Changes(run: seq<State>, ops: seq<Op>, s: Chars, n: nat): int
    requires n <= |ops| && |run| == |ops| + 1
  {
    if n == 0 then 0 else Changes(run, ops, s, n - 1) + Change(run[n - 1], ops[n - 1], s)
  }

  lemma StepCounts(st: State, op: Op, st': State, s: Chars)
    requires Inv(st) && Step(st, op, st') && (op.Attach? ==> Count(st.t, Str(op.name)) < UINT - 1)
    ensures Inv(st') && Count(st'.t, s) == Count(st.t, s) + Change(st, op, s)
  {
    var u := Str(op.name);
    var k := Lookup(st.t, u, 0);
    match op {
      case Alloc(name, size, block) =>
        var i := FreeSlot(st.t, 0);
        if size > 0 && k == |st.t| && i < |st.t| { AllocKeeps(st, i, name, size, block); }
      case Attach(_) =>
        if k < |st.t| { AttachKeeps(st, u); }
      case Release(_) =>
        if k < |st.t| { ReleaseKeeps(st, u); }
    }
  }

  /**
   Over every run of allocate, attach and release calls the count of each name is what the
   successful calls for that name add up to; names stay distinct and blocks are freed only while live.
   */
  lemma {:induction false} CountsAddUp(run: seq<State>, ops: seq<Op>, s: Chars, n: nat)
    requires IsRun(run, ops) && n <= |ops|
    ensures Inv(run[n]) && Count(run[n].t, s) == Count(run[0].t, s) + Changes(run, ops, s, n)
    decreases n
  {
    if n > 0 {
      CountsAddUp(run, ops, s, n - 1);
      assert StepAt(run, ops, n - 1);
      StepCounts(run[n - 1], ops[n - 1], run[n], s);
    }
  }
}
