/** The server's handlers for breakpoints and memory accesses, over the matchpoint table. */
module BreakpointServer {
  import opened Breakpoints

  class MpHash {
    var tab: map<Key, Insn>

    constructor ()
      ensures tab == map[]
    {
      tab := map[];
    }

    method Add(key: Key, insn: Insn)
      modifies this
      ensures tab == old(tab)[key := insn]
    {
      tab := tab[key := insn];
    }

    method Lookup(key: Key) returns (found: bool, insn: Insn)
      ensures found <==> key in tab
      ensures found ==> insn == tab[key]
    {
      found, insn := key in tab, BKPT;
      if found { insn := tab[key]; }
    }

    method Remove(key: Key) returns (found: bool, insn: Insn)
      modifies this
      ensures found <==> key in old(tab)
      ensures found ==> insn == old(tab[key])
      ensures tab == old(tab) - {key}
    {
      found, insn := Lookup(key);
      tab := tab - {key};
    }
  }

  /**
   Copies the bytes of `insn` at bpAddr that fall into the buffer, which holds memory from
   memAddr on, and returns `replaced` with the buffer's former bytes in their place.
   */
  method CopyInsn(memAddr: nat, buf: array<Byte>, len: nat, bpAddr: nat, insn: Insn, replaced: Insn) returns (r: Insn)
    requires len <= buf.Length && bpAddr % 2 == 0 && Even(memAddr) <= bpAddr < memAddr + len
    modifies buf
    ensures r == Merged(replaced, bpAddr, memAddr, old(buf[..len]))
    ensures forall i | 0 <= i < buf.Length ::
              buf[i] == if i < len && bpAddr <= memAddr + i < bpAddr + 2 then ByteAt(insn, memAddr + i) else old(buf[i])
  {
    var copyStart := if memAddr < bpAddr then bpAddr else memAddr;
    var copyEnd := if memAddr + len < bpAddr + 2 then memAddr + len else bpAddr + 2;
    var copyLen := copyEnd - copyStart;
    var copyOffset := copyStart - bpAddr;
    var bufOffset := copyStart - memAddr;

    r := replaced;
    var j := 0;
    while j < copyLen
      invariant 0 <= j <= copyLen
      invariant r.lo == if copyOffset == 0 && 0 < j then buf[bufOffset] else replaced.lo
      invariant r.hi == if 1 < copyOffset + j && 0 < j then buf[bufOffset + 1 - copyOffset] else replaced.hi
    {
      if copyOffset + j == 0 {
        r := r.(lo := buf[bufOffset + j]);
      } else {
        r := r.(hi := buf[bufOffset + j]);
      }
      j := j + 1;
    }
    j := 0;
    while j < copyLen
      invariant 0 <= j <= copyLen
      invariant forall i | 0 <= i < buf.Length ::
        buf[i] == if bufOffset <= i < bufOffset + j then ByteAt(insn, memAddr + i) else old(buf[i])
    {
      buf[bufOffset + j] := if copyOffset + j == 0 then insn.lo else insn.hi;
      j := j + 1;
    }
  }

  // ----- The table while a write is scanned --------------------------------------------

  function AddAll(t: map<Key, Insn>, cs: seq<nat>, a: nat, insn: Insn, n: nat): map<Key, Insn>
    requires n <= |cs|
  {
    if n == 0 then t else AddAll(t, cs, a, insn, n - 1)[Key(a, cs[n - 1]) := insn]
  }

  lemma {:induction false} AddAllIs(t: map<Key, Insn>, cs: seq<nat>, a: nat, insn: Insn, n: nat, k: Key)
    requires n <= |cs|
    ensures k in AddAll(t, cs, a, insn, n) <==> k in t || (k.addr == a && k.core in cs[..n])
    ensures k.addr == a && k.core in cs[..n] ==> AddAll(t, cs, a, insn, n)[k] == insn
    ensures k in t && !(k.addr == a && k.core in cs[..n]) ==> AddAll(t, cs, a, insn, n)[k] == t[k]
  {
    if n > 0 {
      AddAllIs(t, cs, a, insn, n - 1, k);
      assert cs[..n] == cs[..n - 1] + [cs[n - 1]];
    }
  }

  /** Not scanned yet: the address's records are as they were. */
  lemma NotYet(t: map<Key, Insn>, cores: seq<nat>, core: nat, a: nat, bp: nat, d: seq<Byte>, u: map<Key, Insn>)
    requires IsUnhidden(t, cores, core, a, bp, d, u)
    ensures Key(bp, core) in u <==> Key(bp, core) in t
    ensures Key(bp, core) in u ==> u[Key(bp, core)] == t[Key(bp, core)]
  {
    assert RecordAfter(t, cores, core, a, bp, d, u, Key(bp, core));
  }

  lemma ScanMiss(t: map<Key, Insn>, cores: seq<nat>, core: nat, a: nat, bp: nat, d: seq<Byte>, u: map<Key, Insn>)
    requires IsUnhidden(t, cores, core, a, bp, d, u) && bp % 2 == 0 && Key(bp, core) !in t
    ensures IsUnhidden(t, cores, core, a, bp + 2, d, u)
  {
    var end := bp + 2;
    forall k ensures RecordAfter(t, cores, core, a, end, d, u, k) {
      assert RecordAfter(t, cores, core, a, bp, d, u, k);
    }
  }

  lemma ScanHit(t: map<Key, Insn>, cores: seq<nat>, core: nat, a: nat, bp: nat, d: seq<Byte>, u: map<Key, Insn>)
    requires IsUnhidden(t, cores, core, a, bp, d, u) && bp % 2 == 0 && Even(a) <= bp && Key(bp, core) in t
    ensures var cs := Targets(cores, core, bp);
      IsUnhidden(t, cores, core, a, bp + 2, d, AddAll(u, cs, bp, Merged(t[Key(bp, core)], bp, a, d), |cs|))
  {
    var cs := Targets(cores, core, bp);
    var insn := Merged(t[Key(bp, core)], bp, a, d);
    var v := AddAll(u, cs, bp, insn, |cs|);
    assert cs[..|cs|] == cs;
    var end := bp + 2;
    forall k ensures RecordAfter(t, cores, core, a, end, d, v, k) {
      assert RecordAfter(t, cores, core, a, bp, d, u, k);
      AddAllIs(u, cs, bp, insn, |cs|, k);
    }
  }

  lemma ScanStart(t: map<Key, Insn>, cores: seq<nat>, core: nat, a: nat, d: seq<Byte>)
    ensures IsUnhidden(t, cores, core, a, Even(a), d, t)
  {
    forall k ensures RecordAfter(t, cores, core, a, Even(a), d, t, k) { }
  }

  lemma ScanEnd(t: map<Key, Insn>, cores: seq<nat>, core: nat, a: nat, bp: nat, end: nat, d: seq<Byte>,
                u: map<Key, Insn>)
    requires IsUnhidden(t, cores, core, a, bp, d, u) && bp % 2 == 0 && end <= bp <= end + 1
    ensures IsUnhidden(t, cores, core, a, end, d, u)
  {
    forall k ensures RecordAfter(t, cores, core, a, end, d, u, k) {
      assert RecordAfter(t, cores, core, a, bp, d, u, k);
    }
  }

  // ----- The server --------------------------------------------------------------------

  /** The packets that answer a request: the empty one says the request is not supported. */
  datatype Reply = Empty | OK | E01 | Bytes(data: seq<Byte>)

  const BP_MEMORY: nat := 0

  function Min(a: nat, b: nat): nat
  {
    if a < b then a else b
  }

  class Server {
    const mpHash: MpHash
    const cores: seq<nat>
    const bufSize: nat
    var mem: seq<Byte>

    constructor (hash: MpHash, cores: seq<nat>, bufSize: nat, mem: seq<Byte>)
      ensures this.mpHash == hash && this.cores == cores && this.bufSize == bufSize && this.mem == mem
    {
      this.mpHash, this.cores, this.bufSize, this.mem := hash, cores, bufSize, mem;
    }

    ghost function Now(): Target
      reads this, mpHash
    {
      Target(mem, mpHash.tab)
    }

    method InsertMatchpoint(kind: nat, current: nat, addr: nat) returns (reply: Reply)
      requires InMemory(Now(), Targets(cores, current, addr), addr)
      modifies this, mpHash
      ensures kind != 0 ==> reply == Empty && Now() == old(Now())
      ensures kind == 0 ==> reply == OK
      ensures var cs := Targets(cores, current, addr);
        kind == 0 ==> Now() == InsertAll(old(Now()), cs, addr, |cs|)
    {
      if kind != BP_MEMORY { return Empty; }
      var cs := Targets(cores, current, addr);
      var i := 0;
      while i < |cs|
        invariant 0 <= i <= |cs|
        invariant Now() == InsertAll(old(Now()), cs, addr, i)
      {
        var bpMemVal := Fetch(mem, Phys(cs[i], addr));
        mpHash.Add(Key(addr, cs[i]), bpMemVal);
        mem := Patch(mem, Phys(cs[i], addr), BKPT);
        i := i + 1;
      }
      reply := OK;
    }

    method RemoveMatchpoint(kind: nat, current: nat, addr: nat) returns (reply: Reply)
      requires forall k | k in mpHash.tab :: Slot(k) + 2 <= |mem|
      modifies this, mpHash
      ensures kind != 0 ==> reply == Empty && Now() == old(Now())
      ensures kind == 0 ==> reply == OK
      ensures var cs := Targets(cores, current, addr);
        kind == 0 ==> Now() == RemoveAll(old(Now()), cs, addr, |cs|)
    {
      if kind != BP_MEMORY { return Empty; }
      var cs := Targets(cores, current, addr);
      var i := 0;
      while i < |cs|
        invariant 0 <= i <= |cs|
        invariant Now() == RemoveAll(old(Now()), cs, addr, i)
      {
        var found, instr := mpHash.Remove(Key(addr, cs[i]));
        if found { mem := Patch(mem, Phys(cs[i], addr), instr); }
        i := i + 1;
      }
      reply := OK;
    }

    method HideBreakpoints(core: nat, memAddr: nat, buf: array<Byte>)
      modifies buf
      ensures forall i | 0 <= i < buf.Length :: buf[i] == Shown(mpHash.tab, core, memAddr + i, old(buf[i]))
    {
      var memEnd := memAddr + buf.Length;
      var checkAddr := Even(memAddr);
      while checkAddr < memEnd
        invariant checkAddr % 2 == 0 && Even(memAddr) <= checkAddr <= memEnd + 1
        invariant forall i | 0 <= i < buf.Length ::
          buf[i] == if memAddr + i < checkAddr then Shown(mpHash.tab, core, memAddr + i, old(buf[i])) else old(buf[i])
      {
        var found, insn := mpHash.Lookup(Key(checkAddr, core));
        if found {
          var _ := CopyInsn(memAddr, buf, buf.Length, checkAddr, insn, BKPT);
        }
        checkAddr := checkAddr + 2;
      }
    }

    method UnhideBreakpoints(core: nat, memAddr: nat, buf: array<Byte>, len: nat)
      requires len <= buf.Length
      modifies buf, mpHash
      ensures IsUnhidden(old(mpHash.tab), cores, core, memAddr, memAddr + len, old(buf[..len]), mpHash.tab)
      ensures forall i | 0 <= i < len :: buf[i] == SentByte(old(mpHash.tab), core, memAddr + i, old(buf[i]))
    {
      ghost var t, d := mpHash.tab, buf[..len];
      var memEnd := memAddr + len;
      var bpAddr := Even(memAddr);
      ScanStart(t, cores, core, memAddr, d);
      while bpAddr < memEnd
        invariant bpAddr % 2 == 0 && Even(memAddr) <= bpAddr <= memEnd + 1
        invariant IsUnhidden(t, cores, core, memAddr, bpAddr, d, mpHash.tab)
        invariant forall i | 0 <= i < len ::
          buf[i] == if memAddr + i < bpAddr then SentByte(t, core, memAddr + i, d[i]) else d[i]
      {
        NotYet(t, cores, core, memAddr, bpAddr, d, mpHash.tab);
        var found, orig := mpHash.Lookup(Key(bpAddr, core));
        if found {
          ghost var u := mpHash.tab;
          orig := CopyInsn(memAddr, buf, len, bpAddr, BKPT, orig);
          assert orig == Merged(t[Key(bpAddr, core)], bpAddr, memAddr, d);
          var cs := Targets(cores, core, bpAddr);
          var i := 0;
          while i < |cs|
            modifies mpHash
            invariant 0 <= i <= |cs|
            invariant mpHash.tab == AddAll(u, cs, bpAddr, orig, i)
          {
            mpHash.Add(Key(bpAddr, cs[i]), orig);
            i := i + 1;
          }
          ScanHit(t, cores, core, memAddr, bpAddr, d, u);
        } else {
          ScanMiss(t, cores, core, memAddr, bpAddr, d, mpHash.tab);
        }
        bpAddr := bpAddr + 2;
      }
      ScanEnd(t, cores, core, memAddr, bpAddr, memEnd, d, mpHash.tab);
    }

    /**
     A read request; the reply carries the bytes in hex, two characters each. `works` tells whether the
     target's memory could be read.
     */
    method ReadMem(core: nat, addr: nat, len: nat, works: bool) returns (reply: Reply)
      requires bufSize > 0
      requires works ==> InRange(Now(), core, addr, if 2 * len < bufSize then len else (bufSize - 1) / 2)
      ensures !works ==> reply == E01
      ensures works && 2 * len < bufSize ==> reply.Bytes? && |reply.data| == len
      ensures works && 2 * len >= bufSize ==>
                reply.Bytes? && 2 * |reply.data| < bufSize <= 2 * |reply.data| + 2
      ensures works ==> IsRead(Now(), core, addr, |reply.data|, reply.data)
    {
      var n := len;
      if n * 2 >= bufSize { n := (bufSize - 1) / 2; }
      var p := Phys(core, addr);
      if !works { return E01; }
      var raw := mem[p..p + n];
      var buf := new Byte[n](i requires 0 <= i < n => raw[i]);
      HideBreakpoints(core, addr, buf);
      reply := Bytes(buf[..]);
    }

    /**
     A write request; `data` is what the packet carried, which may be less or more than `len`, and the
     target takes the first `accepted` bytes. The records are rewritten before the target is.
     */
    method WriteMemBin(core: nat, addr: nat, len: nat, data: array<Byte>, accepted: nat) returns (reply: Reply)
      requires InRange(Now(), core, addr, Min(accepted, Min(len, data.Length)))
      modifies this, mpHash, data
      ensures var n := Min(len, data.Length);
        && IsUnhidden(old(mpHash.tab), cores, core, addr, addr + n, old(data[..n]), mpHash.tab)
        && reply == (if n <= accepted then OK else E01)
        && (n <= accepted ==> IsWrite(old(Now()), cores, core, addr, old(data[..n]), Now()))
        && |mem| == |old(mem)|
        && forall q: nat | q < |mem| && !(Phys(core, addr) <= q < Phys(core, addr) + accepted) :: mem[q] == old(mem)[q]
      ensures forall i | 0 <= i < Min(accepted, Min(len, data.Length)) ::
          mem[Phys(core, addr) + i] == SentByte(old(mpHash.tab), core, addr + i, old(data[i]))
    {
      var n := Min(len, data.Length);
      ghost var s, d := Now(), data[..n];
      UnhideBreakpoints(core, addr, data, n);
      var taken := Min(accepted, n);
      mem := Overwrite(mem, Phys(core, addr), data[..taken]);
      if taken == n {
        forall q: nat | q < |mem| ensures ByteAfter(s, core, addr, d, mem, q) { }
      }
      reply := if n <= accepted then OK else E01;
    }
  }
}
