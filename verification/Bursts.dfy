/** Block transfers between the server and the target, cut into bursts that the target accepts. */
module Bursts {
  import Breakpoints
  import opened Pieces
  import RspFraming

  type Byte = RspFraming.Byte

  const MAX_BURST_WRITE_BYTES: nat := 2048
  const MAX_BURST_READ_BYTES: nat := 256

  /** The global address for an access of a core. */
  function ConvertAddress(core: nat, addr: nat): nat
  {
    Breakpoints.Phys(core, addr)
  }

  /** Converting a converted address, or any byte behind one, again changes nothing. */
  lemma ConvertAgain(core: nat, addr: nat, i: nat)
    ensures ConvertAddress(core, ConvertAddress(core, addr) + i) == ConvertAddress(core, addr) + i
  {
  }

  /** A local address names that byte of the core's own 1 MB; any other names itself. */
  lemma ConvertIsHome(core: nat, addr: nat)
    ensures addr < 0x10_0000 ==>
      ConvertAddress(core, addr) / 0x10_0000 == core && ConvertAddress(core, addr) % 0x10_0000 == addr
    ensures addr >= 0x10_0000 ==> ConvertAddress(core, addr) == addr
  {
  }

  /** Local ranges of different cores never meet. */
  lemma LocalRangesApart(core: nat, addr: nat, n: nat, core': nat, addr': nat, n': nat)
    requires core != core' && addr + n <= 0x10_0000 && addr' + n' <= 0x10_0000 && n > 0 && n' > 0
    ensures var a, b := ConvertAddress(core, addr), ConvertAddress(core', addr'); a + n <= b || b + n' <= a
  {
    if core < core' {
      assert (core + 1) * 0x10_0000 <= core' * 0x10_0000;
    } else {
      assert (core' + 1) * 0x10_0000 <= core * 0x10_0000;
    }
  }

  datatype Direction = Put | Get

  type Transfer = Piece<Direction>

  /** The double word around location p lies in the n bytes from a on. */
  predicate WholeDouble(a: nat, n: nat, p: nat)
  {
    a <= p - p % 8 && p - p % 8 + 8 <= a + n
  }

  /**
   A request of one aligned word goes as such. Of any other request for n bytes at a, whole aligned double
   words go in bursts, each of the maximum size or up to the last of them, and only the rest in bytes.
   */
  predicate Writable(x: Transfer, a: nat, n: nat)
  {
    x.kind == Put &&
    if n == 4 && a % 4 == 0 then x.at == a && x.len == 4
    else
      || (x.len == 1 && !WholeDouble(a, n, x.at))
      || (x.at % 8 == 0 && x.len == 2048)
      || (x.at % 8 == 0 && x.len % 8 == 0 && 0 < x.len < 2048 && a + n - (x.at + x.len) < 8)
  }

  /** A word-aligned range is read in maximal bursts and what is left after them, any other in bytes. */
  predicate Readable(x: Transfer, a: nat, n: nat)
  {
    x.kind == Get &&
    if a % 4 == 0 then
      x.at % 4 == 0 && (x.len == 256 || (0 < x.len < 256 && x.at + x.len == a + n))
    else x.len == 1
  }

  /** Positions n up to end of the request lie in no whole double word, and it is not a single word. */
  ghost predicate Loose(a: nat, total: nat, n: nat, end: nat)
  {
    !(total == 4 && a % 4 == 0) && forall p: nat {:trigger WholeDouble(a, total, p)} | a + n <= p < a + end ::
      !WholeDouble(a, total, p)
  }

  lemma HeadIsLoose(a: nat, total: nat, end: nat)
    requires a % 8 != 0 && end <= 8 - a % 8 && !(total == 4 && a % 4 == 0)
    ensures Loose(a, total, 0, end)
  {
    forall p: nat | a <= p < a + end ensures !WholeDouble(a, total, p) {
      assert p == 8 * (a / 8) + (a % 8 + (p - a));
    }
  }

  /** The next double-word boundary. */
  lemma HeadEnds(a: nat)
    requires a % 8 != 0
    ensures (a + (8 - a % 8)) % 8 == 0
  {
    assert a + (8 - a % 8) == 8 * (a / 8 + 1);
  }

  lemma TailIsLoose(a: nat, total: nat, n: nat)
    requires (a + n) % 8 == 0 && total - 8 < n <= total && !(total == 4 && a % 4 == 0)
    ensures Loose(a, total, n, total)
  {
    forall p: nat | a + n <= p < a + total ensures !WholeDouble(a, total, p) {
      assert p == 8 * ((a + n) / 8) + (p - (a + n));
    }
  }

  ghost predicate AllWritable(log: seq<Transfer>, a: nat, n: nat)
  {
    forall i: nat {:trigger Writable(log[i], a, n)} | i < |log| :: Writable(log[i], a, n)
  }

  ghost predicate AllReadable(log: seq<Transfer>, a: nat, n: nat)
  {
    forall i: nat {:trigger Readable(log[i], a, n)} | i < |log| :: Readable(log[i], a, n)
  }

  lemma OneMoreWritable(log: seq<Transfer>, x: Transfer, a: nat, n: nat)
    requires AllWritable(log, a, n) && Writable(x, a, n)
    ensures AllWritable(log + [x], a, n)
  {
    forall i: nat | i < |log + [x]| ensures Writable((log + [x])[i], a, n) {
      if i < |log| { assert Writable(log[i], a, n); }
    }
  }

  lemma OneMoreReadable(log: seq<Transfer>, x: Transfer, a: nat, n: nat)
    requires AllReadable(log, a, n) && Readable(x, a, n)
    ensures AllReadable(log + [x], a, n)
  {
    forall i: nat | i < |log + [x]| ensures Readable((log + [x])[i], a, n) {
      if i < |log| { assert Readable(log[i], a, n); }
    }
  }

  ghost predicate WrittenAt(m: seq<Byte>, a: nat, buf: seq<Byte>, n: nat, m': seq<Byte>, q: nat)
    requires n <= |buf| && q < |m| == |m'|
  {
    m'[q] == if a <= q < a + n then buf[q - a] else m[q]
  }

  /** Target memory after the first n bytes of the buffer are written from address a on. */
  ghost predicate Written(m: seq<Byte>, a: nat, buf: seq<Byte>, n: nat, m': seq<Byte>)
    requires n <= |buf|
  {
    |m'| == |m| && forall q: nat {:trigger WrittenAt(m, a, buf, n, m', q)} | q < |m| :: WrittenAt(m, a, buf, n, m', q)
  }

  lemma NothingWritten(m: seq<Byte>, a: nat, buf: seq<Byte>)
    ensures Written(m, a, buf, 0, m)
  {
    forall q: nat | q < |m| ensures WrittenAt(m, a, buf, 0, m, q) { }
  }

  lemma WrittenMore(m: seq<Byte>, a: nat, buf: seq<Byte>, n: nat, len: nat, m': seq<Byte>, m'': seq<Byte>)
    requires n + len <= |buf| && a + |buf| <= |m| && Written(m, a, buf, n, m')
    requires m'' == m'[..a + n] + buf[n..n + len] + m'[a + n + len..]
    ensures Written(m, a, buf, n + len, m'')
  {
    var n' := n + len;
    forall q: nat | q < |m| ensures WrittenAt(m, a, buf, n', m'', q) {
      assert WrittenAt(m, a, buf, n, m', q);
    }
  }

  lemma MoreDoubleWords(a: nat, n: nat)
    requires a % 8 == 0 && n % 8 == 0
    ensures (a + n) % 8 == 0
  {
    assert a + n == 8 * (a / 8 + n / 8);
  }

  lemma MoreWords(a: nat, n: nat)
    requires a % 4 == 0 && n % 4 == 0
    ensures (a + n) % 4 == 0
  {
    assert a + n == 4 * (a / 4 + n / 4);
  }

  /** The bytes of buf stand at a. */
  ghost predicate HoldsAt(m: seq<Byte>, a: nat, buf: seq<Byte>)
  {
    a + |buf| <= |m| && m[a..a + |buf|] == buf
  }

  /** Nothing outside the core's own 1 MB has changed. */
  ghost predicate OnlyCoreChanged(m: seq<Byte>, m': seq<Byte>, core: nat)
  {
    |m'| == |m| && forall q | 0 <= q < |m| && m'[q] != m[q] :: core * 0x10_0000 <= q < (core + 1) * 0x10_0000
  }

  lemma WrittenHolds(m: seq<Byte>, a: nat, buf: seq<Byte>, n: nat, m': seq<Byte>, core: nat)
    requires n <= |buf| && a + |buf| <= |m| && Written(m, a, buf, n, m')
    ensures n == |buf| ==> HoldsAt(m', a, buf)
    ensures n == 0 || (core * 0x10_0000 <= a && a + |buf| <= (core + 1) * 0x10_0000) ==> OnlyCoreChanged(m, m', core)
  {
    forall q: nat | q < |m| ensures m'[q] == if a <= q < a + n then buf[q - a] else m[q] {
      assert WrittenAt(m, a, buf, n, m', q);
    }
  }

  /** The platform's transfer calls: of the calls for one request, the first `good` work. */
  class Target {
    var mem: seq<Byte>
    /** The transfers that worked. */
    var log: seq<Transfer>
    const good: nat

    constructor (mem: seq<Byte>, good: nat)
      ensures this.mem == mem && this.log == [] && this.good == good
    {
      this.mem, this.log, this.good := mem, [], good;
    }

    method WriteTo(addr: nat, data: seq<Byte>) returns (res: nat)
      requires addr + |data| <= |mem| && |data| > 0
      modifies this
      ensures res == if old(|log|) < good then |data| else 0
      ensures log == if res > 0 then old(log) + [Piece(Put, addr, |data|)] else old(log)
      ensures mem == if res > 0 then old(mem)[..addr] + data + old(mem)[addr + |data|..] else old(mem)
    {
      res := 0;
      if |log| < good {
        log := log + [Piece(Put, addr, |data|)];
        mem := mem[..addr] + data + mem[addr + |data|..];
        res := |data|;
      }
    }

    method ReadFrom(addr: nat, buf: array<Byte>, at: nat, len: nat) returns (res: nat)
      requires addr + len <= |mem| && len > 0 && at + len <= buf.Length
      modifies this, buf
      ensures mem == old(mem) && res == if old(|log|) < good then len else 0
      ensures log == if res > 0 then old(log) + [Piece(Get, addr, len)] else old(log)
      ensures forall i | 0 <= i < buf.Length ::
                buf[i] == if res > 0 && at <= i < at + len then mem[addr + (i - at)] else old(buf[i])
    {
      res := 0;
      if |log| < good {
        log := log + [Piece(Get, addr, len)];
        forall i | at <= i < at + len { buf[i] := mem[addr + (i - at)]; }
        res := len;
      }
    }

    /** What a burst write has done when n bytes are through. */
    ghost predicate Wrote(m: seq<Byte>, a: nat, buf: seq<Byte>, n: nat)
      reads this
    {
      n <= |buf| && a + |buf| <= |m| && Written(m, a, buf, n, mem) && InOrder(log, a, n) && AllWritable(log, a, |buf|)
    }

    /** The next piece of a burst write. */
    method WritePiece(a: nat, buf: seq<Byte>, n: nat, len: nat, ghost m: seq<Byte>) returns (ok: bool)
      requires Wrote(m, a, buf, n) && 0 < len && n + len <= |buf| && Writable(Piece(Put, a + n, len), a, |buf|)
      modifies this
      ensures Wrote(m, a, buf, if ok then n + len else n)
      ensures ok <==> old(|log|) < good
      ensures !ok ==> |log| >= good
    {
      var res := WriteTo(a + n, buf[n..n + len]);
      ok := res == len;
      if ok {
        WrittenMore(m, a, buf, n, len, old(mem), mem);
        OneMore(old(log), a, n, Piece(Put, a + n, len));
        OneMoreWritable(old(log), Piece(Put, a + n, len), a, |buf|);
      }
    }

    /** Single bytes from position n to position `end`. */
    method WriteBytes(a: nat, buf: seq<Byte>, n: nat, end: nat, ghost m: seq<Byte>) returns (ok: bool, n': nat)
      requires Wrote(m, a, buf, n) && n <= end <= |buf| && Loose(a, |buf|, n, end)
      modifies this
      ensures n' <= end && Wrote(m, a, buf, n') && (ok <==> n' == end) && (!ok ==> |log| >= good)
    {
      n' := n;
      while n' < end
        invariant n <= n' <= end && Wrote(m, a, buf, n')
      {
        ok := WritePiece(a, buf, n', 1, m);
        if !ok { return; }
        n' := n' + 1;
      }
      ok := true;
    }

    /** Maximal bursts, from a double-word boundary on. */
    method WriteMaximal(a: nat, buf: seq<Byte>, n: nat, ghost m: seq<Byte>) returns (ok: bool, n': nat)
      requires Wrote(m, a, buf, n) && (a + n) % 8 == 0 && !(|buf| == 4 && a % 4 == 0)
      modifies this
      ensures n <= n' && Wrote(m, a, buf, n') && (ok ==> |buf| - n' < MAX_BURST_WRITE_BYTES && (a + n') % 8 == 0)
      ensures !ok ==> n' < |buf| && |log| >= good
    {
      n' := n;
      var numMaxBurst := (|buf| - n) / MAX_BURST_WRITE_BYTES;
      var k := 0;
      while k < numMaxBurst
        invariant 0 <= k <= numMaxBurst && n' == n + 2048 * k && (a + n') % 8 == 0 && Wrote(m, a, buf, n')
      {
        ok := WritePiece(a, buf, n', MAX_BURST_WRITE_BYTES, m);
        if !ok { return; }
        MoreDoubleWords(a + n', 2048);
        n' := n' + MAX_BURST_WRITE_BYTES;
        k := k + 1;
      }
      ok := true;
    }

    /** Single bytes up to a double-word boundary. */
    method WriteHead(a: nat, buf: seq<Byte>, ghost m: seq<Byte>) returns (ok: bool, n: nat)
      requires Wrote(m, a, buf, 0) && |buf| > 0 && !(|buf| == 4 && a % 4 == 0)
      modifies this
      ensures n <= |buf| && Wrote(m, a, buf, n)
      ensures if ok then n == |buf| || (a + n) % 8 == 0 else n < |buf| && |log| >= good
    {
      ok, n := true, 0;
      if a % 8 != 0 {
        var headSize := if 8 - a % 8 > |buf| then |buf| else 8 - a % 8;
        HeadEnds(a);
        HeadIsLoose(a, |buf|, headSize);
        ok, n := WriteBytes(a, buf, 0, headSize, m);
      }
    }

    /** The remaining double words, then the last bytes. */
    method WriteTail(a: nat, buf: seq<Byte>, n: nat, ghost m: seq<Byte>) returns (ok: bool, n': nat)
      requires Wrote(m, a, buf, n) && |buf| - n < MAX_BURST_WRITE_BYTES && (a + n) % 8 == 0
      requires !(|buf| == 4 && a % 4 == 0)
      modifies this
      ensures n' <= |buf| && Wrote(m, a, buf, n') && (ok <==> n' == |buf|) && (!ok ==> |log| >= good)
    {
      n' := n;
      var trailSize := (|buf| - n) % 8;
      var lastDoubleSize := |buf| - n - trailSize;
      if |buf| - n > trailSize {
        ok := WritePiece(a, buf, n, lastDoubleSize, m);
        if !ok { return; }
        n' := n + lastDoubleSize;
      }
      MoreDoubleWords(a + n, n' - n);
      TailIsLoose(a, |buf|, n');
      ok, n' := WriteBytes(a, buf, n', |buf|, m);
    }

    /** The burst write behind the address conversion. */
    method WriteConverted(a: nat, buf: seq<Byte>) returns (ok: bool)
      requires a + |buf| <= |mem|
      modifies this
      ensures 0 <= Done(log, a) <= |buf| && (ok <==> Done(log, a) == |buf|) && (!ok ==> |log| >= good)
      ensures Wrote(old(mem), a, buf, Done(log, a))
    {
      ghost var m := mem;
      log := [];
      NothingWritten(m, a, buf);
      if |buf| == 0 { return true; }
      if |buf| == 4 && a % 4 == 0 {
        ok := WritePiece(a, buf, 0, 4, m);
        return;
      }
      var n;
      ok, n := WriteHead(a, buf, m);
      if !ok || n == |buf| { return; }
      ok, n := WriteMaximal(a, buf, n, m);
      if !ok { return; }
      ok, n := WriteTail(a, buf, n, m);
    }

    /**
     A request of any size: success writes it all, failure exactly the part transferred before, and it
     fails only if the target has taken all the transfers it takes. A local
     range lies in its core's own 1 MB, of which nothing else changes, and no other core's memory does.
     */
    method WriteBurst(core: nat, addr: nat, buf: seq<Byte>) returns (ok: bool)
      requires ConvertAddress(core, addr) + |buf| <= |mem|
      modifies this
      ensures var a := ConvertAddress(core, addr);
        && 0 <= Done(log, a) <= |buf| && (ok <==> Done(log, a) == |buf|)
        && Wrote(old(mem), a, buf, Done(log, a))
      ensures !ok ==> |log| >= good
      ensures addr < 0x10_0000 && ok ==> HoldsAt(mem, core * 0x10_0000 + addr, buf)
      ensures addr >= 0x10_0000 && ok ==> HoldsAt(mem, addr, buf)
      ensures addr + |buf| <= 0x10_0000 ==> OnlyCoreChanged(old(mem), mem, core)
    {
      var a := ConvertAddress(core, addr);
      ok := WriteConverted(a, buf);
      ConvertIsHome(core, addr);
      WrittenHolds(old(mem), a, buf, Done(log, a), mem, core);
    }

    /** What a burst read has done when n bytes are in the buffer. */
    ghost predicate ReadUpTo(a: nat, buf: array<Byte>, n: nat)
      reads this, buf
    {
      && n <= buf.Length && a + buf.Length <= |mem| && InOrder(log, a, n) && AllReadable(log, a, buf.Length)
      && forall i | 0 <= i < n :: buf[i] == mem[a + i]
    }

    method ReadPiece(a: nat, buf: array<Byte>, n: nat, len: nat) returns (ok: bool)
      requires ReadUpTo(a, buf, n) && 0 < len && n + len <= buf.Length
      requires Readable(Piece(Get, a + n, len), a, buf.Length)
      modifies this, buf
      ensures mem == old(mem) && ReadUpTo(a, buf, if ok then n + len else n) && (!ok ==> |log| >= good)
    {
      var res := ReadFrom(a + n, buf, n, len);
      ok := res == len;
      if ok {
        OneMore(old(log), a, n, Piece(Get, a + n, len));
        OneMoreReadable(old(log), Piece(Get, a + n, len), a, buf.Length);
      }
    }

    /** Bursts from a word boundary on. */
    method ReadAligned(a: nat, buf: array<Byte>) returns (ok: bool, n: nat)
      requires ReadUpTo(a, buf, 0) && a % 4 == 0
      modifies this, buf
      ensures mem == old(mem) && n <= buf.Length && ReadUpTo(a, buf, n) && (ok <==> n == buf.Length)
      ensures !ok ==> |log| >= good
    {
      n := 0;
      var k := 0;
      while k < buf.Length / MAX_BURST_READ_BYTES
        invariant 0 <= k <= buf.Length / MAX_BURST_READ_BYTES && n == 256 * k
        invariant mem == old(mem) && ReadUpTo(a, buf, n) && (a + n) % 4 == 0
      {
        ok := ReadPiece(a, buf, n, MAX_BURST_READ_BYTES);
        if !ok { return; }
        MoreWords(a + n, 256);
        n := n + MAX_BURST_READ_BYTES;
        k := k + 1;
      }
      var trailSize := buf.Length % MAX_BURST_READ_BYTES;
      ok := true;
      if trailSize != 0 {
        ok := ReadPiece(a, buf, n, trailSize);
        if ok { n := n + trailSize; }
      }
    }

    /** Single bytes, each through the address conversion again. */
    method ReadUnaligned(core: nat, addr: nat, buf: array<Byte>) returns (ok: bool, n: nat)
      requires ReadUpTo(ConvertAddress(core, addr), buf, 0) && ConvertAddress(core, addr) % 4 != 0
      modifies this, buf
      ensures mem == old(mem) && n <= buf.Length && (ok <==> n == buf.Length) && (!ok ==> |log| >= good)
      ensures ReadUpTo(ConvertAddress(core, addr), buf, n)
    {
      var fullAddr := ConvertAddress(core, addr);
      n := 0;
      while n < buf.Length
        invariant 0 <= n <= buf.Length && mem == old(mem) && ReadUpTo(fullAddr, buf, n)
      {
        ConvertAgain(core, addr, n);
        ok := ReadPiece(ConvertAddress(core, fullAddr + n) - n, buf, n, 1);
        if !ok { return; }
        n := n + 1;
      }
      ok := true;
    }

    /** A request of any size fills the buffer with exactly the range, or up to the failing transfer. */
    method ReadBurst(core: nat, addr: nat, buf: array<Byte>) returns (ok: bool)
      requires ConvertAddress(core, addr) + buf.Length <= |mem|
      modifies this, buf
      ensures mem == old(mem)
      ensures var a := ConvertAddress(core, addr);
        && 0 <= Done(log, a) <= buf.Length && (ok <==> Done(log, a) == buf.Length)
        && ReadUpTo(a, buf, Done(log, a))
      ensures !ok ==> |log| >= good
      ensures addr < 0x10_0000 && ok ==> HoldsAt(mem, core * 0x10_0000 + addr, buf[..])
      ensures addr >= 0x10_0000 && ok ==> HoldsAt(mem, addr, buf[..])
    {
      ConvertIsHome(core, addr);
      var fullAddr := ConvertAddress(core, addr);
      log := [];
      var n;
      if fullAddr % 4 == 0 {
        ok, n := ReadAligned(fullAddr, buf);
      } else {
        ok, n := ReadUnaligned(core, addr, buf);
      }
      if ok { AllRead(fullAddr, buf); }
    }

    lemma AllRead(a: nat, buf: array<Byte>)
      requires ReadUpTo(a, buf, buf.Length)
      ensures HoldsAt(mem, a, buf[..])
    {
      assert forall i | 0 <= i < buf.Length :: mem[a..a + buf.Length][i] == buf[..][i];
    }
  }
}
