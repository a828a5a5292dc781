/**
 Transparent breakpoints: target memory with BKPT instructions in it, plus the table of the
 instructions they replaced, stand for a memory without breakpoints.
 */
module Breakpoints {
  import RspFraming

  type Byte = RspFraming.Byte

  /** A 16-bit instruction as its two bytes in (little-endian) memory order. */
  datatype Insn = Insn(lo: Byte, hi: Byte)

  const BKPT := Insn(0xC2, 0x01)
  const LOCAL: nat := 0x10_0000

  /** A key of the matchpoint table; memory breakpoints are the only type. */
  datatype Key = Key(addr: nat, core: nat)

  datatype Target = Target(mem: seq<Byte>, table: map<Key, Insn>)

  /** Where an access of a core goes: local addresses belong to the core itself. */
  function Phys(core: nat, addr: nat): nat
  {
    if addr < 0x10_0000 then core * 0x10_0000 + addr else addr
  }

  function Even(a: nat): nat
  {
    a - a % 2
  }

  /** The byte of an instruction that lies at an address of this parity. */
  function ByteAt(i: Insn, addr: nat): Byte
  {
    if addr % 2 == 0 then i.lo else i.hi
  }

  function Fetch(mem: seq<Byte>, p: nat): Insn
    requires p + 2 <= |mem|
  {
    Insn(mem[p], mem[p + 1])
  }

  function Patch(mem: seq<Byte>, p: nat, i: Insn): (r: seq<Byte>)
    requires p + 2 <= |mem|
  {
    mem[p := i.lo][p + 1 := i.hi]
  }

  function Slot(k: Key): nat
  {
    Phys(k.core, k.addr)
  }

  predicate Covers(k: Key, p: nat)
  {
    Slot(k) <= p < Slot(k) + 2
  }

  lemma CoveredSlot(k: Key, p: nat)
    requires k.addr % 2 == 0 && Covers(k, p)
    ensures Slot(k) == Even(p)
  {
    assert Slot(k) % 2 == 0;
  }

  // ----- Invariant and meaning ---------------------------------------------------------

  ghost predicate ValidCores(cores: seq<nat>)
  {
    forall i, j | 0 <= i < j < |cores| :: cores[i] != cores[j]
  }

  ghost predicate Sound(s: Target, cores: seq<nat>, k: Key)
  {
    k.addr % 2 == 0 && k.core in cores && Slot(k) + 2 <= |s.mem| && Fetch(s.mem, Slot(k)) == BKPT
  }

  ghost predicate Alone(s: Target, j: Key, k: Key)
  {
    j in s.table && k in s.table && Slot(j) == Slot(k) ==> j == k
  }

  /** Every recorded address holds BKPT, and no two records share a location. */
  ghost predicate Ok(s: Target, cores: seq<nat>)
  {
    && (forall k {:trigger Sound(s, cores, k)} | k in s.table :: Sound(s, cores, k))
    && forall j, k {:trigger Alone(s, j, k)} :: Alone(s, j, k)
  }

  /** A breakpoint at a local address is set in every core of the process. */
  ghost predicate Uniform(s: Target, cores: seq<nat>)
  {
    forall k, u {:trigger SetIn(s, cores, k, u)} :: SetIn(s, cores, k, u)
  }

  ghost predicate SetIn(s: Target, cores: seq<nat>, k: Key, u: nat)
  {
    k in s.table && k.addr < LOCAL && u in cores ==> Key(k.addr, u) in s.table
  }

  ghost predicate Clear(s: Target, p: nat)
  {
    forall k {:trigger Covers(k, p)} | k in s.table :: !Covers(k, p)
  }

  ghost predicate RecordShown(plain: seq<Byte>, s: Target, k: Key)
    requires k in s.table
  {
    Slot(k) + 2 <= |plain| && Fetch(plain, Slot(k)) == s.table[k]
  }

  ghost predicate RestShown(plain: seq<Byte>, s: Target, p: nat)
    requires |plain| == |s.mem|
  {
    p < |plain| && Clear(s, p) ==> plain[p] == s.mem[p]
  }

  /** `plain` is the memory s stands for: the recorded instructions in place of the breakpoints. */
  ghost predicate IsPlain(plain: seq<Byte>, s: Target)
  {
    && |plain| == |s.mem|
    && (forall k {:trigger RecordShown(plain, s, k)} | k in s.table :: RecordShown(plain, s, k))
    && forall p: nat {:trigger RestShown(plain, s, p)} :: RestShown(plain, s, p)
  }

  /** No other record lies where this core's instruction at `a` does. */
  ghost predicate OnlyOwn(s: Target, core: nat, a: nat)
  {
    forall k {:trigger Slot(k)} | k in s.table && Slot(k) == Phys(core, a) :: k == Key(a, core)
  }

  lemma PlainIsUnique(p: seq<Byte>, q: seq<Byte>, s: Target, cores: seq<nat>)
    requires Ok(s, cores) && IsPlain(p, s) && IsPlain(q, s)
    ensures p == q
  {
    forall x: nat | x < |p| ensures p[x] == q[x] {
      if Clear(s, x) {
        assert RestShown(p, s, x) && RestShown(q, s, x);
      } else {
        var k :| k in s.table && Covers(k, x);
        assert RecordShown(p, s, k) && RecordShown(q, s, k);
      }
    }
  }

  // ----- Insert and remove -------------------------------------------------------------

  /** The cores a matchpoint request goes to. */
  function Targets(cores: seq<nat>, current: nat, addr: nat): seq<nat>
  {
    if addr < LOCAL then cores else [current]
  }

  ghost predicate InMemory(s: Target, cs: seq<nat>, a: nat)
  {
    forall c | c in cs :: Phys(c, a) + 2 <= |s.mem|
  }

  function InsertOne(s: Target, core: nat, a: nat): (r: Target)
    requires Phys(core, a) + 2 <= |s.mem|
  {
    var p := Phys(core, a);
    Target(Patch(s.mem, p, BKPT), s.table[Key(a, core) := Fetch(s.mem, p)])
  }

  ghost function InsertAll(s: Target, cs: seq<nat>, a: nat, n: nat): (r: Target)
    requires n <= |cs| && InMemory(s, cs, a)
    ensures |r.mem| == |s.mem|
  {
    if n == 0 then s else InsertOne(InsertAll(s, cs, a, n - 1), cs[n - 1], a)
  }

  function RemoveOne(s: Target, core: nat, a: nat): (r: Target)
    requires Key(a, core) in s.table ==> Phys(core, a) + 2 <= |s.mem|
  {
    var k := Key(a, core);
    if k in s.table then Target(Patch(s.mem, Phys(core, a), s.table[k]), s.table - {k}) else s
  }

  ghost function RemoveAll(s: Target, cs: seq<nat>, a: nat, n: nat): (r: Target)
    requires n <= |cs| && forall k | k in s.table :: Slot(k) + 2 <= |s.mem|
    ensures |r.mem| == |s.mem| && r.table.Keys <= s.table.Keys
  {
    if n == 0 then s else RemoveOne(RemoveAll(s, cs, a, n - 1), cs[n - 1], a)
  }

  /** A second record for the address would replace the first: harmless only if that is BKPT itself. */
  ghost predicate Harmless(s: Target, core: nat, a: nat)
  {
    Key(a, core) in s.table ==> s.table[Key(a, core)] == BKPT
  }

  lemma InsertOneKeeps(s: Target, cores: seq<nat>, plain: seq<Byte>, core: nat, a: nat)
    requires Ok(s, cores) && core in cores && a % 2 == 0 && Phys(core, a) + 2 <= |s.mem|
    requires OnlyOwn(s, core, a)
    ensures Ok(InsertOne(s, core, a), cores)
    ensures IsPlain(plain, s) && Harmless(s, core, a) ==> IsPlain(plain, InsertOne(s, core, a))
  {
    var r := InsertOne(s, core, a);
    var me := Key(a, core);
    forall k | k in r.table ensures Sound(r, cores, k) {
      if k != me { assert Sound(s, cores, k) && Slot(k) != Slot(me); }
    }
    forall j, k ensures Alone(r, j, k) { assert Alone(s, j, k); }
    if IsPlain(plain, s) && Harmless(s, core, a) {
      InsertOneShows(s, cores, plain, core, a);
    }
  }

  lemma FreeByte(s: Target, cores: seq<nat>, plain: seq<Byte>, k: Key, p: nat)
    requires Ok(s, cores) && IsPlain(plain, s) && k.addr % 2 == 0 && p < |s.mem| && Covers(k, p)
    requires k !in s.table && OnlyOwn(s, k.core, k.addr)
    ensures plain[p] == s.mem[p]
  {
    CoveredSlot(k, p);
    forall j | j in s.table && Covers(j, p) ensures j == k {
      assert Sound(s, cores, j);
      CoveredSlot(j, p);
    }
    assert RestShown(plain, s, p);
  }

  lemma InsertOneShows(s: Target, cores: seq<nat>, plain: seq<Byte>, core: nat, a: nat)
    requires Ok(s, cores) && a % 2 == 0 && Phys(core, a) + 2 <= |s.mem|
    requires OnlyOwn(s, core, a) && IsPlain(plain, s) && Harmless(s, core, a)
    ensures IsPlain(plain, InsertOne(s, core, a))
  {
    var r := InsertOne(s, core, a);
    var me := Key(a, core);
    if me in s.table {
      assert Sound(s, cores, me) && RecordShown(plain, s, me);
    } else {
      FreeByte(s, cores, plain, me, Slot(me));
      FreeByte(s, cores, plain, me, Slot(me) + 1);
    }
    forall k | k in r.table ensures RecordShown(plain, r, k) {
      if k != me { assert RecordShown(plain, s, k); }
    }
    forall p: nat ensures RestShown(plain, r, p) {
      if p < |plain| && Clear(r, p) {
        assert !Covers(me, p) && RestShown(plain, s, p);
      }
    }
  }

  lemma NewCore(cs: seq<nat>, i: nat)
    requires i < |cs| && ValidCores(cs)
    ensures cs[i] !in cs[..i]
  {
  }

  lemma {:induction false} InsertAllKeys(s: Target, cs: seq<nat>, a: nat, n: nat, k: Key)
    requires n <= |cs| && InMemory(s, cs, a)
    ensures k in InsertAll(s, cs, a, n).table <==> k in s.table || (k.addr == a && k.core in cs[..n])
    ensures k in s.table && !(k.addr == a && k.core in cs[..n]) ==> InsertAll(s, cs, a, n).table[k] == s.table[k]
  {
    if n > 0 {
      InsertAllKeys(s, cs, a, n - 1, k);
      assert cs[..n] == cs[..n - 1] + [cs[n - 1]];
    }
  }

  lemma {:induction false} InsertAllMemory(s: Target, cs: seq<nat>, a: nat, n: nat, p: nat)
    requires n <= |cs| && InMemory(s, cs, a) && p < |s.mem|
    requires forall c | c in cs[..n] :: !Covers(Key(a, c), p)
    ensures InsertAll(s, cs, a, n).mem[p] == s.mem[p]
  {
    if n > 0 {
      assert cs[..n] == cs[..n - 1] + [cs[n - 1]];
      InsertAllMemory(s, cs, a, n - 1, p);
      assert !Covers(Key(a, cs[n - 1]), p);
    }
  }

  /** What the first n insertions leave alone. */
  lemma InsertAllFrame(s: Target, cs: seq<nat>, a: nat, n: nat)
    requires n <= |cs| && InMemory(s, cs, a)
    ensures var r := InsertAll(s, cs, a, n);
      && (forall k: Key :: k in r.table <==> k in s.table || (k.addr == a && k.core in cs[..n]))
      && (forall k | k in s.table && !(k.addr == a && k.core in cs[..n]) :: r.table[k] == s.table[k])
      && forall p | 0 <= p < |s.mem| && (forall c | c in cs[..n] :: !Covers(Key(a, c), p)) :: r.mem[p] == s.mem[p]
  {
    forall k { InsertAllKeys(s, cs, a, n, k); }
    forall p | 0 <= p < |s.mem| && (forall c | c in cs[..n] :: !Covers(Key(a, c), p)) {
      InsertAllMemory(s, cs, a, n, p);
    }
  }

  /** The record made for a core is the instruction the core had there. */
  lemma {:induction false} InsertAllRecords(s: Target, cs: seq<nat>, a: nat, n: nat, i: nat)
    requires i < n <= |cs| && InMemory(s, cs, a) && ValidCores(cs) && (a < LOCAL || |cs| == 1)
    ensures Key(a, cs[i]) in InsertAll(s, cs, a, n).table
    ensures InsertAll(s, cs, a, n).table[Key(a, cs[i])] == Fetch(s.mem, Phys(cs[i], a))
  {
    if i < n - 1 {
      InsertAllRecords(s, cs, a, n - 1, i);
    } else {
      InsertAllFrame(s, cs, a, i);
      NewCore(cs, i);
    }
  }

  ghost predicate CanInsert(s: Target, cores: seq<nat>, cs: seq<nat>, a: nat)
  {
    && a % 2 == 0 && InMemory(s, cs, a) && ValidCores(cs) && (a < LOCAL || |cs| == 1)
    && forall c | c in cs :: c in cores && OnlyOwn(s, c, a)
  }

  lemma OwnStays(s: Target, cs: seq<nat>, a: nat, n: nat)
    requires n < |cs| && InMemory(s, cs, a) && ValidCores(cs) && (a < LOCAL || |cs| == 1) && OnlyOwn(s, cs[n], a)
    ensures OnlyOwn(InsertAll(s, cs, a, n), cs[n], a)
    ensures Harmless(s, cs[n], a) ==> Harmless(InsertAll(s, cs, a, n), cs[n], a)
  {
    InsertAllFrame(s, cs, a, n);
    NewCore(cs, n);
  }

  lemma {:induction false} InsertAllKeeps(s: Target, cores: seq<nat>, plain: seq<Byte>, cs: seq<nat>, a: nat, n: nat)
    requires n <= |cs| && Ok(s, cores) && CanInsert(s, cores, cs, a)
    ensures Ok(InsertAll(s, cs, a, n), cores)
    ensures IsPlain(plain, s) && (forall c | c in cs :: Harmless(s, c, a)) ==> IsPlain(plain, InsertAll(s, cs, a, n))
  {
    if n > 0 {
      InsertAllKeeps(s, cores, plain, cs, a, n - 1);
      var m := InsertAll(s, cs, a, n - 1);
      var c := cs[n - 1];
      OwnStays(s, cs, a, n - 1);
      InsertOneKeeps(m, cores, plain, c, a);
    }
  }

  /** No other record lies at the address, and none of the core's own but BKPT. */
  ghost predicate Fresh(s: Target, c: nat, a: nat)
  {
    a % 2 == 0 && OnlyOwn(s, c, a) && Harmless(s, c, a)
  }

  /**
   A breakpoint request keeps every recorded address at BKPT and the memory as a debugger sees it
   exactly when, for each target core, the address is even, carries no record of another core or
   another address, and none of its own other than BKPT.
   */
  lemma InsertTransparent(s: Target, cores: seq<nat>, plain: seq<Byte>, cs: seq<nat>, a: nat)
    requires Ok(s, cores) && IsPlain(plain, s) && InMemory(s, cs, a)
    requires ValidCores(cs) && (a < LOCAL || |cs| == 1) && forall c | c in cs :: c in cores
    ensures var r := InsertAll(s, cs, a, |cs|);
      Ok(r, cores) && IsPlain(plain, r) <==> forall c | c in cs :: Fresh(s, c, a)
  {
    var r := InsertAll(s, cs, a, |cs|);
    if Ok(r, cores) && IsPlain(plain, r) {
      forall c | c in cs ensures Fresh(s, c, a) {
        InsertedIsFresh(s, cores, plain, cs, a, c);
      }
    }
    if forall c | c in cs :: Fresh(s, c, a) {
      if |cs| > 0 {
        assert Fresh(s, cs[0], a);
        InsertAllKeeps(s, cores, plain, cs, a, |cs|);
      }
    }
  }

  lemma InsertedIsFresh(s: Target, cores: seq<nat>, plain: seq<Byte>, cs: seq<nat>, a: nat, c: nat)
    requires Ok(s, cores) && IsPlain(plain, s) && InMemory(s, cs, a)
    requires ValidCores(cs) && (a < LOCAL || |cs| == 1) && c in cs
    requires Ok(InsertAll(s, cs, a, |cs|), cores) && IsPlain(plain, InsertAll(s, cs, a, |cs|))
    ensures Fresh(s, c, a)
  {
    var r, me := InsertAll(s, cs, a, |cs|), Key(a, c);
    assert cs[..|cs|] == cs;
    InsertAllFrame(s, cs, a, |cs|);
    assert Sound(r, cores, me);
    forall k | k in s.table && Slot(k) == Phys(c, a) ensures k == me { assert Alone(r, k, me); }
    var i :| 0 <= i < |cs| && cs[i] == c;
    InsertAllRecords(s, cs, a, |cs|, i);
    if me in s.table { assert Sound(s, cores, me) && RecordShown(plain, s, me) && RecordShown(plain, r, me); }
  }

  /** A breakpoint set at the global address of one that is set locally leaves no memory to show. */
  lemma AliasedInsertShowsNothing(m: seq<Byte>, plain: seq<Byte>)
    requires |m| == 0x10_0002 && Fetch(m, 0x10_0000) == BKPT
    ensures var s := Target(m, map[Key(0, 1) := Insn(0x11, 0x22)]);
      Ok(s, [1]) && Harmless(s, 1, 0x10_0000) && !IsPlain(plain, InsertAll(s, [1], 0x10_0000, 1))
  {
    var s, far, near := Target(m, map[Key(0, 1) := Insn(0x11, 0x22)]), Key(0x10_0000, 1), Key(0, 1);
    var r := InsertAll(s, [1], 0x10_0000, 1);
    assert InsertAll(s, [1], 0x10_0000, 0) == s;
    if IsPlain(plain, r) { OneSlotOneRecord(plain, r, far, near); }
  }

  lemma OneSlotOneRecord(plain: seq<Byte>, s: Target, j: Key, k: Key)
    requires IsPlain(plain, s) && j in s.table && k in s.table && Slot(j) == Slot(k)
    ensures s.table[j] == s.table[k]
  {
    assert RecordShown(plain, s, j) && RecordShown(plain, s, k);
  }

  /** Setting the same breakpoint twice loses the instruction. */
  lemma SecondInsertLosesInstruction()
    ensures var s, plain := Target([0xC2, 0x01], map[Key(0, 0) := Insn(0x11, 0x22)]), [0x11, 0x22];
      Ok(s, [0]) && OnlyOwn(s, 0, 0) && IsPlain(plain, s) && !IsPlain(plain, InsertAll(s, [0], 0, 1))
  {
    var s, plain: seq<Byte> := Target([0xC2, 0x01], map[Key(0, 0) := Insn(0x11, 0x22)]), [0x11, 0x22];
    assert Key(0, 0) in s.table && !Harmless(s, 0, 0);
    forall p: nat ensures RestShown(plain, s, p) {
      if p < 2 { assert Covers(Key(0, 0), p); }
    }
    InsertTransparent(s, [0], plain, [0], 0);
  }

  lemma RemoveOneKeeps(s: Target, cores: seq<nat>, plain: seq<Byte>, core: nat, a: nat)
    requires Ok(s, cores) && IsPlain(plain, s)
    ensures Key(a, core) in s.table ==> Phys(core, a) + 2 <= |s.mem|
    ensures Ok(RemoveOne(s, core, a), cores) && IsPlain(plain, RemoveOne(s, core, a))
  {
    var me := Key(a, core);
    if me in s.table {
      assert Sound(s, cores, me);
      var r := RemoveOne(s, core, a);
      forall k | k in r.table ensures Sound(r, cores, k) && RecordShown(plain, r, k) {
        assert Sound(s, cores, k) && Alone(s, k, me) && RecordShown(plain, s, k);
      }
      forall j, k ensures Alone(r, j, k) { assert Alone(s, j, k); }
      assert RecordShown(plain, s, me);
      forall p: nat ensures RestShown(plain, r, p) {
        if p < |plain| && Clear(r, p) && !Covers(me, p) {
          forall k | k in s.table ensures !Covers(k, p) { assert k == me || k in r.table; }
          assert RestShown(plain, s, p);
        }
      }
    }
  }

  /** A removal request never changes the memory as a debugger sees it. */
  lemma {:induction false} RemoveTransparent(s: Target, cores: seq<nat>, plain: seq<Byte>, cs: seq<nat>, a: nat, n: nat)
    requires n <= |cs| && Ok(s, cores) && IsPlain(plain, s)
    ensures forall k | k in s.table :: Slot(k) + 2 <= |s.mem|
    ensures Ok(RemoveAll(s, cs, a, n), cores) && IsPlain(plain, RemoveAll(s, cs, a, n))
    ensures forall k: Key :: k in RemoveAll(s, cs, a, n).table <==> k in s.table && !(k.addr == a && k.core in cs[..n])
  {
    forall k | k in s.table ensures Slot(k) + 2 <= |s.mem| { assert Sound(s, cores, k); }
    if n > 0 {
      RemoveTransparent(s, cores, plain, cs, a, n - 1);
      RemoveOneKeeps(RemoveAll(s, cs, a, n - 1), cores, plain, cs[n - 1], a);
      assert cs[..n] == cs[..n - 1] + [cs[n - 1]];
    }
  }

  // ----- Reads -------------------------------------------------------------------------

  /** The access fits the memory, and the scan over its addresses does not wrap. */
  ghost predicate InRange(s: Target, core: nat, a: nat, n: nat)
  {
    a + n <= 0xFFFF_FFFE && Phys(core, a) + n <= |s.mem|
  }

  /** What a read request returns: the bytes read, with the recorded ones put back. */
  ghost predicate IsRead(s: Target, core: nat, a: nat, n: nat, r: seq<Byte>)
    requires InRange(s, core, a, n)
  {
    |r| == n && forall i | 0 <= i < n :: r[i] == Shown(s.table, core, a + i, s.mem[Phys(core, a) + i])
  }

  /** The byte shown for address x when the target has b there. */
  function Shown(t: map<Key, Insn>, core: nat, x: nat, b: Byte): Byte
  {
    if Key(Even(x), core) in t then ByteAt(t[Key(Even(x), core)], x) else b
  }

  /**
   Byte i of an access lies on a breakpoint that the scan finds no record for, or another one, or on
   none although the scan finds one; and it shows.
   */
  ghost predicate Exposed(s: Target, core: nat, a: nat, i: nat)
    requires Phys(core, a) + i < |s.mem|
  {
    var x, q := a + i, Phys(core, a) + i;
    || (exists k {:trigger Covers(k, q)} ::
          k in s.table && Covers(k, q) && ByteAt(s.table[k], x) != Shown(s.table, core, x, ByteAt(BKPT, x)))
    || (Clear(s, q) && Shown(s.table, core, x, s.mem[q]) != s.mem[q])
  }

  lemma OneRecord(s: Target, cores: seq<nat>, k: Key, p: nat)
    requires Ok(s, cores) && k in s.table && Covers(k, p)
    ensures forall j {:trigger Covers(j, p)} | j in s.table && Covers(j, p) :: j == k
  {
    assert Sound(s, cores, k);
    CoveredSlot(k, p);
    forall j | j in s.table && Covers(j, p) ensures j == k {
      assert Sound(s, cores, j) && Alone(s, j, k);
      CoveredSlot(j, p);
    }
  }

  lemma AddEven(m: nat, x: nat)
    ensures (2 * m + x) % 2 == x % 2
  {
    assert 2 * m + x == 2 * (m + x / 2) + x % 2;
  }

  /** Odd and even addresses stay so. */
  lemma PhysParity(core: nat, a: nat, i: nat)
    ensures (Phys(core, a) + i) % 2 == (a + i) % 2
  {
    AddEven(core * 0x8_0000, a + i);
  }

  /** The byte of a record at a location it covers. */
  lemma RecordedByte(s: Target, cores: seq<nat>, plain: seq<Byte>, k: Key, q: nat)
    requires Ok(s, cores) && IsPlain(plain, s) && k in s.table && Covers(k, q)
    ensures q < |plain| && plain[q] == ByteAt(s.table[k], q) && s.mem[q] == ByteAt(BKPT, q)
  {
    assert Sound(s, cores, k) && RecordShown(plain, s, k);
    CoveredSlot(k, q);
  }

  lemma ShownIsPlain(s: Target, cores: seq<nat>, plain: seq<Byte>, core: nat, a: nat, i: nat)
    requires Ok(s, cores) && IsPlain(plain, s) && Phys(core, a) + i < |s.mem|
    ensures var q := Phys(core, a) + i;
      Shown(s.table, core, a + i, s.mem[q]) == plain[q] <==> !Exposed(s, core, a, i)
  {
    var q := Phys(core, a) + i;
    if Clear(s, q) {
      assert RestShown(plain, s, q);
    } else {
      var k :| k in s.table && Covers(k, q);
      OneRecord(s, cores, k, q);
      RecordedByte(s, cores, plain, k, q);
      PhysParity(core, a, i);
    }
  }

  /**
   A read returns exactly the memory without breakpoints, for any start and length, when and only
   when none of its bytes is exposed.
   */
  lemma ReadTransparent(s: Target, cores: seq<nat>, plain: seq<Byte>, core: nat, a: nat, n: nat, r: seq<Byte>)
    requires Ok(s, cores) && IsPlain(plain, s) && InRange(s, core, a, n) && IsRead(s, core, a, n, r)
    ensures r == plain[Phys(core, a)..Phys(core, a) + n] <==> forall i: nat | i < n :: !Exposed(s, core, a, i)
  {
    var p := Phys(core, a);
    forall i: nat | i < n ensures r[i] == plain[p + i] <==> !Exposed(s, core, a, i) {
      ShownIsPlain(s, cores, plain, core, a, i);
    }
    if r == plain[p..p + n] {
      forall i: nat | i < n ensures !Exposed(s, core, a, i) {
        assert r[i] == plain[p..p + n][i];
      }
    }
  }

  /** The range stays in the core's local memory or outside it. */
  predicate Inside(a: nat, n: nat)
  {
    a + n <= LOCAL || LOCAL <= a
  }

  /** Record k of another core or another address lies where address x is. */
  ghost predicate ForeignAt(s: Target, core: nat, k: Key, x: nat)
  {
    k in s.table && Covers(k, Phys(core, x)) && k != Key(Even(x), core)
  }

  /** In such a range only a breakpoint under another address or core can show. */
  lemma ExposedInside(s: Target, cores: seq<nat>, core: nat, a: nat, i: nat)
    requires Ok(s, cores) && Phys(core, a) + i < |s.mem| && Inside(a, i + 1)
    ensures Exposed(s, core, a, i) <==>
      exists k {:trigger ForeignAt(s, core, k, a + i)} ::
        ForeignAt(s, core, k, a + i) && ByteAt(s.table[k], a + i) != ByteAt(BKPT, a + i)
  {
    var x, q, own := a + i, Phys(core, a) + i, Key(Even(a + i), core);
    assert Phys(core, x) == q && Covers(own, q);
    if own in s.table {
      OneRecord(s, cores, own, q);
    } else if Exposed(s, core, a, i) {
      var k :| k in s.table && Covers(k, q) && ByteAt(s.table[k], x) != ByteAt(BKPT, x);
      assert ForeignAt(s, core, k, x);
    }
  }

  /** A read from local memory into what follows it shows a record that belongs elsewhere. */
  lemma CrossingReadShowsRecord(m: seq<Byte>)
    requires |m| == 0x20_0002 && Fetch(m, 0x10_0000) == BKPT && m[0x20_0000] != 0x11
    ensures var s := Target(m, map[Key(0x10_0000, 1) := Insn(0x11, 0x22)]);
      Ok(s, [1]) && Exposed(s, 1, 0xF_FFFE, 2) && forall q | 0x1F_FFFE <= q < 0x20_0002 :: Clear(s, q)
  {
  }

  // ----- Writes ------------------------------------------------------------------------

  function MergeByte(b: Byte, x: nat, a: nat, d: seq<Byte>): Byte
  {
    if a <= x < a + |d| then d[x - a] else b
  }

  /** The record for address b once the data written over it is in it. */
  function Merged(i: Insn, b: nat, a: nat, d: seq<Byte>): Insn
  {
    Insn(MergeByte(i.lo, b, a, d), MergeByte(i.hi, b + 1, a, d))
  }

  /** The scan meets a breakpoint of the writing core at k's address and so rewrites record k. */
  ghost predicate Copied(t: map<Key, Insn>, cores: seq<nat>, core: nat, a: nat, end: nat, k: Key)
  {
    && k.addr % 2 == 0 && Even(a) <= k.addr < end && Key(k.addr, core) in t
    && if k.addr < LOCAL then k.core in cores else k.core == core
  }

  /** What the scan of a write of d has made of record k when it has come to `end`. */
  ghost predicate RecordAfter(t: map<Key, Insn>, cores: seq<nat>, core: nat, a: nat, end: nat, d: seq<Byte>,
                              t': map<Key, Insn>, k: Key)
  {
    var copied := Copied(t, cores, core, a, end, k);
    && (k in t' <==> k in t || copied)
    && (k in t' ==> t'[k] == if copied then Merged(t[Key(k.addr, core)], k.addr, a, d) else t[k])
  }

  ghost predicate IsUnhidden(t: map<Key, Insn>, cores: seq<nat>, core: nat, a: nat, end: nat, d: seq<Byte>,
                             t': map<Key, Insn>)
  {
    forall k {:trigger RecordAfter(t, cores, core, a, end, d, t', k)} :: RecordAfter(t, cores, core, a, end, d, t', k)
  }

  /** What is sent to the target for byte b of the data, meant for address x. */
  function SentByte(t: map<Key, Insn>, core: nat, x: nat, b: Byte): Byte
  {
    if Key(Even(x), core) in t then ByteAt(BKPT, x) else b
  }

  /** Location q is among the n that an access at a reaches. */
  predicate Touched(core: nat, a: nat, n: nat, q: nat)
  {
    Phys(core, a) <= q < Phys(core, a) + n
  }

  ghost predicate ByteAfter(s: Target, core: nat, a: nat, d: seq<Byte>, mem': seq<Byte>, q: nat)
    requires q < |s.mem| == |mem'|
  {
    var p := Phys(core, a);
    mem'[q] == if p <= q < p + |d| then SentByte(s.table, core, a + (q - p), d[q - p]) else s.mem[q]
  }

  ghost predicate IsWrite(s: Target, cores: seq<nat>, core: nat, a: nat, d: seq<Byte>, s': Target)
  {
    && |s'.mem| == |s.mem| && IsUnhidden(s.table, cores, core, a, a + |d|, d, s'.table)
    && forall q: nat {:trigger ByteAfter(s, core, a, d, s'.mem, q)} | q < |s.mem| :: ByteAfter(s, core, a, d, s'.mem, q)
  }

  /** Byte j of record k after the write. */
  ghost function NewByte(s: Target, cores: seq<nat>, core: nat, a: nat, d: seq<Byte>, k: Key, j: nat): Byte
    requires k in s.table
  {
    if Copied(s.table, cores, core, a, a + |d|, k) then
      MergeByte(ByteAt(s.table[Key(k.addr, core)], j), k.addr + j, a, d)
    else ByteAt(s.table[k], j)
  }

  /** Where the data does not reach record k, its byte stays as it is. */
  ghost predicate StaysAt(s: Target, cores: seq<nat>, core: nat, a: nat, d: seq<Byte>, k: Key, j: nat)
    requires k in s.table
  {
    !Touched(core, a, |d|, Slot(k) + j) ==> NewByte(s, cores, core, a, d, k, j) == ByteAt(s.table[k], j)
  }

  /** Where the data reaches record k, its byte becomes that of the data. */
  ghost predicate TakesAt(s: Target, cores: seq<nat>, core: nat, a: nat, d: seq<Byte>, k: Key, j: nat)
    requires k in s.table
  {
    Touched(core, a, |d|, Slot(k) + j) ==>
      NewByte(s, cores, core, a, d, k, j) == d[Slot(k) + j - Phys(core, a)]
  }

  /** Where the data reaches record k, the scan puts BKPT in its place, or it is BKPT. */
  ghost predicate BkptAt(s: Target, core: nat, a: nat, d: seq<Byte>, k: Key, j: nat)
    requires k in s.table
  {
    Touched(core, a, |d|, Slot(k) + j) ==>
      var i := Slot(k) + j - Phys(core, a);
      Key(Even(a + i), core) in s.table || d[i] == ByteAt(BKPT, j)
  }

  /** Byte i of the data is replaced by BKPT where there is no breakpoint. */
  ghost predicate StraysAt(s: Target, core: nat, a: nat, d: seq<Byte>, i: nat)
    requires i < |d|
  {
    Key(Even(a + i), core) in s.table && Clear(s, Phys(core, a) + i) && d[i] != ByteAt(BKPT, a + i)
  }

  ghost predicate RecordStays(s: Target, cores: seq<nat>, core: nat, a: nat, d: seq<Byte>, k: Key)
    requires k in s.table
  {
    StaysAt(s, cores, core, a, d, k, 0) && StaysAt(s, cores, core, a, d, k, 1)
  }

  ghost predicate RecordTakes(s: Target, cores: seq<nat>, core: nat, a: nat, d: seq<Byte>, k: Key)
    requires k in s.table
  {
    TakesAt(s, cores, core, a, d, k, 0) && TakesAt(s, cores, core, a, d, k, 1)
  }

  ghost predicate RecordKept(s: Target, core: nat, a: nat, d: seq<Byte>, k: Key)
    requires k in s.table
  {
    BkptAt(s, core, a, d, k, 0) && BkptAt(s, core, a, d, k, 1)
  }

  ghost predicate AllStay(s: Target, cores: seq<nat>, core: nat, a: nat, d: seq<Byte>)
  {
    forall k {:trigger RecordStays(s, cores, core, a, d, k)} | k in s.table :: RecordStays(s, cores, core, a, d, k)
  }

  ghost predicate AllTake(s: Target, cores: seq<nat>, core: nat, a: nat, d: seq<Byte>)
  {
    forall k {:trigger RecordTakes(s, cores, core, a, d, k)} | k in s.table :: RecordTakes(s, cores, core, a, d, k)
  }

  ghost predicate AllKept(s: Target, core: nat, a: nat, d: seq<Byte>)
  {
    forall k {:trigger RecordKept(s, core, a, d, k)} | k in s.table :: RecordKept(s, core, a, d, k)
  }

  ghost predicate NoneStray(s: Target, core: nat, a: nat, d: seq<Byte>)
  {
    forall i: nat {:trigger StraysAt(s, core, a, d, i)} | i < |d| :: !StraysAt(s, core, a, d, i)
  }

  function Overwrite(m: seq<Byte>, p: nat, d: seq<Byte>): (r: seq<Byte>)
    requires p + |d| <= |m|
    ensures |r| == |m| && forall q | 0 <= q < |m| :: r[q] == if p <= q < p + |d| then d[q - p] else m[q]
  {
    m[..p] + d + m[p + |d|..]
  }

  ghost predicate CanWrite(s: Target, cores: seq<nat>, core: nat, a: nat, d: seq<Byte>)
  {
    Ok(s, cores) && Uniform(s, cores) && core in cores && InRange(s, core, a, |d|)
  }

  lemma NoNewRecords(s: Target, cores: seq<nat>, core: nat, a: nat, d: seq<Byte>, s': Target)
    requires CanWrite(s, cores, core, a, d) && IsWrite(s, cores, core, a, d, s')
    ensures s'.table.Keys == s.table.Keys
  {
    forall k ensures k in s'.table <==> k in s.table {
      assert RecordAfter(s.table, cores, core, a, a + |d|, d, s'.table, k);
      assert SetIn(s, cores, Key(k.addr, core), k.core);
    }
  }

  lemma RecordBytes(s: Target, cores: seq<nat>, core: nat, a: nat, d: seq<Byte>, s': Target, k: Key)
    requires IsWrite(s, cores, core, a, d, s') && k in s.table && k.addr % 2 == 0
    ensures k in s'.table
    ensures s'.table[k] == Insn(NewByte(s, cores, core, a, d, k, 0), NewByte(s, cores, core, a, d, k, 1))
  {
    assert RecordAfter(s.table, cores, core, a, a + |d|, d, s'.table, k);
  }

  /** A byte of a record in the written memory without breakpoints. */
  lemma PlainByte(s: Target, cores: seq<nat>, plain: seq<Byte>, core: nat, a: nat, d: seq<Byte>, k: Key, j: nat)
    requires CanWrite(s, cores, core, a, d) && IsPlain(plain, s) && k in s.table && j < 2
    ensures Slot(k) + j < |plain|
    ensures Overwrite(plain, Phys(core, a), d)[Slot(k) + j] == NewByte(s, cores, core, a, d, k, j)
      <==> StaysAt(s, cores, core, a, d, k, j) && TakesAt(s, cores, core, a, d, k, j)
  {
    assert RecordShown(plain, s, k);
  }

  lemma PlainAtRecord(s: Target, cores: seq<nat>, plain: seq<Byte>, core: nat, a: nat, d: seq<Byte>, s': Target, k: Key)
    requires CanWrite(s, cores, core, a, d) && IsWrite(s, cores, core, a, d, s') && IsPlain(plain, s) && k in s.table
    ensures k in s'.table
    ensures RecordShown(Overwrite(plain, Phys(core, a), d), s', k) <==>
      RecordStays(s, cores, core, a, d, k) && RecordTakes(s, cores, core, a, d, k)
  {
    assert Sound(s, cores, k);
    RecordBytes(s, cores, core, a, d, s', k);
    PlainByte(s, cores, plain, core, a, d, k, 0);
    PlainByte(s, cores, plain, core, a, d, k, 1);
  }

  lemma PlainOffRecords(s: Target, cores: seq<nat>, plain: seq<Byte>, core: nat, a: nat, d: seq<Byte>, s': Target,
                        q: nat)
    requires CanWrite(s, cores, core, a, d) && IsWrite(s, cores, core, a, d, s') && IsPlain(plain, s)
    requires q < |s.mem| && Clear(s, q)
    ensures Overwrite(plain, Phys(core, a), d)[q] == s'.mem[q] <==>
      (Touched(core, a, |d|, q) ==> !StraysAt(s, core, a, d, q - Phys(core, a)))
  {
    assert RestShown(plain, s, q) && ByteAfter(s, core, a, d, s'.mem, q);
  }

  lemma ClearKept(s: Target, s': Target, q: nat)
    requires s'.table.Keys == s.table.Keys
    ensures Clear(s', q) <==> Clear(s, q)
  {
    forall k ensures k in s.table <==> k in s'.table { assert k in s.table.Keys <==> k in s'.table.Keys; }
  }

  lemma AllRecordsShown(s: Target, cores: seq<nat>, plain: seq<Byte>, core: nat, a: nat, d: seq<Byte>, s': Target)
    requires CanWrite(s, cores, core, a, d) && IsWrite(s, cores, core, a, d, s') && IsPlain(plain, s)
    requires s'.table.Keys == s.table.Keys
    ensures var w := Overwrite(plain, Phys(core, a), d);
      (forall k {:trigger RecordShown(w, s', k)} | k in s'.table :: RecordShown(w, s', k))
      <==> AllTake(s, cores, core, a, d) && AllStay(s, cores, core, a, d)
  {
    var w := Overwrite(plain, Phys(core, a), d);
    forall k | k in s.table
      ensures k in s'.table
      ensures RecordShown(w, s', k) <==> RecordStays(s, cores, core, a, d, k) && RecordTakes(s, cores, core, a, d, k)
    {
      PlainAtRecord(s, cores, plain, core, a, d, s', k);
    }
  }

  lemma AllRestShown(s: Target, cores: seq<nat>, plain: seq<Byte>, core: nat, a: nat, d: seq<Byte>, s': Target)
    requires CanWrite(s, cores, core, a, d) && IsWrite(s, cores, core, a, d, s') && IsPlain(plain, s)
    requires s'.table.Keys == s.table.Keys
    ensures var w := Overwrite(plain, Phys(core, a), d);
      (forall q: nat {:trigger RestShown(w, s', q)} :: RestShown(w, s', q)) <==> NoneStray(s, core, a, d)
  {
    var w, p := Overwrite(plain, Phys(core, a), d), Phys(core, a);
    forall q: nat ensures !RestShown(w, s', q) <==> Touched(core, a, |d|, q) && StraysAt(s, core, a, d, q - p) {
      ClearKept(s, s', q);
      if q < |w| && Clear(s, q) { PlainOffRecords(s, cores, plain, core, a, d, s', q); }
    }
    forall i: nat | i < |d| ensures StraysAt(s, core, a, d, i) <==> !RestShown(w, s', p + i) {
      assert Touched(core, a, |d|, p + i) && p + i - p == i;
    }
  }

  /**
   A write acts as a plain write on the memory without breakpoints exactly if each record it reaches
   becomes the data, each other record stays as it is, and BKPT is sent to breakpoints only.
   */
  lemma WriteTransparent(s: Target, cores: seq<nat>, plain: seq<Byte>, core: nat, a: nat, d: seq<Byte>, s': Target)
    requires CanWrite(s, cores, core, a, d) && IsWrite(s, cores, core, a, d, s') && IsPlain(plain, s)
    ensures IsPlain(Overwrite(plain, Phys(core, a), d), s') <==>
      AllTake(s, cores, core, a, d) && AllStay(s, cores, core, a, d) && NoneStray(s, core, a, d)
  {
    NoNewRecords(s, cores, core, a, d, s');
    AllRecordsShown(s, cores, plain, core, a, d, s');
    AllRestShown(s, cores, plain, core, a, d, s');
  }

  /** Byte j of record k in the target's memory after the write. */
  lemma SentToRecord(s: Target, cores: seq<nat>, core: nat, a: nat, d: seq<Byte>, s': Target, k: Key, j: nat)
    requires CanWrite(s, cores, core, a, d) && IsWrite(s, cores, core, a, d, s') && k in s.table && j < 2
    ensures Slot(k) + j < |s'.mem|
    ensures s'.mem[Slot(k) + j] == ByteAt(BKPT, j) <==> BkptAt(s, core, a, d, k, j)
  {
    var q, p := Slot(k) + j, Phys(core, a);
    assert Sound(s, cores, k) && ByteAfter(s, core, a, d, s'.mem, q);
    if p <= q {
      PhysParity(core, a, q - p);
      PhysParity(k.core, k.addr, j);
    }
  }

  /** Each recorded address holds BKPT after a write exactly if wherever the data reaches one BKPT is sent. */
  lemma WriteKeeps(s: Target, cores: seq<nat>, core: nat, a: nat, d: seq<Byte>, s': Target)
    requires CanWrite(s, cores, core, a, d) && IsWrite(s, cores, core, a, d, s')
    ensures Uniform(s', cores) && (Ok(s', cores) <==> AllKept(s, core, a, d))
  {
    NoNewRecords(s, cores, core, a, d, s');
    forall k | k in s.table ensures k in s'.table && (Sound(s', cores, k) <==> RecordKept(s, core, a, d, k)) {
      assert Sound(s, cores, k);
      SentToRecord(s, cores, core, a, d, s', k, 0);
      SentToRecord(s, cores, core, a, d, s', k, 1);
      assert k in s'.table.Keys;
    }
    forall j, k ensures Alone(s', j, k) { assert Alone(s, j, k); }
    forall k, u ensures SetIn(s', cores, k, u) { assert SetIn(s, cores, k, u); }
  }

  // ----- What the debugger sees of a write ----------------------------------------------

  /** The debugger sees the data's byte i. */
  ghost predicate SeenAt(plain': seq<Byte>, core: nat, a: nat, d: seq<Byte>, i: nat)
    requires i < |d| && Phys(core, a) + i < |plain'|
  {
    plain'[Phys(core, a) + i] == d[i]
  }

  lemma RecordSeen(s: Target, cores: seq<nat>, core: nat, a: nat, d: seq<Byte>, s': Target, plain': seq<Byte>,
                   k: Key, j: nat)
    requires CanWrite(s, cores, core, a, d) && IsWrite(s, cores, core, a, d, s') && IsPlain(plain', s')
    requires k in s.table && j < 2
    ensures Slot(k) + j < |plain'| && plain'[Slot(k) + j] == NewByte(s, cores, core, a, d, k, j)
  {
    assert Sound(s, cores, k);
    RecordBytes(s, cores, core, a, d, s', k);
    assert RecordShown(plain', s', k);
  }

  /** The one record at a location decides what a quantifier over all of them says there. */
  lemma ByteSeen(s: Target, cores: seq<nat>, core: nat, a: nat, d: seq<Byte>, s': Target, plain': seq<Byte>, i: nat)
    requires CanWrite(s, cores, core, a, d) && IsWrite(s, cores, core, a, d, s') && IsPlain(plain', s') && i < |d|
    requires Clear(s, Phys(core, a) + i)
    ensures Phys(core, a) + i < |plain'| && (SeenAt(plain', core, a, d, i) <==> !StraysAt(s, core, a, d, i))
  {
    var q := Phys(core, a) + i;
    NoNewRecords(s, cores, core, a, d, s');
    ClearKept(s, s', q);
    assert RestShown(plain', s', q) && ByteAfter(s, core, a, d, s'.mem, q);
  }

  /** Byte j of record k is seen as the data if the data reaches it. */
  lemma TakenIsSeen(s: Target, cores: seq<nat>, core: nat, a: nat, d: seq<Byte>, s': Target, plain': seq<Byte>,
                    k: Key, j: nat)
    requires CanWrite(s, cores, core, a, d) && IsWrite(s, cores, core, a, d, s') && IsPlain(plain', s')
    requires k in s.table && j < 2 && |plain'| == |s.mem|
    ensures TakesAt(s, cores, core, a, d, k, j) <==>
      (Touched(core, a, |d|, Slot(k) + j) ==> SeenAt(plain', core, a, d, Slot(k) + j - Phys(core, a)))
  {
    RecordSeen(s, cores, core, a, d, s', plain', k, j);
  }

  /** The writing core sees its data exactly if each record it reaches becomes the data and no BKPT strays. */
  lemma WriterSeesData(s: Target, cores: seq<nat>, core: nat, a: nat, d: seq<Byte>, s': Target, plain': seq<Byte>)
    requires CanWrite(s, cores, core, a, d) && IsWrite(s, cores, core, a, d, s') && IsPlain(plain', s')
    ensures plain'[Phys(core, a)..Phys(core, a) + |d|] == d <==>
      AllTake(s, cores, core, a, d) && NoneStray(s, core, a, d)
  {
    var p := Phys(core, a);
    var seen := plain'[p..p + |d|];
    if seen == d {
      forall i: nat | i < |d| ensures SeenAt(plain', core, a, d, i) { assert seen[i] == d[i]; }
      forall k | k in s.table ensures RecordTakes(s, cores, core, a, d, k) {
        TakenIsSeen(s, cores, core, a, d, s', plain', k, 0);
        TakenIsSeen(s, cores, core, a, d, s', plain', k, 1);
      }
      forall i: nat | i < |d| ensures !StraysAt(s, core, a, d, i) {
        if Clear(s, p + i) { ByteSeen(s, cores, core, a, d, s', plain', i); }
      }
    }
    if AllTake(s, cores, core, a, d) && NoneStray(s, core, a, d) {
      forall i: nat | i < |d| ensures seen[i] == d[i] {
        DataSeen(s, cores, core, a, d, s', plain', i);
      }
    }
  }

  lemma DataSeen(s: Target, cores: seq<nat>, core: nat, a: nat, d: seq<Byte>, s': Target, plain': seq<Byte>, i: nat)
    requires CanWrite(s, cores, core, a, d) && IsWrite(s, cores, core, a, d, s') && IsPlain(plain', s') && i < |d|
    requires AllTake(s, cores, core, a, d) && NoneStray(s, core, a, d)
    ensures Phys(core, a) + i < |plain'| && SeenAt(plain', core, a, d, i)
  {
    var q := Phys(core, a) + i;
    if Clear(s, q) {
      ByteSeen(s, cores, core, a, d, s', plain', i);
    } else {
      var k :| k in s.table && Covers(k, q);
      assert RecordTakes(s, cores, core, a, d, k);
      TakenIsSeen(s, cores, core, a, d, s', plain', k, q - Slot(k));
    }
  }

  /** Off the range a byte is seen as before exactly if the record there, if any, stays as it is. */
  lemma RestIsSeen(s: Target, cores: seq<nat>, plain: seq<Byte>, core: nat, a: nat, d: seq<Byte>, s': Target,
                   plain': seq<Byte>, q: nat)
    requires CanWrite(s, cores, core, a, d) && IsWrite(s, cores, core, a, d, s')
    requires IsPlain(plain, s) && IsPlain(plain', s') && q < |plain| && !Touched(core, a, |d|, q)
    ensures plain'[q] == plain[q] <==>
      forall k {:trigger Covers(k, q)} | k in s.table && Covers(k, q) :: StaysAt(s, cores, core, a, d, k, q - Slot(k))
  {
    NoNewRecords(s, cores, core, a, d, s');
    ClearKept(s, s', q);
    if Clear(s, q) {
      assert RestShown(plain, s, q) && RestShown(plain', s', q) && ByteAfter(s, core, a, d, s'.mem, q);
    } else {
      var k :| k in s.table && Covers(k, q);
      OneRecord(s, cores, k, q);
      RecordSeen(s, cores, core, a, d, s', plain', k, q - Slot(k));
      assert RecordShown(plain, s, k);
    }
  }

  // ----- Ranges inside or outside local memory ------------------------------------------

  /** Where record k lies under another name in the range, the data is instruction i. */
  ghost predicate PutsThere(s: Target, core: nat, a: nat, d: seq<Byte>, k: Key, i: Insn)
  {
    forall x {:trigger ForeignAt(s, core, k, x)} | a <= x < a + |d| && ForeignAt(s, core, k, x) ::
      d[x - a] == ByteAt(i, x)
  }

  /** A write through another name of a breakpoint leaves the BKPT in place. */
  ghost predicate AliasesKeepBkpt(s: Target, core: nat, a: nat, d: seq<Byte>)
  {
    forall k {:trigger k in s.table} | k in s.table :: PutsThere(s, core, a, d, k, BKPT)
  }

  /** A write through another name of a breakpoint writes what is recorded for it. */
  ghost predicate AliasesKeepRecord(s: Target, core: nat, a: nat, d: seq<Byte>)
  {
    forall k {:trigger k in s.table} | k in s.table :: PutsThere(s, core, a, d, k, s.table[k])
  }

  ghost predicate PeerAgrees(s: Target, cores: seq<nat>, core: nat, a: nat, d: seq<Byte>, k: Key)
    requires k in s.table
  {
    k.core != core && Copied(s.table, cores, core, a, a + |d|, k) ==>
      s.table[k] == Merged(s.table[Key(k.addr, core)], k.addr, a, d)
  }

  /** The other cores' records on the way are what they are about to be set to. */
  ghost predicate PeersAgree(s: Target, cores: seq<nat>, core: nat, a: nat, d: seq<Byte>)
  {
    forall k {:trigger PeerAgrees(s, cores, core, a, d, k)} | k in s.table :: PeerAgrees(s, cores, core, a, d, k)
  }

  /** Byte j of a record of the writing core that the scan meets. */
  lemma MetByte(s: Target, cores: seq<nat>, core: nat, a: nat, d: seq<Byte>, k: Key, j: nat)
    requires CanWrite(s, cores, core, a, d) && Inside(a, |d|) && k in s.table && j < 2
    requires k.core == core && Even(a) <= k.addr < a + |d|
    ensures StaysAt(s, cores, core, a, d, k, j) && TakesAt(s, cores, core, a, d, k, j) && BkptAt(s, core, a, d, k, j)
    ensures Touched(core, a, |d|, Slot(k) + j) ==> !ForeignAt(s, core, k, a + (Slot(k) + j - Phys(core, a)))
  {
    assert Sound(s, cores, k);
    assert Slot(k) - Phys(core, a) == k.addr - a;
  }

  /** Byte j of a record that the scan does not meet: of another core, or under another address. */
  lemma UnmetByte(s: Target, cores: seq<nat>, core: nat, a: nat, d: seq<Byte>, k: Key, j: nat)
    requires CanWrite(s, cores, core, a, d) && Inside(a, |d|) && k in s.table && j < 2
    requires !(k.core == core && Even(a) <= k.addr < a + |d|) && Touched(core, a, |d|, Slot(k) + j)
    ensures var x := a + (Slot(k) + j - Phys(core, a));
      ForeignAt(s, core, k, x) && x % 2 == j && Key(Even(x), core) !in s.table
    ensures !Copied(s.table, cores, core, a, a + |d|, k)
  {
    var x := a + (Slot(k) + j - Phys(core, a));
    assert Sound(s, cores, k) && Phys(core, x) == Slot(k) + j;
    UnmetIsForeign(core, a, |d|, k, x);
    SameParity(core, x, k, j);
    ForeignIsAlone(s, cores, core, k, x);
  }

  lemma UnmetIsForeign(core: nat, a: nat, n: nat, k: Key, x: nat)
    requires Inside(a, n) && a <= x < a + n && k.addr % 2 == 0 && Covers(k, Phys(core, x))
    requires !(k.core == core && Even(a) <= k.addr < a + n)
    ensures k != Key(Even(x), core) && (k.addr < LOCAL ==> k.core == core || !(Even(a) <= k.addr < a + n))
  {
  }

  lemma SameParity(core: nat, x: nat, k: Key, j: nat)
    requires k.addr % 2 == 0 && j < 2 && Phys(core, x) == Slot(k) + j
    ensures x % 2 == j
  {
    PhysParity(core, x, 0);
    PhysParity(k.core, k.addr, j);
  }

  /** Where another name's record lies there is none of the core's own. */
  lemma ForeignIsAlone(s: Target, cores: seq<nat>, core: nat, k: Key, x: nat)
    requires Ok(s, cores) && ForeignAt(s, core, k, x)
    ensures Key(Even(x), core) !in s.table
  {
    OneRecord(s, cores, k, Phys(core, x));
    assert Covers(Key(Even(x), core), Phys(core, x));
  }

  lemma MetRecord(s: Target, cores: seq<nat>, core: nat, a: nat, d: seq<Byte>, k: Key)
    requires CanWrite(s, cores, core, a, d) && Inside(a, |d|) && k in s.table
    requires k.core == core && Even(a) <= k.addr < a + |d|
    ensures RecordStays(s, cores, core, a, d, k) && RecordTakes(s, cores, core, a, d, k)
    ensures RecordKept(s, core, a, d, k) && PeerAgrees(s, cores, core, a, d, k)
    ensures PutsThere(s, core, a, d, k, s.table[k]) && PutsThere(s, core, a, d, k, BKPT)
  {
    MetByte(s, cores, core, a, d, k, 0);
    MetByte(s, cores, core, a, d, k, 1);
    forall x | a <= x < a + |d| ensures !ForeignAt(s, core, k, x) {
      if ForeignAt(s, core, k, x) { ForeignByte(s, core, a, |d|, k, x); }
    }
  }

  /** Where x meets the record under another name. */
  lemma ForeignByte(s: Target, core: nat, a: nat, n: nat, k: Key, x: nat)
    requires Inside(a, n) && a <= x < a + n && ForeignAt(s, core, k, x)
    ensures var j := x - a + Phys(core, a) - Slot(k);
      0 <= j < 2 && Touched(core, a, n, Slot(k) + j) && x == a + (Slot(k) + j - Phys(core, a))
  {
    assert Phys(core, x) == Phys(core, a) + (x - a);
  }

  /** Byte j of record k gets that of instruction i if the data reaches it. */
  predicate PutsByte(core: nat, a: nat, d: seq<Byte>, k: Key, i: Insn, j: nat)
  {
    Touched(core, a, |d|, Slot(k) + j) ==> d[Slot(k) + j - Phys(core, a)] == ByteAt(i, j)
  }

  lemma UnmetPuts(s: Target, cores: seq<nat>, core: nat, a: nat, d: seq<Byte>, k: Key, i: Insn)
    requires CanWrite(s, cores, core, a, d) && Inside(a, |d|) && k in s.table
    requires !(k.core == core && Even(a) <= k.addr < a + |d|)
    ensures PutsThere(s, core, a, d, k, i) <==> PutsByte(core, a, d, k, i, 0) && PutsByte(core, a, d, k, i, 1)
  {
    if Touched(core, a, |d|, Slot(k)) { UnmetByte(s, cores, core, a, d, k, 0); }
    if Touched(core, a, |d|, Slot(k) + 1) { UnmetByte(s, cores, core, a, d, k, 1); }
    forall x | a <= x < a + |d| && ForeignAt(s, core, k, x)
      ensures PutsByte(core, a, d, k, i, 0) && PutsByte(core, a, d, k, i, 1) ==> d[x - a] == ByteAt(i, x)
    {
      ForeignByte(s, core, a, |d|, k, x);
    }
  }

  lemma UnmetAt(s: Target, cores: seq<nat>, core: nat, a: nat, d: seq<Byte>, k: Key, j: nat)
    requires CanWrite(s, cores, core, a, d) && Inside(a, |d|) && k in s.table && j < 2
    requires !(k.core == core && Even(a) <= k.addr < a + |d|)
    ensures TakesAt(s, cores, core, a, d, k, j) <==> PutsByte(core, a, d, k, s.table[k], j)
    ensures BkptAt(s, core, a, d, k, j) <==> PutsByte(core, a, d, k, BKPT, j)
    ensures Copied(s.table, cores, core, a, a + |d|, k) ==> !Touched(core, a, |d|, Slot(k) + j)
  {
    if Touched(core, a, |d|, Slot(k) + j) { UnmetByte(s, cores, core, a, d, k, j); }
  }

  lemma UnmetRecord(s: Target, cores: seq<nat>, core: nat, a: nat, d: seq<Byte>, k: Key)
    requires CanWrite(s, cores, core, a, d) && Inside(a, |d|) && k in s.table
    requires !(k.core == core && Even(a) <= k.addr < a + |d|)
    ensures RecordStays(s, cores, core, a, d, k) <==> PeerAgrees(s, cores, core, a, d, k)
    ensures RecordTakes(s, cores, core, a, d, k) <==> PutsThere(s, core, a, d, k, s.table[k])
    ensures RecordKept(s, core, a, d, k) <==> PutsThere(s, core, a, d, k, BKPT)
  {
    UnmetAt(s, cores, core, a, d, k, 0);
    UnmetAt(s, cores, core, a, d, k, 1);
    UnmetPuts(s, cores, core, a, d, k, s.table[k]);
    UnmetPuts(s, cores, core, a, d, k, BKPT);
  }

  /**
   For a range inside or outside the local memory these conditions say: the other cores' records that
   the scan overwrites are already what they become, and through another address or core of a
   breakpoint the write puts what is recorded there, or BKPT. Nothing strays.
   */
  lemma WriteInside(s: Target, cores: seq<nat>, core: nat, a: nat, d: seq<Byte>)
    requires CanWrite(s, cores, core, a, d) && Inside(a, |d|)
    ensures AllStay(s, cores, core, a, d) <==> PeersAgree(s, cores, core, a, d)
    ensures AllTake(s, cores, core, a, d) <==> AliasesKeepRecord(s, core, a, d)
    ensures AllKept(s, core, a, d) <==> AliasesKeepBkpt(s, core, a, d)
    ensures NoneStray(s, core, a, d)
  {
    forall k | k in s.table
      ensures RecordStays(s, cores, core, a, d, k) <==> PeerAgrees(s, cores, core, a, d, k)
      ensures RecordTakes(s, cores, core, a, d, k) <==> PutsThere(s, core, a, d, k, s.table[k])
      ensures RecordKept(s, core, a, d, k) <==> PutsThere(s, core, a, d, k, BKPT)
    {
      if k.core == core && Even(a) <= k.addr < a + |d| {
        MetRecord(s, cores, core, a, d, k);
      } else {
        UnmetRecord(s, cores, core, a, d, k);
      }
    }
    forall i: nat | i < |d| ensures !StraysAt(s, core, a, d, i) {
      assert Covers(Key(Even(a + i), core), Phys(core, a) + i);
    }
  }

  /** Whatever another core had recorded at an address the scan meets, it ends with the writer's record. */
  lemma PeerTakesWritersRecord(s: Target, cores: seq<nat>, core: nat, a: nat, d: seq<Byte>, s': Target,
                             plain': seq<Byte>, k: Key)
    requires CanWrite(s, cores, core, a, d) && IsWrite(s, cores, core, a, d, s') && IsPlain(plain', s')
    requires k in s.table && k.core != core && Copied(s.table, cores, core, a, a + |d|, k)
    ensures Slot(k) + 2 <= |plain'| && Fetch(plain', Slot(k)) == Merged(s.table[Key(k.addr, core)], k.addr, a, d)
  {
    assert RecordAfter(s.table, cores, core, a, a + |d|, d, s'.table, k) && RecordShown(plain', s', k);
  }

  /** Even a write of no bytes at an odd address copies a record over another core's. */
  lemma EmptyWriteChangesPeer(m: seq<Byte>, s': Target, plain': seq<Byte>)
    requires |m| == 0x10_0002 && Fetch(m, 0) == BKPT && Fetch(m, 0x10_0000) == BKPT
    requires var s := Target(m, map[Key(0, 0) := Insn(0x11, 0x22), Key(0, 1) := Insn(0x33, 0x44)]);
      IsWrite(s, [0, 1], 0, 1, [], s') && IsPlain(plain', s')
    ensures Fetch(plain', 0x10_0000) == Insn(0x11, 0x22)
  {
    var s := Target(m, map[Key(0, 0) := Insn(0x11, 0x22), Key(0, 1) := Insn(0x33, 0x44)]);
    PeerTakesWritersRecord(s, [0, 1], 0, 1, [], s', plain', Key(0, 1));
  }

  /** In a process of one core there are no other records to agree. */
  lemma OneCoreAgrees(s: Target, core: nat, a: nat, d: seq<Byte>)
    requires Ok(s, [core])
    ensures PeersAgree(s, [core], core, a, d)
  {
    forall k | k in s.table ensures PeerAgrees(s, [core], core, a, d, k) { assert Sound(s, [core], k); }
  }

  /** A core can write over its own local breakpoint through its global address, even when it is alone. */
  lemma AliasedWriteHitsBreakpoint(m: seq<Byte>, s': Target, plain': seq<Byte>)
    requires |m| == 0x10_0002 && Fetch(m, 0x10_0000) == BKPT
    requires IsWrite(Target(m, map[Key(0, 1) := Insn(0x11, 0x22)]), [1], 1, 0x10_0000, [0x33, 0x44], s')
    ensures var s := Target(m, map[Key(0, 1) := Insn(0x11, 0x22)]);
      CanWrite(s, [1], 1, 0x10_0000, [0x33, 0x44]) && PeersAgree(s, [1], 1, 0x10_0000, [0x33, 0x44])
    ensures !Ok(s', [1]) && (IsPlain(plain', s') ==> Fetch(plain', 0x10_0000) == Insn(0x11, 0x22))
  {
    var s, k, d: seq<Byte> := Target(m, map[Key(0, 1) := Insn(0x11, 0x22)]), Key(0, 1), [0x33, 0x44];
    OneCoreAgrees(s, 1, 0x10_0000, d);
    WriteKeeps(s, [1], 1, 0x10_0000, d, s');
    assert !BkptAt(s, 1, 0x10_0000, d, k, 0) && !RecordKept(s, 1, 0x10_0000, d, k);
    RecordBytes(s, [1], 1, 0x10_0000, d, s', k);
    if IsPlain(plain', s') { assert RecordShown(plain', s', k); }
  }

  /** A write from local memory into what follows it puts BKPT where none was set, and changes a record elsewhere. */
  lemma CrossingWriteStrays(m: seq<Byte>, s': Target)
    requires |m| == 0x20_0002 && Fetch(m, 0x10_0000) == BKPT
    requires IsWrite(Target(m, map[Key(0x10_0000, 1) := Insn(0x11, 0x22)]), [1], 1, 0xF_FFFE, [1, 2, 3, 4], s')
    ensures var s := Target(m, map[Key(0x10_0000, 1) := Insn(0x11, 0x22)]);
      CanWrite(s, [1], 1, 0xF_FFFE, [1, 2, 3, 4]) && Clear(s, 0x20_0000) && Clear(s, 0x20_0001)
    ensures |s'.mem| == |m| && Fetch(s'.mem, 0x20_0000) == BKPT && Fetch(s'.mem, 0x10_0000) == BKPT
    ensures Key(0x10_0000, 1) in s'.table && s'.table[Key(0x10_0000, 1)] == Insn(3, 4)
  {
    var s, k, d: seq<Byte> := Target(m, map[Key(0x10_0000, 1) := Insn(0x11, 0x22)]), Key(0x10_0000, 1), [1, 2, 3, 4];
    RecordBytes(s, [1], 1, 0xF_FFFE, d, s', k);
    assert ByteAfter(s, 1, 0xF_FFFE, d, s'.mem, 0x20_0000) && ByteAfter(s, 1, 0xF_FFFE, d, s'.mem, 0x20_0001);
    assert ByteAfter(s, 1, 0xF_FFFE, d, s'.mem, 0x10_0000) && ByteAfter(s, 1, 0xF_FFFE, d, s'.mem, 0x10_0001);
  }

  // ----- Whole runs --------------------------------------------------------------------

  datatype Op =
    | Insert(core: nat, addr: nat)
    | Remove(core: nat, addr: nat)
    | Read(core: nat, addr: nat, len: nat)
    | Write(core: nat, addr: nat, data: seq<Byte>)

  /** What a client must respect; each condition can be checked before the request. */
  ghost predicate Admissible(s: Target, cores: seq<nat>, op: Op)
  {
    && op.core in cores
    && match op
       case Insert(core, a) =>
         InMemory(s, Targets(cores, core, a), a) && forall c | c in Targets(cores, core, a) :: Fresh(s, c, a)
       case Remove(_, _) => true
       case Read(core, a, n) =>
         InRange(s, core, a, n) && forall i: nat | i < n :: !Exposed(s, core, a, i)
       case Write(core, a, d) =>
         InRange(s, core, a, |d|) && AllKept(s, core, a, d)
         && AllTake(s, cores, core, a, d) && AllStay(s, cores, core, a, d) && NoneStray(s, core, a, d)
  }

  /** One request on the target, and the bytes it returns. */
  ghost predicate Step(s: Target, cores: seq<nat>, op: Op, out: seq<Byte>, s': Target)
  {
    var cs := Targets(cores, op.core, op.addr);
    && (op.Insert? ==> InMemory(s, cs, op.addr) && s' == InsertAll(s, cs, op.addr, |cs|))
    && (op.Remove? ==> (forall k | k in s.table :: Slot(k) + 2 <= |s.mem|) && s' == RemoveAll(s, cs, op.addr, |cs|))
    && (op.Read? ==> s' == s && InRange(s, op.core, op.addr, op.len) && IsRead(s, op.core, op.addr, op.len, out))
    && (op.Write? ==> IsWrite(s, cores, op.core, op.addr, op.data, s'))
    && (!op.Read? ==> out == [])
  }

  /** The same request on a memory that never has breakpoints. */
  ghost function PlainStep(m: seq<Byte>, op: Op): (r: seq<Byte>)
    ensures |r| == |m|
  {
    if op.Write? && Phys(op.core, op.addr) + |op.data| <= |m| then Overwrite(m, Phys(op.core, op.addr), op.data) else m
  }

  ghost function PlainOut(m: seq<Byte>, op: Op): seq<Byte>
  {
    var p := Phys(op.core, op.addr);
    if op.Read? && p + op.len <= |m| then m[p..p + op.len] else []
  }

  ghost function PlainAfter(m: seq<Byte>, ops: seq<Op>, n: nat): (r: seq<Byte>)
    requires n <= |ops|
    ensures |r| == |m|
  {
    if n == 0 then m else PlainStep(PlainAfter(m, ops, n - 1), ops[n - 1])
  }

  ghost predicate IsRun(run: seq<Target>, cores: seq<nat>, ops: seq<Op>, outs: seq<seq<Byte>>)
  {
    && |run| == |ops| + 1 && |outs| == |ops| && ValidCores(cores) && run[0].table == map[]
    && forall i: nat {:trigger StepAt(run, cores, ops, outs, i)} | i < |ops| :: StepAt(run, cores, ops, outs, i)
  }

  ghost predicate StepAt(run: seq<Target>, cores: seq<nat>, ops: seq<Op>, outs: seq<seq<Byte>>, i: nat)
    requires i < |ops| == |outs| && |run| == |ops| + 1
  {
    Admissible(run[i], cores, ops[i]) && Step(run[i], cores, ops[i], outs[i], run[i + 1])
  }

  lemma UniformAfter(s: Target, cores: seq<nat>, op: Op, s': Target)
    requires Ok(s, cores) && Uniform(s, cores)
    requires var cs := Targets(cores, op.core, op.addr); forall k: Key ::
      k in s'.table <==> if op.Insert? then k in s.table || (k.addr == op.addr && k.core in cs)
                         else k in s.table && !(k.addr == op.addr && k.core in cs)
    ensures Uniform(s', cores)
  {
    forall k, u ensures SetIn(s', cores, k, u) {
      assert SetIn(s, cores, k, u);
      if k in s.table { assert Sound(s, cores, k); }
    }
  }

  lemma StepRefines(s: Target, cores: seq<nat>, plain: seq<Byte>, op: Op, out: seq<Byte>, s': Target)
    requires ValidCores(cores) && Ok(s, cores) && Uniform(s, cores) && IsPlain(plain, s)
    requires Admissible(s, cores, op) && Step(s, cores, op, out, s')
    ensures Ok(s', cores) && Uniform(s', cores) && IsPlain(PlainStep(plain, op), s') && out == PlainOut(plain, op)
  {
    var cs := Targets(cores, op.core, op.addr);
    match op {
      case Insert(c, a) =>
        InsertTransparent(s, cores, plain, cs, a);
        InsertAllFrame(s, cs, a, |cs|);
        assert cs[..|cs|] == cs;
        UniformAfter(s, cores, op, s');
      case Remove(c, a) =>
        RemoveTransparent(s, cores, plain, cs, a, |cs|);
        assert cs[..|cs|] == cs;
        UniformAfter(s, cores, op, s');
      case Read(c, a, n) =>
        ReadTransparent(s, cores, plain, c, a, n, out);
      case Write(c, a, d) =>
        WriteKeeps(s, cores, c, a, d, s');
        WriteTransparent(s, cores, plain, c, a, d, s');
    }
  }

  /**
   Over every run of insert, remove, read and write requests: each recorded address holds BKPT,
   reads return what they would on a memory that never had breakpoints and was only written,
   and once no breakpoint is left the target memory is that memory.
   */
  lemma {:induction false} RunsAreTransparent(run: seq<Target>, cores: seq<nat>, ops: seq<Op>,
                                              outs: seq<seq<Byte>>, n: nat)
    requires IsRun(run, cores, ops, outs) && n <= |ops|
    ensures Ok(run[n], cores) && Uniform(run[n], cores)
    ensures IsPlain(PlainAfter(run[0].mem, ops, n), run[n])
    ensures n < |ops| ==> outs[n] == PlainOut(PlainAfter(run[0].mem, ops, n), ops[n])
    ensures run[n].table == map[] ==> run[n].mem == PlainAfter(run[0].mem, ops, n)
    decreases n
  {
    if n > 0 {
      RunsAreTransparent(run, cores, ops, outs, n - 1);
      assert StepAt(run, cores, ops, outs, n - 1);
      StepRefines(run[n - 1], cores, PlainAfter(run[0].mem, ops, n - 1), ops[n - 1], outs[n - 1], run[n]);
    }
    var plain := PlainAfter(run[0].mem, ops, n);
    if n < |ops| {
      assert StepAt(run, cores, ops, outs, n);
      StepRefines(run[n], cores, plain, ops[n], outs[n], run[n + 1]);
    }
    if run[n].table == map[] {
      forall p | 0 <= p < |plain| ensures plain[p] == run[n].mem[p] {
        assert Clear(run[n], p) && RestShown(plain, run[n], p);
      }
    }
  }
}
