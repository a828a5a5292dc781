/** The packet reader and writer of the server's RSP connection, over an abstract byte stream. */
module RspConnection {
  import opened RspFraming

  /** The output once s has been sent k times more. */
  function Sent(out: Bytes, s: Bytes, k: nat): Bytes
  {
    if k == 0 then out else Sent(out, s, k - 1) + s
  }

  lemma Assoc(a: Bytes, b: Bytes, c: Bytes)
    ensures (a + b) + c == a + (b + c)
  {
  }

  /** Position of the first `+`, or the end of the stream. */
  function AckAt(s: Bytes, p: nat): (k: nat)
    requires p <= |s|
    ensures p <= k <= |s| && (k < |s| ==> s[k] == 0x2b) && forall j | p <= j < k :: s[j] != 0x2b
    decreases |s| - p
  {
    if p == |s| || s[p] == PLUS then p else AckAt(s, p + 1)
  }

  /** One more attempt, after some refusals. */
  lemma ReadStep(s: Bytes, p: nat, n: nat, naks: nat, brk: bool, r: Reply)
    requires p <= |s| && r == Before(naks, brk, Read(s, p, n))
    ensures var t, b := Attempt(s, p, n), brk || HasBreak(s, p, Hunt(s, p));
            && (t.Lost? ==> r == Closed(naks, b))
            && (t.Again? ==> r == Before(naks + if t.nak then 1 else 0, b, Read(s, t.next, n)))
            && (t.Got? ==> r == Packet(t.at, t.hash, naks, b))
  {
  }

  lemma NoFrame(s: Bytes, p: nat, n: nat, b: Body, closed: bool, pos: nat, data: Bytes, eos: Byte, checksum: Byte)
    requires p <= |s| && Hunt(s, p) < |s| && b == ReadBody(s, Hunt(s, p), Hunt(s, p) + 1, n)
    requires BodyOutcome(b, s, closed, false, pos, data, eos, checksum)
    ensures TryOutcome(Attempt(s, p, n), s, closed, false, pos, data, eos)
    ensures forall out: Bytes :: TryAck(out, Attempt(s, p, n)) == out
  {
  }

  lemma FrameSeen(s: Bytes, p: nat, n: nat, b: Body, hash: nat, data: Bytes, checksum: Byte,
                  closed: bool, got: bool, pos: nat)
    requires p <= |s| && Hunt(s, p) < |s| && b == ReadBody(s, Hunt(s, p), Hunt(s, p) + 1, n)
    requires BodyOutcome(b, s, false, true, hash + 1, data, 0, checksum) && hash < |s|
    requires closed <==> |s| - hash < 3
    requires closed ==> !got && pos == |s|
    requires !closed ==> pos == hash + 3 && (got <==> checksum == Received(s[hash + 1], s[hash + 2]))
    ensures TryOutcome(Attempt(s, p, n), s, closed, got, pos, data, 0)
    ensures forall out: Bytes ::
              TryAck(out, Attempt(s, p, n)) == if closed then out else out + [if got then PLUS else MINUS]
  {
    assert !closed ==> (got <==> Matches(s, b.at, b.hash));
  }

  /**
   What `getPkt` returns, leaves in the buffer, has sent and remembers for a given view of the
   stream: one `-` for each refused frame and a `+` for the packet.
   */
  ghost predicate Done(r: Reply, s: Bytes, ok: bool, pos: nat, data: Bytes, eos: Byte,
                       out: Bytes, out': Bytes, brk: bool, brk': bool)
  {
    && brk' == (brk || r.brk)
    && if r.Packet? then
         && ok && r.at < r.hash && r.hash + 3 <= |s| && pos == r.hash + 3
         && data == s[r.at + 1..r.hash] && eos == 0 && out' == Sent(out, [0x2d], r.naks) + [0x2b]
       else !ok && pos == |s| && out' == Sent(out, [0x2d], r.naks)
  }

  /** The reader is at p after `naks` refusals. */
  ghost predicate Pending(r: Reply, s: Bytes, p: nat, n: nat, naks: nat, brk: bool, brk': bool)
    requires p <= |s|
  {
    exists seen :: brk' == (brk || seen) && r == Before(naks, seen, Read(s, p, n))
  }

  lemma NothingSeen(r: Reply, s: Bytes, p: nat, n: nat, brk: bool)
    requires p <= |s| && r == Read(s, p, n)
    ensures Pending(r, s, p, n, 0, brk, brk)
  {
    assert brk == (brk || false) && r == Before(0, false, Read(s, p, n));
  }

  lemma AfterTry(r: Reply, s: Bytes, p: nat, n: nat, naks: nat, brk: bool, b: bool, out: Bytes, o: Bytes,
                 t: Try, closed: bool, got: bool, pos: nat, data: Bytes, eos: Byte, o': Bytes, b': bool)
    requires p <= |s| && t == Attempt(s, p, n)
    requires Pending(r, s, p, n, naks, brk, b) && o == Sent(out, [MINUS], naks)
    requires TryOutcome(t, s, closed, got, pos, data, eos) && o' == TryAck(o, t)
    requires b' == (b || HasBreak(s, p, Hunt(s, p)))
    ensures !closed && !got ==>
              var k := if t.Again? && t.nak then naks + 1 else naks;
              p < pos <= |s| && Pending(r, s, pos, n, k, brk, b') && o' == Sent(out, [MINUS], k)
    ensures closed || got ==> Done(r, s, got, pos, data, eos, out, o', brk, b')
  {
    var seen :| b == (brk || seen) && r == Before(naks, seen, Read(s, p, n));
    ReadStep(s, p, n, naks, seen, r);
    var seen' := seen || HasBreak(s, p, Hunt(s, p));
    if !closed && !got {
      assert b' == (brk || seen');
    }
  }

  ghost predicate BodyOutcome(b: Body, s: Bytes, closed: bool, ended: bool, pos: nat,
                              data: Bytes, eos: Byte, checksum: Byte)
  {
    match b
    case Cut => closed && pos == |s|
    case Overrun(next) => !closed && !ended && pos == next
    case Ended(at, hash) =>
      !closed && ended && pos == hash + 1 && eos == 0 && at < hash <= |s|
      && data == s[at + 1..hash] && checksum == Sum(s, at + 1, hash)
  }

  /** Behind the `$` at `at`, the characters so far and their sum. */
  ghost predicate Reading(b: Body, s: Bytes, n: nat, at: nat, p: nat, data: Bytes, checksum: Byte)
  {
    && at < p <= |s| && b == ReadBody(s, at, p, n)
    && data == s[at + 1..p] && checksum == Sum(s, at + 1, p)
  }

  lemma OneMore(b: Body, s: Bytes, n: nat, at: nat, p: nat, data: Bytes, checksum: Byte)
    requires Reading(b, s, n, at, p, data, checksum) && |data| + 1 < n && p < |s| && s[p] != DOLLAR && s[p] != HASH
    ensures Reading(b, s, n, at, p + 1, data + [s[p]], (checksum + s[p]) % 256)
  {
  }

  lemma Restart(b: Body, s: Bytes, n: nat, at: nat, p: nat, data: Bytes, checksum: Byte)
    requires Reading(b, s, n, at, p, data, checksum) && |data| + 1 < n && p < |s| && s[p] == DOLLAR
    ensures Reading(b, s, n, p, p + 1, [], 0)
  {
  }

  lemma HashSeen(b: Body, s: Bytes, n: nat, at: nat, p: nat, data: Bytes, checksum: Byte)
    requires Reading(b, s, n, at, p, data, checksum) && |data| + 1 < n && p < |s| && s[p] == HASH
    ensures BodyOutcome(b, s, false, true, p + 1, data, 0, checksum)
  {
  }

  lemma CutShort(b: Body, s: Bytes, n: nat, at: nat, p: nat, data: Bytes, checksum: Byte)
    requires Reading(b, s, n, at, p, data, checksum) && |data| + 1 < n && p == |s|
    ensures b == Cut
  {
  }

  lemma BufferFull(b: Body, s: Bytes, n: nat, at: nat, p: nat, data: Bytes, checksum: Byte)
    requires Reading(b, s, n, at, p, data, checksum) && |data| + 1 >= n
    ensures b == Overrun(p)
  {
  }

  ghost predicate TryOutcome(t: Try, s: Bytes, closed: bool, got: bool, pos: nat, data: Bytes, eos: Byte)
  {
    match t
    case Lost => closed && !got && pos == |s|
    case Again(next, _) => !closed && !got && pos == next
    case Got(at, hash) =>
      !closed && got && pos == hash + 3 && at < hash && hash <= |s| && data == s[at + 1..hash] && eos == 0
  }

  function TryAck(out: Bytes, t: Try): Bytes
  {
    if t.Got? then out + [PLUS] else if t.Again? && t.nak then out + [MINUS] else out
  }

  class Connection {
    /** All the client ever sends, and how much of it has been read; then the line closes. */
    var input: Bytes
    var pos: nat
    var output: Bytes
    var pendingBreak: bool

    constructor (client: Bytes)
      ensures input == client && pos == 0 && output == [] && !pendingBreak
    {
      input, pos, output, pendingBreak := client, 0, [], false;
    }

    /** The next character; `closed` stands for the result -1. */
    method GetRspChar() returns (closed: bool, ch: Byte)
      requires pos <= |input|
      modifies this
      ensures input == old(input) && output == old(output) && pendingBreak == old(pendingBreak)
      ensures closed <==> old(pos) == |input|
      ensures closed ==> pos == old(pos)
      ensures !closed ==> pos == old(pos) + 1 && ch == input[old(pos)]
    {
      if pos == |input| { return true, 0; }
      closed, ch := false, input[pos];
      pos := pos + 1;
    }

    method PutRspChar(c: Byte)
      modifies this
      ensures input == old(input) && pos == old(pos) && pendingBreak == old(pendingBreak)
      ensures output == old(output) + [c]
    {
      output := output + [c];
    }

    /** Skip to behind the next `$`, remembering a Ctrl-C; false when the line closes. */
    method WaitForStart() returns (found: bool)
      requires pos <= |input|
      modifies this
      ensures input == old(input) && output == old(output)
      ensures var q := Hunt(input, old(pos));
              && (found <==> q < |input|) && pos == (if found then q + 1 else q)
              && pendingBreak == (old(pendingBreak) || HasBreak(input, old(pos), q))
    {
      ghost var p := pos;
      ghost var seen := false;
      while true
        invariant input == old(input) && output == old(output)
        invariant p <= pos <= |input| && Hunt(input, p) == Hunt(input, pos)
        invariant HasBreak(input, p, Hunt(input, p)) == (seen || HasBreak(input, pos, Hunt(input, p)))
        invariant pendingBreak == (old(pendingBreak) || seen)
        decreases |input| - pos
      {
        var closed, ch := GetRspChar();
        if closed { return false; }
        if ch == DOLLAR { return true; }
        if ch == BREAK {
          pendingBreak := true;
          seen := true;
        }
      }
    }

    /** Read behind a `$` until `#` (true) or until the buffer is full. */
    method ReadToHash(data: array<Byte>) returns (closed: bool, ended: bool, len: nat, checksum: Byte)
      requires 0 < pos <= |input| && data.Length > 0
      modifies this, data
      ensures input == old(input) && output == old(output) && pendingBreak == old(pendingBreak)
      ensures len < data.Length
      ensures BodyOutcome(ReadBody(input, old(pos) - 1, old(pos), data.Length), input,
                          closed, ended, pos, data[..len], data[len], checksum)
    {
      ghost var s, n := input, data.Length;
      ghost var b := ReadBody(s, pos - 1, pos, n);
      ghost var at: nat := pos - 1;
      checksum, len, ended, closed := 0, 0, false, false;
      while len < data.Length - 1 && !closed && !ended
        invariant input == s && output == old(output) && pendingBreak == old(pendingBreak)
        invariant 0 < pos <= |s| && len < n && !(closed && ended)
        invariant !closed && !ended ==> Reading(b, s, n, at, pos, data[..len], checksum)
        invariant closed ==> b == Cut && pos == |s|
        invariant ended ==> 0 < pos <= |s| && BodyOutcome(b, s, false, true, pos, data[..len], 0, checksum)
        decreases |s| - pos, !closed
      {
        var ch;
        ghost var p, before := pos, data[..len];
        closed, ch := GetRspChar();
        if closed {
          CutShort(b, s, n, at, p, before, checksum);
        } else if ch == DOLLAR {
          Restart(b, s, n, at, p, before, checksum);
          checksum, len := 0, 0;
          at := p;
          assert data[..0] == [];
        } else if ch == HASH {
          HashSeen(b, s, n, at, p, before, checksum);
          ended := true;
        } else {
          OneMore(b, s, n, at, p, before, checksum);
          checksum := (checksum + ch) % 256;
          data[len] := ch;
          len := len + 1;
          assert data[..len] == before + [ch];
        }
      }
      if !closed && !ended { BufferFull(b, s, n, at, pos, data[..len], checksum); }
      ghost var body := data[..len];
      data[len] := 0;
      assert data[..len] == body;
    }

    /** The two digits behind `#`. */
    method ReadChecksum() returns (closed: bool, xmitcsum: Byte)
      requires pos <= |input|
      modifies this
      ensures input == old(input) && output == old(output) && pendingBreak == old(pendingBreak)
      ensures closed <==> |input| - old(pos) < 2
      ensures closed ==> pos == |input|
      ensures !closed ==> pos == old(pos) + 2 && xmitcsum == Received(input[old(pos)], input[old(pos) + 1])
    {
      var ch;
      xmitcsum := 0;
      closed, ch := GetRspChar();
      if closed { return; }
      xmitcsum := HexValue(ch) * 16 % 256;
      closed, ch := GetRspChar();
      if closed { return; }
      xmitcsum := (xmitcsum + HexValue(ch)) % 256;
    }

    /** Compare the checksums and acknowledge, unless the line closes before. */
    method AckChecksum(checksum: Byte) returns (closed: bool, got: bool)
      requires pos <= |input|
      modifies this
      ensures input == old(input) && pendingBreak == old(pendingBreak)
      ensures closed <==> |input| - old(pos) < 2
      ensures closed ==> !got && pos == |input|
      ensures !closed ==> pos == old(pos) + 2 && (got <==> checksum == Received(input[old(pos)], input[old(pos) + 1]))
      ensures output == if closed then old(output) else old(output) + [if got then PLUS else MINUS]
    {
      var xmitcsum;
      got := false;
      closed, xmitcsum := ReadChecksum();
      if !closed {
        got := checksum == xmitcsum;
        PutRspChar(if got then PLUS else MINUS);
      }
    }

    /** The rest of a round, behind the `$` that the search from p on has found. */
    method TryFrame(data: array<Byte>, ghost p: nat) returns (closed: bool, got: bool, len: nat)
      requires 0 < pos <= |input| && data.Length > 0 && p <= |input| && Hunt(input, p) == pos - 1
      modifies this, data
      ensures input == old(input) && pendingBreak == old(pendingBreak) && len < data.Length
      ensures TryOutcome(Attempt(input, p, data.Length), input, closed, got, pos, data[..len], data[len])
      ensures output == TryAck(old(output), Attempt(input, p, data.Length))
    {
      ghost var s, n := input, data.Length;
      ghost var b := ReadBody(s, pos - 1, pos, n);
      var ended, checksum;
      closed, ended, len, checksum := ReadToHash(data);
      got := false;
      if closed || !ended {
        NoFrame(s, p, n, b, closed, pos, data[..len], data[len], checksum);
      } else {
        ghost var hash: nat := pos - 1;
        closed, got := AckChecksum(checksum);
        FrameSeen(s, p, n, b, hash, data[..len], checksum, closed, got, pos);
      }
    }

    /** One round of `getPkt`'s outer loop. */
    method TryPacket(data: array<Byte>) returns (closed: bool, got: bool, len: nat)
      requires pos <= |input| && data.Length > 0
      modifies this, data
      ensures input == old(input) && len < data.Length
      ensures pendingBreak == (old(pendingBreak) || HasBreak(input, old(pos), Hunt(input, old(pos))))
      ensures TryOutcome(Attempt(input, old(pos), data.Length), input, closed, got, pos, data[..len], data[len])
      ensures output == TryAck(old(output), Attempt(input, old(pos), data.Length))
    {
      ghost var p := pos;
      closed, len, got := true, 0, false;
      var found := WaitForStart();
      if found { closed, got, len := TryFrame(data, p); }
    }

    /** `getPkt`: fill the packet buffer with the next good packet; false when the line closes. */
    method GetPkt(data: array<Byte>) returns (ok: bool, len: nat)
      requires pos <= |input| && data.Length > 0
      modifies this, data
      ensures input == old(input) && len < data.Length
      ensures Done(Read(input, old(pos), data.Length), input, ok, pos, data[..len], data[len],
                   old(output), output, old(pendingBreak), pendingBreak)
    {
      ghost var s, n, out, brk0 := input, data.Length, output, pendingBreak;
      ghost var r := Read(s, pos, n);
      ghost var naks := 0;
      var closed := false;
      ok, len := false, 0;
      NothingSeen(r, s, pos, n, brk0);
      while !closed && !ok
        invariant pos <= |s| && input == s && len < data.Length
        invariant !closed && !ok ==> Pending(r, s, pos, n, naks, brk0, pendingBreak)
        invariant !closed && !ok ==> output == Sent(out, [MINUS], naks)
        invariant closed || ok ==> Done(r, s, ok, pos, data[..len], data[len], out, output, brk0, pendingBreak)
        decreases |s| - pos, !closed && !ok
      {
        ghost var p, b, o := pos, pendingBreak, output;
        ghost var t := Attempt(s, p, n);
        closed, ok, len := TryPacket(data);
        AfterTry(r, s, p, n, naks, brk0, b, out, o, t, closed, ok, pos, data[..len], data[len], output, pendingBreak);
        if t.Again? && t.nak { naks := naks + 1; }
      }
    }

    /** `putPkt`: send the packet until the client answers `+`. */
    method PutPkt(data: Bytes) returns (ok: bool)
      requires pos <= |input|
      modifies this
      ensures input == old(input) && pendingBreak == old(pendingBreak)
      ensures var k := AckAt(input, old(pos));
              && (ok <==> k < |input|) && pos == (if ok then k + 1 else k)
              && output == Sent(old(output), Frame(data), k - old(pos) + 1)
    {
      ghost var start := pos;
      ghost var sent := 0;
      var ch: Byte := 0;
      var first := true;
      while first || ch != PLUS
        invariant input == old(input) && pendingBreak == old(pendingBreak)
        invariant start <= pos <= |input| && sent == pos - start
        invariant first ==> pos == start
        invariant !first ==> pos > start && ch == input[pos - 1]
        invariant !first && ch == PLUS ==> AckAt(input, start) == pos - 1
        invariant first || ch != PLUS ==> AckAt(input, start) == AckAt(input, pos)
        invariant output == Sent(old(output), Frame(data), sent)
        decreases |input| - pos, first
      {
        SendFrame(data);
        sent := sent + 1;
        first := false;
        var closed;
        closed, ch := GetRspChar();
        if closed { return false; }
      }
      return true;
    }

    /** One transmission of a packet. */
    method SendFrame(data: Bytes)
      modifies this
      ensures input == old(input) && pos == old(pos) && pendingBreak == old(pendingBreak)
      ensures output == old(output) + Frame(data)
    {
      ghost var start := output;
      var checksum: Byte := 0;
      PutRspChar(DOLLAR);
      var count := 0;
      NothingEmitted(start, data);
      while count < |data|
        invariant input == old(input) && pos == old(pos) && pendingBreak == old(pendingBreak)
        invariant 0 <= count <= |data| && Emitted(output, start, data, count, checksum)
      {
        var ch := data[count];
        OneEmitted(output, start, data, count, checksum);
        if NeedsEscape(ch) {
          ch := Flip(ch);
          checksum := (checksum + BRACE) % 256;
          PutRspChar(BRACE);
        }
        checksum := (checksum + ch) % 256;
        PutRspChar(ch);
        count := count + 1;
      }
      AllEmitted(output, start, data, checksum);
      PutRspChar(HASH);
      PutRspChar(HexChar(checksum / 16));
      PutRspChar(HexChar(checksum % 16));
    }
  }

  /** The first n bytes of data are out, escaped, behind the `$`. */
  ghost predicate Emitted(out: Bytes, start: Bytes, data: Bytes, n: nat, checksum: Byte)
    requires n <= |data|
  {
    out == start + [DOLLAR] + Escape(data[..n]) && checksum == Checksum(Escape(data[..n]))
  }

  lemma NothingEmitted(start: Bytes, data: Bytes)
    ensures Emitted(start + [DOLLAR], start, data, 0, 0)
  {
    assert data[..0] == [];
  }

  lemma OneEmitted(out: Bytes, start: Bytes, data: Bytes, n: nat, checksum: Byte)
    requires n < |data| && Emitted(out, start, data, n, checksum)
    ensures var ch := data[n];
            if NeedsEscape(ch) then
              Emitted(out + [BRACE] + [Flip(ch)], start, data, n + 1, ((checksum + BRACE) % 256 + Flip(ch)) % 256)
            else Emitted(out + [ch], start, data, n + 1, (checksum + ch) % 256)
  {
    var body, ch := Escape(data[..n]), data[n];
    EscapeStep(data, n);
    if NeedsEscape(ch) {
      Assoc(start + [DOLLAR], body, [BRACE]);
      Assoc(start + [DOLLAR], body + [BRACE], [Flip(ch)]);
    } else {
      Assoc(start + [DOLLAR], body, [ch]);
    }
  }

  lemma AllEmitted(out: Bytes, start: Bytes, data: Bytes, checksum: Byte)
    requires Emitted(out, start, data, |data|, checksum)
    ensures out + [HASH] + [HexChar(checksum / 16)] + [HexChar(checksum % 16)] == start + Frame(data)
  {
    assert data[..|data|] == data;
    var body := Escape(data);
    Assemble(start, body, HexChar(checksum / 16), HexChar(checksum % 16));
  }

  lemma Assemble(o: Bytes, body: Bytes, hi: Byte, lo: Byte)
    ensures o + [DOLLAR] + body + [HASH] + [hi] + [lo] == o + ([DOLLAR] + body + [HASH, hi, lo])
  {
  }

  lemma SumAppend(s: Bytes, b: Byte)
    ensures Checksum(s + [b]) == (Checksum(s) + b) % 256
  {
    SumOfSlice(s + [b], 0, s, |s|);
  }

  /** One more byte of data: what goes out and what is summed up. */
  lemma EscapeStep(data: Bytes, count: nat)
    requires count < |data|
    ensures var body, ch, next := Escape(data[..count]), data[count], Escape(data[..count + 1]);
            if NeedsEscape(ch) then
              && next == body + [BRACE] + [Flip(ch)]
              && Checksum(next) == ((Checksum(body) + BRACE) % 256 + Flip(ch)) % 256
            else next == body + [ch] && Checksum(next) == (Checksum(body) + ch) % 256
  {
    var body, ch := Escape(data[..count]), data[count];
    EscapeAppend(data[..count], ch);
    assert data[..count] + [ch] == data[..count + 1];
    if NeedsEscape(ch) {
      SumAppend(body, BRACE);
      SumAppend(body + [BRACE], Flip(ch));
      assert body + [BRACE, Flip(ch)] == body + [BRACE] + [Flip(ch)];
    } else {
      SumAppend(body, ch);
    }
  }

  /** What is left to decode from p on. */
  function Rest(s: Bytes, p: nat, len: nat): Bytes
    requires len < |s|
  {
    if p <= len then Unescape(s[p..len], s[len]) else []
  }

  lemma RestStep(s: Bytes, p: nat, len: nat)
    requires p < len < |s|
    ensures Rest(s, p, len) == if s[p] == BRACE then [Flip(s[p + 1])] + Rest(s, p + 2, len)
                               else [s[p]] + Rest(s, p + 1, len)
  {
    var left := s[p..len];
    assert left[1..] == s[p + 1..len];
    if p + 1 < len { assert left[2..] == s[p + 2..len]; }
  }

  /**
   `rspUnescape`: decode in place. A trailing escape character takes the byte behind the data,
   which the packet buffer always has.
   */
  method RspUnescape(buf: array<Byte>, len: nat) returns (newLen: nat)
    requires len < buf.Length
    modifies buf
    ensures newLen <= len
    ensures buf[..newLen] == Unescape(old(buf[..len]), old(buf[len]))
    ensures forall k | newLen <= k < buf.Length :: buf[k] == old(buf[k])
  {
    ghost var s := buf[..];
    var from, to := 0, 0;
    assert s[0..len] == s[..len];
    while from < len
      invariant 0 <= to <= from && to <= len
      invariant forall k | to <= k < buf.Length :: buf[k] == s[k]
      invariant Unescaping(s, len, from, buf[..to])
    {
      ghost var done := buf[..to];
      UnescapeOne(s, len, from, done);
      if buf[from] == BRACE {
        from := from + 1;
        buf[to] := Flip(buf[from]);
      } else {
        buf[to] := buf[from];
      }
      from := from + 1;
      to := to + 1;
      assert buf[..to] == done + [buf[to - 1]];
    }
    newLen := to;
    assert Rest(s, from, len) == [];
  }

  ghost predicate Unescaping(s: Bytes, len: nat, from: nat, done: Bytes)
    requires len < |s|
  {
    from <= len + 1 && done + Rest(s, from, len) == Rest(s, 0, len)
  }

  lemma UnescapeOne(s: Bytes, len: nat, from: nat, done: Bytes)
    requires len < |s| && Unescaping(s, len, from, done) && from < len
    ensures if s[from] == BRACE then Unescaping(s, len, from + 2, done + [Flip(s[from + 1])])
            else Unescaping(s, len, from + 1, done + [s[from]])
  {
    RestStep(s, from, len);
    if s[from] == BRACE {
      Assoc(done, [Flip(s[from + 1])], Rest(s, from + 2, len));
    } else {
      Assoc(done, [s[from]], Rest(s, from + 1, len));
    }
  }
}
