/** Chunked transfer of an object's text: the server's packets, and the client that puts them together. */
module Qxfer {
  import RspFraming

  type Byte = RspFraming.Byte
  type Bytes = seq<Byte>

  const MORE: Byte := 0x6d
  const LAST: Byte := 0x6c

  predicate NulFree(s: Bytes)
  {
    forall i | 0 <= i < |s| :: s[i] != 0
  }

  function Min(a: nat, b: nat): nat
  {
    if a < b then a else b
  }

  /** One reply: whether it says it is the last, and the text it carries. */
  datatype Chunk = Chunk(last: bool, text: Bytes)

  /** The reply to a request for `length` bytes from `offset` on, when a packet holds `room` of them. */
  function Reply(whole: Bytes, offset: nat, length: nat, room: nat): Chunk
  {
    if offset >= |whole| then Chunk(true, [])
    else
      var rest := |whole| - offset;
      var n := Min(Min(rest, length), room);
      Chunk(rest <= length, whole[offset..offset + n])
  }

  /**
   A reply carries the object's text from the offset on: as much as was asked for, unless the packet or
   the object ends before; and it says it is the last exactly if the request reaches the object's end.
   */
  lemma ReplyCarries(whole: Bytes, offset: nat, length: nat, room: nat)
    ensures var c := Reply(whole, offset, length, room);
      && |c.text| <= length && |c.text| <= room
      && (c.last <==> offset + length >= |whole| || offset >= |whole|)
      && if offset >= |whole| then c.text == []
         else
           && offset + |c.text| <= |whole| && c.text == whole[offset..offset + |c.text|]
           && (|c.text| == length || |c.text| == room || offset + |c.text| == |whole|)
  {
  }

  // ----- The server --------------------------------------------------------------------

  class Server {
    /** The text as it was built at offset 0. */
    var whole: Bytes
    const data: array<Byte>
    var len: nat

    constructor (bufSize: nat)
      requires bufSize >= 3
      ensures fresh(data) && data.Length == bufSize
    {
      data := new Byte[bufSize](_ => 0);
      whole, len := [], 0;
    }

    predicate Valid()
      reads this
    {
      data.Length >= 3 && len < data.Length
    }

    /** The packet as the client reads it. */
    function Sent(): Bytes
      requires Valid()
      reads this, data
    {
      data[..len]
    }

    /** `packNStr`: a prefix and at most n characters, copied as `strncpy` does. */
    method PackNStr(from: nat, n: nat, prefix: Byte)
      requires data.Length >= 3 && from + n <= |whole| && NulFree(whole)
      modifies this, data
      ensures Valid() && whole == old(whole)
      ensures Sent() == [prefix] + whole[from..from + Min(n, data.Length - 2)] && data[len] == 0
    {
      var m := if n + 1 >= data.Length then data.Length - 2 else n;
      data[0] := prefix;
      var i := 0;
      var ended := false;
      while i < m
        invariant 0 <= i <= m && whole == old(whole) && !ended
        invariant data[..1 + i] == [prefix] + whole[from..from + i]
      {
        ended := ended || whole[from + i] == 0;
        data[1 + i] := if ended then 0 else whole[from + i];
        assert data[..2 + i] == data[..1 + i] + [whole[from + i]];
        i := i + 1;
      }
      data[m + 1] := 0;
      len := m + 1;
    }

    /** `built` is what the object would be built as now; it is rebuilt for offset 0 only. */
    method TransferObject(built: Bytes, offset: nat, length: nat)
      requires Valid() && NulFree(built) && NulFree(whole)
      modifies this, data
      ensures Valid() && whole == (if offset == 0 then built else old(whole))
      ensures var c := Reply(whole, offset, length, data.Length - 2);
        Sent() == [if c.last then 0x6c else 0x6d] + c.text && data[len] == 0
    {
      if offset == 0 { whole := built; }
      if offset >= |whole| {
        data[0] := LAST;
        data[1] := 0;
        len := 1;
      } else {
        var pktLen, pktType := |whole| - offset, LAST;
        if pktLen > length {
          pktLen, pktType := length, MORE;
        }
        PackNStr(offset, pktLen, pktType);
      }
    }
  }

  // ----- The exchange ------------------------------------------------------------------

  /** What the client has: it asks on from there until a last packet comes. */
  datatype Outcome = Going(got: Bytes) | Done(got: Bytes)

  function Assemble(whole: Bytes, lengths: seq<nat>, room: nat, k: nat, got: Bytes): Outcome
    requires k <= |lengths|
    decreases |lengths| - k
  {
    if k == |lengths| then Going(got)
    else
      var c := Reply(whole, |got|, lengths[k], room);
      if c.last then Done(got + c.text) else Assemble(whole, lengths, room, k + 1, got + c.text)
  }

  /** What the client makes of one packet. */
  lemma AssembleStep(whole: Bytes, lengths: seq<nat>, room: nat, k: nat, got: Bytes, sent: Bytes)
    requires k < |lengths| && lengths[k] > 0 && room > 0
    requires var c := Reply(whole, |got|, lengths[k], room); sent == [if c.last then LAST else MORE] + c.text
    ensures |sent| > 0 && (sent[0] != LAST ==> |sent| > 1)
    ensures Assemble(whole, lengths, room, k, got) ==
      if sent[0] == LAST then Done(got + sent[1..]) else Assemble(whole, lengths, room, k + 1, got + sent[1..])
  {
    assert sent[1..] == Reply(whole, |got|, lengths[k], room).text;
  }

  /** Drives a server through the exchange; `versions` is what the object would be at each request. */
  method Exchange(server: Server, versions: seq<Bytes>, lengths: seq<nat>) returns (got: Bytes, done: bool)
    requires server.Valid() && |versions| == |lengths| > 0 && forall i | 0 <= i < |lengths| :: lengths[i] > 0
    requires NulFree(server.whole) && forall i | 0 <= i < |versions| :: NulFree(versions[i])
    modifies server, server.data
    ensures var o := Assemble(versions[0], lengths, server.data.Length - 2, 0, []);
      got == o.got && (done <==> o.Done?)
  {
    got, done := [], false;
    ghost var room := server.data.Length - 2;
    ghost var outcome := Assemble(versions[0], lengths, room, 0, []);
    var k := 0;
    while k < |lengths| && !done
      invariant 0 <= k <= |lengths| && server.Valid() && NulFree(server.whole)
      invariant k > 0 ==> server.whole == versions[0]
      invariant !done ==> (k == 0 <==> got == [])
      invariant outcome == if done then Done(got) else Assemble(versions[0], lengths, room, k, got)
    {
      server.TransferObject(versions[k], |got|, lengths[k]);
      var sent := server.Sent();
      AssembleStep(versions[0], lengths, room, k, got, sent);
      got := got + sent[1..];
      done := sent[0] == LAST;
      k := k + 1;
    }
  }

  ghost predicate IsPrefix(got: Bytes, whole: Bytes)
  {
    |got| <= |whole| && got == whole[..|got|]
  }

  /** Every request but the last brings the client at least one byte further. */
  lemma {:induction false} AssembleAdvances(whole: Bytes, lengths: seq<nat>, room: nat, k: nat, got: Bytes)
    requires k <= |lengths| && room > 0 && IsPrefix(got, whole)
    requires forall i | 0 <= i < |lengths| :: lengths[i] > 0
    ensures var o := Assemble(whole, lengths, room, k, got);
      IsPrefix(o.got, whole) && (o.Going? ==> |o.got| >= |got| + |lengths| - k)
    decreases |lengths| - k
  {
    if k < |lengths| {
      var c := Reply(whole, |got|, lengths[k], room);
      assert IsPrefix(got + c.text, whole);
      if !c.last { AssembleAdvances(whole, lengths, room, k + 1, got + c.text); }
    }
  }

  /** The exchange ends: one request more than the object has bytes is always enough. */
  lemma ExchangeEnds(whole: Bytes, lengths: seq<nat>, room: nat)
    requires room > 0 && |lengths| > |whole| && forall i | 0 <= i < |lengths| :: lengths[i] > 0
    ensures Assemble(whole, lengths, room, 0, []).Done?
  {
    AssembleAdvances(whole, lengths, room, 0, []);
  }

  /** The request asks for all the rest, and the rest is more than a packet holds. */
  predicate CutsOff(whole: Bytes, offset: nat, length: nat, room: nat)
  {
    room < |whole| - offset <= length
  }

  /** Exactly such a request is answered by a packet that claims to be the last and is not complete. */
  lemma LastIsCutOff(whole: Bytes, offset: nat, length: nat, room: nat)
    requires offset <= |whole|
    ensures var c := Reply(whole, offset, length, room);
      c.last && whole[offset..] != c.text <==> CutsOff(whole, offset, length, room)
  {
    var c := Reply(whole, offset, length, room);
    assert whole[offset..] == c.text <==> |whole| - offset == |c.text|;
  }

  /** From request k on, with `got` in hand, the client makes no request that is cut off. */
  predicate NeverCutOff(whole: Bytes, lengths: seq<nat>, room: nat, k: nat, got: Bytes)
    requires k <= |lengths|
    decreases |lengths| - k
  {
    k < |lengths| ==>
      var c := Reply(whole, |got|, lengths[k], room);
      !CutsOff(whole, |got|, lengths[k], room)
      && (c.last || NeverCutOff(whole, lengths, room, k + 1, got + c.text))
  }

  /** A client that is done has the whole object exactly if no request of its exchange was cut off. */
  lemma {:induction false} WholeIfNeverCutOff(whole: Bytes, lengths: seq<nat>, room: nat, k: nat, got: Bytes)
    requires k <= |lengths| && IsPrefix(got, whole) && Assemble(whole, lengths, room, k, got).Done?
    ensures Assemble(whole, lengths, room, k, got).got == whole <==> NeverCutOff(whole, lengths, room, k, got)
    decreases |lengths| - k
  {
    var c := Reply(whole, |got|, lengths[k], room);
    assert IsPrefix(got + c.text, whole);
    if c.last {
      LastIsCutOff(whole, |got|, lengths[k], room);
      assert got + c.text == whole <==> whole[|got|..] == c.text by {
        assert whole == got + whole[|got|..];
        assert |got + c.text| == |whole| ==> got + c.text == whole;
      }
    } else {
      WholeIfNeverCutOff(whole, lengths, room, k + 1, got + c.text);
    }
  }

  lemma {:induction false} ShortNeverCutOff(whole: Bytes, lengths: seq<nat>, room: nat, k: nat, got: Bytes)
    requires k <= |lengths| && forall i | 0 <= i < |lengths| :: lengths[i] <= room
    ensures NeverCutOff(whole, lengths, room, k, got)
    decreases |lengths| - k
  {
    if k < |lengths| {
      ShortNeverCutOff(whole, lengths, room, k + 1, got + Reply(whole, |got|, lengths[k], room).text);
    }
  }

  /** Requests that a packet can answer in full put the object together, whatever their lengths. */
  lemma ReassemblesObject(whole: Bytes, lengths: seq<nat>, room: nat)
    requires |lengths| > |whole| && forall i | 0 <= i < |lengths| :: 0 < lengths[i] <= room
    ensures Assemble(whole, lengths, room, 0, []).Done? && Assemble(whole, lengths, room, 0, []).got == whole
  {
    assert 0 < lengths[0] <= room;
    ExchangeEnds(whole, lengths, room);
    ShortNeverCutOff(whole, lengths, room, 0, []);
    WholeIfNeverCutOff(whole, lengths, room, 0, []);
  }

  /** A longer request can lose the end of the object. */
  lemma LongRequestLosesEnd()
    ensures var o := Assemble([0x61, 0x62, 0x63], [3], 2, 0, []); o.Done? && o.got == [0x61, 0x62]
  {
    assert Assemble([0x61, 0x62, 0x63], [3], 2, 0, []).Done?;
  }
}
