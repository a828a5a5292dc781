/**
 Packet framing of the GDB Remote Serial Protocol ("Debugging with GDB", appendix E,
 section "Overview"): `$` body `#` and two checksum digits, with `}` escapes in the body.
 What a packet looks like on the wire, and what a reader makes of an arbitrary stream.
 */
module RspFraming {

  /** An `unsigned char`; sums of them are taken modulo 256. */
  type Byte = x: int | 0 <= x < 256
  type Bytes = seq<Byte>

  const DOLLAR: Byte := 0x24
  const HASH: Byte := 0x23
  const STAR: Byte := 0x2a
  const BRACE: Byte := 0x7d
  const PLUS: Byte := 0x2b
  const MINUS: Byte := 0x2d
  const BREAK: Byte := 0x03

  // ----- Hex digits ---------------------------------------------------------------------

  /** Lower-case digit, or NUL for anything that is not a nybble. */
  function HexChar(d: Byte): Byte
  {
    if d < 10 then 0x30 + d else if d < 16 then 0x61 + (d - 10) else 0
  }

  /** Value of a digit in either case; 0xff for anything else. */
  function HexValue(c: Byte): Byte
  {
    if 0x61 <= c <= 0x66 then c - 0x61 + 10
    else if 0x30 <= c <= 0x39 then c - 0x30
    else if 0x41 <= c <= 0x46 then c - 0x41 + 10
    else 0xff
  }

  /** The checksum two received characters stand for, in 8-bit arithmetic. */
  function Received(hi: Byte, lo: Byte): Byte
  {
    ((HexValue(hi) * 16) % 256 + HexValue(lo)) % 256
  }

  lemma NybbleRoundTrip(d: Byte)
    requires d < 16
    ensures HexValue(HexChar(d)) == d
  {
  }

  lemma HexRoundTrip(x: Byte)
    ensures Received(HexChar(x / 16), HexChar(x % 16)) == x
  {
    NybbleRoundTrip(x / 16);
    NybbleRoundTrip(x % 16);
  }

  const DECIMAL: Bytes := [0x30, 0x31, 0x32, 0x33, 0x34, 0x35, 0x36, 0x37, 0x38, 0x39]
  const LOWER: Bytes := DECIMAL + [0x61, 0x62, 0x63, 0x64, 0x65, 0x66]
  const UPPER: Bytes := DECIMAL + [0x41, 0x42, 0x43, 0x44, 0x45, 0x46]

  /** Digits are written in lower case, and read in either; everything else is told from a digit. */
  lemma DigitsAre(c: Byte, d: Byte)
    ensures d < 16 ==> HexChar(d) == LOWER[d] && (HexValue(c) == d <==> c == LOWER[d] || c == UPPER[d])
    ensures d >= 16 ==> HexChar(d) == 0
    ensures HexValue(c) < 16 || HexValue(c) == 0xff
  {
  }

  lemma ModAdd(t: nat, b: nat)
    ensures (t % 256 + b) % 256 == (t + b) % 256
  {
  }

  /** Two digits stand for a number; what is no digit counts as 255, and all is modulo 256. */
  lemma ReceivedIs(hi: Byte, lo: Byte)
    ensures Received(hi, lo) == (16 * HexValue(hi) + HexValue(lo)) % 256
  {
    ModAdd(16 * HexValue(hi), HexValue(lo));
  }

  // ----- Writing ------------------------------------------------------------------------

  predicate NeedsEscape(b: Byte)
  {
    b == DOLLAR || b == HASH || b == STAR || b == BRACE
  }

  /** Exclusive or with 0x20. */
  function Flip(b: Byte): Byte
  {
    if b / 0x20 % 2 == 1 then b - 0x20 else b + 0x20
  }

  /** Bit 5, as a bit and as a digit of the number. */
  lemma BitFive(b: bv8)
    ensures b & 0x20 == 0x20 || b & 0x20 == 0
    ensures b & 0x20 == 0x20 <==> b as int / 0x20 % 2 == 1
  {
    assert b & 0x20 == 0x20 <==> b / 0x20 % 2 == 1;
  }

  lemma FlipIsXor(b: bv8)
    ensures Flip(b as int) == (b ^ 0x20) as int
  {
    BitFive(b);
    if b & 0x20 == 0x20 {
      assert b ^ 0x20 == b - 0x20;
    } else {
      assert b ^ 0x20 == b + 0x20;
    }
  }

  function EscapeByte(b: Byte): Bytes
  {
    if NeedsEscape(b) then [BRACE, Flip(b)] else [b]
  }

  function Escape(data: Bytes): Bytes
  {
    if data == [] then [] else EscapeByte(data[0]) + Escape(data[1..])
  }

  /** The 8-bit sum of the bytes from lo up to hi. */
  function Sum(s: Bytes, lo: nat, hi: nat): Byte
    requires hi <= |s|
    decreases hi
  {
    if hi <= lo then 0 else (Sum(s, lo, hi - 1) + s[hi - 1]) % 256
  }

  function Checksum(body: Bytes): Byte
  {
    Sum(body, 0, |body|)
  }

  lemma {:induction false} SumOfSlice(s: Bytes, lo: nat, body: Bytes, k: nat)
    requires k <= |body| && lo + |body| <= |s| && forall j | 0 <= j < |body| :: s[lo + j] == body[j]
    ensures Sum(s, lo, lo + k) == Sum(body, 0, k)
    decreases k
  {
    if k > 0 { SumOfSlice(s, lo, body, k - 1); }
  }

  function Wrap(body: Bytes): Bytes
  {
    [DOLLAR] + body + [HASH, HexChar(Checksum(body) / 16), HexChar(Checksum(body) % 16)]
  }

  /** The bytes that carry a packet with this data. */
  function Frame(data: Bytes): Bytes
  {
    Wrap(Escape(data))
  }

  /** `pad` is the byte behind the data, which a trailing escape character picks up. */
  function Unescape(s: Bytes, pad: Byte): Bytes
  {
    if s == [] then []
    else if s[0] != BRACE then [s[0]] + Unescape(s[1..], pad)
    else if |s| == 1 then [Flip(pad)]
    else [Flip(s[1])] + Unescape(s[2..], pad)
  }

  lemma {:induction false} EscapeAppend(a: Bytes, b: Byte)
    ensures Escape(a + [b]) == Escape(a) + EscapeByte(b)
  {
    if a == [] {
      assert a + [b] == [b] && Escape([b][1..]) == [];
      assert EscapeByte(b) + [] == EscapeByte(b);
    } else {
      EscapeAppend(a[1..], b);
      var x, y, z := EscapeByte(a[0]), Escape(a[1..]), EscapeByte(b);
      assert (a + [b])[0] == a[0] && (a + [b])[1..] == a[1..] + [b];
      assert Escape(a + [b]) == x + (y + z);
      assert x + (y + z) == (x + y) + z;
    }
  }

  /** How many of the bytes are `#`, `$`, `*` or `}`. */
  function Special(data: Bytes): nat
  {
    if data == [] then 0
    else Special(data[1..]) + if data[0] in {0x23, 0x24, 0x2a, 0x7d} then 1 else 0
  }

  /** The body on the wire has no `#`, `$` or `*` in it, and one byte more for each that was, or that was a `}`. */
  lemma {:induction false} EscapedIsPlain(data: Bytes)
    ensures DOLLAR !in Escape(data) && HASH !in Escape(data)
    ensures 0x23 !in Escape(data) && 0x24 !in Escape(data) && 0x2a !in Escape(data)
    ensures |Escape(data)| == |data| + Special(data)
  {
    if data != [] { EscapedIsPlain(data[1..]); }
  }

  /** The sum of the bytes, not reduced. */
  function Total(s: Bytes): nat
  {
    if s == [] then 0 else s[0] + Total(s[1..])
  }

  lemma {:induction false} TotalAppend(s: Bytes, b: Byte)
    ensures Total(s + [b]) == Total(s) + b
  {
    if s != [] {
      TotalAppend(s[1..], b);
      assert (s + [b])[1..] == s[1..] + [b];
    }
  }

  lemma {:induction false} SumIsTotal(s: Bytes, n: nat)
    requires n <= |s|
    ensures Sum(s, 0, n) == Total(s[..n]) % 256
  {
    if n == 0 {
      assert s[..0] == [];
    } else {
      SumIsTotal(s, n - 1);
      TotalAppend(s[..n - 1], s[n - 1]);
      assert s[..n] == s[..n - 1] + [s[n - 1]];
      ModAdd(Total(s[..n - 1]), s[n - 1]);
    }
  }

  /** A packet on the wire: `$`, the escaped data, `#`, and the sum of the body's bytes in two digits. */
  lemma FrameIs(data: Bytes)
    ensures var e, f := Escape(data), Frame(data);
      && |f| == |e| + 4 && f[0] == 0x24 && f[1..|e| + 1] == e && f[|e| + 1] == 0x23
      && f[|e| + 2] == LOWER[Total(e) % 256 / 16] && f[|e| + 3] == LOWER[Total(e) % 256 % 16]
  {
    var e := Escape(data);
    SumIsTotal(e, |e|);
    assert e[..|e|] == e;
    DigitsAre(0, Checksum(e) / 16);
    DigitsAre(0, Checksum(e) % 16);
  }

  lemma {:induction false} UnescapeEscape(data: Bytes, pad: Byte)
    ensures Unescape(Escape(data), pad) == data
  {
    if data != [] {
      var b, rest := data[0], Escape(data[1..]);
      UnescapeEscape(data[1..], pad);
      if NeedsEscape(b) {
        assert Escape(data)[2..] == rest;
      } else {
        assert Escape(data)[1..] == rest;
      }
      assert data == [b] + data[1..];
    }
  }

  // ----- Reading ------------------------------------------------------------------------

  /**
   What the reader makes of a stream: the packet between the `$` at `at` and the `#` at
   `hash` or the end of the stream, the number of frames refused with `-` before that, and
   whether Ctrl-C was seen while hunting for a `$`.
   */
  datatype Reply =
    | Packet(at: nat, hash: nat, naks: nat, brk: bool)
    | Closed(naks: nat, brk: bool)

  datatype Body = Ended(at: nat, hash: nat) | Overrun(next: nat) | Cut

  /** Position of the next `$`, or the end of the stream. */
  function Hunt(s: Bytes, p: nat): (q: nat)
    requires p <= |s|
    ensures p <= q <= |s| && (q < |s| ==> s[q] == DOLLAR)
    decreases |s| - p
  {
    if p == |s| || s[p] == DOLLAR then p else Hunt(s, p + 1)
  }

  /** Ctrl-C among the characters skipped while hunting. */
  function HasBreak(s: Bytes, p: nat, q: nat): bool
    requires p <= q <= |s|
    decreases q - p
  {
    p < q && (s[p] == BREAK || HasBreak(s, p + 1, q))
  }

  lemma {:induction false} HasBreakMeans(s: Bytes, p: nat, q: nat)
    requires p <= q <= |s|
    ensures HasBreak(s, p, q) <==> 0x03 in s[p..q]
    decreases q - p
  {
    if p < q {
      HasBreakMeans(s, p + 1, q);
      assert s[p..q] == [s[p]] + s[p + 1..q];
    }
  }

  /** Characters up to `#` or a full buffer of n bytes; a `$` starts all over. */
  function ReadBody(s: Bytes, at: nat, p: nat, n: nat): (b: Body)
    requires at < p <= |s|
    ensures b.Ended? ==> at <= b.at < b.hash < |s| && p <= b.hash
    ensures b.Overrun? ==> p <= b.next <= |s|
    decreases |s| - p
  {
    if p - at >= n then Overrun(p)
    else if p == |s| then Cut
    else if s[p] == DOLLAR then ReadBody(s, p, p + 1, n)
    else if s[p] == HASH then Ended(at, p)
    else ReadBody(s, at, p + 1, n)
  }

  /** The two characters behind `#` are the checksum of the body. */
  predicate Matches(s: Bytes, at: nat, hash: nat)
    requires at < hash && hash + 2 < |s|
  {
    Sum(s, at + 1, hash) == Received(s[hash + 1], s[hash + 2])
  }

  /** One attempt: the line closes, there is nothing to deliver, or a packet is accepted. */
  datatype Try = Lost | Again(next: nat, nak: bool) | Got(at: nat, hash: nat)

  function Attempt(s: Bytes, p: nat, n: nat): (t: Try)
    requires p <= |s|
    ensures t.Again? ==> p < t.next <= |s|
    ensures t.Got? ==> p <= t.at < t.hash && t.hash + 2 < |s|
  {
    var q := Hunt(s, p);
    if q == |s| then Lost
    else
      match ReadBody(s, q, q + 1, n)
      case Cut => Lost
      case Overrun(next) => Again(next, false)
      case Ended(at, hash) =>
        if |s| - hash < 3 then Lost
        else if Matches(s, at, hash) then Got(at, hash)
        else Again(hash + 3, true)
  }

  function Before(naks: nat, brk: bool, r: Reply): Reply
  {
    r.(naks := naks + r.naks, brk := brk || r.brk)
  }

  function Read(s: Bytes, p: nat, n: nat): Reply
    requires p <= |s|
    decreases |s| - p
  {
    var brk := HasBreak(s, p, Hunt(s, p));
    match Attempt(s, p, n)
    case Lost => Closed(0, brk)
    case Again(next, nak) => Before(if nak then 1 else 0, brk, Read(s, next, n))
    case Got(at, hash) => Packet(at, hash, 0, brk)
  }

  /** A complete frame: `$`, a body free of framing characters, `#` and two more. */
  ghost predicate FrameAt(s: Bytes, at: nat, hash: nat)
  {
    && at < hash && hash + 2 < |s| && s[at] == DOLLAR && s[hash] == HASH
    && forall k | at < k < hash :: s[k] != DOLLAR && s[k] != HASH
  }

  lemma {:induction false} BodySound(s: Bytes, at: nat, p: nat, n: nat)
    requires at < p <= |s| && s[at] == DOLLAR && forall k | at < k < p :: s[k] != DOLLAR && s[k] != HASH
    ensures var b := ReadBody(s, at, p, n);
            b.Ended? ==>
              && b.hash - b.at < n && s[b.at] == DOLLAR && s[b.hash] == HASH
              && forall k | b.at < k < b.hash :: s[k] != DOLLAR && s[k] != HASH
    decreases |s| - p
  {
    if p - at < n && p < |s| && s[p] != HASH {
      BodySound(s, if s[p] == DOLLAR then p else at, p + 1, n);
    }
  }

  /** What one attempt accepts or refuses is a complete frame. */
  lemma AttemptSound(s: Bytes, p: nat, n: nat)
    requires p <= |s|
    ensures match Attempt(s, p, n)
            case Lost => true
            case Again(next, nak) => nak ==> next >= 3 && BadHash(s, p, next - 3)
            case Got(at, hash) => FrameAt(s, at, hash) && Matches(s, at, hash) && hash - at < n
  {
    var q := Hunt(s, p);
    if q < |s| {
      BodySound(s, q, q + 1, n);
      var b := ReadBody(s, q, q + 1, n);
      if b.Ended? && |s| - b.hash >= 3 && !Matches(s, b.at, b.hash) {
        assert BadFrameAt(s, b.at, b.hash + 3 - 3);
      }
    }
  }

  ghost predicate BadFrameAt(s: Bytes, at: nat, hash: nat)
  {
    FrameAt(s, at, hash) && !Matches(s, at, hash)
  }

  /** A complete frame with a wrong checksum, starting at p or later, has its `#` there. */
  ghost predicate BadHash(s: Bytes, p: nat, hash: nat)
  {
    exists at | p <= at < hash :: BadFrameAt(s, at, hash)
  }

  /** Positions of the `#`s of complete frames with a wrong checksum, in increasing order. */
  ghost predicate BadHashes(s: Bytes, p: nat, hashes: seq<nat>)
    decreases |hashes|
  {
    hashes == [] ||
    (BadHash(s, p, hashes[0]) && BadHashes(s, hashes[0] + 3, hashes[1..]))
  }

  lemma {:induction false} BadHashesLater(s: Bytes, p: nat, p': nat, hashes: seq<nat>)
    requires p <= p' && BadHashes(s, p', hashes)
    ensures BadHashes(s, p, hashes)
  {
  }

  /** The frames the reader refused, one for each `-`. */
  lemma {:induction false} Refused(s: Bytes, p: nat, n: nat) returns (hashes: seq<nat>)
    requires p <= |s|
    ensures |hashes| == Read(s, p, n).naks && BadHashes(s, p, hashes)
    decreases |s| - p
  {
    AttemptSound(s, p, n);
    match Attempt(s, p, n)
    case Lost => hashes := [];
    case Again(next, nak) =>
      hashes := Refused(s, next, n);
      if nak {
        assert ([next - 3] + hashes)[1..] == hashes;
        hashes := [next - 3] + hashes;
      } else {
        BadHashesLater(s, p, next, hashes);
      }
    case Got(_, _) => hashes := [];
  }

  lemma {:induction false} DeliveredSound(s: Bytes, p: nat, n: nat)
    requires p <= |s|
    ensures var r := Read(s, p, n);
            r.Packet? ==> p <= r.at && FrameAt(s, r.at, r.hash) && Matches(s, r.at, r.hash) && r.hash - r.at < n
    decreases |s| - p
  {
    AttemptSound(s, p, n);
    var t := Attempt(s, p, n);
    if t.Again? { DeliveredSound(s, t.next, n); }
  }

  /**
   Soundness on arbitrary streams. A packet is only delivered if it lies between a `$` and a
   `#` with a matching checksum and its body leaves two bytes of the n-byte buffer free, and the
   frames refused are complete frames with a wrong checksum.
   */
  lemma ReaderSound(s: Bytes, p: nat, n: nat)
    requires p <= |s|
    ensures var r := Read(s, p, n);
            && (exists hashes :: |hashes| == r.naks && BadHashes(s, p, hashes))
            && (r.Packet? ==> p <= r.at && FrameAt(s, r.at, r.hash) && Matches(s, r.at, r.hash)
                              && |s[r.at + 1..r.hash]| + 2 <= n)
  {
    var hashes := Refused(s, p, n);
    DeliveredSound(s, p, n);
  }

  // ----- Which good frames arrive ------------------------------------------------------

  /** Reading the body behind the `$` at `at`, the reader comes to position i as a character of the body. */
  predicate ComesTo(s: Bytes, at: nat, p: nat, n: nat, i: nat)
    requires at < p
    decreases |s| - p
  {
    p - at < n && p < |s| && p <= i
    && (p == i || (s[p] != HASH && ComesTo(s, if s[p] == DOLLAR then p else at, p + 1, n, i)))
  }

  /** The reader, hunting from p on, comes to the `$` at i, and not as a checksum digit of another frame. */
  predicate Reaches(s: Bytes, p: nat, n: nat, i: nat)
    requires p <= |s|
    decreases |s| - p
  {
    var q := Hunt(s, p);
    p <= i && q <= i
    && (q == i || (q < |s| && ComesTo(s, q, q + 1, n, i))
        || (Attempt(s, p, n).Again? && Reaches(s, Attempt(s, p, n).next, n, i)))
  }

  lemma {:induction false} ComesToRestarts(s: Bytes, at: nat, p: nat, n: nat, i: nat)
    requires at < p <= |s| && i < |s| && s[i] == DOLLAR && ComesTo(s, at, p, n, i)
    ensures ReadBody(s, at, p, n) == ReadBody(s, i, i + 1, n)
    decreases |s| - p
  {
    if p < i { ComesToRestarts(s, if s[p] == DOLLAR then p else at, p + 1, n, i); }
  }

  lemma {:induction false} EndedComesTo(s: Bytes, at: nat, p: nat, n: nat)
    requires at < p <= |s| && ReadBody(s, at, p, n).Ended?
    ensures var i := ReadBody(s, at, p, n).at; i == at || ComesTo(s, at, p, n, i)
    decreases |s| - p
  {
    if s[p] != HASH { EndedComesTo(s, if s[p] == DOLLAR then p else at, p + 1, n); }
  }

  lemma HuntPasses(s: Bytes, p: nat, i: nat)
    requires p <= i < |s| && s[i] == DOLLAR
    ensures Hunt(s, p) <= i
    decreases i - p
  {
    if p < i && s[p] != DOLLAR { HuntPasses(s, p + 1, i); }
  }

  /** The first `$` from p on is that of a good frame, or leads to it. */
  lemma ReachedAtOnce(s: Bytes, p: nat, n: nat, i: nat, hash: nat)
    requires p <= |s| && FrameAt(s, i, hash) && Matches(s, i, hash)
    requires var q := Hunt(s, p); q == i || (q < i && ComesTo(s, q, q + 1, n, i))
    ensures var r := Read(s, p, n); r.Packet? && r.at == i && r.hash == hash <==> hash - i < n
  {
    var q := Hunt(s, p);
    DeliveredSound(s, p, n);
    if q < i { ComesToRestarts(s, q, q + 1, n, i); }
    GoodBody(s, n, i, hash);
  }

  /** A good frame is what the call delivers exactly if the reader comes to its `$` and it fits the buffer. */
  lemma {:induction false} DeliveredIfReached(s: Bytes, p: nat, n: nat, i: nat, hash: nat)
    requires p <= |s| && FrameAt(s, i, hash) && Matches(s, i, hash)
    ensures var r := Read(s, p, n);
      r.Packet? && r.at == i && r.hash == hash <==> Reaches(s, p, n, i) && hash - i < n
    decreases |s| - p
  {
    var q, t := Hunt(s, p), Attempt(s, p, n);
    if p <= i { HuntPasses(s, p, i); }
    if q == i || (q < i && ComesTo(s, q, q + 1, n, i)) {
      ReachedAtOnce(s, p, n, i, hash);
    } else {
      DeliveredSound(s, p, n);
      if q < |s| && ReadBody(s, q, q + 1, n).Ended? { EndedComesTo(s, q, q + 1, n); }
      if t.Again? { DeliveredIfReached(s, t.next, n, i, hash); }
    }
  }

  /** A body that does not come to i ends or runs over before it. */
  lemma {:induction false} StopsBefore(s: Bytes, at: nat, p: nat, n: nat, i: nat)
    requires at < p <= i < |s| && !ComesTo(s, at, p, n, i)
    ensures var b := ReadBody(s, at, p, n); (b.Ended? && b.hash < i) || (b.Overrun? && b.next <= i)
    decreases |s| - p
  {
    if p - at < n && s[p] != HASH { StopsBefore(s, if s[p] == DOLLAR then p else at, p + 1, n, i); }
  }

  /** No `#` stands where the `$` at i would be a checksum digit. */
  predicate NoDigit(s: Bytes, p: nat, i: nat)
    requires i < |s|
  {
    (p < i ==> s[i - 1] != HASH) && (p + 1 < i ==> s[i - 2] != HASH)
  }

  /**
   Whatever the noise, `$`s and cut-off frames included: a good frame that fits and is not mistaken for
   checksum digits is delivered by the call that reads on from p, or a frame before it is.
   */
  lemma {:induction false} GoodFrameArrives(s: Bytes, p: nat, n: nat, i: nat, hash: nat)
    requires p <= i && FrameAt(s, i, hash) && Matches(s, i, hash) && hash - i < n && NoDigit(s, p, i)
    ensures var r := Read(s, p, n); r.Packet? && (r.at < i || (r.at == i && r.hash == hash))
    decreases |s| - p
  {
    var q, t := Hunt(s, p), Attempt(s, p, n);
    HuntPasses(s, p, i);
    if q == i || ComesTo(s, q, q + 1, n, i) {
      DeliveredIfReached(s, p, n, i, hash);
    } else {
      BodySound(s, q, q + 1, n);
      StopsBefore(s, q, q + 1, n, i);
      if t.Again? { GoodFrameArrives(s, t.next, n, i, hash); }
    }
  }

  lemma GoodBody(s: Bytes, n: nat, i: nat, hash: nat)
    requires FrameAt(s, i, hash)
    ensures ReadBody(s, i, i + 1, n) == Ended(i, hash) <==> hash - i < n
    ensures hash - i >= n ==> ReadBody(s, i, i + 1, n).Overrun? && i < ReadBody(s, i, i + 1, n).next <= hash
  {
    if hash - i < n { BodyComplete(s, i, i + 1, n, hash); } else { BodyTooLong(s, i, i + 1, n, hash); }
  }

  lemma {:induction false} BodyTooLong(s: Bytes, at: nat, p: nat, n: nat, hash: nat)
    requires at < p <= hash < |s| && hash - at >= n && forall k | p <= k < hash :: s[k] != DOLLAR && s[k] != HASH
    ensures ReadBody(s, at, p, n).Overrun? && p <= ReadBody(s, at, p, n).next <= hash
    decreases hash - p
  {
    if p - at < n { BodyTooLong(s, at, p + 1, n, hash); }
  }

  // ----- Round trip ---------------------------------------------------------------------

  /** A plain body that fits is read through to its `#`. */
  lemma {:induction false} BodyComplete(s: Bytes, at: nat, p: nat, n: nat, hash: nat)
    requires at < p <= hash < |s| && s[hash] == HASH && hash - at < n
    requires forall k | p <= k < hash :: s[k] != DOLLAR && s[k] != HASH
    ensures ReadBody(s, at, p, n) == Ended(at, hash)
    decreases hash - p
  {
    if p < hash { BodyComplete(s, at, p + 1, n, hash); }
  }

  lemma {:induction false} HuntFinds(s: Bytes, p: nat, i: nat)
    requires p <= i < |s| && s[i] == DOLLAR && forall k | p <= k < i :: s[k] != DOLLAR
    ensures Hunt(s, p) == i
    decreases i - p
  {
    if p < i { HuntFinds(s, p + 1, i); }
  }

  /** The bytes of a wrapped body stand at i. */
  ghost predicate WrappedAt(s: Bytes, i: nat, body: Bytes)
  {
    && i + |body| + 3 < |s| && s[i] == DOLLAR && s[i + 1 + |body|] == HASH
    && s[i + 2 + |body|] == HexChar(Checksum(body) / 16) && s[i + 3 + |body|] == HexChar(Checksum(body) % 16)
    && forall k | 0 <= k < |body| :: s[i + 1 + k] == body[k]
  }

  lemma WrapLayout(s: Bytes, noise: Bytes, body: Bytes, rest: Bytes)
    requires s == noise + Wrap(body) + rest
    ensures WrappedAt(s, |noise|, body) && s[..|noise|] == noise && |s| == |noise| + |body| + 4 + |rest|
    ensures s[|noise| + 1..|noise| + 1 + |body|] == body
  {
  }

  lemma DigitsDecode(x: Byte, hi: Byte, lo: Byte)
    requires hi == HexChar(x / 16) && lo == HexChar(x % 16)
    ensures Received(hi, lo) == x
  {
    HexRoundTrip(x);
  }

  lemma BodyMatches(s: Bytes, i: nat, body: Bytes)
    requires WrappedAt(s, i, body) && DOLLAR !in body && HASH !in body
    ensures FrameAt(s, i, i + 1 + |body|) && Matches(s, i, i + 1 + |body|)
  {
    SumOfSlice(s, i + 1, body, |body|);
    DigitsDecode(Checksum(body), s[i + 2 + |body|], s[i + 3 + |body|]);
    forall k | i < k < i + 1 + |body| ensures s[k] != DOLLAR && s[k] != HASH {
      assert s[k] == body[k - i - 1];
    }
  }

  lemma WrapIsRead(s: Bytes, i: nat, body: Bytes, n: nat)
    requires WrappedAt(s, i, body) && DOLLAR !in s[..i] && DOLLAR !in body && HASH !in body && |body| + 2 <= n
    ensures Read(s, 0, n) == Packet(i, i + |body| + 1, 0, BREAK in s[..i])
  {
    BodyMatches(s, i, body);
    forall k | 0 <= k < i ensures s[k] != DOLLAR { assert s[k] in s[..i]; }
    HuntFinds(s, 0, i);
    HasBreakMeans(s, 0, i);
    assert s[0..i] == s[..i];
    BodyComplete(s, i, i + 1, n, i + 1 + |body|);
  }

  lemma WrapRoundTrip(s: Bytes, i: nat, body: Bytes, n: nat)
    requires WrappedAt(s, i, body) && DOLLAR !in s[..i] && DOLLAR !in body && HASH !in body
    ensures |body| + 2 <= n <==> Read(s, 0, n) == Packet(i, i + |body| + 1, 0, BREAK in s[..i])
  {
    if |body| + 2 <= n {
      WrapIsRead(s, i, body, n);
    } else {
      DeliveredSound(s, 0, n);
    }
  }

  /**
   What `putPkt` sends, `getPkt` accepts at the first try, behind any noise without a `$` and
   whatever follows - exactly when the escaped body leaves two bytes of the buffer unused.
   The accepted body unescapes to the original bytes.
   */
  lemma RoundTrip(noise: Bytes, data: Bytes, rest: Bytes, n: nat, pad: Byte)
    requires DOLLAR !in noise
    ensures |Escape(data)| + 2 <= n <==>
            Read(noise + Frame(data) + rest, 0, n)
            == Packet(|noise|, |noise| + |Escape(data)| + 1, 0, BREAK in noise)
    ensures |noise + Frame(data)| == |noise| + |Escape(data)| + 4
    ensures (noise + Frame(data) + rest)[|noise| + 1..|noise| + |Escape(data)| + 1] == Escape(data)
    ensures Unescape(Escape(data), pad) == data
  {
    UnescapeEscape(data, pad);
    EscapedIsPlain(data);
    var s := noise + Frame(data) + rest;
    WrapLayout(s, noise, Escape(data), rest);
    WrapRoundTrip(s, |noise|, Escape(data), n);
  }
}
