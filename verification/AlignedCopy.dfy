/** The host's copy routine for device memory, which must not make unaligned wide accesses. */
module AlignedCopy {
  import opened Pieces
  import RspFraming

  type Byte = RspFraming.Byte

  datatype Width = One | Half | Bulk

  /** An access, at its distance from the start of both ranges. */
  type Access = Piece<Width>

  /**
   Each access of a copy of n bytes is aligned for both ranges and the widest that is: a byte alone only
   where no half word fits, a half word only where no word fits, and one bulk copy of all whole words.
   */
  predicate Aligned(x: Access, dst: nat, src: nat, n: nat)
  {
    var d, r := dst + x.at, src + x.at;
    match x.kind
    case One => x.len == 1 && (d % 2 == 1 || r % 2 == 1 || x.at + 1 == n)
    case Half => x.len == 2 && d % 2 == 0 && r % 2 == 0 && (d % 4 == 2 || r % 4 == 2 || n - x.at < 4)
    case Bulk => x.len % 4 == 0 && (x.len > 0 ==> d % 4 == 0 && r % 4 == 0) && n - x.at - x.len < 4
  }

  ghost predicate AllAligned(log: seq<Access>, dst: nat, src: nat, n: nat)
  {
    forall i: nat {:trigger Aligned(log[i], dst, src, n)} | i < |log| :: Aligned(log[i], dst, src, n)
  }

  lemma OneMoreAligned(log: seq<Access>, x: Access, dst: nat, src: nat, n: nat)
    requires AllAligned(log, dst, src, n) && Aligned(x, dst, src, n)
    ensures AllAligned(log + [x], dst, src, n)
  {
    forall i: nat | i < |log + [x]| ensures Aligned((log + [x])[i], dst, src, n) {
      if i < |log| { assert Aligned(log[i], dst, src, n); }
    }
  }

  /** Memory after a plain copy of n bytes. */
  ghost predicate IsCopy(m: seq<Byte>, dst: nat, src: nat, n: nat, m': seq<Byte>)
    requires dst + n <= |m| && src + n <= |m|
  {
    |m'| == |m| && forall k: nat {:trigger CopiedAt(m, dst, src, n, m', k)} | k < |m| :: CopiedAt(m, dst, src, n, m', k)
  }

  ghost predicate CopiedAt(m: seq<Byte>, dst: nat, src: nat, n: nat, m': seq<Byte>, k: nat)
    requires dst + n <= |m| && src + n <= |m| && k < |m| == |m'|
  {
    m'[k] == if dst <= k < dst + n then m[src + (k - dst)] else m[k]
  }

  /** The ranges do not overlap, as `restrict` promises. */
  predicate Apart(dst: nat, src: nat, n: nat)
  {
    n == 0 || dst + n <= src || src + n <= dst
  }

  lemma CopyStep(m: seq<Byte>, dst: nat, src: nat, size: nat, done: nat, now: seq<Byte>, next: seq<Byte>)
    requires dst + size <= |m| && src + size <= |m| && Apart(dst, src, size) && done < size
    requires IsCopy(m, dst, src, done, now) && next == now[dst + done := now[src + done]]
    ensures IsCopy(m, dst, src, done + 1, next)
  {
    assert CopiedAt(m, dst, src, done, now, src + done);
    var n := done + 1;
    forall k: nat | k < |m| ensures CopiedAt(m, dst, src, n, next, k) {
      assert CopiedAt(m, dst, src, done, now, k);
    }
  }

  /** Addresses equally far from a word boundary stay so. */
  lemma EquallyFar(a: nat, b: nat, n: nat)
    requires a % 4 == b % 4
    ensures (a + n) % 4 == (b + n) % 4
  {
    var k := a / 4 - b / 4;
    assert a + n == b + n + 4 * k;
  }

  lemma Quarter(a: nat)
    ensures a % 4 == 0 || a % 4 == 2 ==> a % 2 == 0
    ensures a % 4 == 1 || a % 4 == 3 ==> a % 2 == 1
  {
    var q, r := a / 4, a % 4;
    assert a == 2 * (2 * q + r / 2) + r % 2;
  }

  lemma WholeWords(a: nat, w: nat)
    requires a % 4 == 0 && w % 4 == 0
    ensures (a + w) % 4 == 0 && (a + w) % 2 == 0
  {
    assert a + w == 4 * (a / 4 + w / 4);
    Quarter(a + w);
  }

  lemma WordsOf(n: nat)
    ensures n / 4 * 4 % 4 == 0 && n / 4 * 4 <= n < n / 4 * 4 + 4
  {
  }

  lemma HalfStep(a: nat, b: nat)
    requires a % 2 == 0 && a % 4 == b % 4
    ensures b % 2 == 0 && if a % 4 >= 2 then (a + 2) % 4 == 0 && (b + 2) % 4 == 0 else a % 4 == 0 && b % 4 == 0
  {
    Quarter(a);
    Quarter(b);
    EquallyFar(a, b, 2);
  }

  lemma TwoMore(a: nat)
    ensures (a + 2) % 2 == a % 2
  {
  }

  lemma BothOdd(a: nat, b: nat)
    requires a % 4 == b % 4
    ensures a % 2 == b % 2
  {
    Quarter(a);
    Quarter(b);
  }

  lemma EquallyFarBefore(a: nat, b: nat, n: nat)
    requires (a + n) % 4 == (b + n) % 4
    ensures a % 4 == b % 4
  {
    var k := (a + n) / 4 - (b + n) / 4;
    assert a == b + 4 * k;
  }

  lemma ParityBefore(a: nat, b: nat, n: nat)
    requires (a + n) % 2 == 0 && (b + n) % 2 == 0
    ensures a % 2 == b % 2
  {
    var k := (a + n) / 2 - (b + n) / 2;
    assert a == b + 2 * k;
  }

  class Memory {
    const bytes: array<Byte>
    /** The accesses of the last copy. */
    var log: seq<Access>

    constructor (bytes: array<Byte>)
      ensures this.bytes == bytes && log == []
    {
      this.bytes, log := bytes, [];
    }

    /** What the copy has done when `done` bytes are through. */
    ghost predicate Progress(m: seq<Byte>, dst: nat, src: nat, size: nat, done: nat)
      reads this, bytes
    {
      && done <= size && Apart(dst, src, size) && dst + size <= |m| && src + size <= |m|
      && IsCopy(m, dst, src, done, bytes[..]) && InOrder(log, 0, done) && AllAligned(log, dst, src, size)
    }

    /** One access that continues the copy. */
    method Move(width: Width, done: nat, len: nat, ghost m: seq<Byte>, dst: nat, src: nat, ghost size: nat)
      requires Progress(m, dst, src, size, done) && done + len <= size
      requires Aligned(Piece(width, done, len), dst, src, size)
      modifies this, bytes
      ensures Progress(m, dst, src, size, done + len)
    {
      var j := 0;
      while j < len
        invariant 0 <= j <= len && bytes.Length == |m| && log == old(log)
        invariant IsCopy(m, dst, src, done + j, bytes[..])
      {
        ghost var now := bytes[..];
        bytes[dst + done + j] := bytes[src + done + j];
        CopyStep(m, dst, src, size, done + j, now, bytes[..]);
        j := j + 1;
      }
      log := log + [Piece(width, done, len)];
      OneMore(old(log), 0, done, Piece(width, done, len));
      OneMoreAligned(old(log), Piece(width, done, len), dst, src, size);
    }

    method AlignedMemcpy(dst: nat, src: nat, size: nat)
      requires Apart(dst, src, size) && dst + size <= bytes.Length && src + size <= bytes.Length
      modifies this, bytes
      ensures IsCopy(old(bytes[..]), dst, src, size, bytes[..])
      ensures InOrder(log, 0, size) && AllAligned(log, dst, src, size)
    {
      ghost var m := bytes[..];
      log := [];
      if dst % 4 == src % 4 {
        CopyByWords(dst, src, size, m);
      } else if dst % 2 == src % 2 {
        CopyByHalfWords(dst, src, size, m);
      } else {
        CopyByBytes(dst, src, size, m);
      }
    }

    /** Both addresses are equally far from a word boundary. */
    method CopyByWords(dst: nat, src: nat, size: nat, ghost m: seq<Byte>)
      requires Progress(m, dst, src, size, 0) && dst % 4 == src % 4
      modifies this, bytes
      ensures Progress(m, dst, src, size, size)
    {
      var done := AlignToWord(dst, src, size, m);
      var aligned := (size - done) / 4 * 4;
      WordsOf(size - done);
      if done < size {
        WholeWords(dst + done, aligned);
        WholeWords(src + done, aligned);
      }
      Move(Bulk, done, aligned, m, dst, src, size);
      CopyTail(done + aligned, m, dst, src, size);
    }

    /** What is left behind the last whole word. */
    method CopyTail(done: nat, ghost m: seq<Byte>, dst: nat, src: nat, size: nat)
      requires done <= size < done + 4 && Progress(m, dst, src, size, done)
      requires done < size ==> (dst + done) % 2 == 0 && (src + done) % 2 == 0
      modifies this, bytes
      ensures Progress(m, dst, src, size, size)
    {
      match size - done {
        case 2 =>
          Move(Half, done, 2, m, dst, src, size);
        case 3 =>
          Move(Half, done, 2, m, dst, src, size);
          Move(One, done + 2, 1, m, dst, src, size);
        case 1 =>
          Move(One, done, 1, m, dst, src, size);
        case _ =>
      }
    }

    /** Copies up to the first half-word boundary. */
    method AlignToHalfWord(dst: nat, src: nat, size: nat, ghost m: seq<Byte>) returns (done: nat)
      requires Progress(m, dst, src, size, 0) && dst % 2 == src % 2
      modifies this, bytes
      ensures done <= size && Progress(m, dst, src, size, done)
      ensures done < size ==> (dst + done) % 2 == 0 && (src + done) % 2 == 0
    {
      done := 0;
      if size > 0 && dst % 2 == 1 {
        Move(One, 0, 1, m, dst, src, size);
        done := 1;
      }
    }

    /** Copies up to the first word boundary. */
    method AlignToWord(dst: nat, src: nat, size: nat, ghost m: seq<Byte>) returns (done: nat)
      requires Progress(m, dst, src, size, 0) && dst % 4 == src % 4
      modifies this, bytes
      ensures done <= size && Progress(m, dst, src, size, done)
      ensures done < size ==> (dst + done) % 4 == 0 && (src + done) % 4 == 0
    {
      BothOdd(dst, src);
      var half := AlignToHalfWord(dst, src, size, m);
      EquallyFar(dst, src, half);
      done := FromHalfWord(half, dst, src, size, m);
    }

    /** From a half-word boundary, if anything is left, to a word boundary. */
    method FromHalfWord(half: nat, dst: nat, src: nat, size: nat, ghost m: seq<Byte>) returns (done: nat)
      requires half <= size && Progress(m, dst, src, size, half) && (dst + half) % 4 == (src + half) % 4
      requires half < size ==> (dst + half) % 2 == 0 && (src + half) % 2 == 0
      modifies this, bytes
      ensures done <= size && Progress(m, dst, src, size, done)
      ensures done < size ==> (dst + done) % 4 == 0 && (src + done) % 4 == 0
    {
      done := half;
      if half < size { HalfStep(dst + half, src + half); }
      if (dst + half) % 4 >= 2 {
        if size - half > 1 {
          Move(Half, half, 2, m, dst, src, size);
          done := half + 2;
        } else if size - half == 1 {
          Move(One, half, 1, m, dst, src, size);
          done := half + 1;
        }
      }
    }

    /** Both addresses are equally far from a half-word boundary. */
    method CopyByHalfWords(dst: nat, src: nat, size: nat, ghost m: seq<Byte>)
      requires Progress(m, dst, src, size, 0) && dst % 2 == src % 2 && dst % 4 != src % 4
      modifies this, bytes
      ensures Progress(m, dst, src, size, size)
    {
      var done := AlignToHalfWord(dst, src, size, m);
      while size - done > 1
        invariant 0 <= done <= size && Progress(m, dst, src, size, done)
        invariant done < size ==> (dst + done) % 2 == 0 && (src + done) % 2 == 0
      {
        if (dst + done) % 4 == (src + done) % 4 { EquallyFarBefore(dst, src, done); }
        Quarter(dst + done);
        Quarter(src + done);
        Move(Half, done, 2, m, dst, src, size);
        TwoMore(dst + done);
        TwoMore(src + done);
        done := done + 2;
      }
      if done < size {
        Move(One, done, 1, m, dst, src, size);
      }
    }

    method CopyByBytes(dst: nat, src: nat, size: nat, ghost m: seq<Byte>)
      requires Progress(m, dst, src, size, 0) && dst % 2 != src % 2
      modifies this, bytes
      ensures Progress(m, dst, src, size, size)
    {
      var done := 0;
      while done < size
        invariant 0 <= done <= size && Progress(m, dst, src, size, done)
      {
        if (dst + done) % 2 == 0 && (src + done) % 2 == 0 { ParityBefore(dst, src, done); }
        Move(One, done, 1, m, dst, src, size);
        done := done + 1;
      }
    }
  }
}
