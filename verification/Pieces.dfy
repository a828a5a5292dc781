/** A range of bytes worked through piece by piece. */
module Pieces {

  /** `len` bytes at position `at`, moved in one access of the given kind. */
  datatype Piece<K> = Piece(kind: K, at: nat, len: nat)

  /** Piece i begins where the one before it ended; the first begins at `start`. */
  ghost predicate Follows<K>(log: seq<Piece<K>>, start: nat, i: nat)
    requires i < |log|
  {
    log[i].at == if i == 0 then start else log[i - 1].at + log[i - 1].len
  }

  /** The pieces cover n bytes from `start` on, in increasing order, each byte once. */
  ghost predicate InOrder<K>(log: seq<Piece<K>>, start: nat, n: nat)
  {
    && (forall i: nat {:trigger Follows(log, start, i)} | i < |log| :: Follows(log, start, i))
    && Done(log, start) == n
  }

  /** How many bytes from `start` on are through. */
  function Done<K>(log: seq<Piece<K>>, start: nat): int
  {
    if |log| == 0 then 0 else log[|log| - 1].at + log[|log| - 1].len - start
  }

  lemma OneMore<K>(log: seq<Piece<K>>, start: nat, n: nat, x: Piece<K>)
    requires InOrder(log, start, n) && x.at == start + n
    ensures InOrder(log + [x], start, n + x.len)
  {
    var log' := log + [x];
    forall i: nat | i < |log'| ensures Follows(log', start, i) {
      if i < |log| { assert Follows(log, start, i); }
    }
  }
}
