/** 32-bit sequence numbers and their 64-bit absolute counterparts (section 3.3 of RFC 793). */
module Wrapping {
  import opened Integers

  /** The 64-bit sum and the truncation to 32 bits amount to one reduction modulo 2^32. */
  function Wrap(n: nat, isn: u32): u32 {
    U32(n + isn)
  }

  /** `operator-` on wrapping integers: the unsigned difference read as a signed 32-bit number. */
  function Offset(a: u32, b: u32): int {
    var d := U32(a - b);
    if d < TWO31 then d else d - TWO32
  }

  /** A 64-bit sum is "negative" when its top bit is set; it then moves up one ring. */
  function Resolve(c: int): u64 {
    var sum := U64(c);
    if sum < TWO63 then sum else U64(sum + TWO32)
  }

  function Unwrap(n: u32, isn: u32, checkpoint: nat): u64 {
    Resolve(checkpoint + Offset(n, Wrap(checkpoint, isn)))
  }

  /** What `unwrap` is documented to return: an absolute number that wraps to `n`, none closer. */
  ghost predicate Nearest(x: u64, n: u32, isn: u32, checkpoint: u64) {
    && Wrap(x, isn) == n
    && forall y: u64 :: Wrap(y, isn) == n ==> Abs(x - checkpoint) <= Abs(y - checkpoint)
  }

  lemma OffsetWraps(n: u32, isn: u32, checkpoint: nat)
    ensures var d := Offset(n, Wrap(checkpoint, isn));
            -TWO31 <= d < TWO31 && U32(checkpoint + d + isn) == n
  {
  }

  /** Two numbers that wrap alike differ by a multiple of 2^32. */
  lemma WrapEqual(x: nat, y: nat, isn: u32)
    requires Wrap(x, isn) == Wrap(y, isn)
    ensures U32(x - y) == 0
  {
  }

  lemma UnwrapWraps(n: u32, isn: u32, checkpoint: nat)
    ensures Wrap(Unwrap(n, isn, checkpoint), isn) == n
  {
    OffsetWraps(n, isn, checkpoint);
    var c := checkpoint + Offset(n, Wrap(checkpoint, isn));
    ReduceTwice(c, isn);
    ReduceTwice(U64(c) + TWO32, isn);
    ReduceRing(U64(c) + isn, 1);
  }

  lemma ReduceRing(x: int, k: int)
    ensures U32(x + TWO32 * k) == U32(x)
  {
  }

  /** Reducing modulo 2^64 first does not change the residue modulo 2^32. */
  lemma ReduceTwice(c: int, isn: u32)
    ensures U32(U64(c) + isn) == U32(c + isn)
  {
    assert c + isn == (U64(c) + isn) + TWO32 * (TWO32 * (c / TWO64));
    ReduceRing(U64(c) + isn, TWO32 * (c / TWO64));
  }

  /** A number within half the ring of the checkpoint has no closer twin. */
  lemma HalfRingIsNearest(x: u64, n: u32, isn: u32, checkpoint: u64)
    requires Wrap(x, isn) == n
    requires Abs(x - checkpoint) <= TWO31 || checkpoint <= x < TWO32
    ensures Nearest(x, n, isn, checkpoint)
  {
    forall y: u64 | Wrap(y, isn) == n
      ensures Abs(x - checkpoint) <= Abs(y - checkpoint)
    {
      WrapEqual(x, y, isn);
    }
  }

  /** Up to 2^63, and in the tie, the result is at most half a ring away or the lowest candidate. */
  lemma ResolveNear(checkpoint: u64, d: int)
    requires -TWO31 <= d < TWO31
    requires checkpoint + d < TWO63 || (d == -TWO31 && checkpoint + TWO31 < TWO64)
    ensures var x := Resolve(checkpoint + d); Abs(x - checkpoint) <= TWO31 || checkpoint <= x < TWO32
  {
  }

  /** Past 2^63 the result is farther away than another candidate. */
  lemma ResolveFar(checkpoint: u64, d: int)
    requires -TWO31 <= d < TWO31 && checkpoint + d >= TWO63
    requires d != -TWO31 || checkpoint + TWO31 >= TWO64
    ensures var y := if checkpoint + d < TWO64 then checkpoint + d else checkpoint + d - TWO32;
            Abs(y - checkpoint) < Abs(Resolve(checkpoint + d) - checkpoint)
  {
  }

  lemma NotNearest(x: u64, y: u64, n: u32, isn: u32, checkpoint: u64)
    requires Wrap(y, isn) == n && Abs(y - checkpoint) < Abs(x - checkpoint)
    ensures !Nearest(x, n, isn, checkpoint)
  {
  }

  lemma FarIsNotNearest(n: u32, isn: u32, checkpoint: u64, d: int)
    requires -TWO31 <= d < TWO31 && checkpoint + d >= TWO63 && U32(checkpoint + d + isn) == n
    requires d != -TWO31 || checkpoint + TWO31 >= TWO64
    ensures !Nearest(Resolve(checkpoint + d), n, isn, checkpoint)
  {
    var y := if checkpoint + d < TWO64 then checkpoint + d else checkpoint + d - TWO32;
    ResolveFar(checkpoint, d);
    ReduceRing(checkpoint + d + isn, -1);
    NotNearest(Resolve(checkpoint + d), y, n, isn, checkpoint);
  }

  /**
   * `unwrap` meets its documentation exactly when the candidate next to the checkpoint stays
   * below 2^63 (or in the tie at distance 2^31, where both candidates are equally close).
   */
  lemma UnwrapNearestIff(n: u32, isn: u32, checkpoint: u64)
    ensures var d := Offset(n, Wrap(checkpoint, isn));
            Nearest(Unwrap(n, isn, checkpoint), n, isn, checkpoint) <==>
            checkpoint + d < TWO63 || (d == -TWO31 && checkpoint + TWO31 < TWO64)
  {
    var d := Offset(n, Wrap(checkpoint, isn));
    OffsetWraps(n, isn, checkpoint);
    if checkpoint + d < TWO63 || (d == -TWO31 && checkpoint + TWO31 < TWO64) {
      UnwrapWraps(n, isn, checkpoint);
      ResolveNear(checkpoint, d);
      HalfRingIsNearest(Resolve(checkpoint + d), n, isn, checkpoint);
    } else {
      FarIsNotNearest(n, isn, checkpoint, d);
    }
  }

  /**
   * The numbers that `unwrap` can return for a checkpoint: the ring around it, but for the part
   * below zero, which moves up one ring, and the part from 2^63 on, which moves up one ring modulo
   * 2^64.
   */
  predicate Recoverable(v: u64, checkpoint: u64) {
    var lo := checkpoint - TWO31;
    || (v < TWO63 && lo <= v < lo + TWO32)
    || (v < TWO32 && lo <= v - TWO32 < lo + TWO32)
    || (v >= TWO63 + TWO32 && lo <= v - TWO32 < lo + TWO32)
    || (v < TWO32 && lo <= v - TWO32 + TWO64 < lo + TWO32)
    || lo <= v + TWO64 < lo + TWO32
  }

  lemma ResolveRecoverable(checkpoint: u64, d: int)
    requires -TWO31 <= d < TWO31
    ensures Recoverable(Resolve(checkpoint + d), checkpoint)
  {
    var c := checkpoint + d;
    if c < 0 {
      assert U64(c) == c + TWO64;
    } else if c >= TWO64 {
      assert U64(c) == c - TWO64;
    } else if c + TWO32 >= TWO64 {
      assert U64(c + TWO32) == c + TWO32 - TWO64;
    }
  }

  /** Within one ring, a number is determined by its residue. */
  lemma RingInjective(x: int, y: int, lo: int, isn: u32)
    requires lo <= x < lo + TWO32 && lo <= y < lo + TWO32 && U32(x + isn) == U32(y + isn)
    ensures x == y
  {
  }

  lemma OffsetRange(a: u32, b: u32)
    ensures -TWO31 <= Offset(a, b) < TWO31
  {
  }

  /** What `unwrap` returns is recoverable, whatever the checkpoint. */
  lemma UnwrapRange(n: u32, isn: u32, checkpoint: u64)
    ensures Recoverable(Unwrap(n, isn, checkpoint), checkpoint)
  {
    OffsetRange(n, Wrap(checkpoint, isn));
    ResolveRecoverable(checkpoint, Offset(n, Wrap(checkpoint, isn)));
  }

  /** The member of the ring around the checkpoint from which a recoverable number comes. */
  function Origin(v: u64, checkpoint: u64): int
    requires Recoverable(v, checkpoint)
  {
    var lo := checkpoint - TWO31;
    if v < TWO63 && lo <= v < lo + TWO32 then v
    else if lo <= v + TWO64 < lo + TWO32 then v + TWO64
    else if lo <= v - TWO32 < lo + TWO32 then v - TWO32
    else v - TWO32 + TWO64
  }

  lemma OriginResolves(v: u64, isn: u32, checkpoint: u64)
    requires Recoverable(v, checkpoint)
    ensures var c := Origin(v, checkpoint);
            && checkpoint - TWO31 <= c < checkpoint + TWO31 && Resolve(c) == v
            && U32(c + isn) == U32(v + isn)
  {
    ReduceRing(v + isn, -1);
    ReduceRing(v + isn, TWO32);
    ReduceRing(v + isn, TWO32 - 1);
  }

  /** Unwrapping undoes wrapping for exactly the recoverable numbers, whatever the checkpoint. */
  lemma UnwrapRoundTripIff(v: u64, isn: u32, checkpoint: u64)
    ensures Unwrap(Wrap(v, isn), isn, checkpoint) == v <==> Recoverable(v, checkpoint)
  {
    UnwrapRange(Wrap(v, isn), isn, checkpoint);
    if Recoverable(v, checkpoint) {
      OffsetWraps(Wrap(v, isn), isn, checkpoint);
      OriginResolves(v, isn, checkpoint);
      RingInjective(checkpoint + Offset(Wrap(v, isn), Wrap(checkpoint, isn)), Origin(v, checkpoint),
                    checkpoint - TWO31, isn);
    }
  }

  /** Up to 2^63, the recoverable numbers are one ring that starts half a ring below, or at 0. */
  lemma LowRing(v: u64, checkpoint: u64)
    requires checkpoint + TWO31 <= TWO63
    ensures var lo := Max(0, checkpoint - TWO31); Recoverable(v, checkpoint) <==> lo <= v < lo + TWO32
  {
  }

  /** For a checkpoint up to 2^31, `unwrap` is the offset from the initial sequence number. */
  lemma LowUnwrap(n: u32, isn: u32, checkpoint: u64)
    requires checkpoint <= TWO31
    ensures Unwrap(n, isn, checkpoint) == U32(n - isn)
  {
    assert Wrap(U32(n - isn), isn) == n;
    LowRing(U32(n - isn), checkpoint);
    UnwrapRoundTripIff(U32(n - isn), isn, checkpoint);
  }

  /** The candidate in the ring around the checkpoint for a number at most one ring below it. */
  function Candidate(v: u64, checkpoint: u64): nat {
    if checkpoint - v <= TWO31 then v else v + TWO32
  }

  lemma CandidateUnwraps(v: u64, isn: u32, checkpoint: u64)
    requires v <= checkpoint < v + TWO32
    ensures Unwrap(Wrap(v, isn), isn, checkpoint) == Resolve(Candidate(v, checkpoint))
  {
    OffsetWraps(Wrap(v, isn), isn, checkpoint);
    ReduceRing(v + isn, 1);
    RingInjective(checkpoint + Offset(Wrap(v, isn), Wrap(checkpoint, isn)), Candidate(v, checkpoint),
                  checkpoint - TWO31, isn);
  }

  /**
   * A number at most one ring below the checkpoint is recovered, or turned into one above the
   * checkpoint, exactly unless the move up by one ring passes 2^64.
   */
  lemma UnwrapStaleIff(v: u64, isn: u32, checkpoint: u64)
    requires v <= checkpoint < v + TWO32
    ensures var x, c := Unwrap(Wrap(v, isn), isn, checkpoint), Candidate(v, checkpoint);
            x == v || x > checkpoint <==> c < TWO63 || c + TWO32 < TWO64
  {
    CandidateUnwraps(v, isn, checkpoint);
    StaleResolves(v, checkpoint);
  }

  lemma StaleResolves(v: u64, checkpoint: u64)
    requires v <= checkpoint < v + TWO32
    ensures var c := Candidate(v, checkpoint);
            Resolve(c) == v || Resolve(c) > checkpoint <==> c < TWO63 || c + TWO32 < TWO64
  {
    var c := Candidate(v, checkpoint);
    if c >= TWO64 {
      assert U64(c) == c - TWO64;
    } else if c + TWO32 >= TWO64 {
      assert U64(c + TWO32) == c + TWO32 - TWO64;
    }
  }

  lemma UnwrapStale(v: u64, isn: u32, checkpoint: u64)
    requires v <= checkpoint < v + TWO32 && checkpoint + TWO31 <= TWO63
    ensures var x := Unwrap(Wrap(v, isn), isn, checkpoint); x == v || x > checkpoint
  {
    UnwrapStaleIff(v, isn, checkpoint);
  }
}
