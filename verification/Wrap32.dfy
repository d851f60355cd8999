/** 32-bit wrapping sequence numbers: src/wrapping_integers.cc. */
module Wrap32 {
  import opened Common

  /** Wrap32::wrap: the absolute sequence number `n`, counted from `zero`, modulo 2^32. */
  function Wrap(n: nat, zero: U32): U32
  {
    (zero + n % 0x1_0000_0000) % 0x1_0000_0000
  }

  function Distance(v: nat, checkpoint: nat): (d: nat)
  {
    if v > checkpoint then v - checkpoint else checkpoint - v
  }

  /** Counting on the wire: from `zero`, one by one, and from the greatest number back to 0. */
  lemma WrapCounts(n: nat, zero: U32)
    ensures Wrap(0, zero) == zero
    ensures Wrap(n + 1, zero) == if Wrap(n, zero) == 0xFFFF_FFFF then 0 else Wrap(n, zero) + 1
  {
    var q, r := n / 0x1_0000_0000, n % 0x1_0000_0000;
    assert n == 0x1_0000_0000 * q + r;
    if r + 1 < 0x1_0000_0000 {
      assert (n + 1) % 0x1_0000_0000 == r + 1;
    } else {
      assert n + 1 == 0x1_0000_0000 * (q + 1);
    }
  }

  /** Wrap32::unwrap: the candidate sharing the checkpoint's upper 32 bits, or one of its
      neighbours 2^32 away. The upper neighbour is computed in 64 bits and may wrap. */
  function Unwrap(raw: U32, zero: U32, checkpoint: nat): nat
  {
    var offset := (raw - zero) % 0x1_0000_0000;
    var candidate := checkpoint / 0x1_0000_0000 * 0x1_0000_0000 + offset;
    var best :=
      if candidate >= 0x1_0000_0000
         && Distance(candidate - 0x1_0000_0000, checkpoint) < Distance(candidate, checkpoint)
      then candidate - 0x1_0000_0000
      else candidate;
    var next := Add64(candidate, 0x1_0000_0000);
    if Distance(next, checkpoint) < Distance(best, checkpoint) then next else best
  }

  /** `v` wraps to `raw` exactly when it lies `raw - zero` above a multiple of 2^32. */
  lemma WrapsTo(v: nat, raw: U32, zero: U32)
    ensures Wrap(v, zero) == raw <==> v % 0x1_0000_0000 == (raw - zero) % 0x1_0000_0000
  {
  }

  /** The three ways `Unwrap` can answer, with the checkpoint split into halves. */
  lemma UnwrapCases(raw: U32, zero: U32, checkpoint: nat, high: nat, low: nat, offset: nat)
    requires checkpoint == 0x1_0000_0000 * high + low && low < 0x1_0000_0000 && high < 0x1_0000_0000
    requires offset == (raw - zero) % 0x1_0000_0000
    ensures Unwrap(raw, zero, checkpoint) ==
            if offset > low + 0x8000_0000 && high > 0 then 0x1_0000_0000 * (high - 1) + offset
            else if low > offset + 0x8000_0000 && high + 1 < 0x1_0000_0000 then 0x1_0000_0000 * (high + 1) + offset
            else 0x1_0000_0000 * high + offset
  {
    assert checkpoint / 0x1_0000_0000 == high;
    if high + 1 == 0x1_0000_0000 {
      assert Add64(0x1_0000_0000 * high + offset, 0x1_0000_0000) == offset;
    }
  }

  /** Among the numbers `offset` above a multiple of 2^32, the one UnwrapCases gives is nearest. */
  lemma NearestCandidate(high: nat, low: nat, offset: nat, r: nat, q: nat)
    requires low < 0x1_0000_0000 && offset < 0x1_0000_0000 && high < 0x1_0000_0000 && q < 0x1_0000_0000
    requires r ==
             if offset > low + 0x8000_0000 && high > 0 then 0x1_0000_0000 * (high - 1) + offset
             else if low > offset + 0x8000_0000 && high + 1 < 0x1_0000_0000 then 0x1_0000_0000 * (high + 1) + offset
             else 0x1_0000_0000 * high + offset
    ensures Distance(r, 0x1_0000_0000 * high + low) <= Distance(0x1_0000_0000 * q + offset, 0x1_0000_0000 * high + low)
    ensures r < 0x1_0000_0000_0000_0000 && r % 0x1_0000_0000 == offset
  {
    if q < high {
    } else if q > high {
    }
  }

  /** The result is a uint64 that wraps back to the value it came from, and no uint64 that
      does so is strictly closer to the checkpoint -- on all of uint64, including the
      checkpoints for which the upper neighbour overflows. */
  lemma UnwrapClosest(raw: U32, zero: U32, checkpoint: nat, v: nat)
    requires checkpoint < 0x1_0000_0000_0000_0000
    requires v < 0x1_0000_0000_0000_0000
    ensures Unwrap(raw, zero, checkpoint) < 0x1_0000_0000_0000_0000
    ensures Wrap(Unwrap(raw, zero, checkpoint), zero) == raw
    ensures Wrap(v, zero) == raw ==>
              Distance(Unwrap(raw, zero, checkpoint), checkpoint) <= Distance(v, checkpoint)
  {
    hide Unwrap, Wrap, Distance;
    var offset := (raw - zero) % 0x1_0000_0000;
    var high, low := checkpoint / 0x1_0000_0000, checkpoint % 0x1_0000_0000;
    UnwrapCases(raw, zero, checkpoint, high, low, offset);
    WrapsTo(Unwrap(raw, zero, checkpoint), raw, zero);
    WrapsTo(v, raw, zero);
    NearestCandidate(high, low, offset, Unwrap(raw, zero, checkpoint), v / 0x1_0000_0000);
  }

  /** An absolute sequence number less than 2^31 from the checkpoint survives the wire. */
  lemma UnwrapWrap(n: nat, zero: U32, checkpoint: nat)
    requires n < 0x1_0000_0000_0000_0000 && checkpoint < 0x1_0000_0000_0000_0000
    requires Distance(n, checkpoint) < 0x8000_0000
    ensures Unwrap(Wrap(n, zero), zero, checkpoint) == n
  {
    hide Unwrap, Wrap;
    var raw := Wrap(n, zero);
    var r := Unwrap(raw, zero, checkpoint);
    UnwrapClosest(raw, zero, checkpoint, n);
    WrapsTo(n, raw, zero);
    WrapsTo(r, raw, zero);
    SameResidueNear(n, r);
  }

  lemma SameResidueNear(a: nat, b: nat)
    requires a % 0x1_0000_0000 == b % 0x1_0000_0000
    requires Distance(a, b) < 0x1_0000_0000
    ensures a == b
  {
    assert a == 0x1_0000_0000 * (a / 0x1_0000_0000) + a % 0x1_0000_0000;
    assert b == 0x1_0000_0000 * (b / 0x1_0000_0000) + b % 0x1_0000_0000;
  }

  /** Exactly when unwrap inverts wrap, on all of uint64. A number that shares the checkpoint's
      upper half also survives at distance 2^31, and beyond it where the candidate on the other
      side would leave uint64; any other number survives only below 2^31. */
  lemma UnwrapWrapExact(n: nat, zero: U32, checkpoint: nat)
    requires n < 0x1_0000_0000_0000_0000 && checkpoint < 0x1_0000_0000_0000_0000
    ensures Unwrap(Wrap(n, zero), zero, checkpoint) == n <==>
            if n / 0x1_0000_0000 == checkpoint / 0x1_0000_0000 then
              || Distance(n, checkpoint) <= 0x8000_0000
              || (n > checkpoint && checkpoint / 0x1_0000_0000 == 0)
              || (n < checkpoint && checkpoint / 0x1_0000_0000 == 0xFFFF_FFFF)
            else Distance(n, checkpoint) < 0x8000_0000
  {
    hide Unwrap, Wrap;
    var high, low := checkpoint / 0x1_0000_0000, checkpoint % 0x1_0000_0000;
    var raw := Wrap(n, zero);
    WrapsTo(n, raw, zero);
    UnwrapCases(raw, zero, checkpoint, high, low, n % 0x1_0000_0000);
    CandidateExact(high, low, n / 0x1_0000_0000, n % 0x1_0000_0000);
  }

  /** The same over the halves of both numbers. */
  lemma CandidateExact(high: nat, low: nat, q: nat, offset: nat)
    requires low < 0x1_0000_0000 && offset < 0x1_0000_0000 && high < 0x1_0000_0000 && q < 0x1_0000_0000
    ensures var r :=
              if offset > low + 0x8000_0000 && high > 0 then high - 1
              else if low > offset + 0x8000_0000 && high + 1 < 0x1_0000_0000 then high + 1
              else high;
            var n, checkpoint := 0x1_0000_0000 * q + offset, 0x1_0000_0000 * high + low;
            r == q <==>
            if q == high then
              || Distance(n, checkpoint) <= 0x8000_0000
              || (n > checkpoint && high == 0)
              || (n < checkpoint && high == 0xFFFF_FFFF)
            else Distance(n, checkpoint) < 0x8000_0000
  {
  }

  /** Without freshness a number 2^32 behind is indistinguishable from a current one, and is
      taken for it. */
  lemma StaleNumberIsMisread(n: nat, zero: U32, checkpoint: nat)
    requires n + 0x1_0000_0000 < 0x1_0000_0000_0000_0000 && checkpoint < 0x1_0000_0000_0000_0000
    requires Distance(n + 0x1_0000_0000, checkpoint) < 0x8000_0000
    ensures Unwrap(Wrap(n, zero), zero, checkpoint) == n + 0x1_0000_0000
  {
    hide Unwrap;
    assert Wrap(n + 0x1_0000_0000, zero) == Wrap(n, zero);
    UnwrapWrap(n + 0x1_0000_0000, zero, checkpoint);
  }
}
