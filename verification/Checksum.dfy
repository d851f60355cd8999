/** The internet checksum: util/checksum.hh. */
module Checksums {
  import opened Common
  import opened Buffers

  /** The sum of the 16-bit big-endian words of `data`; `odd` says that the first byte is the
      low half of a word begun before. */
  ghost function SumOf(data: seq<Byte>, odd: bool): nat
  {
    if data == [] then 0 else (if odd then data[0] else 256 * data[0]) + SumOf(data[1..], !odd)
  }

  ghost predicate Odd(n: nat) { n % 2 == 1 }

  /** The sum does not depend on where the data is cut, at odd places included. */
  lemma {:induction false} SumConcat(a: seq<Byte>, b: seq<Byte>, odd: bool)
    ensures SumOf(a + b, odd) == SumOf(a, odd) + SumOf(b, odd != Odd(|a|))
  {
    if a == [] {
      assert a + b == b;
    } else {
      assert (a + b)[1..] == a[1..] + b;
      SumConcat(a[1..], b, !odd);
    }
  }

  lemma {:induction false} SumBound(data: seq<Byte>, odd: bool)
    ensures SumOf(data, odd) <= 65280 * |data|
  {
    if data != [] {
      SumBound(data[1..], !odd);
    }
  }

  /** The sum is kept in 32 bits. */
  ghost function Sum32(seed: nat, data: seq<Byte>, odd: bool): U32
  {
    (seed + SumOf(data, odd)) % 0x1_0000_0000
  }

  lemma Sum32Concat(seed: nat, a: seq<Byte>, b: seq<Byte>, odd: bool)
    ensures Sum32(seed, a + b, odd) == Sum32(Sum32(seed, a, odd), b, odd != Odd(|a|))
  {
    SumConcat(a, b, odd);
    AddModulo(seed + SumOf(a, odd), SumOf(b, odd != Odd(|a|)));
  }

  lemma AddModulo(a: nat, b: nat)
    ensures (a % 0x1_0000_0000 + b) % 0x1_0000_0000 == (a + b) % 0x1_0000_0000
  {
  }

  /** Within a datagram's length and above any pseudo-header seed the 32-bit sum never overflows,
      the checksum added to it included. */
  lemma SumFits(seed: nat, data: seq<Byte>, odd: bool)
    requires seed <= 0x6_0000 && |data| <= 65535
    ensures Sum32(seed, data, odd) == seed + SumOf(data, odd) < 0x1_0000_0000 - 0x1_0000
  {
    SumBound(data, odd);
  }

  /** One's-complement residue: the value in 0..65535 congruent to `sum` modulo 65535, zero
      only for zero. */
  ghost function Folded(sum: nat): (r: nat)
    ensures r <= 65535
  {
    if sum == 0 then 0 else 1 + (sum - 1) % 65535
  }

  lemma FoldedCongruent(sum: nat)
    ensures Folded(sum) % 65535 == sum % 65535
    ensures Folded(sum) == 0 <==> sum == 0
  {
    if sum > 0 {
      var q := (sum - 1) / 65535;
      assert sum == 65535 * q + Folded(sum);
    }
  }

  /** Adding the high half to the low half keeps the residue. */
  lemma FoldStep(n: nat)
    ensures Folded(n / 0x1_0000 + n % 0x1_0000) == Folded(n)
  {
    var h, l := n / 0x1_0000, n % 0x1_0000;
    assert n == 0x1_0000 * h + l;
    if n > 0 {
      var m := h + l;
      var q := (m - 1) / 65535;
      assert m - 1 == 65535 * q + (m - 1) % 65535;
      assert n - 1 == 65535 * (q + h) + (m - 1) % 65535;
      Residue(n - 1, q + h, (m - 1) % 65535);
    }
  }

  lemma Residue(n: nat, q: nat, r: nat)
    requires n == 65535 * q + r && r < 65535
    ensures n % 65535 == r
  {
  }

  /** The checksum of a sum. */
  ghost function ValueOf(sum: nat): U16 { 0xffff - Folded(sum) }

  /** Adding the computed checksum makes verification yield zero, whatever the 32-bit sum: the
      addition never wraps, because 2^32 - 1 is itself a multiple of 65535. */
  lemma StampedIsZero(sum: U32)
    ensures sum + ValueOf(sum) < 0x1_0000_0000 && ValueOf(sum + ValueOf(sum)) == 0
  {
    if sum > 0 {
      var q := (sum - 1) / 65535;
      assert q <= 65536;
      assert sum + ValueOf(sum) - 1 == 65535 * q + 65534;
      Residue(sum + ValueOf(sum) - 1, q, 65534);
    }
  }

  lemma NothingSummed(seed: U32, odd: bool)
    ensures Sum32(seed, [], odd) == seed
  {
  }

  lemma OneSummed(seed: U32, b: Byte, odd: bool)
    ensures Sum32(seed, [b], odd) == (seed + (if odd then b else 256 * b)) % 0x1_0000_0000
  {
    assert SumOf([b], odd) == if odd then b else 256 * b;
  }

  /** The two bytes of the checksum field are one word of the sum. */
  lemma WordSum(c: U16)
    ensures SumOf(Encoded(c, 2), false) == c
  {
    assert Encoded(c / 256, 1) == Encoded(c / 256 / 256, 0) + [c / 256 % 256];
    assert Encoded(c, 2) == [c / 256, c % 256];
    assert Encoded(c, 2)[1..] == [c % 256] && [c % 256][1..] == [];
    assert SumOf([c % 256], true) == c % 256 + SumOf([], false);
  }

  lemma SumAround(before: seq<Byte>, c: U16, after: seq<Byte>)
    requires |before| % 2 == 0
    ensures SumOf(before + Encoded(c, 2) + after, false) == SumOf(before, false) + c + SumOf(after, false)
  {
    WordSum(c);
    SumConcat(before + Encoded(c, 2), after, false);
    SumConcat(before, Encoded(c, 2), false);
  }

  class InternetChecksum {
    var sum: U32
    var parity: bool

    constructor (seed: U32)
      ensures sum == seed && !parity
    {
      sum, parity := seed, false;
    }

    /** The sum is kept in 32 bits. */
    method Add(data: seq<Byte>)
      modifies this
      ensures parity == (old(parity) != Odd(|data|))
      ensures sum == Sum32(old(sum), data, old(parity))
    {
      hide Sum32;
      NothingSummed(sum, parity);
      for i := 0 to |data|
        invariant parity == (old(parity) != Odd(i))
        invariant sum == Sum32(old(sum), data[..i], old(parity))
      {
        assert data[..i + 1] == data[..i] + [data[i]];
        Sum32Concat(old(sum), data[..i], [data[i]], old(parity));
        var val: nat := data[i];
        if !parity {
          val := 256 * val;
        }
        OneSummed(sum, data[i], parity);
        sum := (sum + val) % 0x1_0000_0000;
        parity := !parity;
      }
      assert data[..|data|] == data;
    }

    /** Any chunking of the data gives the same sum. */
    method AddAll(chunks: seq<seq<Byte>>)
      modifies this
      ensures parity == (old(parity) != Odd(|Flatten(chunks)|))
      ensures sum == Sum32(old(sum), Flatten(chunks), old(parity))
    {
      hide Sum32;
      NothingSummed(sum, parity);
      for i := 0 to |chunks|
        invariant parity == (old(parity) != Odd(|Flatten(chunks[..i])|))
        invariant sum == Sum32(old(sum), Flatten(chunks[..i]), old(parity))
      {
        assert chunks[..i + 1] == chunks[..i] + [chunks[i]];
        FlattenSnoc(chunks[..i], chunks[i]);
        Sum32Concat(old(sum), Flatten(chunks[..i]), chunks[i], old(parity));
        Add(chunks[i]);
      }
      assert chunks[..|chunks|] == chunks;
    }

    /** Folding terminates and gives the one's complement of the residue. */
    method Value() returns (v: U16)
      ensures v == ValueOf(sum)
    {
      var ret: nat := sum;
      while ret > 0xffff
        invariant Folded(ret) == Folded(sum)
        decreases ret
      {
        FoldStep(ret);
        ret := ret / 0x1_0000 + ret % 0x1_0000;
      }
      v := 0xffff - ret;
    }
  }
}
