/**
 Types and small functions shared by the whole model: bytes, the fixed-width unsigned
 integers of the source, and chunked buffers.
 */
module Common {
  type Byte = x: int | 0 <= x < 256
  type U16 = x: int | 0 <= x < 0x1_0000
  type U32 = x: int | 0 <= x < 0x1_0000_0000

  datatype Option<+T> = None | Some(value: T)

  function Min(a: int, b: int): int { if a < b then a else b }

  function Max(a: int, b: int): int { if a < b then b else a }

  /** Addition of two `uint64_t` values. */
  function Add64(a: nat, b: nat): nat
  {
    if a + b < 0x1_0000_0000_0000_0000 then a + b else (a + b) % 0x1_0000_0000_0000_0000
  }

  /** Subtraction of two `uint64_t` values: it wraps below zero. */
  function Sub64(a: nat, b: nat): nat
  {
    if b <= a then a - b else (a - b) % 0x1_0000_0000_0000_0000
  }

  /** The bytes of a chain of buffers. */
  ghost function Flatten(chunks: seq<seq<Byte>>): seq<Byte>
  {
    if chunks == [] then [] else chunks[0] + Flatten(chunks[1..])
  }

  ghost predicate NonEmptyChunks(chunks: seq<seq<Byte>>)
  {
    forall i :: 0 <= i < |chunks| ==> chunks[i] != []
  }

  lemma Associative<T>(a: seq<T>, b: seq<T>, c: seq<T>)
    ensures a + (b + c) == a + b + c
  {
  }

  lemma CountSnoc<T>(s: seq<T>, x: T)
    ensures forall y :: multiset(s + [x])[y] == multiset(s)[y] + (if x == y then 1 else 0)
  {
    assert multiset(s + [x]) == multiset(s) + multiset{x};
  }

  lemma CountLast<T>(s: seq<T>, y: T)
    requires s != []
    ensures multiset(s)[y] == multiset(s[..|s| - 1])[y] + (if s[|s| - 1] == y then 1 else 0)
  {
    assert s == s[..|s| - 1] + [s[|s| - 1]];
    CountSnoc(s[..|s| - 1], s[|s| - 1]);
  }

  lemma {:induction false} FlattenConcat(a: seq<seq<Byte>>, b: seq<seq<Byte>>)
    ensures Flatten(a + b) == Flatten(a) + Flatten(b)
  {
    if a == [] {
      assert a + b == b;
    } else {
      assert (a + b)[1..] == a[1..] + b;
      calc {
        Flatten(a + b);
        a[0] + Flatten(a[1..] + b);
        { FlattenConcat(a[1..], b); }
        a[0] + (Flatten(a[1..]) + Flatten(b));
        { Associative(a[0], Flatten(a[1..]), Flatten(b)); }
        Flatten(a) + Flatten(b);
      }
    }
  }

  lemma FlattenSnoc(a: seq<seq<Byte>>, x: seq<Byte>)
    ensures Flatten(a + [x]) == Flatten(a) + x
  {
    FlattenConcat(a, [x]);
    assert Flatten([x]) == x;
  }

  lemma DropTwice(a: seq<Byte>, m: nat, k: nat)
    requires m + k <= |a|
    ensures a[m..][k..] == a[m + k..]
  {
  }

  lemma PopStep(buffer: seq<seq<Byte>>, skip: nat, k: nat)
    requires buffer != [] && skip + k <= |buffer[0]|
    ensures |Flatten(buffer)| == |buffer[0]| + |Flatten(buffer[1..])|
    ensures Flatten(buffer)[skip + k..] == Flatten(buffer)[skip..][k..]
    ensures skip + k == |buffer[0]| ==> Flatten(buffer[1..])[0..] == Flatten(buffer)[skip..][k..]
  {
    assert Flatten(buffer) == buffer[0] + Flatten(buffer[1..]);
  }
}
