/** Reading from and writing to chains of buffers: util/parser.cc, util/parser.hh. */
module Buffers {
  import opened Common

  /** The number a big-endian byte string stands for. */
  ghost function Number(bytes: seq<Byte>): nat
  {
    if bytes == [] then 0 else 256 * Number(bytes[..|bytes| - 1]) + bytes[|bytes| - 1]
  }

  /** The big-endian bytes of `val` in the given width. */
  ghost function Encoded(val: nat, width: nat): (bytes: seq<Byte>)
    ensures |bytes| == width
  {
    if width == 0 then [] else Encoded(val / 256, width - 1) + [val % 256]
  }

  function Pow256(n: nat): (p: nat)
    ensures p >= 1
  {
    if n == 0 then 1 else 256 * Pow256(n - 1)
  }

  /** `val >> (8 * bytes)`. */
  function ShiftRight(val: nat, bytes: nat): nat
  {
    if bytes == 0 then val else ShiftRight(val, bytes - 1) / 256
  }

  /** What is written is what is read back. */
  lemma {:induction false} NumberEncoded(val: nat, width: nat)
    requires val < Pow256(width)
    ensures Number(Encoded(val, width)) == val
  {
    if width > 0 {
      NumberEncoded(val / 256, width - 1);
      var bytes := Encoded(val, width);
      assert bytes[..|bytes| - 1] == Encoded(val / 256, width - 1);
    }
  }

  lemma {:induction false} NumberBound(bytes: seq<Byte>)
    ensures Number(bytes) < Pow256(|bytes|)
  {
    if bytes != [] {
      NumberBound(bytes[..|bytes| - 1]);
    }
  }

  /** What is left of `b` once up to `n` bytes are removed. */
  ghost function Drop(b: seq<Byte>, n: nat): seq<Byte> { b[Min(n, |b|)..] }

  /** Where reading stands once `pos` bytes of a chain are removed: the chunks left, and how many
      bytes of the first are skipped. A chunk goes with its last byte, and an empty chunk only on
      the way to a later byte. */
  ghost function At(chunks: seq<seq<Byte>>, pos: nat): (r: (seq<seq<Byte>>, nat))
  {
    if chunks == [] || pos == 0 then (chunks, 0)
    else if pos < |chunks[0]| then (chunks, pos)
    else At(chunks[1..], pos - |chunks[0]|)
  }

  lemma {:induction false} AtAt(chunks: seq<seq<Byte>>, pos: nat, n: nat)
    ensures At(At(chunks, pos).0, At(chunks, pos).1 + n) == At(chunks, pos + n)
  {
    if chunks != [] && pos >= |chunks[0]| {
      AtAt(chunks[1..], pos - |chunks[0]|, n);
    }
  }

  /** The first byte of the front chunk can be looked at, if any chunk is left. */
  ghost predicate Looks(chunks: seq<seq<Byte>>, pos: nat)
  {
    At(chunks, pos).0 == [] || At(chunks, pos).0[0] != []
  }

  /** `n` bytes can be read from `pos` on, one by one, without meeting an empty front chunk. */
  ghost predicate Reads(chunks: seq<seq<Byte>>, pos: nat, n: nat)
  {
    forall q: nat :: pos <= q < pos + n ==> Looks(chunks, q)
  }

  lemma ReadsFrom(chunks: seq<seq<Byte>>, pos: nat, n: nat, done: nat, width: nat)
    requires Reads(chunks, pos, n) && done + width <= n
    ensures Reads(At(chunks, pos + done).0, At(chunks, pos + done).1, width)
  {
    var (chunks', skip) := At(chunks, pos + done);
    forall q: nat | skip <= q < skip + width
      ensures Looks(chunks', q)
    {
      AtAt(chunks, pos + done, q - skip);
      assert Looks(chunks, pos + done + (q - skip));
    }
  }

  lemma {:induction false} NonEmptyReads(chunks: seq<seq<Byte>>, pos: nat)
    requires NonEmptyChunks(chunks)
    ensures NonEmptyChunks(At(chunks, pos).0) && Looks(chunks, pos)
  {
    if chunks != [] && pos >= |chunks[0]| {
      NonEmptyReads(chunks[1..], pos - |chunks[0]|);
    }
  }

  lemma NonEmptyAllReads(chunks: seq<seq<Byte>>, n: nat)
    requires NonEmptyChunks(chunks)
    ensures Reads(chunks, 0, n)
  {
    forall q: nat | 0 <= q < n
      ensures Looks(chunks, q)
    {
      NonEmptyReads(chunks, q);
    }
  }

  /** Position `pos` is where some chunk ends and the next begins. */
  ghost predicate OnBoundary(chunks: seq<seq<Byte>>, pos: nat)
  {
    exists i: nat :: i <= |chunks| && EndsAt(chunks, i, pos)
  }

  ghost predicate EndsAt(chunks: seq<seq<Byte>>, i: nat, pos: nat)
    requires i <= |chunks|
  {
    |Flatten(chunks[..i])| == pos
  }

  lemma BoundaryNext(chunks: seq<seq<Byte>>, pos: nat)
    requires chunks != [] && pos >= |chunks[0]|
    ensures OnBoundary(chunks, pos) <==> OnBoundary(chunks[1..], pos - |chunks[0]|)
  {
    if OnBoundary(chunks, pos) {
      var i: nat :| i <= |chunks| && EndsAt(chunks, i, pos);
      var i' := if i == 0 then 0 else i - 1;
      FrontOf(chunks, i' + 1);
      if i == 0 {
        assert chunks[1..][..0] == [] && chunks[..0] == [];
      }
      assert EndsAt(chunks[1..], i', pos - |chunks[0]|);
    }
    if OnBoundary(chunks[1..], pos - |chunks[0]|) {
      var i: nat :| i <= |chunks[1..]| && EndsAt(chunks[1..], i, pos - |chunks[0]|);
      FrontOf(chunks, i + 1);
      assert EndsAt(chunks, i + 1, pos);
    }
  }

  lemma FrontOf(chunks: seq<seq<Byte>>, i: nat)
    requires 0 < i <= |chunks|
    ensures |Flatten(chunks[..i])| == |chunks[0]| + |Flatten(chunks[1..][..i - 1])|
  {
    assert chunks[..i][1..] == chunks[1..][..i - 1];
  }

  lemma BoundaryInFirst(chunks: seq<seq<Byte>>, pos: nat)
    requires chunks != [] && pos < |chunks[0]|
    ensures OnBoundary(chunks, pos) <==> pos == 0
  {
    if pos == 0 {
      assert chunks[..0] == [] && EndsAt(chunks, 0, 0);
    }
    if OnBoundary(chunks, pos) {
      var i: nat :| i <= |chunks| && EndsAt(chunks, i, pos);
      if i > 0 {
        FrontOf(chunks, i);
      }
    }
  }

  /** Nothing is skipped exactly at the chunk boundaries, and the boundaries behind one are
      those of the chunks left. */
  lemma {:induction false} AtBoundary(chunks: seq<seq<Byte>>, pos: nat, n: nat)
    requires pos <= |Flatten(chunks)|
    ensures At(chunks, pos).1 == 0 <==> OnBoundary(chunks, pos)
    ensures At(chunks, pos).1 == 0 ==> (OnBoundary(At(chunks, pos).0, n) <==> OnBoundary(chunks, pos + n))
  {
    if chunks == [] || pos == 0 {
      assert chunks[..0] == [] && EndsAt(chunks, 0, 0);
    } else if pos < |chunks[0]| {
      BoundaryInFirst(chunks, pos);
    } else {
      AtBoundary(chunks[1..], pos - |chunks[0]|, n);
      BoundaryNext(chunks, pos);
      BoundaryNext(chunks, pos + n);
    }
  }

  /** The bytes skipped are a proper part of the first chunk. */
  ghost predicate Cursor(buffer: seq<seq<Byte>>, skip: nat)
  {
    (skip == 0 || (buffer != [] && skip < |buffer[0]|)) && skip <= |Flatten(buffer)|
  }

  ghost function Rest(buffer: seq<seq<Byte>>, skip: nat): seq<Byte>
    requires Cursor(buffer, skip)
  {
    Flatten(buffer)[skip..]
  }

  lemma WholeRest(chunks: seq<seq<Byte>>)
    ensures Cursor(chunks, 0) && Rest(chunks, 0) == Flatten(chunks)
  {
  }

  /** Skipping `k` bytes of the first chunk, which goes once all of it is skipped. */
  lemma Advance(buffer: seq<seq<Byte>>, skip: nat, k: nat, more: nat)
    requires Cursor(buffer, skip) && buffer != [] && skip + k <= |buffer[0]| && k + more > 0
    ensures var (buffer', skip') := if skip + k == |buffer[0]| then (buffer[1..], 0) else (buffer, skip + k);
            && Cursor(buffer', skip') && k <= |Rest(buffer, skip)|
            && Rest(buffer', skip') == Rest(buffer, skip)[k..]
            && At(buffer', skip' + more) == At(buffer, skip + k + more)
  {
    hide Flatten;
    PopStep(buffer, skip, k);
  }

  lemma DropDone(start: seq<Byte>, n: nat, left: nat)
    requires left <= n && n - left <= |start| && (left == 0 || n - left == |start|)
    ensures start[n - left..] == Drop(start, n)
  {
  }

  class BufferList {
    var size: nat
    var buffer: seq<seq<Byte>>
    var skip: nat

    ghost predicate Valid()
      reads this
    {
      Cursor(buffer, skip) && size == |Rest(buffer, skip)|
    }

    ghost function Contents(): seq<Byte>
      requires Valid()
      reads this
    {
      Rest(buffer, skip)
    }

    /** What dumping would give: nothing if the size says so, and no answer at all -- the code
        then takes the front of an empty list -- if no chunk is left. */
    ghost function Readable(): Option<seq<Byte>>
      reads this
    {
      if size == 0 then Some([])
      else if buffer != [] && skip <= |Flatten(buffer)| then Some(Flatten(buffer)[skip..])
      else None
    }

    constructor (buffers: seq<seq<Byte>>)
      ensures Valid() && Contents() == Flatten(buffers) && buffer == buffers && skip == 0
    {
      var total := 0;
      for i := 0 to |buffers|
        invariant total == |Flatten(buffers[..i])|
      {
        assert buffers[..i + 1] == buffers[..i] + [buffers[i]];
        FlattenSnoc(buffers[..i], buffers[i]);
        total := total + |buffers[i]|;
      }
      assert buffers[..|buffers|] == buffers;
      size, buffer, skip := total, buffers, 0;
    }

    /** The unread part of the first chunk, which is empty only if the chunk is; it throws on an
        empty list. */
    function Peek(): (view: seq<Byte>)
      requires Valid() && buffer != []
      reads this
      ensures |view| == |buffer[0]| - skip && view <= Contents() && (view == [] <==> buffer[0] == [])
    {
      assert Flatten(buffer) == buffer[0] + Flatten(buffer[1..]);
      buffer[0][skip..]
    }

    /** Bytes go across chunks. */
    method RemovePrefix(n: nat)
      requires Valid()
      modifies this
      ensures Valid() && Contents() == Drop(old(Contents()), n)
      ensures (buffer, skip) == At(old(buffer), old(skip) + n)
    {
      hide Cursor, Rest, At, Drop;
      var len := n;
      ghost var start, chunks, position := Contents(), buffer, skip + n;
      assert start[0..] == start;
      while len > 0 && buffer != []
        invariant Valid() && 0 <= len <= n
        invariant n - len <= |start| && Contents() == start[n - len..]
        invariant At(buffer, skip + len) == At(chunks, position)
        decreases |buffer|, len
      {
        var toPopNow := Min(len, |Peek()|);
        Advance(buffer, skip, toPopNow, len - toPopNow);
        DropTwice(start, n - len, toPopNow);
        skip := skip + toPopNow;
        len := len - toPopNow;
        size := size - toPopNow;
        if skip == |buffer[0]| {
          buffer := buffer[1..];
          skip := 0;
        }
      }
      AtStart(buffer, skip, len);
      DropDone(start, n, len);
    }

    /** Keep the whole chunks that end at or before `len` bytes, counted from the start of the
        first chunk and so including the bytes skipped. The chunk that goes beyond is cut there,
        and then erased with those behind it. */
    method Truncate(len: nat)
      requires Valid()
      modifies this
      ensures Readable() == KeptBy(old(buffer), old(skip), len)
      ensures skip == old(skip)
      ensures old(size) <= len ==> buffer == old(buffer) && size == old(size)
      ensures old(size) > len ==>
                buffer == (if len == 0 then [] else old(buffer)[..KeptChunks(old(buffer), len)]) && size == len
    {
      hide Cursor;
      if size <= len {
        NotEmptied(buffer, skip);
        return;
      }
      if len == 0 {
        buffer, size := [], 0;
        return;
      }
      ghost var before := buffer;
      KeptFits(buffer, skip, len);
      var sizeSoFar, it := 0, 0;
      ghost var stopped := false;
      while it < |buffer|
        modifies `buffer
        invariant it <= |buffer| == |before| && buffer[..it] == before[..it]
        invariant stopped ==> it == KeptChunks(before, len)
        invariant !stopped ==> buffer == before && sizeSoFar < len
        invariant !stopped ==> it + KeptChunks(before[it..], len - sizeSoFar) == KeptChunks(before, len)
        decreases |buffer| - it
      {
        assert before[it..][1..] == before[it + 1..];
        if sizeSoFar + |buffer[it]| < len {
          sizeSoFar := sizeSoFar + |buffer[it]|;
          it := it + 1;
          continue;
        }
        if sizeSoFar + |buffer[it]| == len {
          it := it + 1;
          stopped := true;
          break;
        }
        buffer := buffer[it := buffer[it][..len - sizeSoFar]];
        stopped := true;
        break;
      }
      while it < |buffer|
        modifies `buffer
        invariant it <= |buffer| && it == KeptChunks(before, len) && buffer[..it] == before[..it]
        decreases |buffer|
      {
        buffer := buffer[..it] + buffer[it + 1..];
      }
      assert buffer == before[..it];
      size := len;
    }

    /** Views of the unread chunks, leaving the list alone. */
    method Views() returns (views: seq<seq<Byte>>)
      requires Valid()
      ensures Flatten(views) == Contents()
    {
      views := [];
      if size == 0 {
        return;
      }
      assert Flatten(buffer) == buffer[0] + Flatten(buffer[1..]);
      views := [buffer[0][skip..]];
      assert Flatten(views) == buffer[0][skip..];
      FlattenConcat(views, buffer[1..]);
      views := views + buffer[1..];
    }

    /** Hand over what is left; it takes the front chunk unchecked. */
    method DumpAll() returns (out: seq<seq<Byte>>)
      requires size == 0 || (buffer != [] && skip <= |buffer[0]|)
      modifies this
      ensures size == 0 ==> out == []
      ensures size != 0 ==> skip <= |Flatten(old(buffer))| && Flatten(out) == Flatten(old(buffer))[skip..]
      ensures skip == old(skip) && size == old(size)
      ensures old(Valid()) && NonEmptyChunks(old(buffer)) ==> NonEmptyChunks(out)
    {
      out := [];
      if size == 0 {
        return;
      }
      assert Flatten(buffer) == buffer[0] + Flatten(buffer[1..]);
      if skip > 0 {
        out := [buffer[0][skip..]];
      } else {
        out := [buffer[0]];
      }
      assert Flatten(out) == buffer[0][skip..];
      FlattenConcat(out, buffer[1..]);
      buffer := buffer[1..];
      out := out + buffer;
    }
  }

  /** How many chunks end at or before `len` bytes, up to the first that ends there. */
  ghost function KeptChunks(chunks: seq<seq<Byte>>, len: nat): (k: nat)
    ensures k <= |chunks|
  {
    if chunks == [] || |chunks[0]| > len then 0
    else if |chunks[0]| == len then 1
    else 1 + KeptChunks(chunks[1..], len - |chunks[0]|)
  }

  /** The chunks kept hold at most `len` bytes, and exactly that many if some chunk ends there; one
      chunk more would go beyond. */
  lemma {:induction false} KeptBytes(chunks: seq<seq<Byte>>, len: nat)
    requires len > 0
    ensures |Flatten(chunks[..KeptChunks(chunks, len)])| <= len
    ensures |Flatten(chunks[..KeptChunks(chunks, len)])| == len <==> OnBoundary(chunks, len)
    ensures Flatten(chunks[..KeptChunks(chunks, len)]) <= Flatten(chunks)
    ensures var k := KeptChunks(chunks, len);
            k < |chunks| && |Flatten(chunks[..k])| < len ==> |Flatten(chunks[..k + 1])| > len
  {
    var k := KeptChunks(chunks, len);
    if k < |chunks| {
      FrontOf(chunks, k + 1);
    }
    assert chunks == chunks[..k] + chunks[k..];
    FlattenConcat(chunks[..k], chunks[k..]);
    if chunks == [] {
    } else if |chunks[0]| > len {
      BoundaryInFirst(chunks, len);
    } else {
      FrontOf(chunks, k);
      if |chunks[0]| == len {
        assert EndsAt(chunks, 1, len);
      } else {
        KeptBytes(chunks[1..], len - |chunks[0]|);
        BoundaryNext(chunks, len);
      }
    }
  }

  lemma NotEmptied(buffer: seq<seq<Byte>>, skip: nat)
    requires Cursor(buffer, skip)
    ensures buffer == [] ==> Rest(buffer, skip) == []
    ensures skip <= |Flatten(buffer)|
  {
  }

  /** The bytes skipped lie in the front chunk, which is kept whole if any chunk is. */
  lemma KeptFits(buffer: seq<seq<Byte>>, skip: nat, len: nat)
    requires Cursor(buffer, skip)
    ensures var kept := buffer[..KeptChunks(buffer, len)];
            kept != [] ==> kept[0] == buffer[0] && skip <= |buffer[0]| && skip <= |Flatten(kept)|
  {
    var k := KeptChunks(buffer, len);
    if k > 0 {
      FrontOf(buffer, k);
    }
  }

  /** What truncation leaves to dump, if that is defined at all. */
  ghost function KeptBy(buffer: seq<seq<Byte>>, skip: nat, len: nat): Option<seq<Byte>>
    requires Cursor(buffer, skip)
  {
    var kept := buffer[..KeptChunks(buffer, len)];
    KeptFits(buffer, skip, len);
    if |Rest(buffer, skip)| <= len then Some(Rest(buffer, skip))
    else if len == 0 then Some([])
    else if kept == [] then None
    else Some(Flatten(kept)[skip..])
  }

  /** Truncation keeps the first `len` unread bytes exactly when there are no more than `len`,
      when nothing is to be kept, or when nothing was skipped and a chunk ends there. */
  lemma TruncateExact(buffer: seq<seq<Byte>>, skip: nat, len: nat)
    requires Cursor(buffer, skip)
    ensures KeptBy(buffer, skip, len) == Some(Rest(buffer, skip)[..Min(len, |Rest(buffer, skip)|)])
            <==> |Rest(buffer, skip)| <= len || len == 0 || (skip == 0 && OnBoundary(buffer, len))
  {
    var rest, kept := Rest(buffer, skip), buffer[..KeptChunks(buffer, len)];
    if |rest| <= len {
      assert rest[..|rest|] == rest;
    } else if len > 0 {
      KeptBytes(buffer, len);
      KeptFits(buffer, skip, len);
      if kept != [] {
        assert |Flatten(kept)[skip..]| == |Flatten(kept)| - skip;
        if skip == 0 && |Flatten(kept)| == len {
          assert Flatten(kept)[0..] == Flatten(buffer)[..len] == rest[..len];
        }
      }
    }
  }

  /** One chunk of two bytes cut to one: nothing is left to dump. */
  lemma TruncateLosesChunk()
    ensures Cursor([[1, 2]], 0) && Rest([[1, 2]], 0) == [1, 2] && KeptBy([[1, 2]], 0, 1) == None
  {
    assert Flatten([[1, 2]]) == [1, 2] + Flatten([]);
  }

  class Parser {
    const input: BufferList
    var error: bool

    ghost predicate Valid()
      reads this, input
    {
      input.Valid()
    }

    constructor (input: BufferList)
      requires input.Valid()
      ensures Valid() && this.input == input && !error
    {
      this.input, error := input, false;
    }

    method SetError()
      modifies this
      ensures error
    {
      error := true;
    }

    /** A big-endian integer of `width` bytes. A short input sets the sticky error and leaves
        the input and the value `was` alone; so does every read after an error. The first byte of
        the front chunk is looked at unchecked. */
    method Integer(width: nat, was: nat) returns (out: nat)
      requires Valid() && width > 0
      requires error || width > |input.Contents()| || Reads(input.buffer, input.skip, width)
      modifies this, input
      ensures Valid() && (error <==> old(error) || width > |old(input.Contents())|)
      ensures error ==> out == was && input.buffer == old(input.buffer) && input.skip == old(input.skip)
      ensures error ==> input.Contents() == old(input.Contents())
      ensures !error ==> out == Number(old(input.Contents())[..width])
      ensures !error ==> input.Contents() == old(input.Contents())[width..]
      ensures !error ==> (input.buffer, input.skip) == At(old(input.buffer), old(input.skip) + width)
    {
      out := was;
      if width > input.size {
        error := true;
      }
      if error {
        return;
      }
      out := Digits(width);
    }

    /** The loop of integer(): one byte at a time. */
    method Digits(width: nat) returns (out: nat)
      requires Valid() && width <= |input.Contents()| && Reads(input.buffer, input.skip, width)
      modifies input
      ensures Valid() && out == Number(old(input.Contents())[..width])
      ensures input.Contents() == old(input.Contents())[width..]
      ensures (input.buffer, input.skip) == At(old(input.buffer), old(input.skip) + width)
    {
      hide At, Cursor, Rest, Number, Drop, Looks, Reads;
      ghost var start, buffer, skip := input.Contents(), input.buffer, input.skip;
      NoDigits();
      AtStart(buffer, skip, 0);
      assert start[..0] == [] && start[0..] == start;
      out := 0;
      for i := 0 to width
        invariant Valid() && (input.buffer, input.skip) == At(buffer, skip + i)
        invariant input.Contents() == start[i..] && out == Number(start[..i])
      {
        FirstByte(start, i);
        AtAt(buffer, skip + i, 1);
        FrontByte(buffer, skip, width, i);
        out := 256 * out + input.Peek()[0];
        input.RemovePrefix(1);
      }
    }

    method ConcatenateAllRemaining() returns (out: seq<Byte>)
      requires Valid()
      modifies input
      ensures out == old(input.Contents())
    {
      var chunks := input.DumpAll();
      out := Concatenate(chunks);
    }
  }

  lemma AtStart(buffer: seq<seq<Byte>>, skip: nat, more: nat)
    requires Cursor(buffer, skip)
    ensures At(buffer, skip) == (buffer, skip)
    ensures buffer == [] ==> Rest(buffer, skip) == [] && At(buffer, skip + more) == (buffer, skip)
  {
  }

  lemma NoDigits()
    ensures Number([]) == 0
  {
  }

  /** What is unread begins in the front chunk. */
  lemma FrontByte(chunks: seq<seq<Byte>>, pos: nat, n: nat, i: nat)
    requires Reads(chunks, pos, n) && i < n && Cursor(At(chunks, pos + i).0, At(chunks, pos + i).1)
    requires Rest(At(chunks, pos + i).0, At(chunks, pos + i).1) != []
    ensures At(chunks, pos + i).0 != [] && At(chunks, pos + i).0[0] != []
  {
    assert Looks(chunks, pos + i);
  }

  lemma FirstByte(start: seq<Byte>, i: nat)
    requires i < |start|
    ensures Number(start[..i + 1]) == 256 * Number(start[..i]) + start[i]
    ensures start[i..][0] == start[i] && start[i..][1..] == start[i + 1..] == Drop(start[i..], 1)
  {
    assert start[..i + 1][..i] == start[..i];
  }

  class Serializer {
    var output: seq<seq<Byte>>
    var buffer: seq<Byte>

    ghost predicate Valid()
      reads this
    {
      NonEmptyChunks(output)
    }

    /** Everything written so far. */
    ghost function Bytes(): seq<Byte>
      reads this
    {
      Flatten(output) + buffer
    }

    constructor ()
      ensures Valid() && Bytes() == []
    {
      output, buffer := [], [];
    }

    method Integer(val: nat, width: nat)
      requires Valid()
      modifies this
      ensures Valid() && Bytes() == old(Bytes()) + Encoded(val, width)
    {
      assert old(buffer) + [] == old(buffer);
      for i := 0 to width
        invariant Valid() && output == old(output)
        invariant buffer == old(buffer) + Encoded(ShiftRight(val, width - i), i)
      {
        var byteVal := ShiftRight(val, width - i - 1) % 256;
        Associative(old(buffer), Encoded(ShiftRight(val, width - i), i), [byteVal]);
        buffer := buffer + [byteVal];
      }
      Associative(Flatten(output), old(buffer), Encoded(val, width));
    }

    method Flush()
      requires Valid()
      modifies this
      ensures Valid() && Bytes() == old(Bytes()) && buffer == []
    {
      if buffer != [] {
        FlattenSnoc(output, buffer);
        output := output + [buffer];
        buffer := [];
      }
    }

    method Buffer(buf: seq<Byte>)
      requires Valid()
      modifies this
      ensures Valid() && Bytes() == old(Bytes()) + buf
    {
      if buf != [] {
        Flush();
        FlattenSnoc(output, buf);
        output := output + [buf];
      }
    }

    method Finish() returns (chunks: seq<seq<Byte>>)
      requires Valid()
      modifies this
      ensures NonEmptyChunks(chunks) && Flatten(chunks) == old(Bytes())
    {
      Flush();
      chunks := output;
    }
  }

  /** The loop of concatenate_all_remaining. */
  method Concatenate(chunks: seq<seq<Byte>>) returns (bytes: seq<Byte>)
    ensures bytes == Flatten(chunks)
  {
    bytes := [];
    for i := 0 to |chunks|
      invariant bytes == Flatten(chunks[..i])
    {
      assert chunks[..i + 1] == chunks[..i] + [chunks[i]];
      FlattenSnoc(chunks[..i], chunks[i]);
      bytes := bytes + chunks[i];
    }
    assert chunks[..|chunks|] == chunks;
  }

  // ----- records of fixed-width fields

  /** A field: its value and its width in bytes. */
  datatype Field = Field(val: nat, width: nat)

  ghost function EncodeAll(fields: seq<Field>): seq<Byte>
  {
    if fields == [] then [] else Encoded(fields[0].val, fields[0].width) + EncodeAll(fields[1..])
  }

  ghost function TotalWidth(widths: seq<nat>): nat
  {
    if widths == [] then 0 else widths[0] + TotalWidth(widths[1..])
  }

  ghost function DecodeAll(bytes: seq<Byte>, widths: seq<nat>): (values: seq<nat>)
    requires |bytes| >= TotalWidth(widths)
    ensures |values| == |widths|
    decreases widths
  {
    if widths == [] then [] else [Number(bytes[..widths[0]])] + DecodeAll(bytes[widths[0]..], widths[1..])
  }

  ghost predicate Fit(fields: seq<Field>, widths: seq<nat>)
  {
    && |fields| == |widths|
    && forall i :: 0 <= i < |fields| ==> fields[i].width == widths[i] && fields[i].val < Pow256(widths[i])
  }

  /** Every field of a record is read back, whatever follows the record. */
  lemma {:induction false} DecodeEncoded(fields: seq<Field>, widths: seq<nat>, rest: seq<Byte>)
    requires Fit(fields, widths)
    ensures |EncodeAll(fields)| == TotalWidth(widths)
    ensures forall i :: 0 <= i < |fields| ==> DecodeAll(EncodeAll(fields) + rest, widths)[i] == fields[i].val
  {
    if fields != [] {
      var first, others := Encoded(fields[0].val, widths[0]), EncodeAll(fields[1..]);
      var bytes := first + others + rest;
      DecodeEncoded(fields[1..], widths[1..], rest);
      NumberEncoded(fields[0].val, widths[0]);
      assert bytes[..widths[0]] == first && bytes[widths[0]..] == others + rest;
      forall i | 0 < i < |fields|
        ensures DecodeAll(bytes, widths)[i] == fields[i].val
      {
        assert DecodeAll(bytes, widths)[i] == DecodeAll(others + rest, widths[1..])[i - 1];
      }
    }
  }

  lemma {:induction false} DecodedBound(bytes: seq<Byte>, widths: seq<nat>, i: nat)
    requires |bytes| >= TotalWidth(widths) && i < |widths|
    ensures DecodeAll(bytes, widths)[i] < Pow256(widths[i])
  {
    if i == 0 {
      NumberBound(bytes[..widths[0]]);
    } else {
      DecodedBound(bytes[widths[0]..], widths[1..], i - 1);
    }
  }

  /** What a series of integer reads comes to: the values, and how many bytes were read. */
  datatype Fetched = Fetched(values: seq<nat>, length: nat)

  /** From the first field that does not fit on, the values stay what they were. */
  ghost function Fetch(bytes: seq<Byte>, widths: seq<nat>, was: seq<nat>): (r: Fetched)
    requires |was| == |widths|
    ensures |r.values| == |widths| && r.length <= |bytes|
    decreases widths
  {
    if widths == [] || |bytes| < widths[0] then Fetched(was, 0)
    else
      var r := Fetch(bytes[widths[0]..], widths[1..], was[1..]);
      Fetched([Number(bytes[..widths[0]])] + r.values, widths[0] + r.length)
  }

  /** With enough bytes every field is read. */
  lemma {:induction false} FetchAll(bytes: seq<Byte>, widths: seq<nat>, was: seq<nat>)
    requires |was| == |widths| && |bytes| >= TotalWidth(widths)
    ensures Fetch(bytes, widths, was) == Fetched(DecodeAll(bytes, widths), TotalWidth(widths))
    decreases widths
  {
    if widths != [] {
      FetchAll(bytes[widths[0]..], widths[1..], was[1..]);
    }
  }

  lemma {:induction false} EncodeConcat(x: seq<Field>, y: seq<Field>)
    ensures EncodeAll(x + y) == EncodeAll(x) + EncodeAll(y)
  {
    if x == [] {
      assert x + y == y;
    } else {
      assert (x + y)[1..] == x[1..] + y;
      EncodeConcat(x[1..], y);
      Associative(Encoded(x[0].val, x[0].width), EncodeAll(x[1..]), EncodeAll(y));
    }
  }

  lemma EncodeOne(f: Field)
    ensures EncodeAll([f]) == Encoded(f.val, f.width)
  {
    assert [f][1..] == [];
  }

  // ----- where a field lies

  /** How many bytes lie before field `k`. */
  ghost function Offset(widths: seq<nat>, k: nat): nat
    requires k <= |widths|
  {
    if k == 0 then 0 else Offset(widths, k - 1) + widths[k - 1]
  }

  lemma {:induction false} OffsetTail(widths: seq<nat>, k: nat)
    requires 0 < k <= |widths|
    ensures Offset(widths, k) == widths[0] + Offset(widths[1..], k - 1)
  {
    if k > 1 {
      OffsetTail(widths, k - 1);
    } else {
      assert Offset(widths, 1) == Offset(widths, 0) + widths[0];
    }
  }

  /** Field `k` of a record is written at its offset, most significant byte first. */
  lemma {:induction false} EncodedAt(fields: seq<Field>, widths: seq<nat>, k: nat)
    requires Fit(fields, widths) && k < |fields|
    ensures Offset(widths, k) + widths[k] <= |EncodeAll(fields)|
    ensures EncodeAll(fields)[Offset(widths, k)..Offset(widths, k) + widths[k]] == Encoded(fields[k].val, widths[k])
  {
    var first, others := Encoded(fields[0].val, widths[0]), EncodeAll(fields[1..]);
    assert EncodeAll(fields) == first + others;
    hide Encoded, EncodeAll;
    if k > 0 {
      EncodedAt(fields[1..], widths[1..], k - 1);
      OffsetTail(widths, k);
      var o := Offset(widths[1..], k - 1);
      assert (first + others)[widths[0] + o..widths[0] + o + widths[k]] == others[o..o + widths[k]];
    } else {
      assert (first + others)[..widths[0]] == first;
    }
  }

  /** Field `k` of a record is read from its offset. */
  lemma {:induction false} DecodedAt(bytes: seq<Byte>, widths: seq<nat>, k: nat)
    requires |bytes| >= TotalWidth(widths) && k < |widths|
    ensures Offset(widths, k) + widths[k] <= |bytes|
    ensures DecodeAll(bytes, widths)[k] == Number(bytes[Offset(widths, k)..Offset(widths, k) + widths[k]])
  {
    hide Number;
    if k > 0 {
      DecodedAt(bytes[widths[0]..], widths[1..], k - 1);
      OffsetTail(widths, k);
      var o := Offset(widths[1..], k - 1);
      assert DecodeAll(bytes, widths)[k] == DecodeAll(bytes[widths[0]..], widths[1..])[k - 1];
      assert bytes[widths[0]..][o..o + widths[k]] == bytes[widths[0] + o..widths[0] + o + widths[k]];
    }
  }

  /** Of a short input exactly the fields that end within it are read, each from its offset. */
  lemma {:induction false} FetchMeaning(bytes: seq<Byte>, widths: seq<nat>, was: seq<nat>, k: nat)
    requires |was| == |widths| && k < |widths|
    ensures var r, start, end := Fetch(bytes, widths, was), Offset(widths, k), Offset(widths, k) + widths[k];
            if end <= |bytes| then r.values[k] == Number(bytes[start..end]) && end <= r.length
            else r.values[k] == was[k] && r.length <= start
    decreases widths
  {
    hide Number;
    if k > 0 {
      OffsetTail(widths, k);
    }
    if |bytes| >= widths[0] && k > 0 {
      var rest, o := bytes[widths[0]..], Offset(widths[1..], k - 1);
      FetchMeaning(rest, widths[1..], was[1..], k - 1);
      if widths[0] + o + widths[k] <= |bytes| {
        assert rest[o..o + widths[k]] == bytes[widths[0] + o..widths[0] + o + widths[k]];
      }
    }
  }

  /** Two bytes read as a number, and four. */
  function Word(high: int, low: int): int { 256 * high + low }

  function Long(a: int, b: int, c: int, d: int): int { 0x100_0000 * a + 0x1_0000 * b + 256 * c + d }

  lemma ReadByte(b: seq<Byte>, o: nat)
    requires o < |b|
    ensures Number(b[o..o + 1]) == b[o]
  {
    assert b[o..o + 1][..0] == [];
  }

  lemma ReadWord(b: seq<Byte>, o: nat)
    requires o + 2 <= |b|
    ensures Number(b[o..o + 2]) == Word(b[o], b[o + 1])
  {
    NumberTwo(b[o..o + 2]);
  }

  lemma ReadLong(b: seq<Byte>, o: nat)
    requires o + 4 <= |b|
    ensures Number(b[o..o + 4]) == Long(b[o], b[o + 1], b[o + 2], b[o + 3])
  {
    hide Number;
    var f := b[o..o + 4];
    NumberTwo(f[..2]);
    NumberMore(f);
    NumberMore(f[..3]);
    assert f[..3][..2] == f[..2];
  }

  /** Field `k` of a record is found at its offset, whatever follows the record. */
  lemma FieldAt(fields: seq<Field>, widths: seq<nat>, k: nat, rest: seq<Byte>)
    requires Fit(fields, widths) && k < |fields|
    ensures var b, o := EncodeAll(fields) + rest, Offset(widths, k);
            o + widths[k] <= |b| && Number(b[o..o + widths[k]]) == fields[k].val
  {
    hide EncodeAll, Encoded, Number, Offset;
    EncodedAt(fields, widths, k);
    NumberEncoded(fields[k].val, widths[k]);
    var b, o := EncodeAll(fields) + rest, Offset(widths, k);
    assert b[o..o + widths[k]] == EncodeAll(fields)[o..o + widths[k]];
  }

  lemma NumberMore(b: seq<Byte>)
    requires b != []
    ensures Number(b) == Word(Number(b[..|b| - 1]), b[|b| - 1])
  {
  }

  lemma NumberTwo(b: seq<Byte>)
    requires |b| == 2
    ensures Number(b) == Word(b[0], b[1])
  {
    NumberMore(b);
    NumberMore(b[..1]);
    assert b[..1][..0] == [];
  }

  /** A series of integer() calls on a parser, one per width. */
  method ReadFields(parser: Parser, widths: seq<nat>, was: seq<nat>) returns (values: seq<nat>)
    requires parser.Valid() && !parser.error && |was| == |widths|
    requires forall i :: 0 <= i < |widths| ==> widths[i] > 0
    requires Reads(parser.input.buffer, parser.input.skip, Fetch(parser.input.Contents(), widths, was).length)
    modifies parser, parser.input
    ensures parser.Valid() && (parser.error <==> |old(parser.input.Contents())| < TotalWidth(widths))
    ensures values == Fetch(old(parser.input.Contents()), widths, was).values
    ensures parser.input.Contents()
         == old(parser.input.Contents())[Fetch(old(parser.input.Contents()), widths, was).length..]
    ensures (parser.input.buffer, parser.input.skip)
         == At(old(parser.input.buffer),
               old(parser.input.skip) + Fetch(old(parser.input.Contents()), widths, was).length)
  {
    hide Fetch, TotalWidth, Number, Cursor, Rest, At, Reads;
    ghost var start, buffer, skip := parser.input.Contents(), parser.input.buffer, parser.input.skip;
    ghost var target := Fetch(start, widths, was);
    ghost var left, done: nat := target, 0;
    AtStart(buffer, skip, 0);
    values := [];
    assert start[0..] == start && widths[0..] == widths && was[0..] == was;
    for i := 0 to |widths|
      invariant parser.Valid() && |values| == i
      invariant done <= |start| && parser.input.Contents() == start[done..]
      invariant (parser.input.buffer, parser.input.skip) == At(buffer, skip + done)
      invariant values + left.values == target.values && done + left.length == target.length
      invariant left == if parser.error then Fetched(was[i..], 0) else Fetch(start[done..], widths[i..], was[i..])
      invariant if parser.error then |start| < TotalWidth(widths)
                else done + TotalWidth(widths[i..]) == TotalWidth(widths)
    {
      FetchStep(start, done, widths, was, i);
      if !parser.error && widths[i] <= |start| - done {
        ReadsFrom(buffer, skip, target.length, done, widths[i]);
        AtAt(buffer, skip + done, widths[i]);
      }
      var value := parser.Integer(widths[i], was[i]);
      ghost var next := if parser.error then Fetched(was[i + 1..], 0)
                        else Fetch(start[done + widths[i]..], widths[i + 1..], was[i + 1..]);
      assert left.values == [value] + next.values;
      Associative(values, [value], next.values);
      if !parser.error {
        done := done + widths[i];
      }
      left := next;
      values := values + [value];
    }
    FetchEnd(start, done, widths, was);
    assert values + [] == values;
  }

  lemma FetchStep(start: seq<Byte>, done: nat, widths: seq<nat>, was: seq<nat>, i: nat)
    requires |was| == |widths| && i < |widths| && done <= |start|
    ensures TotalWidth(widths[i..]) == widths[i] + TotalWidth(widths[i + 1..])
    ensures was[i..] == [was[i]] + was[i + 1..]
    ensures done + widths[i] > |start| ==> Fetch(start[done..], widths[i..], was[i..]) == Fetched(was[i..], 0)
    ensures done + widths[i] <= |start| ==>
              var r := Fetch(start[done + widths[i]..], widths[i + 1..], was[i + 1..]);
              && start[done..][widths[i]..] == start[done + widths[i]..]
              && Fetch(start[done..], widths[i..], was[i..])
                 == Fetched([Number(start[done..][..widths[i]])] + r.values, widths[i] + r.length)
  {
    assert widths[i..][1..] == widths[i + 1..] && was[i..][1..] == was[i + 1..];
    if done + widths[i] <= |start| {
      DropTwice(start, done, widths[i]);
    }
  }

  lemma FetchEnd(start: seq<Byte>, done: nat, widths: seq<nat>, was: seq<nat>)
    requires |was| == |widths| && done <= |start|
    ensures TotalWidth(widths[|widths|..]) == 0
    ensures Fetch(start[done..], widths[|widths|..], was[|widths|..]) == Fetched([], 0)
  {
  }

  /** A series of integer() calls on a serializer. */
  method WriteFields(serializer: Serializer, fields: seq<Field>)
    requires serializer.Valid()
    modifies serializer
    ensures serializer.Valid() && serializer.Bytes() == old(serializer.Bytes()) + EncodeAll(fields)
  {
    ghost var start := serializer.Bytes();
    for i := 0 to |fields|
      invariant serializer.Valid()
      invariant serializer.Bytes() + EncodeAll(fields[i..]) == start + EncodeAll(fields)
    {
      assert fields[i..][1..] == fields[i + 1..];
      Associative(serializer.Bytes(), Encoded(fields[i].val, fields[i].width), EncodeAll(fields[i + 1..]));
      serializer.Integer(fields[i].val, fields[i].width);
    }
    assert serializer.Bytes() + [] == serializer.Bytes();
  }
}
