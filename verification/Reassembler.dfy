/** Reassembling a byte stream from substrings: src/reassembler.cc. */
module Reassembly {
  import opened Common
  import opened ByteStreams
  import opened Segments

  /** The value of a reassembler: its output, the bytes held back and the announced end. */
  datatype Reasm = Reasm(out: Stream, stored: Content, end: nat, eof: bool)
  {
    /** Only indices strictly beyond the next byte to emit and inside the window are held. */
    ghost predicate Valid()
    {
      && out.Valid()
      && forall j: nat :: j in stored ==> |out.history| < j < out.popped + out.capacity
    }

    /** The part of a substring between the next byte to emit and the end of the window. */
    ghost function ClipStart(first: nat): nat { Max(first, |out.history|) }

    ghost function ClipEnd(first: nat, data: seq<Byte>): nat
      requires Valid()
    {
      Min(first + |data|, |out.history| + out.Available())
    }

    ghost function Clip(first: nat, data: seq<Byte>): seq<Byte>
      requires Valid()
    {
      if ClipStart(first) < ClipEnd(first, data)
      then data[ClipStart(first) - first..ClipEnd(first, data) - first]
      else []
    }

    /** The store once the substring's part inside the window is taken in. */
    ghost function Accepted(first: nat, data: seq<Byte>): Content
      requires Valid()
    {
      Accept(stored, ClipStart(first), Clip(first, data))
    }

    /** Reassembler::insert, one byte at a time: accept what is in the window, emit what has
        become contiguous, close when the announced end is reached. */
    ghost function Insert(first: nat, data: seq<Byte>, last: bool): Reasm
      requires Valid()
    {
      var end := if last then Add64(first, |data|) else this.end;
      var eof := last || this.eof;
      var d := Drain(out.history, Accepted(first, data));
      Reasm(out.(history := d.history, closed := out.closed || (eof && |d.history| == end)), d.rest, end, eof)
    }

    /** The reader of the output takes up to `n` bytes. */
    ghost function Read(n: nat): Reasm
      requires Valid()
    {
      this.(out := out.Pop(n))
    }
  }

  ghost function Fresh(capacity: nat): Reasm { Reasm(Empty(capacity), map[], 0, false) }

  datatype Drained = Drained(history: seq<Byte>, rest: Content)

  /** Move bytes from the store to the output one at a time while the next one is there. */
  ghost function Drain(h: seq<Byte>, c: Content): Drained
    decreases |c|
  {
    if |h| in c then Drain(h + [c[|h|]], c - {|h|}) else Drained(h, c)
  }

  /** All that draining does: it emits exactly the unbroken run at the front. */
  lemma {:induction false} DrainMeaning(h: seq<Byte>, c: Content)
    requires forall j: nat :: j in c ==> |h| <= j
    ensures var d := Drain(h, c);
            && h <= d.history
            && (forall j: nat :: |h| <= j < |d.history| ==> j in c && d.history[j] == c[j])
            && |d.history| !in c
            && (forall j: nat :: j in d.rest <==> j in c && |d.history| < j)
            && (forall j: nat :: j in d.rest ==> d.rest[j] == c[j])
    decreases |c|
  {
    if |h| in c {
      var h' := h + [c[|h|]];
      DrainMeaning(h', c - {|h|});
      var d := Drain(h', c - {|h|});
      forall j: nat | |h| <= j < |d.history|
        ensures j in c && d.history[j] == c[j]
      {
        if j == |h| {
          assert d.history[j] == h'[j];
        } else {
          assert j in c - {|h|};
        }
      }
    }
  }

  /** Draining byte by byte equals draining a whole run at once. */
  lemma {:induction false} DrainRun(h: seq<Byte>, c: Content, run: seq<Byte>)
    requires forall j: nat :: |h| <= j < |h| + |run| ==> j in c && c[j] == run[j - |h|]
    ensures Drain(h, c) == Drain(h + run, Without(c, |h|, |run|))
    decreases |run|
  {
    if run == [] {
      assert h + run == h && Without(c, |h|, 0) == c;
    } else {
      var h', c' := h + [c[|h|]], c - {|h|};
      DrainRun(h', c', run[1..]);
      assert h' + run[1..] == h + run;
      assert Without(c', |h'|, |run| - 1) == Without(c, |h|, |run|);
    }
  }

  lemma InsertValid(r: Reasm, first: nat, data: seq<Byte>, last: bool)
    requires r.Valid()
    ensures r.Insert(first, data, last).Valid()
    ensures r.out.history <= r.Insert(first, data, last).out.history
  {
    var c := r.Accepted(first, data);
    AcceptedInWindow(r, first, data);
    DrainMeaning(r.out.history, c);
    var h := Drain(r.out.history, c).history;
    if |r.out.history| < |h| {
      assert |h| - 1 in c;
    }
  }

  class Reassembler {
    const output: ByteStream
    var pending: Pending
    var endIndex: nat
    var eofSeen: bool
    /** The bytes the pending substrings hold. */
    ghost var stored: Content

    /** The pending substrings are canonical: non-empty, disjoint, non-adjacent, strictly
        beyond the bytes emitted, and inside the window (the last two through State().Valid()). */
    ghost predicate Valid()
      reads this, output
    {
      && output.Valid()
      && Canonical(pending) && Represents(pending, stored)
      && State().Valid()
    }

    ghost function State(): Reasm
      reads this, output
    {
      Reasm(output.State(), stored, endIndex, eofSeen)
    }

    constructor (output: ByteStream)
      requires output.Valid()
      ensures Valid() && this.output == output
      ensures State() == Reasm(output.State(), map[], 0, false)
    {
      this.output := output;
      pending, endIndex, eofSeen, stored := map[], 0, false, map[];
    }

    /** The window, and a substring that starts below its end, lie within the 2^64 stream indices. */
    ghost predicate Addressable(firstIndex: nat, newData: seq<Byte>)
      requires output.Valid()
      reads this, output
    {
      var firstUnacceptable := output.bytesPushed + output.AvailableCapacity();
      && firstUnacceptable < 0x1_0000_0000_0000_0000
      && (firstIndex < firstUnacceptable ==> firstIndex + |newData| < 0x1_0000_0000_0000_0000)
    }

    method Insert(firstIndex: nat, newData: seq<Byte>, isLast: bool)
      requires Valid()
      requires Addressable(firstIndex, newData)
      modifies this, output
      ensures Valid() && State() == old(State()).Insert(firstIndex, newData, isLast)
    {
      hide Drain, Canonical, Represents, Flatten, NonEmptyChunks, Add64, Reasm.Accepted;
      ghost var before := State();
      if isLast {
        endIndex := Add64(firstIndex, |newData|);
        eofSeen := true;
      }
      TakeIn(firstIndex, newData, before);
      Flush();
      if eofSeen && output.bytesPushed == endIndex {
        output.Close();
      }
    }

    /** Steps 1 to 3: what is in the window joins the store. */
    method TakeIn(firstIndex: nat, newData: seq<Byte>, ghost before: Reasm)
      requires output.Valid() && Canonical(pending) && Represents(pending, stored)
      requires before.Valid() && before.out == output.State() && before.stored == stored
      requires Addressable(firstIndex, newData)
      modifies this`pending, this`stored
      ensures Canonical(pending) && Represents(pending, stored)
      ensures stored == before.Accepted(firstIndex, newData)
      ensures InWindow(stored, |output.history|, output.bytesPopped + output.capacity)
    {
      hide Canonical, Represents, Accept, Flatten, NonEmptyChunks, InWindow;
      var first, data := ClipToWindow(firstIndex, newData, before);
      if data != [] {
        StoreClipped(first, data);
      }
      AcceptedInWindow(before, firstIndex, newData);
    }

    /** Step 1: clip to [first unassembled, first unacceptable). */
    method ClipToWindow(firstIndex: nat, newData: seq<Byte>, ghost before: Reasm) returns (first: nat, data: seq<Byte>)
      requires output.Valid() && before.Valid() && before.out == output.State()
      requires Addressable(firstIndex, newData)
      ensures data == before.Clip(firstIndex, newData)
      ensures data != [] ==> first == before.ClipStart(firstIndex)
    {
      first, data := firstIndex, newData;
      var firstUnassembled := output.bytesPushed;
      var firstUnacceptable := firstUnassembled + output.AvailableCapacity();
      if first >= firstUnacceptable || Add64(first, |data|) <= firstUnassembled {
        data := [];
      } else {
        if first < firstUnassembled {
          data := data[firstUnassembled - first..];
          first := firstUnassembled;
        }
        if Add64(first, |data|) > firstUnacceptable {
          data := data[..firstUnacceptable - first];
        }
      }
    }

    /** Steps 2 and 3: merge with the neighbours. */
    method StoreClipped(firstIndex: nat, newData: seq<Byte>)
      requires Canonical(pending) && Represents(pending, stored) && newData != []
      modifies this`pending, this`stored
      ensures Canonical(pending) && Represents(pending, stored)
      ensures stored == Accept(old(stored), firstIndex, newData)
    {
      var p, first, data;
      ghost var rest;
      p, first, data, rest := MergePredecessor(pending, firstIndex, newData, stored);
      stored := Accept(stored, firstIndex, newData);
      if data != [] {
        p := AbsorbSuccessors(p, first, data, rest);
      }
      pending := p;
    }

    /** Step 4: flush the contiguous prefix. Nothing is truncated on the way out. */
    method Flush()
      requires output.Valid() && Canonical(pending) && Represents(pending, stored)
      requires InWindow(stored, |output.history|, output.bytesPopped + output.capacity)
      modifies this`pending, this`stored, output
      ensures output.Valid() && Canonical(pending) && Represents(pending, stored)
      ensures output.State() == old(output.State()).(history := Drain(old(output.history), old(stored)).history)
      ensures stored == Drain(old(output.history), old(stored)).rest
      ensures InWindow(stored, |output.history| + 1, output.bytesPopped + output.capacity)
    {
      hide Drain, Canonical, Represents, Without, InWindow, Flatten, NonEmptyChunks,
           ByteStream.ChainOk, ByteStream.Unread;
      var it := CeilingKey(pending, 0);
      while it.Some? && it.value == output.bytesPushed
        invariant output.Valid() && Canonical(pending) && Represents(pending, stored)
        invariant it.None? ==> pending == map[]
        invariant it.Some? ==> it.value in pending && forall k: nat :: k in pending ==> it.value <= k
        invariant InWindow(stored, |output.history|, output.bytesPopped + output.capacity)
        invariant output.State() == old(output.State()).(history := output.history)
        invariant Drain(output.history, stored) == Drain(old(output.history), old(stored))
        decreases |pending|
      {
        var k: nat := it.value;
        FlushRun(pending, stored, output.history, output.bytesPopped + output.capacity);
        PushFits(output.State(), pending[k]);
        output.Push(pending[k]);
        stored := Without(stored, k, |pending[k]|);
        pending := pending - {k};
        it := CeilingKey(pending, 0);
      }
      NothingToFlush(pending, stored, output.history, output.bytesPopped + output.capacity, it);
    }

    /** How many bytes are held back; together with the unread output they fit the capacity. */
    method CountBytesPending() returns (total: nat)
      requires Valid()
      ensures total == |stored|
      ensures total + output.BytesBuffered() <= output.capacity
    {
      hide Canonical, Represents, Without, Flatten, NonEmptyChunks;
      total := 0;
      var p: Pending := pending;
      ghost var left := stored;
      while p != map[]
        invariant Canonical(p) && Represents(p, left)
        invariant total + |left| == |stored|
        decreases |p|
      {
        var k: nat :| k in p;
        RunBounds(p, left, k);
        RemoveOne(p, left, k);
        WithoutSize(left, k, |p[k]|);
        total := total + |p[k]|;
        left := Without(left, k, |p[k]|);
        p := p - {k};
      }
      NothingHeld(left);
      SizeBound(stored.Keys, output.bytesPushed, output.bytesPopped + output.capacity);
    }
  }

  ghost predicate InWindow(c: Content, lo: nat, hi: nat)
  {
    forall j: nat :: j in c ==> lo <= j < hi
  }

  /** Pushing the whole front run keeps what draining byte by byte would give. */
  lemma FlushRun(p: Pending, c: Content, h: seq<Byte>, hi: nat)
    requires Canonical(p) && Represents(p, c) && |h| in p && InWindow(c, |h|, hi)
    ensures var run := p[|h|];
            && |h| + |run| <= hi && InWindow(Without(c, |h|, |run|), |h| + |run|, hi)
            && Drain(h, c) == Drain(h + run, Without(c, |h|, |run|))
            && Canonical(p - {|h|}) && Represents(p - {|h|}, Without(c, |h|, |run|))
  {
    hide Represents, Drain, Without, InWindow;
    var k, run := |h|, p[|h|];
    RunBounds(p, c, k);
    assert run != [];
    RunInWindow(c, k, run, hi);
    DrainRun(h, c, run);
    RemoveOne(p, c, k);
  }

  lemma RunInWindow(c: Content, k: nat, run: seq<Byte>, hi: nat)
    requires InWindow(c, k, hi) && run != [] && forall j: nat :: k <= j < k + |run| ==> j in c
    ensures k + |run| <= hi && InWindow(Without(c, k, |run|), k + |run|, hi)
  {
    assert k + |run| - 1 in c;
  }

  lemma NothingToFlush(p: Pending, c: Content, h: seq<Byte>, hi: nat, first: Option<nat>)
    requires Canonical(p) && Represents(p, c) && InWindow(c, |h|, hi)
    requires first.None? ==> p == map[]
    requires first.Some? ==> first.value in p && first.value != |h| && forall k: nat :: k in p ==> first.value <= k
    ensures Drain(h, c) == Drained(h, c) && InWindow(c, |h| + 1, hi)
  {
    if first.Some? {
      assert Holds(p, first.value, first.value);
    }
    assert |h| !in c;
  }

  lemma AcceptedInWindow(r: Reasm, first: nat, data: seq<Byte>)
    requires r.Valid()
    ensures InWindow(r.Accepted(first, data), |r.out.history|, r.out.popped + r.out.capacity)
    ensures r.Clip(first, data) == [] ==> r.Accepted(first, data) == r.stored
  {
  }

  lemma NothingHeld(c: Content)
    requires Represents(map[], c)
    ensures c == map[]
  {
  }

  lemma {:induction false} SpanSize(first: nat, len: nat)
    ensures |Span(first, len)| == len
  {
    if len > 0 {
      SpanSize(first, len - 1);
      assert Span(first, len) == Span(first, len - 1) + {first + len - 1};
    }
  }

  lemma WithoutSize(c: Content, first: nat, len: nat)
    requires forall j: nat :: first <= j < first + len ==> j in c
    ensures |Without(c, first, len)| == |c| - len
  {
    SpanSize(first, len);
    assert Span(first, len) <= c.Keys;
    assert Without(c, first, len).Keys == c.Keys - Span(first, len);
  }

  lemma {:induction false} SizeBound(s: set<nat>, lo: nat, hi: nat)
    requires lo <= hi && forall j: nat :: j in s ==> lo <= j < hi
    ensures |s| <= hi - lo
    decreases hi - lo
  {
    if lo < hi {
      SizeBound(s - {lo}, lo + 1, hi);
    } else {
      assert forall j: nat :: j !in s;
    }
  }
}
