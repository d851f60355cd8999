/** The bounded byte stream: src/byte_stream.cc and the read loop of src/byte_stream_helpers.cc. */
module ByteStreams {
  import opened Common

  /** The value of a stream: every byte ever pushed, how many of them were popped, and the flags. */
  datatype Stream = Stream(capacity: nat, history: seq<Byte>, popped: nat, closed: bool, error: bool)
  {
    ghost predicate Valid() { popped <= |history| <= popped + capacity }

    function Buffered(): seq<Byte>
      requires Valid()
    {
      history[popped..]
    }

    function Available(): nat
      requires Valid()
    {
      capacity - (|history| - popped)
    }

    function Push(data: seq<Byte>): (r: Stream)
      requires Valid()
      ensures r.Valid()
    {
      this.(history := history + data[..Min(|data|, Available())])
    }

    function Pop(len: nat): (r: Stream)
      requires Valid()
      ensures r.Valid()
    {
      this.(popped := popped + Min(len, |history| - popped))
    }

    function Close(): Stream { this.(closed := true) }

    function SetError(): Stream { this.(error := true) }
  }

  function Empty(capacity: nat): Stream { Stream(capacity, [], 0, false, false) }

  lemma FrontExists(segments: seq<seq<Byte>>, skip: nat)
    requires NonEmptyChunks(segments) && skip < |Flatten(segments)|
    ensures segments != [] && NonEmptyChunks(segments[1..])
    ensures |segments| > 1 ==> |segments[1]| > 0
  {
  }

  lemma PushFits(s: Stream, data: seq<Byte>)
    requires s.Valid() && |data| <= s.Available()
    ensures s.Push(data) == s.(history := s.history + data)
  {
    assert data[..|data|] == data;
  }

  /** What is pushed is kept from its front on, as much as there is room for: all of it, or the
      stream is full; nothing else changes. */
  lemma PushMeaning(s: Stream, data: seq<Byte>) returns (k: nat)
    requires s.Valid()
    ensures k <= |data| && s.Push(data) == s.(history := s.history + data[..k])
    ensures k == |data| || |s.Push(data).Buffered()| == s.capacity
  {
    k := Min(|data|, s.Available());
  }

  /** What is popped leaves from the front: as much as asked for, or all there is. */
  lemma PopMeaning(s: Stream, len: nat) returns (k: nat)
    requires s.Valid()
    ensures k <= |s.Buffered()| && (k == len || (k < len && k == |s.Buffered()|))
    ensures s.Buffered() == s.Buffered()[..k] + s.Pop(len).Buffered()
    ensures s.Pop(len) == s.(popped := s.popped + k)
  {
    k := Min(len, |s.Buffered()|);
    DropTwice(s.history, s.popped, k);
  }

  lemma ChainSnoc(segments: seq<seq<Byte>>, skip: nat, data: seq<Byte>)
    requires NonEmptyChunks(segments) && data != [] && skip <= |Flatten(segments)|
    ensures NonEmptyChunks(segments + [data]) && |Flatten(segments + [data])| >= |Flatten(segments)|
    ensures Flatten(segments + [data])[skip..] == Flatten(segments)[skip..] + data
  {
    FlattenSnoc(segments, data);
    hide Flatten;
  }

  class ByteStream {
    const capacity: nat
    var segments: seq<seq<Byte>>
    var skipInFront: nat
    var bytesPushed: nat
    var bytesPopped: nat
    var error: bool
    var closed: bool
    /** Everything ever pushed; the code keeps only what is still buffered. */
    ghost var history: seq<Byte>

    /** The chain of segments holds exactly the unread bytes, with no empty segment, and the
        bytes skipped in the front segment are a proper part of it. */
    ghost predicate Valid()
      reads this
    {
      && |history| == bytesPushed
      && State().Valid()
      && ChainOk() && Unread() == history[bytesPopped..]
    }

    ghost predicate ChainOk()
      reads this
    {
      && NonEmptyChunks(segments)
      && (if segments == [] then skipInFront == 0 else skipInFront < |segments[0]|)
      && skipInFront <= |Flatten(segments)|
    }

    ghost function Unread(): seq<Byte>
      requires ChainOk()
      reads this
    {
      Flatten(segments)[skipInFront..]
    }

    ghost function State(): Stream
      reads this
    {
      Stream(capacity, history, bytesPopped, closed, error)
    }

    constructor (capacity: nat)
      ensures Valid() && State() == Empty(capacity)
    {
      this.capacity := capacity;
      segments, skipInFront, bytesPushed, bytesPopped := [], 0, 0, 0;
      error, closed, history := false, false, [];
    }

    method Push(data: seq<Byte>)
      requires Valid()
      modifies this
      ensures Valid() && State() == old(State()).Push(data)
    {
      hide Flatten, NonEmptyChunks;
      var avail := AvailableCapacity();
      if data == [] || avail == 0 {
        assert history + data[..Min(|data|, avail)] == history;
        return;
      }
      var kept := if |data| > avail then data[..avail] else data;
      assert kept == data[..Min(|data|, avail)];
      ChainSnoc(segments, skipInFront, kept);
      assert (history + kept)[bytesPopped..] == history[bytesPopped..] + kept;
      bytesPushed := bytesPushed + |kept|;
      segments := segments + [kept];
      history := history + kept;
    }

    method Close()
      requires Valid()
      modifies this
      ensures Valid() && State() == old(State()).Close()
    {
      closed := true;
    }

    method SetError()
      requires Valid()
      modifies this
      ensures Valid() && State() == old(State()).SetError()
    {
      error := true;
    }

    function AvailableCapacity(): (n: nat)
      requires Valid()
      reads this
      ensures n == State().Available()
    {
      capacity - (bytesPushed - bytesPopped)
    }

    function BytesBuffered(): (n: nat)
      requires Valid()
      reads this
      ensures n == |State().Buffered()|
    {
      bytesPushed - bytesPopped
    }

    /** The next contiguous run: a prefix of what is buffered, empty only when nothing is. */
    function Peek(): (view: seq<Byte>)
      requires Valid()
      reads this
      ensures view <= State().Buffered()
      ensures view == [] <==> State().Buffered() == []
    {
      if segments == [] then [] else
        assert Flatten(segments) == segments[0] + Flatten(segments[1..]);
        segments[0][skipInFront..]
    }

    method Pop(len: nat)
      requires Valid()
      modifies this
      ensures Valid() && State() == old(State()).Pop(len)
    {
      var left := Min(len, bytesPushed - bytesPopped);
      DropTwice(history, bytesPopped, left);
      DropFront(left);
      bytesPopped := bytesPopped + left;
    }

    /** The loop of pop: whole segments leave the chain, then part of the next is skipped. */
    method DropFront(n: nat)
      requires ChainOk() && n <= |Unread()|
      modifies `segments, `skipInFront
      ensures ChainOk() && Unread() == old(Unread())[n..]
    {
      hide Flatten, NonEmptyChunks;
      var left := n;
      ghost var start := Unread();
      assert start[0..] == start;
      while left > 0
        invariant ChainOk() && 0 <= left <= n
        invariant Unread() == start[n - left..]
      {
        FrontExists(segments, skipInFront);
        var frontRemaining := |segments[0]| - skipInFront;
        PopStep(segments, skipInFront, Min(left, frontRemaining));
        DropTwice(start, n - left, Min(left, frontRemaining));
        if left >= frontRemaining {
          segments := segments[1..];
          skipInFront := 0;
          left := left - frontRemaining;
        } else {
          skipInFront := skipInFront + left;
          left := 0;
        }
      }
    }
  }

  /** Peek-and-pop up to `maxLen` bytes. The loop sees one segment at a time, yet the result
      is the first bytes of the whole buffered sequence, so the exception thrown on an empty
      view is unreachable and the loop ends. */
  method Read(reader: ByteStream, maxLen: nat) returns (out: seq<Byte>)
    requires reader.Valid()
    modifies reader
    ensures reader.Valid() && reader.State() == old(reader.State()).Pop(maxLen)
    ensures out == old(reader.State().Buffered())[..Min(maxLen, |old(reader.State().Buffered())|)]
  {
    hide Flatten, NonEmptyChunks, ByteStream.ChainOk, ByteStream.Unread;
    out := [];
    ghost var start := reader.State();
    while reader.BytesBuffered() > 0 && |out| < maxLen
      invariant reader.Valid() && |out| <= Min(maxLen, |start.Buffered()|)
      invariant out == start.Buffered()[..|out|]
      invariant reader.State() == start.Pop(|out|)
      decreases maxLen - |out|
    {
      var view := reader.Peek();
      view := view[..Min(|view|, maxLen - |out|)];
      NextView(start, |out|, view);
      out := out + view;
      reader.Pop(|view|);
    }
  }

  /** Reading `view` after the first `done` buffered bytes is reading `done + |view|` of them. */
  lemma NextView(start: Stream, done: nat, view: seq<Byte>)
    requires start.Valid() && done <= |start.Buffered()|
    requires view <= start.Pop(done).Buffered()
    ensures done + |view| <= |start.Buffered()|
    ensures start.Buffered()[..done] + view == start.Buffered()[..done + |view|]
    ensures start.Pop(done).Pop(|view|) == start.Pop(done + |view|)
  {
    assert start.Pop(done).Buffered() == start.Buffered()[done..];
  }
}
