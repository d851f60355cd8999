/** What a reassembler holds and emits after any run of inserts and reads: src/reassembler.cc. */
module ReassemblerRuns {
  import opened Common
  import opened Segments
  import opened Reassembly

  datatype Op = Insert(first: nat, data: seq<Byte>, last: bool) | Read(n: nat)

  /** An insert is a substring of `stream`, marked last only if it reaches the end. */
  ghost predicate FragmentOf(op: Op, stream: seq<Byte>)
  {
    op.Insert? ==>
      && op.first + |op.data| <= |stream|
      && op.data == stream[op.first..op.first + |op.data|]
      && (op.last ==> op.first + |op.data| == |stream|)
  }

  ghost predicate Fragments(ops: seq<Op>, stream: seq<Byte>)
  {
    forall i :: 0 <= i < |ops| ==> FragmentOf(ops[i], stream)
  }

  ghost predicate Covers(op: Op, j: nat)
  {
    op.Insert? && op.first <= j < op.first + |op.data|
  }

  /** The indices an operation brings that lie in the window at that moment. */
  ghost function InWindowIndices(r: Reasm, op: Op): set<nat>
    requires r.Valid()
  {
    if op.Insert? then Placed(r.ClipStart(op.first), r.Clip(op.first, op.data)).Keys else {}
  }

  ghost function Step(r: Reasm, op: Op): Reasm
    requires r.Valid()
  {
    match op
    case Insert(first, data, last) => r.Insert(first, data, last)
    case Read(n) => r.Read(n)
  }

  lemma StepValid(r: Reasm, op: Op)
    requires r.Valid()
    ensures Step(r, op).Valid()
  {
    if op.Insert? {
      InsertValid(r, op.first, op.data, op.last);
    }
  }

  /** The reassembler after `ops`, and every index ever accepted in-window. */
  datatype History = History(r: Reasm, accepted: set<nat>, sawLast: bool)

  ghost function Run(capacity: nat, ops: seq<Op>): (h: History)
    ensures h.r.Valid()
  {
    if ops == [] then History(Fresh(capacity), {}, false) else
      var h := Run(capacity, ops[..|ops| - 1]);
      var op := ops[|ops| - 1];
      StepValid(h.r, op);
      History(Step(h.r, op), h.accepted + InWindowIndices(h.r, op), h.sawLast || (op.Insert? && op.last))
  }

  /** The output is the stream up to the first index never accepted, the bytes held back are
      exactly the accepted ones beyond it, and the output is closed exactly when the end has
      been announced and reached. */
  ghost predicate Exact(h: History, stream: seq<Byte>)
  {
    var m := |h.r.out.history|;
    && m <= |stream| && h.r.out.history == stream[..m]
    && (forall j: nat :: j < m ==> j in h.accepted) && m !in h.accepted
    && (forall j: nat :: j in h.accepted ==> j < |stream|)
    && (forall j: nat :: j in h.r.stored <==> j in h.accepted && m < j)
    && (forall j: nat :: j in h.r.stored ==> h.r.stored[j] == stream[j])
    && (h.r.eof <==> h.sawLast) && (h.r.eof ==> h.r.end == |stream|)
    && (h.r.out.closed <==> h.sawLast && m == |stream|)
  }

  ghost predicate Agrees(c: Content, stream: seq<Byte>)
  {
    forall j: nat :: j in c ==> j < |stream| && c[j] == stream[j]
  }

  /** A fragment of the stream adds its in-window indices and nothing else. */
  lemma AcceptFragment(r: Reasm, stream: seq<Byte>, first: nat, data: seq<Byte>)
    requires r.Valid() && Agrees(r.stored, stream)
    requires first + |data| <= |stream| && data == stream[first..first + |data|]
    ensures Agrees(r.Accepted(first, data), stream)
    ensures r.Accepted(first, data).Keys == r.stored.Keys + Placed(r.ClipStart(first), r.Clip(first, data)).Keys
  {
    hide Accept, Placed, Agrees;
    ClipOfStream(r, stream, first, data);
    AcceptAgrees(r.stored, r.ClipStart(first), r.Clip(first, data), stream);
  }

  lemma ClipOfStream(r: Reasm, stream: seq<Byte>, first: nat, data: seq<Byte>)
    requires r.Valid() && first + |data| <= |stream| && data == stream[first..first + |data|]
    ensures var start, clip := r.ClipStart(first), r.Clip(first, data);
            clip != [] ==> start + |clip| <= |stream| && clip == stream[start..start + |clip|]
  {
    var start, clip := r.ClipStart(first), r.Clip(first, data);
    if clip != [] {
      SliceOfSlice(stream, first, first + |data|, start - first, start - first + |clip|);
    }
  }

  lemma AcceptAgrees(c: Content, start: nat, clip: seq<Byte>, stream: seq<Byte>)
    requires Agrees(c, stream)
    requires clip != [] ==> start + |clip| <= |stream| && clip == stream[start..start + |clip|]
    ensures Agrees(Accept(c, start, clip), stream)
    ensures Accept(c, start, clip).Keys == c.Keys + Placed(start, clip).Keys
  {
    hide Unbroken;
  }

  lemma SliceOfSlice(s: seq<Byte>, a: nat, b: nat, i: nat, j: nat)
    requires a <= b <= |s| && i <= j <= b - a
    ensures s[a..b][i..j] == s[a + i..a + j]
  {
    forall k | 0 <= k < j - i
      ensures s[a..b][i..j][k] == s[a + i..a + j][k]
    {
      assert s[a..b][i + k] == s[a + (i + k)];
    }
  }

  lemma DrainOfStream(h: seq<Byte>, c: Content, stream: seq<Byte>)
    requires h <= stream && Agrees(c, stream) && forall j: nat :: j in c ==> |h| <= j
    ensures var d := Drain(h, c);
            && |h| <= |d.history| <= |stream| && d.history == stream[..|d.history|]
            && (forall j: nat :: |h| <= j < |d.history| ==> j in c) && |d.history| !in c
            && (forall j: nat :: j in d.rest <==> j in c && |d.history| < j)
            && Agrees(d.rest, stream)
  {
    DrainMeaning(h, c);
    var d := Drain(h, c);
    if |h| < |d.history| {
      assert |d.history| - 1 in c;
    }
  }

  lemma InsertExact(h: History, stream: seq<Byte>, op: Op)
    requires h.r.Valid() && Exact(h, stream) && op.Insert? && FragmentOf(op, stream)
    requires |stream| < 0x1_0000_0000_0000_0000
    ensures Exact(History(Step(h.r, op), h.accepted + InWindowIndices(h.r, op), h.sawLast || op.last), stream)
  {
    hide Accept, Placed, Drain;
    AcceptFragment(h.r, stream, op.first, op.data);
    var c := h.r.Accepted(op.first, op.data);
    AcceptedInWindow(h.r, op.first, op.data);
    DrainOfStream(h.r.out.history, c, stream);
    var h' := History(Step(h.r, op), h.accepted + InWindowIndices(h.r, op), h.sawLast || op.last);
    var m := |h'.r.out.history|;
    forall j: nat | j < m
      ensures j in h'.accepted
    {
      if |h.r.out.history| <= j {
        assert j in c;
      }
    }
    assert m !in h'.accepted;
    assert forall j: nat :: j in h'.r.stored <==> j in h'.accepted && m < j;
  }

  /** Main result: exactness after every run of fragments and reads, in any order and with any
      duplication and overlap. */
  lemma {:induction false} RunExact(capacity: nat, ops: seq<Op>, stream: seq<Byte>)
    requires Fragments(ops, stream) && |stream| < 0x1_0000_0000_0000_0000
    ensures Exact(Run(capacity, ops), stream)
  {
    if ops != [] {
      RunExact(capacity, ops[..|ops| - 1], stream);
      var h, op := Run(capacity, ops[..|ops| - 1]), ops[|ops| - 1];
      if op.Insert? {
        InsertExact(h, stream, op);
      } else {
        assert h.accepted + {} == h.accepted;
      }
    }
  }

  /** The pending map itself, which the class keeps canonical: after every run its substrings are
      exactly the maximal runs of accepted indices beyond the output, cut from the stream. */
  lemma PendingIsMaximalRuns(capacity: nat, ops: seq<Op>, stream: seq<Byte>, p: Pending, k: nat)
    requires Fragments(ops, stream) && |stream| < 0x1_0000_0000_0000_0000
    requires Canonical(p) && Represents(p, Run(capacity, ops).r.stored)
    ensures var h := Run(capacity, ops);
            && (k in p <==> |h.r.out.history| < k && k in h.accepted && k - 1 !in h.accepted)
            && (k in p ==>
                  var end := k + |p[k]|;
                  && end <= |stream| && p[k] == stream[k..end] && end !in h.accepted
                  && forall j: nat :: k <= j < end ==> j in h.accepted)
  {
    hide Represents, Canonical, Run, Exact;
    RunExact(capacity, ops, stream);
    var h := Run(capacity, ops);
    KeysAreRunStarts(p, h.r.stored, k);
    if k in p {
      NotEmpty(p, k);
      RunBounds(p, h.r.stored, k);
      AcceptedRun(h, stream, k, p[k]);
    }
    ExactStored(h, stream, k);
    if k > 0 {
      ExactStored(h, stream, k - 1);
    }
  }

  lemma NotEmpty(p: Pending, k: nat)
    requires Canonical(p) && k in p
    ensures p[k] != []
  {
  }

  lemma ExactStored(h: History, stream: seq<Byte>, j: nat)
    requires Exact(h, stream)
    ensures j in h.r.stored <==> j in h.accepted && |h.r.out.history| < j
    ensures j < |h.r.out.history| ==> j in h.accepted
    ensures |h.r.out.history| !in h.accepted
  {
  }

  lemma AcceptedRun(h: History, stream: seq<Byte>, k: nat, run: seq<Byte>)
    requires Exact(h, stream) && run != []
    requires forall j: nat :: k <= j < k + |run| ==> j in h.r.stored && h.r.stored[j] == run[j - k]
    requires k + |run| !in h.r.stored
    ensures k + |run| <= |stream| && run == stream[k..k + |run|] && k + |run| !in h.accepted
    ensures forall j: nat :: k <= j < k + |run| ==> j in h.accepted
  {
    assert k + |run| - 1 in h.r.stored;
    forall i | 0 <= i < |run|
      ensures run[i] == stream[k + i]
    {
      assert k + i in h.r.stored;
    }
  }

  // ----- order and duplicates

  ghost predicate NoReads(ops: seq<Op>)
  {
    forall i :: 0 <= i < |ops| ==> ops[i].Insert?
  }

  ghost predicate Brought(ops: seq<Op>, j: nat)
  {
    exists i :: 0 <= i < |ops| && Covers(ops[i], j)
  }

  ghost predicate SomeLast(ops: seq<Op>)
  {
    exists i :: 0 <= i < |ops| && ops[i].Insert? && ops[i].last
  }

  /** Without reads the window ends at the capacity throughout, so what was accepted is what
      was brought below it. */
  lemma {:induction false} AcceptedWithoutReads(capacity: nat, ops: seq<Op>, stream: seq<Byte>)
    requires Fragments(ops, stream) && NoReads(ops) && |stream| < 0x1_0000_0000_0000_0000
    ensures Run(capacity, ops).r.out == Run(capacity, ops).r.out.(capacity := capacity, popped := 0, error := false)
    ensures forall j: nat :: j in Run(capacity, ops).accepted <==> Brought(ops, j) && j < capacity
    ensures Run(capacity, ops).sawLast <==> SomeLast(ops)
  {
    if ops != [] {
      var front, op := ops[..|ops| - 1], ops[|ops| - 1];
      assert ops == front + [op];
      AcceptedWithoutReads(capacity, front, stream);
      RunExact(capacity, front, stream);
      var h := Run(capacity, front);
      forall j: nat
        ensures j in Run(capacity, ops).accepted <==> Brought(ops, j) && j < capacity
      {
        hide Drain, Accept, Brought;
        InWindowAt(h.r, op, j);
        BroughtSnoc(front, op, j);
      }
    }
  }

  lemma InWindowAt(r: Reasm, op: Op, j: nat)
    requires r.Valid() && op.Insert?
    ensures j in InWindowIndices(r, op) <==> Covers(op, j) && |r.out.history| <= j < r.out.popped + r.out.capacity
  {
  }

  lemma BroughtSnoc(front: seq<Op>, op: Op, j: nat)
    ensures Brought(front + [op], j) <==> Brought(front, j) || Covers(op, j)
  {
    var ops := front + [op];
    if Covers(op, j) {
      assert Covers(ops[|front|], j);
    }
    if Brought(front, j) {
      var i :| 0 <= i < |front| && Covers(front[i], j);
      assert Covers(ops[i], j);
    }
  }

  /** Main result: with no reads in between, the final state does not depend on the order,
      the duplication or even the cutting of the fragments: two runs that bring the same
      indices and agree on having seen the last one end in the same state. */
  lemma OrderIrrelevant(capacity: nat, ops: seq<Op>, ops': seq<Op>, stream: seq<Byte>)
    requires Fragments(ops, stream) && NoReads(ops) && Fragments(ops', stream) && NoReads(ops')
    requires |stream| < 0x1_0000_0000_0000_0000
    requires forall j: nat :: Brought(ops, j) <==> Brought(ops', j)
    requires SomeLast(ops) <==> SomeLast(ops')
    ensures var r, r' := Run(capacity, ops).r, Run(capacity, ops').r;
            r.out == r'.out && r.stored == r'.stored && r.eof == r'.eof && (r.eof ==> r.end == r'.end)
  {
    hide Brought, SomeLast, Run, Exact;
    AcceptedWithoutReads(capacity, ops, stream);
    AcceptedWithoutReads(capacity, ops', stream);
    RunExact(capacity, ops, stream);
    RunExact(capacity, ops', stream);
    var h, h' := Run(capacity, ops), Run(capacity, ops');
    assert h.accepted == h'.accepted;
    ExactDetermines(h, h', stream);
  }

  /** The same for the pending maps: they are equal, substring by substring. */
  lemma PendingOrderIrrelevant(capacity: nat, ops: seq<Op>, ops': seq<Op>, stream: seq<Byte>, p: Pending, p': Pending)
    requires Fragments(ops, stream) && NoReads(ops) && Fragments(ops', stream) && NoReads(ops')
    requires |stream| < 0x1_0000_0000_0000_0000
    requires forall j: nat :: Brought(ops, j) <==> Brought(ops', j)
    requires SomeLast(ops) <==> SomeLast(ops')
    requires Canonical(p) && Represents(p, Run(capacity, ops).r.stored)
    requires Canonical(p') && Represents(p', Run(capacity, ops').r.stored)
    ensures p == p'
  {
    hide Brought, SomeLast, Run, Canonical, Represents;
    OrderIrrelevant(capacity, ops, ops', stream);
    CanonicalUnique(p, p', Run(capacity, ops).r.stored);
  }

  /** What was accepted, and whether the end was seen, determine everything else. */
  lemma ExactDetermines(h: History, h': History, stream: seq<Byte>)
    requires Exact(h, stream) && Exact(h', stream) && h.accepted == h'.accepted && h.sawLast == h'.sawLast
    ensures h.r.out.history == h'.r.out.history && h.r.out.closed == h'.r.out.closed
    ensures h.r.stored == h'.r.stored && h.r.eof == h'.r.eof && (h.r.eof ==> h.r.end == h'.r.end)
  {
    var m, m' := |h.r.out.history|, |h'.r.out.history|;
    if m < m' {} else if m' < m {}
    assert m == m';
  }
}
