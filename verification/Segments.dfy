/**
 The ordered map of pending substrings of src/reassembler.cc, and what it stands for: a
 finite map from stream indices to bytes.
 */
module Segments {
  import opened Common

  /** Pending substrings keyed by the index of their first byte. */
  type Pending = map<nat, seq<Byte>>

  /** The byte stored at each index. */
  type Content = map<nat, Byte>

  /** No substring is empty, and no two overlap or are adjacent. */
  ghost predicate Canonical(p: Pending)
  {
    && (forall k: nat :: k in p ==> p[k] != [])
    && (forall k: nat, k': nat :: k in p && k' in p && k < k' ==> k + |p[k]| < k')
  }

  ghost predicate Holds(p: Pending, k: nat, j: nat)
  {
    k in p && k <= j < k + |p[k]|
  }

  /** The substrings of `p` hold exactly the bytes of `c`. */
  ghost predicate Represents(p: Pending, c: Content)
  {
    && (forall k: nat, j: nat {:trigger Holds(p, k, j)} :: Holds(p, k, j) ==> j in c && c[j] == p[k][j - k])
    && (forall j: nat :: j in c ==> exists k: nat :: Holds(p, k, j))
  }

  ghost predicate InSpan(j: nat, first: nat, len: nat)
  {
    first <= j < first + len
  }

  /** The bytes of `data`, placed from index `first` on. */
  ghost function Placed(first: nat, data: seq<Byte>): Content
  {
    map j: nat | first <= j < first + |data| && InSpan(j, first, |data|) :: data[j - first]
  }

  ghost function Span(first: nat, len: nat): set<nat>
  {
    set j: nat | first <= j < first + len && InSpan(j, first, len)
  }

  /** `c` without the indices of a span. */
  ghost function Without(c: Content, first: nat, len: nat): Content
  {
    c - Span(first, len)
  }

  /** `c` with `data` written over it from index `first`. */
  ghost function Overlay(c: Content, first: nat, data: seq<Byte>): Content
  {
    c + Placed(first, data)
  }

  /** Every index from `lo` to `hi`, both included, is stored. */
  ghost predicate Unbroken(c: Content, lo: nat, hi: nat)
  {
    forall i: nat :: lo <= i <= hi ==> i in c
  }

  /** What storing `data` at `first` means. An index held by neither side stays absent; where
      both sides hold a byte the stored one is kept if the store was already unbroken from
      `first` up to it, and the new one is taken otherwise. */
  ghost function Accept(c: Content, first: nat, data: seq<Byte>): Content
  {
    c + (map j: nat | j in Placed(first, data) && !(j in c && Unbroken(c, first, j)) :: data[j - first])
  }

  /** Index by index: nothing held is lost, all of the data is held, and of two bytes at one index
      the stored one stays exactly if every index from `first` up to it was stored. */
  lemma AcceptMeaning(c: Content, first: nat, data: seq<Byte>, j: nat)
    ensures var r := Accept(c, first, data);
            && (j in r <==> j in c || first <= j < first + |data|)
            && (j in c && !(first <= j < first + |data|) ==> r[j] == c[j])
            && (first <= j < first + |data| && (forall i: nat :: first <= i <= j ==> i in c) ==> r[j] == c[j])
            && (first <= j < first + |data| && (exists i: nat :: first <= i <= j && i !in c) ==>
                  r[j] == data[j - first])
  {
  }

  /** The map is determined by the bytes it stores: its keys are the starts, and its values
      the contents, of the maximal runs. */
  lemma CanonicalUnique(p: Pending, q: Pending, c: Content)
    requires Canonical(p) && Canonical(q) && Represents(p, c) && Represents(q, c)
    ensures p == q
  {
    forall k: nat | k in p
      ensures k in q && q[k] == p[k]
    {
      RunStart(p, q, c, k);
      RunStart(q, p, c, k);
    }
    forall k: nat | k in q
      ensures k in p
    {
      RunStart(q, p, c, k);
    }
  }

  /** A substring starts exactly where the stored indices have no predecessor, and ends where
      they have no successor: the substrings are the maximal runs. */
  lemma KeysAreRunStarts(p: Pending, c: Content, k: nat)
    requires Canonical(p) && Represents(p, c)
    ensures k in p <==> k in c && (k > 0 ==> k - 1 !in c)
    ensures k in p ==> k + |p[k]| !in c
  {
    hide Represents;
    if k in p {
      RunBounds(p, c, k);
      if k > 0 && k - 1 in c {
        var k' := Holder(p, c, k - 1);
      }
    } else if k in c {
      var k' := Holder(p, c, k);
      RunBounds(p, c, k');
    }
  }

  /** Every stored index is held by some substring. */
  lemma Holder(p: Pending, c: Content, j: nat) returns (k: nat)
    requires Represents(p, c) && j in c
    ensures Holds(p, k, j)
  {
    k :| Holds(p, k, j);
  }

  /** The run of `p` at `k` is a prefix of the run of `q` at the same place. */
  lemma RunStart(p: Pending, q: Pending, c: Content, k: nat)
    requires Canonical(p) && Canonical(q) && Represents(p, c) && Represents(q, c)
    requires k in p
    ensures k in q && p[k] <= q[k]
  {
    KeysAreRunStarts(p, c, k);
    KeysAreRunStarts(q, c, k);
    InRun(p, q, c, k, |p[k]| - 1);
    RunBounds(p, c, k);
    RunBounds(q, c, k);
    hide Represents, Canonical;
    forall i | 0 <= i < |p[k]|
      ensures p[k][i] == q[k][i]
    {
      assert c[k + i] == p[k][k + i - k];
    }
  }

  lemma {:induction false} InRun(p: Pending, q: Pending, c: Content, k: nat, i: nat)
    requires Canonical(p) && Canonical(q) && Represents(p, c) && Represents(q, c)
    requires k in p && k in q && i < |p[k]|
    ensures i < |q[k]|
  {
    hide Represents;
    if i == 0 {
      assert q[k] != [];
    } else {
      InRun(p, q, c, k, i - 1);
      RunBounds(p, c, k);
      var k' := Holder(q, c, k + i);
      SameRun(q, k, k', k + i);
    }
  }

  /** A run that reaches up to `j` is the one that holds `j`. */
  lemma SameRun(q: Pending, k: nat, k': nat, j: nat)
    requires Canonical(q) && k in q && Holds(q, k', j) && k <= j <= k + |q[k]|
    ensures k == k'
  {
  }

  // ----- the merging steps of insert

  /** std::map::upper_bound followed by std::prev: the greatest key not above `x`. */
  method FloorKey(p: Pending, x: nat) returns (r: Option<nat>)
    ensures r.None? ==> forall k: nat :: k in p ==> x < k
    ensures r.Some? ==> r.value in p && r.value <= x && forall k: nat :: k in p && k <= x ==> k <= r.value
  {
    r := None;
    var keys := p.Keys;
    while keys != {}
      invariant keys <= p.Keys
      invariant r.None? ==> forall k: nat :: k in p && k !in keys ==> x < k
      invariant r.Some? ==> r.value in p && r.value <= x
      invariant r.Some? ==> forall k: nat :: k in p && k !in keys && k <= x ==> k <= r.value
    {
      var k: nat :| k in keys;
      keys := keys - {k};
      if k <= x && (r.None? || r.value < k) {
        r := Some(k);
      }
    }
  }

  /** std::map::lower_bound: the least key not below `x`. */
  method CeilingKey(p: Pending, x: nat) returns (r: Option<nat>)
    ensures r.None? ==> forall k: nat :: k in p ==> k < x
    ensures r.Some? ==> r.value in p && x <= r.value && forall k: nat :: k in p && x <= k ==> r.value <= k
  {
    r := None;
    var keys := p.Keys;
    while keys != {}
      invariant keys <= p.Keys
      invariant r.None? ==> forall k: nat :: k in p && k !in keys ==> k < x
      invariant r.Some? ==> r.value in p && x <= r.value
      invariant r.Some? ==> forall k: nat :: k in p && k !in keys && x <= k ==> r.value <= k
    {
      var k: nat :| k in keys;
      keys := keys - {k};
      if x <= k && (r.None? || k < r.value) {
        r := Some(k);
      }
    }
  }

  /** Merge with the predecessor: step 2 of Reassembler::insert. Nothing is left to store when
      the predecessor already covers the data. */
  method MergePredecessor(pending: Pending, firstIndex: nat, newData: seq<Byte>, ghost c: Content)
    returns (p: Pending, first: nat, data: seq<Byte>, ghost rest: Content)
    requires Canonical(pending) && Represents(pending, c) && newData != []
    ensures Canonical(p) && Represents(p, rest)
    ensures data != [] ==> forall k: nat :: k in p && k < first ==> k + |p[k]| < first
    ensures if data == [] then rest == Accept(c, firstIndex, newData)
            else Overlay(rest, first, data) == Accept(c, firstIndex, newData)
  {
    hide Accept, Overlay, Represents, Without;
    p, first, data, rest := pending, firstIndex, newData, c;
    var prev := FloorKey(p, first);
    if prev.None? {
      NoPredecessor(p, c, first, data);
      return;
    }
    var k: nat := prev.value;
    var prevEnd := k + |p[k]|;
    if prevEnd < first {
      FloorIsLast(p, k, first);
      NoPredecessor(p, c, first, data);
      return;
    }
    if prevEnd >= first + |data| {
      CoveredByPredecessor(p, c, k, first, data);
      first, data := k, [];
      return;
    }
    ExtendPredecessor(p, c, k, first, data);
    data := p[k] + data[prevEnd - first..];
    first, rest, p := k, Without(c, k, |p[k]|), p - {k};
  }

  /** Absorb every successor that touches or overlaps, then store: step 3 of
      Reassembler::insert. */
  method AbsorbSuccessors(pending: Pending, first: nat, newData: seq<Byte>, ghost c: Content) returns (p: Pending)
    requires Canonical(pending) && Represents(pending, c) && newData != []
    requires forall k: nat :: k in pending && k < first ==> k + |pending[k]| < first
    ensures Canonical(p) && Represents(p, Overlay(c, first, newData))
  {
    p := pending;
    var data := newData;
    ghost var rest := c;
    var it := CeilingKey(p, first);
    while it.Some? && it.value <= first + |data|
      invariant Canonical(p) && Represents(p, rest) && data != []
      invariant forall k: nat :: k in p && k < first ==> k + |p[k]| < first
      invariant it.None? ==> forall k: nat :: k in p ==> k < first
      invariant it.Some? ==> it.value in p && first <= it.value
      invariant it.Some? ==> forall k: nat :: k in p && first <= k ==> it.value <= k
      invariant Overlay(rest, first, data) == Overlay(c, first, newData)
      decreases |p|
    {
      var k: nat := it.value;
      AbsorbSuccessor(p, rest, first, data, k);
      if k + |p[k]| > first + |data| {
        data := data + p[k][first + |data| - k..];
      }
      rest := Without(rest, k, |p[k]|);
      p := p - {k};
      it := CeilingKey(p, first);
    }
    Emplace(p, rest, first, data);
    p := p[first := data];
  }

  lemma FloorIsLast(p: Pending, k: nat, first: nat)
    requires Canonical(p) && k in p && k + |p[k]| < first
    requires forall k': nat :: k' in p && k' <= first ==> k' <= k
    ensures forall k': nat :: k' in p && k' <= first ==> k' + |p[k']| < first
  {
  }

  lemma CoveredByPredecessor(p: Pending, c: Content, k: nat, first: nat, data: seq<Byte>)
    requires Canonical(p) && Represents(p, c)
    requires k in p && k <= first && first + |data| <= k + |p[k]|
    ensures Accept(c, first, data) == c
  {
    forall j: nat | first <= j < first + |data|
      ensures j in c && Unbroken(c, first, j)
    {
      assert Holds(p, k, j);
      forall i: nat | first <= i <= j ensures i in c { assert Holds(p, k, i); }
    }
  }

  lemma NoPredecessor(p: Pending, c: Content, first: nat, data: seq<Byte>)
    requires Canonical(p) && Represents(p, c)
    requires forall k: nat :: k in p && k <= first ==> k + |p[k]| < first
    ensures Accept(c, first, data) == Overlay(c, first, data)
  {
    assert first !in c;
    assert forall j: nat :: first <= j ==> !Unbroken(c, first, j);
  }

  lemma RemoveOne(p: Pending, c: Content, k: nat)
    requires Canonical(p) && Represents(p, c) && k in p
    ensures Canonical(p - {k}) && Represents(p - {k}, Without(c, k, |p[k]|))
  {
    var q, c' := p - {k}, Without(c, k, |p[k]|);
    forall k': nat, j: nat {:trigger Holds(q, k', j)} | Holds(q, k', j)
      ensures j in c' && c'[j] == q[k'][j - k']
    {
      LeftByte(p, c, k, k', j);
    }
    forall j: nat | j in c'
      ensures exists k': nat :: Holds(q, k', j)
    {
      var k' := LeftHolder(p, c, k, j);
    }
  }

  lemma LeftByte(p: Pending, c: Content, k: nat, k': nat, j: nat)
    requires Canonical(p) && Represents(p, c) && k in p && Holds(p - {k}, k', j)
    ensures j in Without(c, k, |p[k]|) && Without(c, k, |p[k]|)[j] == p[k'][j - k']
  {
    hide Represents;
    HeldByte(p, c, k', j);
  }

  lemma LeftHolder(p: Pending, c: Content, k: nat, j: nat) returns (k': nat)
    requires Represents(p, c) && k in p && j in Without(c, k, |p[k]|)
    ensures Holds(p - {k}, k', j)
  {
    k' := Holder(p, c, j);
  }

  lemma ExtendPredecessor(p: Pending, c: Content, k: nat, first: nat, data: seq<Byte>)
    requires Canonical(p) && Represents(p, c)
    requires k in p && k <= first <= k + |p[k]| < first + |data|
    ensures Canonical(p - {k}) && Represents(p - {k}, Without(c, k, |p[k]|))
    ensures forall k': nat :: k' in p - {k} && k' < k ==> k' + |p[k']| < k
    ensures Overlay(Without(c, k, |p[k]|), k, p[k] + data[k + |p[k]| - first..]) == Accept(c, first, data)
  {
    RemoveOne(p, c, k);
    RunBounds(p, c, k);
    hide Represents;
    OverlayExtendedRun(c, k, p[k], first, data);
  }

  lemma RunBounds(p: Pending, c: Content, k: nat)
    requires Canonical(p) && Represents(p, c) && k in p
    ensures forall j: nat :: k <= j < k + |p[k]| ==> j in c && c[j] == p[k][j - k]
    ensures k + |p[k]| !in c
  {
    hide Represents;
    forall j: nat | k <= j < k + |p[k]|
      ensures j in c && c[j] == p[k][j - k]
    {
      HeldByte(p, c, k, j);
    }
    if k + |p[k]| in c {
      var k' := Holder(p, c, k + |p[k]|);
    }
  }

  lemma HeldByte(p: Pending, c: Content, k: nat, j: nat)
    requires Represents(p, c) && Holds(p, k, j)
    ensures j in c && c[j] == p[k][j - k]
  {
  }

  lemma OverlayExtendedRun(c: Content, k: nat, run: seq<Byte>, first: nat, data: seq<Byte>)
    requires k <= first <= k + |run| < first + |data|
    requires forall j: nat :: k <= j < k + |run| ==> j in c && c[j] == run[j - k]
    requires k + |run| !in c
    ensures Overlay(Without(c, k, |run|), k, run + data[k + |run| - first..]) == Accept(c, first, data)
  {
    var left := Overlay(Without(c, k, |run|), k, run + data[k + |run| - first..]);
    var right := Accept(c, first, data);
    forall j: nat
      ensures j in left <==> j in right
      ensures j in left ==> left[j] == right[j]
    {
      ExtendedRunAt(c, k, run, first, data, j);
    }
  }

  lemma ExtendedRunAt(c: Content, k: nat, run: seq<Byte>, first: nat, data: seq<Byte>, j: nat)
    requires k <= first <= k + |run| < first + |data|
    requires forall i: nat :: k <= i < k + |run| ==> i in c && c[i] == run[i - k]
    requires k + |run| !in c
    ensures var left := Overlay(Without(c, k, |run|), k, run + data[k + |run| - first..]);
            var right := Accept(c, first, data);
            (j in left <==> j in right) && (j in left ==> left[j] == right[j])
  {
    if j < k + |run| {
      assert Unbroken(c, first, j);
    } else {
      assert !Unbroken(c, first, j);
    }
  }

  lemma AbsorbSuccessor(p: Pending, c: Content, first: nat, data: seq<Byte>, k: nat)
    requires Canonical(p) && Represents(p, c)
    requires k in p && first <= k <= first + |data|
    ensures Canonical(p - {k}) && Represents(p - {k}, Without(c, k, |p[k]|))
    ensures var grown := if k + |p[k]| > first + |data| then data + p[k][first + |data| - k..] else data;
            Overlay(Without(c, k, |p[k]|), first, grown) == Overlay(c, first, data)
  {
    RemoveOne(p, c, k);
    RunBounds(p, c, k);
    hide Represents;
    AbsorbedRun(c, first, data, k, p[k]);
  }

  lemma AbsorbedRun(c: Content, first: nat, data: seq<Byte>, k: nat, run: seq<Byte>)
    requires first <= k <= first + |data|
    requires forall j: nat :: k <= j < k + |run| ==> j in c && c[j] == run[j - k]
    ensures var grown := if k + |run| > first + |data| then data + run[first + |data| - k..] else data;
            Overlay(Without(c, k, |run|), first, grown) == Overlay(c, first, data)
  {
    var grown := if k + |run| > first + |data| then data + run[first + |data| - k..] else data;
    var left, right := Overlay(Without(c, k, |run|), first, grown), Overlay(c, first, data);
    forall j: nat
      ensures j in left <==> j in right
      ensures j in left ==> left[j] == right[j]
    {
      AbsorbedRunAt(c, first, data, k, run, j);
    }
  }

  lemma AbsorbedRunAt(c: Content, first: nat, data: seq<Byte>, k: nat, run: seq<Byte>, j: nat)
    requires first <= k <= first + |data|
    requires k <= j < k + |run| ==> j in c && c[j] == run[j - k]
    ensures var grown := if k + |run| > first + |data| then data + run[first + |data| - k..] else data;
            var left, right := Overlay(Without(c, k, |run|), first, grown), Overlay(c, first, data);
            (j in left <==> j in right) && (j in left ==> left[j] == right[j])
  {
  }

  lemma Emplace(p: Pending, c: Content, first: nat, data: seq<Byte>)
    requires Canonical(p) && Represents(p, c) && data != []
    requires forall k: nat :: k in p && k < first ==> k + |p[k]| < first
    requires forall k: nat :: k in p && first <= k ==> first + |data| < k
    ensures Canonical(p[first := data]) && Represents(p[first := data], Overlay(c, first, data))
  {
    hide Overlay, Placed;
    var q, c' := p[first := data], Overlay(c, first, data);
    forall k: nat, j: nat {:trigger Holds(q, k, j)} | Holds(q, k, j)
      ensures j in c' && c'[j] == q[k][j - k]
    {
      EmplacedByte(p, q, c, first, data, k, j);
    }
    forall j: nat | j in c'
      ensures exists k: nat :: Holds(q, k, j)
    {
      EmplacedHolder(p, q, c, first, data, j);
    }
  }

  lemma EmplacedByte(p: Pending, q: Pending, c: Content, first: nat, data: seq<Byte>, k: nat, j: nat)
    requires Represents(p, c) && q == p[first := data] && Holds(q, k, j)
    requires k in p && k < first ==> k + |p[k]| < first
    requires k in p && first <= k ==> first + |data| < k
    ensures j in Overlay(c, first, data) && Overlay(c, first, data)[j] == q[k][j - k]
  {
    if k != first {
      assert Holds(p, k, j);
    }
  }

  lemma EmplacedHolder(p: Pending, q: Pending, c: Content, first: nat, data: seq<Byte>, j: nat)
    requires Represents(p, c) && first !in p && q == p[first := data] && j in Overlay(c, first, data)
    ensures exists k: nat :: Holds(q, k, j)
  {
    if InSpan(j, first, |data|) {
      assert Holds(q, first, j);
    } else {
      var k: nat :| Holds(p, k, j);
      assert Holds(q, k, j);
    }
  }
}
