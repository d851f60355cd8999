/** Masks over IPv4 addresses, as src/router.cc builds them. */
module AddressBits {
  type U8 = x: int | 0 <= x < 256

  /** A number of places to shift by. */
  function Places(n: nat): bv6
    requires n <= 32
  {
    n as bv6
  }

  lemma PlacesLow(n: nat)
    requires n < 16
    ensures Places(n) as int == n
  {
  }

  lemma PlacesHigh(n: nat)
    requires 16 <= n < 32
    ensures Places(n) as int == n
  {
  }

  lemma PlacesMeaning(n: nat)
    requires n <= 32
    ensures Places(n) as int == n
  {
    if n < 16 {
      PlacesLow(n);
    } else if n < 32 {
      PlacesHigh(n);
    }
  }

  function Shift(length: U8): bv6
    requires length <= 32
    ensures Shift(length) <= 32 && (length > 0 ==> Shift(length) < 32)
  {
    hide Places;
    PlacesMeaning(32 - length);
    Places(32 - length)
  }

  /** The mask of the code: the top `length` bits; a shift by 32 is avoided. */
  function Mask(length: U8): bv32
    requires length <= 32
  {
    if length == 0 then 0 else 0xFFFF_FFFF << Shift(length)
  }

  /** The top `length` bits of an address, as a number. */
  function Top(x: bv32, length: U8): bv32
    requires length <= 32
  {
    Above(x, Shift(length))
  }

  function Above(x: bv32, s: bv6): bv32
    requires s <= 32
  {
    x >> s
  }

  function Raise(x: bv32, s: bv6): bv32
    requires s <= 32
  {
    x << s
  }

  function Masked(x: bv32, s: bv6): bv32
    requires s <= 32
  {
    x & (0xFFFF_FFFF << s)
  }

  lemma MaskIsShift(a: bv32, s: bv6)
    requires s <= 32
    ensures Masked(a, s) == Raise(Above(a, s), s)
  {
  }

  lemma ShiftBack(a: bv32, s: bv6)
    requires s <= 32
    ensures Above(Raise(Above(a, s), s), s) == Above(a, s)
  {
  }

  lemma MaskMeaning(a: bv32, length: U8)
    requires length <= 32
    ensures a & Mask(length) == Masked(a, Shift(length))
  {
    hide Places;
    ShiftMeaning(length);
  }

  /** Comparing under the mask is comparing the top bits, for every length. */
  lemma MaskedEqual(a: bv32, b: bv32, length: U8)
    requires length <= 32
    ensures a & Mask(length) == b & Mask(length) <==> Top(a, length) == Top(b, length)
  {
    hide Masked, Raise, Above, Mask;
    var s := Shift(length);
    MaskMeaning(a, length);
    MaskMeaning(b, length);
    MaskIsShift(a, s);
    MaskIsShift(b, s);
    ShiftBack(a, s);
    ShiftBack(b, s);
  }

  /** Bit `i` of an address, counted from the high end. */
  predicate TopBit(x: bv32, i: nat)
    requires i < 32
  {
    hide Places;
    PlacesMeaning(31 - i);
    (x >> Places(31 - i)) & 1 == 1
  }

  /** The first `length` bits of two addresses agree. */
  ghost predicate SamePrefix(a: bv32, b: bv32, length: nat)
    requires length <= 32
  {
    forall i: nat :: i < length ==> (TopBit(a, i) <==> TopBit(b, i))
  }

  lemma ShiftMeaning(length: U8)
    requires length <= 32
    ensures Shift(length) as int == 32 - length
  {
    hide Places;
    PlacesMeaning(32 - length);
  }

  lemma ShiftStep(length: U8)
    requires 0 < length <= 32
    ensures Shift(length) < 32 && Shift(length - 1) == Next(Shift(length))
  {
    hide Shift;
    ShiftMeaning(length);
    ShiftMeaning(length - 1);
  }

  function Next(s: bv6): bv6 { s + 1 }

  function Half(x: bv32): bv32 { x >> 1 }

  predicate IsOdd(x: bv32) { x & 1 == 1 }

  lemma ShiftOnce(a: bv32, s: bv6)
    requires s < 32
    ensures Next(s) <= 32 && Above(a, Next(s)) == Half(Above(a, s))
  {
  }

  lemma LowBit(x: bv32, y: bv32)
    ensures x == y <==> Half(x) == Half(y) && (IsOdd(x) <==> IsOdd(y))
  {
  }

  lemma TopBitAbove(a: bv32, length: U8)
    requires 0 < length <= 32
    ensures TopBit(a, length - 1) <==> IsOdd(Above(a, Shift(length)))
  {
    hide Places;
    assert 31 - (length - 1) == 32 - length;
  }

  lemma TopOfNothing(a: bv32)
    ensures Top(a, 0) == 0
  {
    ShiftMeaning(0);
  }

  /** One more top bit. */
  lemma TopStep(a: bv32, b: bv32, length: U8)
    requires 0 < length <= 32
    ensures Top(a, length) == Top(b, length) <==>
            Top(a, length - 1) == Top(b, length - 1) && (TopBit(a, length - 1) <==> TopBit(b, length - 1))
  {
    hide Above, TopBit, Shift, Half, IsOdd, Next;
    var s := Shift(length);
    ShiftStep(length);
    ShiftOnce(a, s);
    ShiftOnce(b, s);
    TopBitAbove(a, length);
    TopBitAbove(b, length);
    LowBit(Above(a, s), Above(b, s));
  }

  /** The number of the top bits is the same exactly if they agree one by one. */
  lemma {:induction false} TopMeaning(a: bv32, b: bv32, length: U8)
    requires length <= 32
    ensures Top(a, length) == Top(b, length) <==> SamePrefix(a, b, length)
  {
    hide Top, TopBit;
    if length == 0 {
      TopOfNothing(a);
      TopOfNothing(b);
    } else {
      TopMeaning(a, b, length - 1);
      TopStep(a, b, length);
    }
  }

  /** The test of the code: the masked addresses are equal exactly if their first `length` bits
      are, one by one. */
  predicate SameUnderMask(a: bv32, b: bv32, length: U8)
    requires length <= 32
    ensures SameUnderMask(a, b, length) <==> SamePrefix(a, b, length)
    ensures SameUnderMask(a, b, length) <==> Top(a, length) == Top(b, length)
  {
    hide Mask, Top, SamePrefix;
    MaskedEqual(a, b, length);
    TopMeaning(a, b, length);
    a & Mask(length) == b & Mask(length)
  }
}

/** Longest-prefix-match forwarding: src/router.cc. */
module Routers {
  import opened Common
  import opened AddressBits

  datatype Route = Route(prefix: bv32, prefixLength: U8, nextHop: Option<bv32>, interfaceNum: nat)

  /** The top `prefixLength` bits of the destination are those of the prefix. A route longer
      than an address is never installed and matches nothing. */
  predicate Matches(r: Route, destination: bv32)
  {
    r.prefixLength <= 32 && Top(destination, r.prefixLength) == Top(r.prefix, r.prefixLength)
  }

  /** What a route stands for: the first `prefixLength` bits of the destination are those of the
      prefix, one by one. */
  ghost predicate Covers(r: Route, destination: bv32)
  {
    r.prefixLength <= 32 && SamePrefix(destination, r.prefix, r.prefixLength)
  }

  lemma MatchesMeaning(r: Route, destination: bv32)
    ensures Matches(r, destination) <==> Covers(r, destination)
  {
    hide Top, SamePrefix;
    if r.prefixLength <= 32 {
      TopMeaning(destination, r.prefix, r.prefixLength);
    }
  }

  ghost predicate Sorted(routes: seq<Route>)
  {
    forall i, j :: 0 <= i < j < |routes| ==> routes[i].prefixLength >= routes[j].prefixLength
  }

  // ----- the reference: longest match, the earliest added among equals

  ghost function Better(best: Option<Route>, r: Route, destination: bv32): Option<Route>
  {
    if Matches(r, destination) && (best.None? || best.value.prefixLength < r.prefixLength) then Some(r) else best
  }

  ghost function BestMatch(added: seq<Route>, destination: bv32): Option<Route>
  {
    if added == [] then None
    else Better(BestMatch(added[..|added| - 1], destination), added[|added| - 1], destination)
  }

  /** A longest match, and every match added before it is strictly shorter. */
  ghost predicate IsBest(added: seq<Route>, i: nat, destination: bv32)
  {
    && i < |added| && Matches(added[i], destination)
    && forall j :: 0 <= j < |added| && Matches(added[j], destination) ==>
         added[j].prefixLength <= added[i].prefixLength && (j < i ==> added[j].prefixLength < added[i].prefixLength)
  }

  lemma {:induction false} BestMatchExists(added: seq<Route>, destination: bv32)
    ensures BestMatch(added, destination).None? <==> forall i :: 0 <= i < |added| ==> !Matches(added[i], destination)
    ensures BestMatch(added, destination).Some? ==>
              exists i: nat :: i < |added| && IsBest(added, i, destination)
                               && added[i] == BestMatch(added, destination).value
  {
    hide Matches, IsBest;
    if added != [] {
      var front, r := added[..|added| - 1], added[|added| - 1];
      BestMatchExists(front, destination);
      if BestMatch(front, destination).Some? {
        var i: nat :| i < |front| && IsBest(front, i, destination) && front[i] == BestMatch(front, destination).value;
        BestAfter(added, i, destination);
      } else {
        OnlyMatch(added, front, destination);
      }
    }
  }

  /** A route that covers the destination, none longer does, and none as long was added before. */
  ghost predicate LongestFirst(added: seq<Route>, i: nat, destination: bv32)
  {
    && i < |added| && Covers(added[i], destination)
    && forall j :: 0 <= j < |added| && Covers(added[j], destination) ==>
         added[j].prefixLength <= added[i].prefixLength && (j < i ==> added[j].prefixLength < added[i].prefixLength)
  }

  /** No route is found exactly when none covers the destination, bit by bit; otherwise a longest
      one is, and every one added before it that covers it is strictly shorter. */
  lemma BestMatchMeaning(added: seq<Route>, destination: bv32)
    ensures BestMatch(added, destination).None? <==> forall i :: 0 <= i < |added| ==> !Covers(added[i], destination)
    ensures BestMatch(added, destination).Some? ==>
              exists i: nat :: i < |added| && LongestFirst(added, i, destination)
                               && added[i] == BestMatch(added, destination).value
  {
    hide Matches, Covers, BestMatch;
    BestMatchExists(added, destination);
    forall i | 0 <= i < |added|
      ensures Matches(added[i], destination) <==> Covers(added[i], destination)
    {
      MatchesMeaning(added[i], destination);
    }
    if BestMatch(added, destination).Some? {
      var i: nat :| i < |added| && IsBest(added, i, destination) && added[i] == BestMatch(added, destination).value;
      assert LongestFirst(added, i, destination);
    }
  }

  lemma BestAfter(added: seq<Route>, i: nat, destination: bv32)
    requires added != [] && IsBest(added[..|added| - 1], i, destination)
    ensures var r := added[|added| - 1];
            if Matches(r, destination) && r.prefixLength > added[i].prefixLength
            then IsBest(added, |added| - 1, destination)
            else IsBest(added, i, destination)
    ensures i < |added| - 1 && Matches(added[i], destination)
  {
    hide Matches;
    var front := added[..|added| - 1];
    forall j | 0 <= j < |added| - 1
      ensures added[j] == front[j]
    {
    }
  }

  lemma OnlyMatch(added: seq<Route>, front: seq<Route>, destination: bv32)
    requires added != [] && front == added[..|added| - 1]
    requires forall i :: 0 <= i < |front| ==> !Matches(front[i], destination)
    ensures Matches(added[|added| - 1], destination) ==> IsBest(added, |added| - 1, destination)
    ensures forall i :: 0 <= i < |added| - 1 ==> !Matches(added[i], destination)
  {
    hide Matches;
    assert forall i :: 0 <= i < |front| ==> added[i] == front[i];
  }

  /** What the scan returns: the first match in the table. */
  ghost function FirstMatch(routes: seq<Route>, destination: bv32): Option<Route>
  {
    if routes == [] then None
    else if Matches(routes[0], destination) then Some(routes[0])
    else FirstMatch(routes[1..], destination)
  }

  /** Inserting after the routes at least as long keeps the first match the best match. */
  lemma {:induction false} InsertBest(routes: seq<Route>, pos: nat, r: Route, destination: bv32)
    requires Sorted(routes) && pos <= |routes|
    requires forall i :: 0 <= i < pos ==> routes[i].prefixLength >= r.prefixLength
    requires forall i :: pos <= i < |routes| ==> routes[i].prefixLength < r.prefixLength
    ensures FirstMatch(routes[..pos] + [r] + routes[pos..], destination)
            == Better(FirstMatch(routes, destination), r, destination)
  {
    var inserted := routes[..pos] + [r] + routes[pos..];
    if pos == 0 {
      assert inserted[1..] == routes;
      FirstMatchIsShort(routes, r, destination);
    } else {
      assert inserted[1..] == routes[1..][..pos - 1] + [r] + routes[1..][pos - 1..];
      InsertBest(routes[1..], pos - 1, r, destination);
    }
  }

  lemma InsertSorted(routes: seq<Route>, pos: nat, r: Route)
    requires Sorted(routes) && pos <= |routes|
    requires forall i :: 0 <= i < pos ==> routes[i].prefixLength >= r.prefixLength
    requires forall i :: pos <= i < |routes| ==> routes[i].prefixLength < r.prefixLength
    ensures Sorted(routes[..pos] + [r] + routes[pos..])
  {
  }

  lemma TooLong(r: Route)
    requires r.prefixLength > 32
    ensures forall d :: !Matches(r, d)
  {
  }

  lemma {:induction false} FirstMatchIsShort(routes: seq<Route>, r: Route, destination: bv32)
    requires forall i :: 0 <= i < |routes| ==> routes[i].prefixLength < r.prefixLength
    ensures FirstMatch(routes, destination).Some? ==>
              FirstMatch(routes, destination).value.prefixLength < r.prefixLength
  {
    if routes != [] && !Matches(routes[0], destination) {
      FirstMatchIsShort(routes[1..], r, destination);
    }
  }

  class Router {
    var routes: seq<Route>
    /** Every route ever given to AddRoute, in order. */
    ghost var added: seq<Route>

    /** The table is sorted and its first match is always the best of all routes added. */
    ghost predicate Valid()
      reads this
    {
      && Sorted(routes)
      && (forall i :: 0 <= i < |routes| ==> routes[i].prefixLength <= 32)
      && forall d :: FirstMatch(routes, d) == BestMatch(added, d)
    }

    constructor ()
      ensures Valid() && added == []
    {
      routes, added := [], [];
    }

    /** std::ranges::upper_bound with the descending order. */
    method UpperBound(prefixLength: U8) returns (pos: nat)
      requires Sorted(routes)
      ensures pos <= |routes|
      ensures forall i :: 0 <= i < pos ==> routes[i].prefixLength >= prefixLength
      ensures forall i :: pos <= i < |routes| ==> routes[i].prefixLength < prefixLength
    {
      pos := 0;
      var end := |routes|;
      while pos < end
        invariant pos <= end <= |routes|
        invariant forall i :: 0 <= i < pos ==> routes[i].prefixLength >= prefixLength
        invariant forall i :: end <= i < |routes| ==> routes[i].prefixLength < prefixLength
      {
        var mid := (pos + end) / 2;
        if routes[mid].prefixLength >= prefixLength {
          pos := mid + 1;
        } else {
          end := mid;
        }
      }
    }

    method AddRoute(prefix: bv32, prefixLength: U8, nextHop: Option<bv32>, interfaceNum: nat)
      requires Valid()
      modifies this
      ensures Valid() && added == old(added) + [Route(prefix, prefixLength, nextHop, interfaceNum)]
    {
      hide Matches, FirstMatch;
      var entry := Route(prefix, prefixLength, nextHop, interfaceNum);
      ghost var before := added;
      added := added + [entry];
      assert added[..|before|] == before;
      if prefixLength > 32 {
        TooLong(entry);
        return;
      }
      var pos := UpperBound(prefixLength);
      forall d
        ensures FirstMatch(routes[..pos] + [entry] + routes[pos..], d) == BestMatch(added, d)
      {
        InsertBest(routes, pos, entry, d);
      }
      InsertSorted(routes, pos, entry);
      routes := routes[..pos] + [entry] + routes[pos..];
    }

    /** The scan finds, among all routes ever added, the longest match, the earliest among
        equals, and none exactly when no route matches. */
    method FindRoute(destination: bv32) returns (route: Option<Route>)
      requires Valid()
      ensures route == BestMatch(added, destination)
    {
      hide SameUnderMask, Top;
      var i := 0;
      assert routes[0..] == routes;
      while i < |routes|
        invariant i <= |routes|
        invariant FirstMatch(routes[i..], destination) == BestMatch(added, destination)
      {
        if SameUnderMask(destination, routes[i].prefix, routes[i].prefixLength) {
          return Some(routes[i]);
        }
        assert routes[i..][1..] == routes[i + 1..];
        i := i + 1;
      }
      return None;
    }
  }
}
