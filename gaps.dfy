// The gap calculation of emitDone (cmd/root.go): which block heights the
// ingester asks the node for, given a snapshot of the heights already stored
// for the chain and the chain tip observed at start.

module Gaps {

  /** s is in ascending order (what sort.Ints leaves behind). */
  predicate Sorted(s: seq<int>)
  {
    forall p, q :: 0 <= p < q < |s| ==> s[p] <= s[q]
  }

  /** The smallest element of a non-empty sequence. */
  function Min(s: seq<int>): (m: int)
    requires |s| > 0
    ensures m in s
    ensures forall h :: h in s ==> m <= h
  {
    if |s| == 1 then s[0]
    else
      var rest := Min(s[1..]);
      assert forall h :: h in s ==> h == s[0] || h in s[1..];
      if s[0] <= rest then s[0] else rest
  }

  /** The height the scan starts from: 1 when nothing is stored for the
      chain, otherwise the lowest stored height. */
  function StartHeight(heights: seq<int>): (start: int)
    ensures |heights| == 0 ==> start == 1
    ensures |heights| > 0 ==> start in heights
    ensures forall h :: h in heights ==> start <= h
  {
    if |heights| == 0 then 1 else Min(heights)
  }

  /** The set `contains` tests against as written: the valid indices of the
      slice, not its values. */
  function Indices(s: seq<int>): (r: set<int>)
    ensures forall i :: i in r <==> 0 <= i < |s|
  {
    if |s| == 0 then {} else Indices(s[..|s| - 1]) + {|s| - 1}
  }

  /** The set of heights the slice holds. */
  function Stored(s: seq<int>): set<int>
  {
    set h | h in s
  }

  /** Heights lo, lo+1, ..., tip, in that order, leaving out those in present. */
  function Missing(lo: int, tip: int, present: set<int>): (r: seq<int>)
    ensures forall k :: 0 <= k < |r| ==> lo <= r[k] <= tip && r[k] !in present
    decreases tip - lo
  {
    if tip < lo then []
    else (if lo in present then [] else [lo]) + Missing(lo + 1, tip, present)
  }

  /** The heights emitDone requests, as the code is written: every height
      from the start height to the tip that is not a valid index of the
      stored-height slice. */
  function Requests(heights: seq<int>, chainTip: int): (r: seq<int>)
    ensures forall k :: 0 <= k < |r| ==>
      StartHeight(heights) <= r[k] <= chainTip && !(0 <= r[k] < |heights|)
  {
    Missing(StartHeight(heights), chainTip, Indices(heights))
  }

  /** The heights the comments promise: every height from the start height
      to the tip that is not stored. */
  function GapHeights(heights: seq<int>, chainTip: int): (r: seq<int>)
    ensures forall k :: 0 <= k < |r| ==> StartHeight(heights) <= r[k] <= chainTip && r[k] !in heights
  {
    Missing(StartHeight(heights), chainTip, Stored(heights))
  }

  // ---------------------------------------------------------------------
  // The `contains` closure, as written and as its comment describes it.

  /** The `contains` closure as written: it ranges over the indices of
      inSlice and compares each index, not the element, with checkFor. */
  method Contains(checkFor: int, inSlice: seq<int>) returns (found: bool)
    ensures found <==> 0 <= checkFor < |inSlice|
  {
    var i := 0;
    while i < |inSlice|
      invariant 0 <= i <= |inSlice|
      invariant !(0 <= checkFor < i)
    {
      if i == checkFor {
        return true;
      }
      i := i + 1;
    }
    return false;
  }

  /** The `contains` closure as its comment describes it: whether checkFor
      is one of the heights in inSlice. */
  method ContainsHeight(checkFor: int, inSlice: seq<int>) returns (found: bool)
    ensures found <==> checkFor in inSlice
  {
    var i := 0;
    while i < |inSlice|
      invariant 0 <= i <= |inSlice|
      invariant checkFor !in inSlice[..i]
    {
      if inSlice[i] == checkFor {
        return true;
      }
      i := i + 1;
    }
    return false;
  }

  // ---------------------------------------------------------------------
  // sort.Ints and the start height.

  /** sort.Ints: sorts the slice in place into ascending order. */
  method SortInts(a: array<int>)
    modifies a
    ensures Sorted(a[..])
    ensures multiset(a[..]) == multiset(old(a[..]))
  {
    if a.Length == 0 {
      return;
    }
    var i := 1;
    while i < a.Length
      invariant 1 <= i <= a.Length
      invariant Sorted(a[..i])
      invariant multiset(a[..]) == multiset(old(a[..]))
    {
      InsertAt(a, i);
      i := i + 1;
    }
    assert a[..i] == a[..];
  }

  /** One step of insertion sort: moves a[i] down into the sorted prefix
      a[..i], leaving a[i+1..] alone. */
  method InsertAt(a: array<int>, i: int)
    requires 0 < i < a.Length
    requires Sorted(a[..i])
    modifies a
    ensures Sorted(a[..i + 1])
    ensures multiset(a[..]) == multiset(old(a[..]))
    ensures a[i + 1..] == old(a[i + 1..])
  {
    var j := i;
    while j > 0 && a[j - 1] > a[j]
      invariant 0 <= j <= i
      invariant a[i + 1..] == old(a[i + 1..])
      invariant forall p, q :: 0 <= p < q <= i && q != j ==> a[p] <= a[q]
      invariant 0 < j < i ==> a[j - 1] <= a[j + 1]
      invariant multiset(a[..]) == multiset(old(a[..]))
    {
      a[j - 1], a[j] := a[j], a[j - 1];
      j := j - 1;
    }
  }

  /** After sorting, the first element is the lowest height of the snapshot. */
  lemma SortedHeadIsMin(t: seq<int>, s: seq<int>)
    requires Sorted(t) && multiset(t) == multiset(s) && |s| > 0
    ensures |t| > 0 && t[0] == Min(s)
  {
    assert |t| == |multiset(t)| == |multiset(s)| == |s|;
    var m := Min(s);
    assert m in multiset(s);
    assert m in t;
    var k :| 0 <= k < |t| && t[k] == m;
    assert t[0] <= m;
    assert t[0] in multiset(t);
    assert t[0] in s;
  }

  // ---------------------------------------------------------------------
  // The corrected scan.

  /** The request loop with the membership test the comment describes:
      requests, in ascending order, every height from start to chainTip
      that heights does not hold. */
  method ScanMissing(start: int, chainTip: int, heights: seq<int>) returns (requests: seq<int>)
    ensures requests == Missing(start, chainTip, Stored(heights))
  {
    requests := [];
    var i := start;
    while i <= chainTip
      invariant requests + Missing(i, chainTip, Stored(heights)) == Missing(start, chainTip, Stored(heights))
      decreases chainTip - i
    {
      var present := ContainsHeight(i, heights);
      assert present <==> i in Stored(heights);
      if !present {
        requests := requests + [i];
      }
      i := i + 1;
    }
  }

  // ---------------------------------------------------------------------
  // Properties of the scan.

  /** A height is emitted exactly when it lies between lo and tip and is
      not present; nothing outside the range is touched. */
  lemma {:induction false} MissingMembership(lo: int, tip: int, present: set<int>, h: int)
    ensures h in Missing(lo, tip, present) <==> lo <= h <= tip && h !in present
    decreases tip - lo
  {
    if tip >= lo {
      MissingMembership(lo + 1, tip, present, h);
    }
  }

  /** Emitted heights are strictly increasing, so none is requested twice. */
  lemma {:induction false} MissingIncreasing(lo: int, tip: int, present: set<int>)
    ensures forall j, k :: 0 <= j < k < |Missing(lo, tip, present)| ==>
      Missing(lo, tip, present)[j] < Missing(lo, tip, present)[k]
    decreases tip - lo
  {
    if tip >= lo {
      MissingIncreasing(lo + 1, tip, present);
      var rest := Missing(lo + 1, tip, present);
      forall k | 0 <= k < |rest| ensures lo < rest[k] {
        MissingMembership(lo + 1, tip, present, rest[k]);
      }
    }
  }

  /** With nothing present, every height lo..tip is emitted in order. */
  lemma {:induction false} MissingNothingPresent(lo: int, tip: int)
    requires lo <= tip + 1
    ensures |Missing(lo, tip, {})| == tip - lo + 1
    ensures forall k :: 0 <= k < |Missing(lo, tip, {})| ==> Missing(lo, tip, {})[k] == lo + k
    decreases tip - lo
  {
    if tip >= lo {
      MissingNothingPresent(lo + 1, tip);
    }
  }

  /** With every height lo..tip present, nothing is emitted. */
  lemma {:induction false} MissingAllPresent(lo: int, tip: int, present: set<int>)
    requires forall h :: lo <= h <= tip ==> h in present
    ensures Missing(lo, tip, present) == []
    decreases tip - lo
  {
    if tip >= lo {
      MissingAllPresent(lo + 1, tip, present);
    }
  }

  /** The scan depends on present only inside lo..tip. */
  lemma {:induction false} MissingAgree(lo: int, tip: int, p: set<int>, q: set<int>)
    requires forall h :: lo <= h <= tip ==> (h in p <==> h in q)
    ensures Missing(lo, tip, p) == Missing(lo, tip, q)
    decreases tip - lo
  {
    if tip >= lo {
      MissingAgree(lo + 1, tip, p, q);
    }
  }

  /** A run of present heights at the bottom of the range is skipped. */
  lemma {:induction false} MissingSkipsPresentPrefix(lo: int, m: int, tip: int, present: set<int>)
    requires lo <= m
    requires forall h :: lo <= h < m ==> h in present
    ensures Missing(lo, tip, present) == Missing(m, tip, present)
    decreases m - lo
  {
    if lo < m {
      MissingSkipsPresentPrefix(lo + 1, m, tip, present);
      if tip < lo {
        assert Missing(m, tip, present) == [];
      }
    }
  }

  /** The corrected scan: a height is requested exactly when it lies
      between the start height and the tip and is not stored; the requests
      ascend strictly. */
  lemma GapHeightsCharacterised(heights: seq<int>, chainTip: int)
    ensures forall h :: h in GapHeights(heights, chainTip) <==>
      StartHeight(heights) <= h <= chainTip && h !in heights
    ensures forall j, k :: 0 <= j < k < |GapHeights(heights, chainTip)| ==>
      GapHeights(heights, chainTip)[j] < GapHeights(heights, chainTip)[k]
  {
    forall h ensures h in GapHeights(heights, chainTip) <==>
      StartHeight(heights) <= h <= chainTip && h !in heights
    {
      MissingMembership(StartHeight(heights), chainTip, Stored(heights), h);
    }
    MissingIncreasing(StartHeight(heights), chainTip, Stored(heights));
  }

  /** As written, the requests do not depend on which heights are stored:
      from a non-negative start they are every height from the larger of
      the start and the number of stored heights up to the tip. */
  lemma AsWrittenRequestsIgnoreStoredValues(heights: seq<int>, chainTip: int)
    requires StartHeight(heights) >= 0
    ensures var from := if StartHeight(heights) < |heights| then |heights| else StartHeight(heights);
      Requests(heights, chainTip) == Missing(from, chainTip, {})
  {
    var start := StartHeight(heights);
    var from := if start < |heights| then |heights| else start;
    forall h | start <= h < from ensures h in Indices(heights) {
    }
    MissingSkipsPresentPrefix(start, from, chainTip, Indices(heights));
    MissingAgree(from, chainTip, Indices(heights), {});
  }

  /** A store already holding exactly the heights 1..tip: the comment's
      scan requests nothing, but the code as written requests the tip
      height again. */
  lemma CaughtUpStoreRerequestsTip(heights: seq<int>, chainTip: int)
    requires chainTip >= 1 && |heights| == chainTip
    requires forall h :: h in heights <==> 1 <= h <= chainTip
    ensures GapHeights(heights, chainTip) == []
    ensures Requests(heights, chainTip) == [chainTip]
  {
    assert 1 in heights;
    assert StartHeight(heights) == 1;
    MissingAllPresent(1, chainTip, Stored(heights));
    AsWrittenRequestsIgnoreStoredValues(heights, chainTip);
    MissingNothingPresent(chainTip, chainTip);
  }

  /** A fresh store (no heights) requests every height 1..tip, both as
      written and as intended. */
  lemma FreshStoreRequestsAll(chainTip: int)
    requires chainTip >= 0
    ensures Requests([], chainTip) == GapHeights([], chainTip)
    ensures |GapHeights([], chainTip)| == chainTip
    ensures forall k :: 0 <= k < chainTip ==> GapHeights([], chainTip)[k] == k + 1
  {
    assert Indices([]) == {} && Stored([]) == {};
    MissingNothingPresent(1, chainTip);
  }

  /** The requests as written, in terms of the `contains` test: a height
      is requested exactly when it lies between the start height and the
      tip and is not a valid index of the snapshot; the requests ascend
      strictly, so none is sent twice. */
  lemma RequestsCharacterised(heights: seq<int>, chainTip: int)
    ensures forall h :: h in Requests(heights, chainTip) <==>
      StartHeight(heights) <= h <= chainTip && !(0 <= h < |heights|)
    ensures forall j, k :: 0 <= j < k < |Requests(heights, chainTip)| ==>
      Requests(heights, chainTip)[j] < Requests(heights, chainTip)[k]
  {
    forall h ensures h in Requests(heights, chainTip) <==>
      StartHeight(heights) <= h <= chainTip && !(0 <= h < |heights|)
    {
      MissingMembership(StartHeight(heights), chainTip, Indices(heights), h);
    }
    MissingIncreasing(StartHeight(heights), chainTip, Indices(heights));
  }

  /** A tip below the start height yields no requests. */
  lemma NothingRequestedBelowStart(heights: seq<int>, chainTip: int)
    requires chainTip < StartHeight(heights)
    ensures Requests(heights, chainTip) == [] && GapHeights(heights, chainTip) == []
  {
  }

  /** Heights [2, 3] stored, tip 5: the code as written asks for 2, 3, 4
      and 5, requesting both stored heights again. */
  lemma AsWrittenRerequestsStored()
    ensures Requests([2, 3], 5) == [2, 3, 4, 5]
  {
  }

  /** Heights [2, 3] stored, tip 5: the scan the comments describe starts at
      2 and asks for 4 and 5 only. */
  lemma IntendedSkipsStored()
    ensures GapHeights([2, 3], 5) == [4, 5]
  {
  }

  /** Heights [1, 3] stored, tip 4: as intended the scan from 1 asks for 2
      and 4; as written it asks for 2, 3 and 4. */
  lemma StoredOneThreeExample()
    ensures GapHeights([1, 3], 4) == [2, 4]
    ensures Requests([1, 3], 4) == [2, 3, 4]
  {
    var hs := [1, 3];
    assert StartHeight(hs) == 1;
    assert 1 in Stored(hs) && 2 !in Stored(hs) && 3 in Stored(hs) && 4 !in Stored(hs);
    assert Missing(4, 4, Stored(hs)) == [4];
    assert Missing(3, 4, Stored(hs)) == [4];
    assert Missing(2, 4, Stored(hs)) == [2, 4];
    MissingSkipsPresentPrefix(1, 2, 4, Indices(hs));
    MissingAgree(2, 4, Indices(hs), {});
    MissingNothingPresent(2, 4);
  }
}
