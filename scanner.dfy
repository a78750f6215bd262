/**
  The mismatch scanner of the basic paired-read aligner: a brute-force
  Hamming-distance search of a read against a reference string.

  A scan over the candidate offsets [lo, hi) keeps a running minimum that is
  replaced only on a strictly smaller count, so it reports the EARLIEST offset
  of least mismatch, or the sentinel (|read| + 1, -1) when it tries no offset.
*/
module Scanner {

  /** A front count at or above this bound skips the back search. */
  const EarlyExitBound: nat := 10
  /** The back window is [frontLoc + WindowStart, frontLoc + WindowEnd). */
  const WindowStart: nat := 130
  const WindowEnd: nat := 170

  /** A running minimum: a mismatch count and the offset where it was found. */
  datatype Best = Best(count: nat, loc: int)

  /** What the scanner returns for one pair: front count and location, back count and location. */
  datatype Alignment = Alignment(frontCount: nat, frontLoc: int, backCount: nat, backLoc: int)

  /** Number of positions j < |read| where read[j] differs from ref[off + j]. */
  function Mismatches(read: string, ref: string, off: nat): (r: nat)
    requires off + |read| <= |ref|
    ensures r <= |read|
    decreases |read|
  {
    if read == [] then 0
    else (if read[0] != ref[off] then 1 else 0) + Mismatches(read[1..], ref, off + 1)
  }

  /** The count at an offset is zero exactly when the read occurs there verbatim. */
  lemma {:induction false} MismatchesZero(read: string, ref: string, off: nat)
    requires off + |read| <= |ref|
    ensures Mismatches(read, ref, off) == 0 <==> ref[off..off + |read|] == read
    decreases |read|
  {
    if read != [] {
      MismatchesZero(read[1..], ref, off + 1);
      assert ref[off..off + |read|] == [ref[off]] + ref[off + 1..off + 1 + |read[1..]|];
    }
  }

  /** Every candidate offset below hi leaves room for the whole read. */
  predicate FitsBelow(read: string, ref: string, hi: int)
  {
    hi + |read| <= |ref| + 1
  }

  /** (count, loc) is the least mismatch count over [lo, hi) and loc its earliest offset. */
  ghost predicate IsEarliestMin(read: string, ref: string, lo: nat, hi: int, count: nat, loc: int)
    requires FitsBelow(read, ref, hi)
  {
    && lo <= loc < hi
    && count == Mismatches(read, ref, loc)
    && (forall i :: lo <= i < hi ==> count <= Mismatches(read, ref, i))
    && (forall i :: lo <= i < loc ==> count < Mismatches(read, ref, i))
  }

  /** The outcome a scan of [lo, hi) must have: the sentinel when the range is empty. */
  ghost predicate ScanOutcome(read: string, ref: string, lo: nat, hi: int, b: Best)
  {
    if hi <= lo then b == Best(|read| + 1, -1)
    else FitsBelow(read, ref, hi) && IsEarliestMin(read, ref, lo, hi, b.count, b.loc)
  }

  /**
    Reference definition of a scan of [lo, hi): the first offset wins unless a
    later one is strictly better.
  */
  function BestIn(read: string, ref: string, lo: nat, hi: int): (b: Best)
    requires FitsBelow(read, ref, hi)
    ensures ScanOutcome(read, ref, lo, hi, b)
    decreases hi - lo
  {
    if hi <= lo then Best(|read| + 1, -1)
    else
      var rest := BestIn(read, ref, lo + 1, hi);
      ScanPrepend(read, ref, lo, hi, rest);
      var n := Mismatches(read, ref, lo);
      if n <= rest.count then Best(n, lo) else rest
  }

  /** Putting offset lo in front of a scan of [lo + 1, hi) wins unless the rest is strictly better. */
  lemma ScanPrepend(read: string, ref: string, lo: nat, hi: int, rest: Best)
    requires lo < hi && FitsBelow(read, ref, hi)
    requires ScanOutcome(read, ref, lo + 1, hi, rest)
    ensures var n := Mismatches(read, ref, lo);
      ScanOutcome(read, ref, lo, hi, if n <= rest.count then Best(n, lo) else rest)
  {
  }

  /** A scan outcome is determined by the read, the reference and the range. */
  lemma ScanOutcomeUnique(read: string, ref: string, lo: nat, hi: int, b1: Best, b2: Best)
    requires ScanOutcome(read, ref, lo, hi, b1) && ScanOutcome(read, ref, lo, hi, b2)
    ensures b1 == b2
  {
  }

  /** One more offset hi, accepted only on a strictly smaller count, extends a scan of [lo, hi). */
  lemma ScanStep(read: string, ref: string, lo: nat, hi: nat, b: Best)
    requires lo <= hi && hi + |read| <= |ref|
    requires ScanOutcome(read, ref, lo, hi, b)
    ensures var n := Mismatches(read, ref, hi);
      ScanOutcome(read, ref, lo, hi + 1, if n < b.count then Best(n, hi) else b)
  {
    // Dafny can find this proof unaided, but on some solver seeds only at
    // several times the cost; the case split below keeps it cheap.
    var n := Mismatches(read, ref, hi);
    if hi == lo {
      assert b.count == |read| + 1 > n;
    } else if n < b.count {
      forall i | lo <= i < hi ensures n < Mismatches(read, ref, i) {
        assert b.count <= Mismatches(read, ref, i);
      }
    } else {
      forall i | lo <= i < hi + 1 ensures b.count <= Mismatches(read, ref, i) {
        if i < hi {
          assert IsEarliestMin(read, ref, lo, hi, b.count, b.loc);
        }
      }
    }
  }

  /** End of the back window, clipped so the back read stays inside the reference. */
  function BackHi(back: string, ref: string, frontLoc: int): (hi: int)
    ensures FitsBelow(back, ref, hi)
    ensures hi <= frontLoc + WindowEnd
  {
    if frontLoc + WindowEnd <= |ref| - |back| + 1 then frontLoc + WindowEnd else |ref| - |back| + 1
  }

  /** The read occurs verbatim in the reference at offset j. */
  predicate OccursAt(read: string, ref: string, j: int)
  {
    0 <= j && j + |read| <= |ref| && ref[j..j + |read|] == read
  }

  /** Offset e is one the back loop examines: inside the window and fitting in the reference. */
  predicate InBackWindow(back: string, ref: string, frontLoc: int, e: int)
  {
    0 <= e && frontLoc + WindowStart <= e < frontLoc + WindowEnd && e + |back| <= |ref|
  }

  /**
    What scanning a pair yields: the front read over offsets [0, |ref| - |front|),
    then, unless the front count reaches EarlyExitBound, the back read over its window.
  */
  function ScanPair(front: string, back: string, ref: string): (a: Alignment)
  {
    var f := BestIn(front, ref, 0, |ref| - |front|);
    if f.count >= EarlyExitBound then Alignment(f.count, f.loc, 0, -1)
    else
      var b := BestIn(back, ref, f.loc + WindowStart, BackHi(back, ref, f.loc));
      Alignment(f.count, f.loc, b.count, b.loc)
  }

  /**
    The front result is the sentinel (|front| + 1, -1) when no offset fits
    before the last one, and otherwise the earliest least-mismatch offset over
    [0, |ref| - |front|). A front count of EarlyExitBound or more gives the
    back result (0, -1); a smaller one gives the scan outcome of the back read
    over [frontLoc + WindowStart, BackHi).
  */
  lemma ScanPairSpec(front: string, back: string, ref: string)
    ensures var a := ScanPair(front, back, ref);
      && (|ref| <= |front| ==> a.frontCount == |front| + 1 && a.frontLoc == -1)
      && (|ref| > |front| ==> IsEarliestMin(front, ref, 0, |ref| - |front|, a.frontCount, a.frontLoc))
      && (a.frontCount >= EarlyExitBound ==> a.backCount == 0 && a.backLoc == -1)
      && (a.frontCount < EarlyExitBound ==>
            a.frontLoc >= -1
            && ScanOutcome(back, ref, a.frontLoc + WindowStart, BackHi(back, ref, a.frontLoc), Best(a.backCount, a.backLoc)))
  {
  }

  /**
    The scanner as written: a front loop over range(|ref| - |front|), the early
    exit, then a back loop over k in [130, 170) that breaks at the first offset
    where the back read would run past the reference.
  */
  method MismatchifyPair(front: string, back: string, ref: string)
    returns (frontCount: nat, frontLoc: int, backCount: nat, backLoc: int)
    ensures Alignment(frontCount, frontLoc, backCount, backLoc) == ScanPair(front, back, ref)
  {
    frontCount, frontLoc := |front| + 1, -1;
    var i := 0;
    while i < |ref| - |front|
      invariant i == 0 || i <= |ref| - |front|
      invariant ScanOutcome(front, ref, 0, i, Best(frontCount, frontLoc))
    {
      ScanStep(front, ref, 0, i, Best(frontCount, frontLoc));
      var n := Mismatches(front, ref, i);
      if n < frontCount {
        frontCount, frontLoc := n, i;
      }
      i := i + 1;
    }
    ScanOutcomeUnique(front, ref, 0, |ref| - |front|, Best(frontCount, frontLoc), BestIn(front, ref, 0, |ref| - |front|));
    if frontCount >= EarlyExitBound {
      return frontCount, frontLoc, 0, -1;
    }

    assert frontLoc >= -1;
    var lo: nat := frontLoc + WindowStart;
    backCount, backLoc := |back| + 1, -1;
    var k := WindowStart;
    while k < WindowEnd
      invariant WindowStart <= k <= WindowEnd
      invariant k == WindowStart || frontLoc + k - 1 + |back| <= |ref|
      invariant ScanOutcome(back, ref, lo, frontLoc + k, Best(backCount, backLoc))
    {
      var endpoint: nat := frontLoc + k;
      if endpoint + |back| > |ref| {
        break;
      }
      ScanStep(back, ref, lo, endpoint, Best(backCount, backLoc));
      var n := Mismatches(back, ref, endpoint);
      if n < backCount {
        backCount, backLoc := n, endpoint;
      }
      k := k + 1;
    }
    var hi := BackHi(back, ref, frontLoc);
    if lo < hi {
      assert frontLoc + k == hi;
    }
    ScanOutcomeUnique(back, ref, lo, hi, Best(backCount, backLoc), BestIn(back, ref, lo, hi));
  }

  /** A front location that is not the sentinel is a tried offset, with at most |front| mismatches. */
  lemma FrontBounds(front: string, back: string, ref: string)
    ensures var a := ScanPair(front, back, ref);
      |ref| > |front| ==> 0 <= a.frontLoc < |ref| - |front| && a.frontCount <= |front|
  {
  }

  /**
    The front loop never tries the last fitting offset |ref| - |front|: a front
    read that occurs exactly only there is reported with a nonzero count.
  */
  lemma LastFrontOffsetSkipped(front: string, back: string, ref: string)
    requires OccursAt(front, ref, |ref| - |front|)
    requires forall j :: 0 <= j < |ref| - |front| ==> !OccursAt(front, ref, j)
    ensures ScanPair(front, back, ref).frontCount > 0
  {
    var a := ScanPair(front, back, ref);
    if |ref| > |front| {
      assert !OccursAt(front, ref, a.frontLoc);
      MismatchesZero(front, ref, a.frontLoc);
    }
  }

  /** An exact occurrence of the read at k, with none earlier in [lo, k), makes the scan return (0, k). */
  lemma ExactMatchFound(read: string, ref: string, lo: nat, hi: int, k: nat)
    requires FitsBelow(read, ref, hi) && lo <= k < hi
    requires OccursAt(read, ref, k)
    requires forall j :: lo <= j < k ==> !OccursAt(read, ref, j)
    ensures BestIn(read, ref, lo, hi) == Best(0, k)
  {
    var b := BestIn(read, ref, lo, hi);
    MismatchesZero(read, ref, k);
    MismatchesZero(read, ref, b.loc);
    assert OccursAt(read, ref, b.loc);
  }

  /** The offsets the back scan covers are exactly those satisfying InBackWindow. */
  lemma BackWindowExact(back: string, ref: string, frontLoc: int, e: int)
    requires frontLoc >= -1
    ensures InBackWindow(back, ref, frontLoc, e) <==> frontLoc + WindowStart <= e < BackHi(back, ref, frontLoc)
  {
  }

  /**
    When the front count is below EarlyExitBound, the back result is the
    earliest least-mismatch offset among the window offsets, or the sentinel
    (|back| + 1, -1) when no window offset fits.
  */
  lemma BackMinimum(front: string, back: string, ref: string)
    ensures var a := ScanPair(front, back, ref);
      a.frontCount < EarlyExitBound ==>
        if a.backLoc == -1 then
          a.backCount == |back| + 1 && forall e :: !InBackWindow(back, ref, a.frontLoc, e)
        else
          && InBackWindow(back, ref, a.frontLoc, a.backLoc)
          && a.backCount == Mismatches(back, ref, a.backLoc)
          && (forall e :: InBackWindow(back, ref, a.frontLoc, e) ==> a.backCount <= Mismatches(back, ref, e))
          && (forall e :: InBackWindow(back, ref, a.frontLoc, e) && e < a.backLoc ==> a.backCount < Mismatches(back, ref, e))
  {
    var a := ScanPair(front, back, ref);
    if a.frontCount < EarlyExitBound {
      forall e ensures InBackWindow(back, ref, a.frontLoc, e) <==> a.frontLoc + WindowStart <= e < BackHi(back, ref, a.frontLoc) {
        BackWindowExact(back, ref, a.frontLoc, e);
      }
    }
  }

  /**
    With no front offset to try, the front result is the sentinel; unless that
    already triggers the early exit, the back window cannot fit either.
  */
  lemma DegenerateFront(front: string, back: string, ref: string)
    requires |ref| <= |front|
    ensures ScanPair(front, back, ref) ==
      if |front| + 1 >= EarlyExitBound then Alignment(|front| + 1, -1, 0, -1)
      else Alignment(|front| + 1, -1, |back| + 1, -1)
  {
  }
}
