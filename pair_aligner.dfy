/**
  The pair aligner: runs the mismatch scanner on every read pair, in input
  order, with the back read reversed, and keeps the pairs whose combined
  front and back mismatch count is below Threshold. Accepted pairs go to two
  parallel outputs: their locations and their oriented reads.
*/
module PairAligner {
  import opened Scanner

  /** Acceptance bound on front + back mismatches. */
  const Threshold: nat := 7

  /** A paired-end read: the front fragment and the back fragment. */
  datatype ReadPair = ReadPair(front: string, back: string)

  /** One entry of the locations output: the front and back offsets. */
  datatype Locations = Locations(frontLoc: int, backLoc: int)

  /** The string read from the end to the start. */
  function Reverse(s: string): (r: string)
    ensures |r| == |s|
    ensures forall k :: 0 <= k < |s| ==> r[k] == s[|s| - 1 - k]
  {
    if s == [] then [] else Reverse(s[1..]) + [s[0]]
  }

  /** A pair as the aligner searches and reports it: the back read reversed. */
  function Orient(p: ReadPair): (o: ReadPair)
  {
    ReadPair(p.front, Reverse(p.back))
  }

  /** The scanner's result for one pair. */
  function PairAlignment(p: ReadPair, ref: string): (a: Alignment)
  {
    ScanPair(p.front, Reverse(p.back), ref)
  }

  /** A scan result is kept when its two mismatch counts add up to less than Threshold. */
  predicate Passes(a: Alignment)
  {
    a.frontCount + a.backCount < Threshold
  }

  /** The aligner keeps a pair when its scan result passes. */
  predicate Accepts(p: ReadPair, ref: string)
  {
    Passes(PairAlignment(p, ref))
  }

  /** The locations entry recorded for a scan result. */
  function Locate(a: Alignment): (l: Locations)
  {
    Locations(a.frontLoc, a.backLoc)
  }

  /** The locations recorded for a pair. */
  function LocationsOf(p: ReadPair, ref: string): (l: Locations)
  {
    Locate(PairAlignment(p, ref))
  }

  /** The scan result of every pair, in input order. */
  function Scans(pairs: seq<ReadPair>, ref: string): (s: seq<Alignment>)
    ensures |s| == |pairs|
  {
    seq(|pairs|, i requires 0 <= i < |pairs| => PairAlignment(pairs[i], ref))
  }

  /** Scanning one more pair appends its result. */
  lemma ScansSnoc(pairs: seq<ReadPair>, ref: string, i: nat)
    requires i < |pairs|
    ensures Scans(pairs[..i + 1], ref) == Scans(pairs[..i], ref) + [PairAlignment(pairs[i], ref)]
  {
  }

  /** The positions, in increasing order, of exactly the scan results that pass. */
  function KeptIndices(scans: seq<Alignment>): (idx: seq<nat>)
    ensures |idx| <= |scans|
    ensures forall j :: 0 <= j < |idx| ==> idx[j] < |scans| && Passes(scans[idx[j]])
    ensures forall j, k :: 0 <= j < k < |idx| ==> idx[j] < idx[k]
    ensures forall i :: 0 <= i < |scans| && Passes(scans[i]) ==> i in idx
    decreases |scans|
  {
    if scans == [] then []
    else
      var prefix := scans[..|scans| - 1];
      var prev := KeptIndices(prefix);
      assert forall j :: 0 <= j < |prev| ==> scans[prev[j]] == prefix[prev[j]];
      if Passes(scans[|scans| - 1]) then prev + [|scans| - 1] else prev
  }

  /** Scanning one more result appends its position when it passes. */
  lemma KeptIndicesSnoc(scans: seq<Alignment>, i: nat)
    requires i < |scans|
    ensures KeptIndices(scans[..i + 1]) == KeptIndices(scans[..i]) + if Passes(scans[i]) then [i] else []
  {
    assert scans[..i + 1][..i] == scans[..i];
  }

  /** The positions, in increasing order, of the accepted pairs. */
  function AcceptedIndices(pairs: seq<ReadPair>, ref: string): (idx: seq<nat>)
  {
    KeptIndices(Scans(pairs, ref))
  }

  /**
    AcceptedIndices lists each accepted pair once, in input order, and no
    other pair; so there are at most as many accepted pairs as input pairs.
  */
  lemma AcceptedIndicesExact(pairs: seq<ReadPair>, ref: string)
    ensures var idx := AcceptedIndices(pairs, ref);
      && |idx| <= |pairs|
      && (forall j :: 0 <= j < |idx| ==> idx[j] < |pairs| && Accepts(pairs[idx[j]], ref))
      && (forall j, k :: 0 <= j < k < |idx| ==> idx[j] < idx[k])
      && (forall i :: 0 <= i < |pairs| ==> (Accepts(pairs[i], ref) <==> i in idx))
  {
  }

  /** The locations entries of the scan results that pass, in order. */
  function KeptLocations(scans: seq<Alignment>): (locs: seq<Locations>)
    decreases |scans|
  {
    if scans == [] then []
    else
      var a := scans[|scans| - 1];
      KeptLocations(scans[..|scans| - 1]) + if Passes(a) then [Locate(a)] else []
  }

  /** The oriented reads of the pairs whose scan results pass, in order. */
  function KeptReads(pairs: seq<ReadPair>, scans: seq<Alignment>): (out: seq<ReadPair>)
    requires |pairs| == |scans|
    decreases |scans|
  {
    if scans == [] then []
    else
      var n := |scans| - 1;
      KeptReads(pairs[..n], scans[..n]) + if Passes(scans[n]) then [Orient(pairs[n])] else []
  }

  /** Handling one more scan result appends its entries to both outputs when it passes. */
  lemma KeptSnoc(pairs: seq<ReadPair>, scans: seq<Alignment>, a: Alignment)
    requires |scans| < |pairs|
    ensures KeptLocations(scans + [a]) == KeptLocations(scans) + if Passes(a) then [Locate(a)] else []
    ensures KeptReads(pairs[..|scans| + 1], scans + [a])
         == KeptReads(pairs[..|scans|], scans) + if Passes(a) then [Orient(pairs[|scans|])] else []
  {
    var n := |scans|;
    assert (scans + [a])[..n] == scans;
    assert pairs[..n + 1][..n] == pairs[..n];
  }

  /**
    Entry j of both kept outputs belongs to the j-th passing position: its
    locations and the oriented reads of the pair there.
  */
  lemma {:induction false} KeptOutputsAt(pairs: seq<ReadPair>, scans: seq<Alignment>)
    requires |pairs| == |scans|
    ensures var idx := KeptIndices(scans);
      && |KeptLocations(scans)| == |KeptReads(pairs, scans)| == |idx|
      && forall j :: 0 <= j < |idx| ==>
           KeptLocations(scans)[j] == Locate(scans[idx[j]]) && KeptReads(pairs, scans)[j] == Orient(pairs[idx[j]])
    decreases |scans|
  {
    if scans != [] {
      var n := |scans| - 1;
      KeptOutputsAt(pairs[..n], scans[..n]);
      KeptIndicesSnoc(scans, n);
      assert scans[..n + 1] == scans;
      var prev, idx := KeptIndices(scans[..n]), KeptIndices(scans);
      forall j | 0 <= j < |prev|
        ensures KeptLocations(scans)[j] == Locate(scans[idx[j]]) && KeptReads(pairs, scans)[j] == Orient(pairs[idx[j]])
      {
        assert idx[j] == prev[j] && scans[..n][prev[j]] == scans[prev[j]] && pairs[..n][prev[j]] == pairs[prev[j]];
      }
    }
  }

  /** The locations output for the pairs: those of the accepted pairs, in input order. */
  function AcceptedLocations(pairs: seq<ReadPair>, ref: string): (locs: seq<Locations>)
  {
    KeptLocations(Scans(pairs, ref))
  }

  /** The oriented-reads output for the pairs: the accepted pairs, back read reversed, in input order. */
  function AcceptedReads(pairs: seq<ReadPair>, ref: string): (out: seq<ReadPair>)
  {
    KeptReads(pairs, Scans(pairs, ref))
  }

  /**
    The two outputs are parallel: both have one entry per accepted pair, and
    entry j holds the scanner's locations and the oriented reads of the j-th
    accepted pair.
  */
  lemma AcceptedOutputsExact(pairs: seq<ReadPair>, ref: string)
    ensures var idx := AcceptedIndices(pairs, ref);
      && |AcceptedLocations(pairs, ref)| == |AcceptedReads(pairs, ref)| == |idx|
      && forall j :: 0 <= j < |idx| ==>
           AcceptedLocations(pairs, ref)[j] == LocationsOf(pairs[idx[j]], ref)
           && AcceptedReads(pairs, ref)[j] == Orient(pairs[idx[j]])
  {
    var idx := AcceptedIndices(pairs, ref);
    KeptOutputsAt(pairs, Scans(pairs, ref));
    forall j | 0 <= j < |idx| ensures AcceptedLocations(pairs, ref)[j] == LocationsOf(pairs[idx[j]], ref) {
      assert Scans(pairs, ref)[idx[j]] == PairAlignment(pairs[idx[j]], ref);
    }
  }

  /**
    The aligner as written: one pass over the pairs, appending the locations
    and the oriented reads of every accepted pair to two parallel lists.
  */
  method AlignPairsToRef(pairs: seq<ReadPair>, ref: string)
    returns (locations: seq<Locations>, oriented: seq<ReadPair>)
    ensures locations == AcceptedLocations(pairs, ref)
    ensures oriented == AcceptedReads(pairs, ref)
  {
    locations, oriented := [], [];
    for i := 0 to |pairs|
      invariant locations == KeptLocations(Scans(pairs[..i], ref))
      invariant oriented == KeptReads(pairs[..i], Scans(pairs[..i], ref))
    {
      var front, reversedBack := pairs[i].front, Reverse(pairs[i].back);
      var frontCount, frontLoc, backCount, backLoc := MismatchifyPair(front, reversedBack, ref);
      ghost var a := Alignment(frontCount, frontLoc, backCount, backLoc);
      assert a == PairAlignment(pairs[i], ref);
      ScansSnoc(pairs, ref, i);
      KeptSnoc(pairs, Scans(pairs[..i], ref), a);
      if frontCount + backCount < Threshold {
        locations := locations + [Locations(frontLoc, backLoc)];
        oriented := oriented + [ReadPair(front, reversedBack)];
      }
    }
    assert pairs[..|pairs|] == pairs;
  }

  /** A pair that took the early exit is never accepted. */
  lemma EarlyExitRejected(p: ReadPair, ref: string)
    requires PairAlignment(p, ref).frontCount >= EarlyExitBound
    ensures !Accepts(p, ref)
  {
  }

  /**
    An accepted pair passed the early exit, and its back location is either the
    sentinel -1 or a fitting offset of the back window.
  */
  lemma AcceptedBackInWindow(p: ReadPair, ref: string)
    requires Accepts(p, ref)
    ensures var a := PairAlignment(p, ref);
      && a.frontCount < EarlyExitBound
      && (a.backLoc == -1 || InBackWindow(Reverse(p.back), ref, a.frontLoc, a.backLoc))
  {
    BackMinimum(p.front, Reverse(p.back), ref);
  }

  /**
    Both reads of a pair aligning exactly (the front first at k, the reversed
    back first in the window at e) make the pair accepted with locations (k, e).
  */
  lemma ExactPairAccepted(p: ReadPair, ref: string, k: nat, e: nat)
    requires k < |ref| - |p.front|
    requires OccursAt(p.front, ref, k)
    requires forall j :: 0 <= j < k ==> !OccursAt(p.front, ref, j)
    requires InBackWindow(Reverse(p.back), ref, k, e) && OccursAt(Reverse(p.back), ref, e)
    requires forall j :: k + WindowStart <= j < e ==> !OccursAt(Reverse(p.back), ref, j)
    ensures Accepts(p, ref) && LocationsOf(p, ref) == Locations(k, e)
  {
    var back := Reverse(p.back);
    ExactMatchFound(p.front, ref, 0, |ref| - |p.front|, k);
    BackWindowExact(back, ref, k, e);
    ExactMatchFound(back, ref, k + WindowStart, BackHi(back, ref, k), e);
  }

  /**
    A pair whose front read is at least as long as the reference gets the
    sentinel locations (-1, -1), and it is accepted exactly when
    (|front| + 1) + (|back| + 1) is below Threshold.
  */
  lemma DegeneratePairOutcome(p: ReadPair, ref: string)
    requires |ref| <= |p.front|
    ensures Accepts(p, ref) <==> |p.front| + |p.back| + 2 < Threshold
    ensures Accepts(p, ref) ==> LocationsOf(p, ref) == Locations(-1, -1)
  {
    DegenerateFront(p.front, Reverse(p.back), ref);
  }
}
