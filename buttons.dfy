/**
 * The button de-duplicator: `Detector.detect_frame` (detector/detector.py)
 * after the object detector has returned the UI-button detections. It fills a
 * symmetric matrix of pairwise overlap ratios, then drops every detection that
 * overlaps (ratio above 0.5) a strictly more confident one. One pass, no
 * greedy sweep; the survivors keep their input order.
 */
module Buttons {
  import opened Geometry
  import opened Numeric

  /** Two detections overlap when their ratio is above this. */
  const OverlapThreshold: real := 0.5

  /** The entry (i, j) of `ious`: the ratio of the two boxes off the diagonal, 0 on it. */
  function IouEntry(dets: seq<Detection>, i: nat, j: nat): real
    requires i < |dets| && j < |dets|
  {
    if i == j then 0.0
    else if i < j then IouRatio(dets[i].box, dets[j].box)
    else IouRatio(dets[j].box, dets[i].box)
  }

  /** Detection `i` is dropped: some other detection overlaps it and is strictly more confident. */
  predicate Suppressed(dets: seq<Detection>, i: nat)
    requires i < |dets|
  {
    exists j :: 0 <= j < |dets| && j != i
      && IouRatio(dets[i].box, dets[j].box) > OverlapThreshold
      && dets[j].confidence > dets[i].confidence
  }

  /** `mask`: which detections are kept. */
  function KeepMask(dets: seq<Detection>): (mask: seq<bool>)
    ensures |mask| == |dets|
  {
    seq(|dets|, i requires 0 <= i < |dets| => !Suppressed(dets, i))
  }

  /** The survivors, in input order. */
  function Kept(dets: seq<Detection>): (r: seq<Detection>)
    ensures |r| <= |dets|
  {
    Select(dets, Where(KeepMask(dets)))
  }

  /** What `detect_frame` returns: the boxes and the class names of the survivors. */
  function BoxesOf(dets: seq<Detection>): (r: seq<Box>)
    ensures |r| == |dets|
  {
    seq(|dets|, k requires 0 <= k < |dets| => dets[k].box)
  }

  function NamesOf(dets: seq<Detection>): (r: seq<string>)
    ensures |r| == |dets|
  {
    seq(|dets|, k requires 0 <= k < |dets| => dets[k].name)
  }

  /** The `ious` matrix: filled above the diagonal and mirrored below it, 0 on the diagonal. */
  method IouMatrix(dets: seq<Detection>) returns (ious: array2<real>)
    ensures fresh(ious)
    ensures ious.Length0 == ious.Length1 == |dets|
    ensures forall a, b :: 0 <= a < |dets| && 0 <= b < |dets| ==> ious[a, b] == IouEntry(dets, a, b)
  {
    var n := |dets|;
    ious := new real[n, n]((_, _) => 0.0);
    for i := 0 to n
      invariant forall a, b :: 0 <= a < n && 0 <= b < n ==>
                  ious[a, b] == if Min(a, b) < i then IouEntry(dets, a, b) else 0.0
    {
      for j := i + 1 to n
        invariant forall a, b :: 0 <= a < n && 0 <= b < n ==>
                    ious[a, b] == if Min(a, b) < i || (Min(a, b) == i && Max(a, b) < j)
                                  then IouEntry(dets, a, b) else 0.0
      {
        ious[i, j] := IouRatio(dets[i].box, dets[j].box);
        ious[j, i] := ious[i, j];
      }
    }
  }

  /** The suppression pass over the rows of the matrix: `mask[i]` is cleared when row i shows a dominating overlap. */
  method SuppressionMask(dets: seq<Detection>, ious: array2<real>) returns (mask: array<bool>)
    requires ious.Length0 == ious.Length1 == |dets|
    requires forall a, b :: 0 <= a < |dets| && 0 <= b < |dets| ==> ious[a, b] == IouEntry(dets, a, b)
    ensures fresh(mask)
    ensures mask[..] == KeepMask(dets)
  {
    var n := |dets|;
    mask := new bool[n](_ => true);
    for i := 0 to n
      invariant forall k :: 0 <= k < n ==> mask[k] == (k >= i || !Suppressed(dets, k))
    {
      var dominated := exists j | 0 <= j < n :: ious[i, j] > OverlapThreshold && dets[j].confidence > dets[i].confidence;
      assert dominated <==> Suppressed(dets, i) by {
        forall j | 0 <= j < n && j != i ensures ious[i, j] == IouRatio(dets[i].box, dets[j].box) {
          IouSymmetric(dets[i].box, dets[j].box);
        }
      }
      if dominated {
        mask[i] := false;
      }
    }
  }

  /** The post-inference part of `detect_frame`. */
  method DetectFrame(dets: seq<Detection>) returns (xyxy: seq<Box>, buttons: seq<string>)
    ensures xyxy == BoxesOf(Kept(dets))
    ensures buttons == NamesOf(Kept(dets))
  {
    if |dets| == 0 {
      return [], [];
    }
    var ious := IouMatrix(dets);
    var mask := SuppressionMask(dets, ious);
    var idx := Where(mask[..]);
    xyxy := seq(|idx|, k requires 0 <= k < |idx| => dets[idx[k]].box);
    buttons := seq(|idx|, k requires 0 <= k < |idx| => dets[idx[k]].name);
  }

  /** A detection survives exactly when it is not suppressed, and survivors keep their input order. */
  lemma KeptInOrder(dets: seq<Detection>)
    ensures var idx := Where(KeepMask(dets));
            Kept(dets) == Select(dets, idx)
            && (forall a, b :: 0 <= a < b < |idx| ==> idx[a] < idx[b])
            && (forall i :: 0 <= i < |dets| ==> (i in idx <==> !Suppressed(dets, i)))
  {
  }

  /** The most confident detection is never dropped. */
  lemma MostConfidentKept(dets: seq<Detection>, i: nat)
    requires i < |dets|
    requires forall j :: 0 <= j < |dets| ==> dets[j].confidence <= dets[i].confidence
    ensures dets[i] in Kept(dets)
  {
    var idx := Where(KeepMask(dets));
    assert i in idx;
    var k :| 0 <= k < |idx| && idx[k] == i;
    assert Kept(dets)[k] == dets[i];
  }

  /**
   * What survives is free of dominated overlaps: two kept detections that
   * overlap more than half are equally confident.
   */
  lemma KeptOverlapsTie(dets: seq<Detection>, i: nat, j: nat)
    requires i < |dets| && j < |dets| && i != j
    requires !Suppressed(dets, i) && !Suppressed(dets, j)
    requires IouRatio(dets[i].box, dets[j].box) > OverlapThreshold
    ensures dets[i].confidence == dets[j].confidence
  {
    IouSymmetric(dets[i].box, dets[j].box);
  }

  /** Two boxes overlapping more than half: only the more confident one remains, whichever comes first. */
  lemma OverlappingPair(a: Detection, b: Detection)
    requires IouRatio(a.box, b.box) > OverlapThreshold
    requires a.confidence > b.confidence
    ensures Kept([a, b]) == [a]
    ensures Kept([b, a]) == [a]
  {
    OverlappingPairFirst(a, b);
    OverlappingPairSecond(a, b);
  }

  lemma OverlappingPairFirst(a: Detection, b: Detection)
    requires IouRatio(a.box, b.box) > OverlapThreshold
    requires a.confidence > b.confidence
    ensures Kept([a, b]) == [a]
  {
    var dets := [a, b];
    IouSymmetric(a.box, b.box);
    assert !Suppressed(dets, 0);
    assert Suppressed(dets, 1);
    assert KeepMask(dets) == [true, false];
    assert Where([true, false]) == [0] by {
      assert [true, false][..1] == [true];
      assert [true][..0] == [];
    }
  }

  lemma OverlappingPairSecond(a: Detection, b: Detection)
    requires IouRatio(a.box, b.box) > OverlapThreshold
    requires a.confidence > b.confidence
    ensures Kept([b, a]) == [a]
  {
    var dets := [b, a];
    assert KeepMask(dets) == [false, true] by {
      IouSymmetric(a.box, b.box);
      SecondDominates(dets);
    }
    SecondOnly();
    KeptSecondOnly(dets);
  }

  /** When the mask selects only the second of two detections, that one is all that remains. */
  lemma KeptSecondOnly(dets: seq<Detection>)
    requires |dets| == 2 && Where(KeepMask(dets)) == [1]
    ensures Kept(dets) == [dets[1]]
  {
    var r := Kept(dets);
    assert r == Select(dets, [1]);
    assert |r| == 1 && r[0] == dets[1];
  }

  /** Of two overlapping detections, the first is dropped when the second is more confident, and the second stays. */
  lemma SecondDominates(dets: seq<Detection>)
    requires |dets| == 2
    requires IouRatio(dets[0].box, dets[1].box) > OverlapThreshold
    requires dets[1].confidence > dets[0].confidence
    ensures KeepMask(dets) == [false, true]
  {
    assert Suppressed(dets, 0);
    assert !Suppressed(dets, 1) by {
      forall j | 0 <= j < |dets| && j != 1
        ensures !(dets[j].confidence > dets[1].confidence)
      {
        assert j == 0;
      }
    }
  }

  /** The mask that keeps only the second of two detections selects position 1. */
  lemma SecondOnly()
    ensures Where([false, true]) == [1]
  {
    assert [false, true][..1] == [false];
    assert [false][..0] == [];
  }

  /** Two boxes overlapping at most half, or equally confident: both remain. */
  lemma PairBothKept(a: Detection, b: Detection)
    requires IouRatio(a.box, b.box) <= OverlapThreshold || a.confidence == b.confidence
    ensures Kept([a, b]) == [a, b]
  {
    var dets := [a, b];
    IouSymmetric(a.box, b.box);
    assert !Suppressed(dets, 0);
    assert !Suppressed(dets, 1);
    assert KeepMask(dets) == [true, true];
    assert Where([true, true]) == [0, 1] by {
      assert [true, true][..1] == [true];
      assert [true][..0] == [];
    }
  }
}
