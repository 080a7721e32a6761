/**
 * The tile reconciler on an ideal hand: a single row of equally sized tiles
 * laid edge to edge, as the detector reports a hand it read without error.
 * Nothing is an outlier, every tile gets the slot of its position in the
 * row, no gap is filled, and the hand comes back as exactly those tiles,
 * left to right, moved into frame coordinates.
 */
module TileRow {
  import opened Wrappers
  import opened Geometry
  import opened Numeric
  import opened Tiles

  /**
   * Tile `k` of the row spans `[x + k * w, x + (k + 1) * w]` across and
   * `[y0, y0 + h]` down, so each tile starts where the one before it ends;
   * the detector gave every tile a confidence.
   */
  predicate UniformRow(dets: seq<Detection>, x: int, y0: int, w: int, h: int) {
    forall k :: 0 <= k < |dets| ==>
      dets[k].box == Box(x + k * w, y0, x + (k + 1) * w, y0 + h) && dets[k].confidence > EmptyConfidence
  }

  /** The four features every tile of such a row has. */
  function Shape(y0: int, w: int, h: int): seq<int> {
    [w, h, 2 * y0 + h, w * h]
  }

  /** The median of a sequence holding one value is that value. */
  lemma ConstantMedian(s: seq<int>, c: int)
    requires |s| > 0 && forall k :: 0 <= k < |s| ==> s[k] == c
    ensures Median(s) == c as real
  {
    var t := Sort(s);
    SortedWithin(s, t);
    assert forall k :: 0 <= k < |t| ==> t[k] == c;
  }

  /** Every tile of the row has the same four features. */
  lemma RowFeatures(dets: seq<Detection>, x: int, y0: int, w: int, h: int, k: nat)
    requires UniformRow(dets, x, y0, w, h) && k < |dets|
    ensures Features(dets[k].box) == Shape(y0, w, h)
  {
    assert (k + 1) * w == k * w + w;
  }

  /** So each feature's median is the shared value. */
  lemma RowMedians(dets: seq<Detection>, x: int, y0: int, w: int, h: int)
    requires UniformRow(dets, x, y0, w, h) && |dets| > 0
    ensures forall f :: 0 <= f < 4 ==> Medians(dets)[f] == Shape(y0, w, h)[f] as real
  {
    forall k | 0 <= k < |dets| ensures Features(dets[k].box) == Shape(y0, w, h) {
      RowFeatures(dets, x, y0, w, h, k);
    }
    SharedMedians(dets, Shape(y0, w, h));
  }

  /** When all detections share their features, the medians are those features. */
  lemma SharedMedians(dets: seq<Detection>, fs: seq<int>)
    requires |dets| > 0 && |fs| == 4
    requires forall k :: 0 <= k < |dets| ==> Features(dets[k].box) == fs
    ensures forall f :: 0 <= f < 4 ==> Medians(dets)[f] == fs[f] as real
  {
    forall f | 0 <= f < 4 ensures Medians(dets)[f] == fs[f] as real {
      var col := FeatureColumn(dets, f);
      assert forall k :: 0 <= k < |col| ==> col[k] == Features(dets[k].box)[f];
      ConstantMedian(col, fs[f]);
    }
  }

  /** A positive value is close to itself. */
  lemma SelfClose(c: int)
    requires c > 0
    ensures RelClose(c as real, c as real)
  {
  }

  /** The positions `0 .. n-1`, in order. */
  function Upto(n: nat): (r: seq<nat>)
    ensures |r| == n && forall i :: 0 <= i < n ==> r[i] == i
  {
    if n == 0 then [] else Upto(n - 1) + [n - 1]
  }

  /** A mask whose first `n` flags are set, and no other, selects the positions `0 .. n-1`. */
  lemma {:induction false} WhereFirst(flags: seq<bool>, n: nat)
    requires n <= |flags|
    requires forall p :: 0 <= p < |flags| ==> (flags[p] <==> p < n)
    ensures Where(flags) == Upto(n)
  {
    if |flags| > 0 {
      var last := |flags| - 1;
      var init := flags[..last];
      var m := if n == |flags| then n - 1 else n;
      assert forall p :: 0 <= p < |init| ==> (init[p] <==> p < m);
      WhereFirst(init, m);
    }
  }

  /** No tile of the row is an outlier. */
  lemma RowSurvives(dets: seq<Detection>, x: int, y0: int, w: int, h: int)
    requires UniformRow(dets, x, y0, w, h)
    requires w > 0 && h > 0 && y0 >= 0
    ensures Survivors(dets) == dets
  {
    if |dets| > 0 {
      var mask := KeepMask(dets);
      forall k | 0 <= k < |dets| ensures mask[k] {
        RowTypical(dets, x, y0, w, h, k);
      }
      WhereFirst(mask, |dets|);
      assert Select(dets, Upto(|dets|)) == dets;
    }
  }

  /** Each tile of the row has all four features equal to their medians, and none of them zero. */
  lemma RowTypical(dets: seq<Detection>, x: int, y0: int, w: int, h: int, k: nat)
    requires UniformRow(dets, x, y0, w, h) && k < |dets|
    requires w > 0 && h > 0 && y0 >= 0
    ensures Typical(dets[k].box, Medians(dets))
  {
    RowMedians(dets, x, y0, w, h);
    RowFeatures(dets, x, y0, w, h, k);
    MulPositive(w, h);
    var fs := Shape(y0, w, h);
    assert forall f :: 0 <= f < 4 ==> fs[f] > 0;
    AtMedians(dets[k].box, Medians(dets));
  }

  /** A box whose features are positive and equal to the medians passes the outlier test. */
  lemma AtMedians(b: Box, med: seq<real>)
    requires |med| == 4
    requires forall f :: 0 <= f < 4 ==> Features(b)[f] > 0 && med[f] == Features(b)[f] as real
    ensures Typical(b, med)
  {
    forall f | 0 <= f < 4 ensures RelClose(Features(b)[f] as real, med[f]) {
      SelfClose(Features(b)[f]);
    }
  }

  /** Python's round leaves an integer as it is. */
  lemma RoundWhole(k: int)
    ensures RoundHalfEven(k as real) == k
  {
  }

  /** Every tile of the row is `w` wide. */
  lemma RowWidths(dets: seq<Detection>, x: int, y0: int, w: int, h: int)
    requires UniformRow(dets, x, y0, w, h) && w > 0
    ensures PositiveWidths(dets)
  {
    forall k | 0 <= k < |dets| ensures dets[k].box.x0 < dets[k].box.x1 {
      assert (k + 1) * w == k * w + w;
    }
  }

  /** The row's tile width is `w`. */
  lemma RowTileWidth(dets: seq<Detection>, x: int, y0: int, w: int, h: int)
    requires UniformRow(dets, x, y0, w, h) && |dets| > 0 && w > 0
    ensures PositiveWidths(dets)
    ensures TileWidth(dets) == w as real
  {
    RowWidths(dets, x, y0, w, h);
    RowMedians(dets, x, y0, w, h);
  }

  /** The row's left margin is the left edge of its first tile. */
  lemma RowLeftMargin(dets: seq<Detection>, x: int, y0: int, w: int, h: int)
    requires UniformRow(dets, x, y0, w, h) && |dets| > 0 && w > 0
    ensures LeftMargin(dets) == x
  {
    var lm := LeftMargin(dets);
    assert lm <= dets[0].box.x0 == x;
    var edges := seq(|dets|, k requires 0 <= k < |dets| => dets[k].box.x0);
    assert lm in edges;
    var k :| 0 <= k < |edges| && edges[k] == lm;
    MulPositive(k, w);
  }

  /** A left edge `k * w` right of the margin is slot `k` for tile width `w`. */
  lemma SlotOfMultiple(b: Box, x: int, w: int, k: int)
    requires w > 0 && b.x0 - x == k * w
    ensures Slot(b, x, w as real) == k
  {
    assert (k * w) as real == k as real * w as real;
    assert (k * w) as real / w as real == k as real;
    RoundWhole(k);
  }

  /** Tile `k` of the row lands in slot `k`. */
  lemma RowPositions(dets: seq<Detection>, x: int, y0: int, w: int, h: int)
    requires UniformRow(dets, x, y0, w, h)
    requires |dets| > 0 && w > 0 && h > 0
    ensures PositiveWidths(dets)
    ensures Positions(dets) == seq(|dets|, k requires 0 <= k < |dets| => k)
  {
    RowTileWidth(dets, x, y0, w, h);
    RowLeftMargin(dets, x, y0, w, h);
    forall k | 0 <= k < |dets| ensures Positions(dets)[k] == k {
      SlotOfMultiple(dets[k].box, x, w, k);
    }
  }

  /** Each slot of the row holds its own tile, and the slots past the row are empty. */
  lemma RowHolders(dets: seq<Detection>, pos: seq<int>, p: int)
    requires |dets| == |pos| && pos == seq(|dets|, k requires 0 <= k < |dets| => k)
    requires forall k :: 0 <= k < |dets| ==> dets[k].confidence > EmptyConfidence
    ensures Holder(dets, pos, |dets|, p) == if 0 <= p < |dets| then Some(p) else None
  {
    if 0 <= p < |dets| {
      HolderIsFirstMostConfident(dets, pos, |dets|, p, p);
    }
  }

  /** The slots of the row: the first `n` hold the row's tiles in order, and no slot is a gap. */
  lemma RowSlots(dets: seq<Detection>, pos: seq<int>)
    requires |dets| <= SlotCount
    requires |dets| == |pos| && pos == seq(|dets|, k requires 0 <= k < |dets| => k)
    requires forall k :: 0 <= k < |dets| ==> dets[k].confidence > EmptyConfidence
    ensures var names := AssignedNames(dets, pos);
            var boxes := AssignedBoxes(dets, pos);
            FilledNames(names) == names && FilledBoxes(boxes, names) == boxes
            && (forall p :: 0 <= p < SlotCount ==> names[p] == (if p < |dets| then Some(dets[p].name) else None))
            && (forall p :: 0 <= p < SlotCount ==> boxes[p] == (if p < |dets| then Some(dets[p].box) else None))
  {
    var names := AssignedNames(dets, pos);
    var boxes := AssignedBoxes(dets, pos);
    forall p | 0 <= p < SlotCount
      ensures names[p] == (if p < |dets| then Some(dets[p].name) else None)
      ensures boxes[p] == (if p < |dets| then Some(dets[p].box) else None)
    {
      RowHolders(dets, pos, p);
    }
    assert forall i :: 0 <= i < SlotCount ==> !IsGap(names, i);
    assert FilledNames(names) == names;
    assert FilledBoxes(boxes, names) == boxes;
  }

  /** Compacting slots whose first `n` are occupied by the row gives the row back. */
  lemma RowCompacts(dets: seq<Detection>, boxes: seq<Option<Box>>, names: seq<Option<string>>)
    requires |dets| <= |boxes| == |names|
    requires forall p :: 0 <= p < |boxes| ==> names[p] == (if p < |dets| then Some(dets[p].name) else None)
    requires forall p :: 0 <= p < |boxes| ==> boxes[p] == (if p < |dets| then Some(dets[p].box) else None)
    ensures Paired(boxes, names)
    ensures OccupiedBoxes(boxes) == seq(|dets|, k requires 0 <= k < |dets| => dets[k].box)
    ensures OccupiedNames(boxes, names) == seq(|dets|, k requires 0 <= k < |dets| => dets[k].name)
  {
    WhereFirst(Occupancy(boxes), |dets|);
  }

  /**
   * A uniform row of at most 160 tiles, each at least one pixel wide and
   * high, below the top of the hand region, comes back whole: the same
   * tiles, left to right, with their boxes moved into the frame.
   */
  lemma RowLayout(dets: seq<Detection>, x: int, y0: int, w: int, h: int, width: nat, height: nat)
    requires UniformRow(dets, x, y0, w, h)
    requires |dets| <= SlotCount && w > 0 && h > 0 && y0 >= 0
    ensures OrderedWidths(dets)
    ensures Layout(dets, width, height)
            == Hand(ShiftAll(seq(|dets|, k requires 0 <= k < |dets| => dets[k].box), HandLeft(width), HandTop(height)),
                    seq(|dets|, k requires 0 <= k < |dets| => dets[k].name))
  {
    var n := |dets|;
    forall k | 0 <= k < n ensures dets[k].box.x0 <= dets[k].box.x1 {
      assert (k + 1) * w == k * w + w;
    }
    RowSurvives(dets, x, y0, w, h);
    if n > 0 {
      RowPositions(dets, x, y0, w, h);
      var pos := Positions(dets);
      var names := AssignedNames(dets, pos);
      var boxes := AssignedBoxes(dets, pos);
      RowSlots(dets, pos);
      RowCompacts(dets, AssignedBoxes(dets, pos), AssignedNames(dets, pos));
    }
  }
}
