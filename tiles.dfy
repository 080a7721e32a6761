/**
 * The tile reconciler: everything `Detector.detect_tiles` (detector/detector.py)
 * does once the object detector has returned the tile detections of the hand
 * region. Outliers are dropped by comparing four shape features with their
 * medians, the survivors are placed into 160 slots by their left edge (the
 * more confident detection wins a shared slot), a single missing tile between
 * two equal neighbours is filled in, and the occupied slots are returned left
 * to right in full-frame coordinates.
 */
module Tiles {
  import opened Wrappers
  import opened Geometry
  import opened Numeric

  /** `n_tiles`: the number of slots a hand is laid out on. */
  const SlotCount: nat := 160
  /** Gap filling looks at slots 1 up to and including this one (`range(1, 12)`). */
  const LastGapSlot: nat := 11
  /** A feature may differ from its median by less than this fraction. */
  const Tolerance: real := 0.2
  /** The confidence an empty slot starts with (`np.full(n_tiles, -1.0)`). */
  const EmptyConfidence: real := -1.0

  /** The hand as returned: boxes and tile names, slot by slot from the left. */
  datatype Hand = Hand(boxes: seq<Box>, names: seq<string>)

  // ---------------------------------------------------------------- outliers

  /** The four features of a box: width, height, y0 + y1 (vertical anchor) and width * height. */
  function Features(b: Box): seq<int> {
    [b.x1 - b.x0, b.y1 - b.y0, b.y1 + b.y0, (b.x1 - b.x0) * (b.y1 - b.y0)]
  }

  /** Feature `f` of every detection. */
  function FeatureColumn(dets: seq<Detection>, f: nat): (col: seq<int>)
    requires f < 4
    ensures |col| == |dets|
  {
    seq(|dets|, k requires 0 <= k < |dets| => Features(dets[k].box)[f])
  }

  /** The median of each feature over all detections. */
  function Medians(dets: seq<Detection>): (m: seq<real>)
    requires |dets| > 0
    ensures |m| == 4
  {
    seq(4, f requires 0 <= f < 4 => Median(FeatureColumn(dets, f)))
  }

  /**
   * numpy's `|v - m| / maximum(v, m) < 0.2`. A zero denominator gives NaN or
   * an infinity, neither of which compares below 0.2; a negative one gives a
   * quotient that is not positive, which does.
   */
  predicate RelClose(v: real, m: real) {
    if Larger(v, m) == 0.0 then false else Distance(v, m) / Larger(v, m) < Tolerance
  }

  /** `np.maximum(v, m)`. */
  function Larger(v: real, m: real): real { if v >= m then v else m }

  /** `np.abs(v - m)`. */
  function Distance(v: real, m: real): real { if v >= m then v - m else m - v }

  /**
   * The three cases of the relative test: a zero denominator fails it, a
   * negative one passes it, and a positive one passes it exactly when the
   * distance is below a fifth of the larger value.
   */
  lemma RelCloseCases(v: real, m: real)
    ensures Larger(v, m) == 0.0 ==> !RelClose(v, m)
    ensures Larger(v, m) < 0.0 ==> RelClose(v, m)
    ensures Larger(v, m) > 0.0 ==> (RelClose(v, m) <==> Distance(v, m) < Tolerance * Larger(v, m))
  {
    var d, diff := Larger(v, m), Distance(v, m);
    if d < 0.0 {
      assert diff >= 0.0;
      assert diff / d <= 0.0;
    } else if d > 0.0 {
      QuotientBelow(diff, d);
    }
  }

  /** For a positive denominator, the quotient is below the tolerance exactly when the numerator is below that share of it. */
  lemma QuotientBelow(diff: real, d: real)
    requires d > 0.0
    ensures diff / d < Tolerance <==> diff < Tolerance * d
  {
    var q := diff / d;
    assert q * d == diff;
    ScaleStrict(q, Tolerance, d);
    assert q < Tolerance <==> q * d < Tolerance * d;
  }

  /** Multiplying both sides by a positive number keeps a strict order. */
  lemma ScaleStrict(a: real, b: real, d: real)
    requires d > 0.0
    ensures a < b <==> a * d < b * d
  {
    assert (b - a) * d == b * d - a * d;
    if a < b {
      assert (b - a) * d > 0.0;
    } else {
      assert (a - b) * d >= 0.0;
    }
  }

  /** A zero value is never close to its median, whatever the median: a zero-width box is always an outlier. */
  lemma ZeroNeverClose(m: real)
    ensures !RelClose(0.0, m)
  {
    if m > 0.0 {
      assert (m - 0.0) / m == 1.0;
    }
  }

  /** A box all four of whose features are close to the medians. */
  predicate Typical(b: Box, med: seq<real>)
    requires |med| == 4
  {
    forall f :: 0 <= f < 4 ==> RelClose(Features(b)[f] as real, med[f])
  }

  /** `valid_mask`: which detections pass the outlier test. */
  function KeepMask(dets: seq<Detection>): (mask: seq<bool>)
    ensures |mask| == |dets|
  {
    if |dets| == 0 then []
    else
      var med := Medians(dets);
      seq(|dets|, k requires 0 <= k < |dets| => Typical(dets[k].box, med))
  }

  /** The detections that pass the outlier test, in input order, box, name and confidence together. */
  function Survivors(dets: seq<Detection>): (s: seq<Detection>)
    ensures |s| <= |dets|
    ensures forall k :: 0 <= k < |s| ==> s[k] in dets
    ensures |dets| > 0 ==> forall k :: 0 <= k < |s| ==> Typical(s[k].box, Medians(dets))
  {
    Select(dets, Where(KeepMask(dets)))
  }

  /**
   * The outlier filter: detection `i` survives exactly when all four of its
   * features are close to the medians over all detections, and the
   * survivors keep their input order.
   */
  lemma SurvivorsInOrder(dets: seq<Detection>)
    requires |dets| > 0
    ensures var idx := Where(KeepMask(dets));
            Survivors(dets) == Select(dets, idx)
            && (forall a, b :: 0 <= a < b < |idx| ==> idx[a] < idx[b])
            && (forall i :: 0 <= i < |dets| ==> (i in idx <==> Typical(dets[i].box, Medians(dets))))
  {
  }

  /** The detector's boxes do not have their right edge left of their left edge. */
  predicate OrderedWidths(dets: seq<Detection>) {
    forall k :: 0 <= k < |dets| ==> dets[k].box.x0 <= dets[k].box.x1
  }

  // ----------------------------------------------------------- slot positions

  /** Every box has its right edge strictly right of its left edge. */
  predicate PositiveWidths(dets: seq<Detection>) {
    forall k :: 0 <= k < |dets| ==> dets[k].box.x0 < dets[k].box.x1
  }

  /** A box that passes the outlier test and is not reversed has positive width. */
  lemma TypicalHasWidth(b: Box, med: seq<real>)
    requires |med| == 4 && Typical(b, med) && b.x0 <= b.x1
    ensures b.x0 < b.x1
  {
    assert RelClose(Features(b)[0] as real, med[0]);
    if b.x0 == b.x1 {
      ZeroNeverClose(med[0]);
    }
  }

  /** A zero-width box never passes the outlier test, so the survivors of ordered boxes all have positive width. */
  lemma SurvivorsHaveWidth(dets: seq<Detection>)
    requires OrderedWidths(dets)
    ensures PositiveWidths(Survivors(dets))
  {
    var s := Survivors(dets);
    if |dets| > 0 {
      var med := Medians(dets);
      forall k | 0 <= k < |s| ensures s[k].box.x0 < s[k].box.x1 {
        var i :| 0 <= i < |dets| && dets[i] == s[k];
        TypicalHasWidth(s[k].box, med);
      }
    }
  }

  /** `tile_width`: the median width of the survivors, positive when every width is. */
  function TileWidth(s: seq<Detection>): (w: real)
    requires |s| > 0 && PositiveWidths(s)
    ensures w > 0.0
  {
    var widths := FeatureColumn(s, 0);
    assert Least(widths) > 0 by {
      var k :| 0 <= k < |widths| && widths[k] == Least(widths);
    }
    Median(widths)
  }

  /** `left_margin`: the least left edge of the survivors. */
  function LeftMargin(s: seq<Detection>): (lm: int)
    requires |s| > 0
    ensures forall k :: 0 <= k < |s| ==> lm <= s[k].box.x0
    ensures exists k :: 0 <= k < |s| && lm == s[k].box.x0
  {
    var edges := seq(|s|, k requires 0 <= k < |s| => s[k].box.x0);
    assert forall k :: 0 <= k < |s| ==> edges[k] == s[k].box.x0;
    var lm := Least(edges);
    assert exists k :: 0 <= k < |s| && lm == s[k].box.x0 by {
      var k :| 0 <= k < |edges| && edges[k] == lm;
    }
    lm
  }

  /** The slot of a box: its left edge's distance from the margin in tile widths, rounded. */
  function Slot(b: Box, leftMargin: int, tileWidth: real): int
    requires tileWidth > 0.0
  {
    RoundHalfEven((b.x0 - leftMargin) as real / tileWidth)
  }

  /** `positions`: the slot of every survivor; none is negative, since the margin is the least left edge. */
  function Positions(s: seq<Detection>): (pos: seq<int>)
    requires |s| > 0 && PositiveWidths(s)
    ensures |pos| == |s|
    ensures forall k :: 0 <= k < |s| ==> pos[k] >= 0
  {
    var w := TileWidth(s);
    var lm := LeftMargin(s);
    SlotsNonNegative(s, lm, w);
    seq(|s|, k requires 0 <= k < |s| => Slot(s[k].box, lm, w))
  }

  /** Python's round is monotone: a larger value never rounds to a smaller integer. */
  lemma RoundMonotone(x: real, y: real)
    requires x <= y
    ensures RoundHalfEven(x) <= RoundHalfEven(y)
  {
    var fx, fy := x.Floor, y.Floor;
    if fx == fy {
      assert x - fx as real <= y - fy as real;
    } else {
      assert fx < fy;
    }
  }

  /** Slots follow the left edges: a box not right of another never lands in a later slot. */
  lemma SlotMonotone(a: Box, b: Box, leftMargin: int, tileWidth: real)
    requires tileWidth > 0.0 && a.x0 <= b.x0
    ensures Slot(a, leftMargin, tileWidth) <= Slot(b, leftMargin, tileWidth)
  {
    var p, q := (a.x0 - leftMargin) as real, (b.x0 - leftMargin) as real;
    assert p / tileWidth <= q / tileWidth;
    RoundMonotone(p / tileWidth, q / tileWidth);
  }

  /** No box whose left edge is at or right of the margin gets a negative slot. */
  lemma SlotsNonNegative(s: seq<Detection>, leftMargin: int, tileWidth: real)
    requires tileWidth > 0.0
    requires forall k :: 0 <= k < |s| ==> leftMargin <= s[k].box.x0
    ensures forall k :: 0 <= k < |s| ==> Slot(s[k].box, leftMargin, tileWidth) >= 0
  {
    forall k | 0 <= k < |s| ensures Slot(s[k].box, leftMargin, tileWidth) >= 0 {
      var q := (s[k].box.x0 - leftMargin) as real / tileWidth;
      assert q >= 0.0;
    }
  }

  // ---------------------------------------------------------- slot assignment

  /**
   * The survivor that holds slot `p` after survivors 0 .. n-1 were placed in
   * turn: one takes the slot when its confidence is strictly above the
   * holder's (an empty slot counts as -1.0).
   */
  function Holder(s: seq<Detection>, pos: seq<int>, n: nat, p: int): (h: Option<nat>)
    requires n <= |s| == |pos|
    ensures h.Some? ==> h.value < n && pos[h.value] == p
  {
    if n == 0 then None
    else
      var h := Holder(s, pos, n - 1, p);
      if pos[n - 1] == p && s[n - 1].confidence > HeldConfidence(s, h) then Some(n - 1) else h
  }

  /** The confidence stored for a slot: the holder's, or -1.0 when the slot is empty. */
  function HeldConfidence(s: seq<Detection>, h: Option<nat>): real {
    if h.Some? && h.value < |s| then s[h.value].confidence else EmptyConfidence
  }

  function HeldBox(s: seq<Detection>, h: Option<nat>): Option<Box> {
    if h.Some? && h.value < |s| then Some(s[h.value].box) else None
  }

  function HeldName(s: seq<Detection>, h: Option<nat>): Option<string> {
    if h.Some? && h.value < |s| then Some(s[h.value].name) else None
  }

  /** The `xyxy` slots once every survivor has been placed. */
  function AssignedBoxes(s: seq<Detection>, pos: seq<int>): (boxes: seq<Option<Box>>)
    requires |s| == |pos|
    ensures |boxes| == SlotCount
  {
    seq(SlotCount, p => HeldBox(s, Holder(s, pos, |s|, p)))
  }

  /** The `tiles` slots once every survivor has been placed. */
  function AssignedNames(s: seq<Detection>, pos: seq<int>): (names: seq<Option<string>>)
    requires |s| == |pos|
    ensures |names| == SlotCount
    ensures Paired(AssignedBoxes(s, pos), names)
  {
    seq(SlotCount, p => HeldName(s, Holder(s, pos, |s|, p)))
  }

  /**
   * Slot collisions: slot `p` ends up with survivor `k` exactly when `k` is
   * placed at `p`, beats the empty slot's -1.0, is strictly more confident
   * than every earlier survivor placed at `p`, and at least as confident as
   * every later one. So the most confident survivor wins and the first one
   * wins a tie.
   */
  lemma {:induction false} HolderIsFirstMostConfident(s: seq<Detection>, pos: seq<int>, n: nat, p: int, k: nat)
    requires n <= |s| == |pos|
    ensures Holder(s, pos, n, p) == Some(k) <==>
              k < n && pos[k] == p && s[k].confidence > EmptyConfidence
              && (forall j :: 0 <= j < k && pos[j] == p ==> s[j].confidence < s[k].confidence)
              && (forall j :: k < j < n && pos[j] == p ==> s[j].confidence <= s[k].confidence)
  {
    if n > 0 {
      HolderIsFirstMostConfident(s, pos, n - 1, p, k);
      var h := Holder(s, pos, n - 1, p);
      HolderConfidence(s, pos, n - 1, p);
      if h.Some? && h.value != k {
        HolderIsFirstMostConfident(s, pos, n - 1, p, h.value);
      }
    }
  }

  /** The confidence a slot holds bounds every survivor placed there so far, and beats -1.0 unless the slot is empty. */
  lemma {:induction false} HolderConfidence(s: seq<Detection>, pos: seq<int>, n: nat, p: int)
    requires n <= |s| == |pos|
    ensures forall j :: 0 <= j < n && pos[j] == p ==> s[j].confidence <= HeldConfidence(s, Holder(s, pos, n, p))
    ensures Holder(s, pos, n, p).Some? ==> HeldConfidence(s, Holder(s, pos, n, p)) > EmptyConfidence
  {
    if n > 0 {
      HolderConfidence(s, pos, n - 1, p);
    }
  }

  /**
   * The slot loop: fills 160 slots in one pass over the survivors, keeping in
   * a confidence array what each slot holds.
   */
  method AssignSlots(s: seq<Detection>, pos: seq<int>) returns (boxes: array<Option<Box>>, names: array<Option<string>>)
    requires |pos| == |s|
    requires forall k :: 0 <= k < |pos| ==> pos[k] >= 0
    ensures fresh(boxes) && fresh(names)
    ensures boxes[..] == AssignedBoxes(s, pos)
    ensures names[..] == AssignedNames(s, pos)
  {
    boxes := new Option<Box>[SlotCount](_ => None);
    names := new Option<string>[SlotCount](_ => None);
    var confidence := new real[SlotCount](_ => EmptyConfidence);
    for i := 0 to |s|
      invariant forall p :: 0 <= p < SlotCount ==>
                  confidence[p] == HeldConfidence(s, Holder(s, pos, i, p))
                  && boxes[p] == HeldBox(s, Holder(s, pos, i, p))
                  && names[p] == HeldName(s, Holder(s, pos, i, p))
    {
      var p := pos[i];
      if p < SlotCount && s[i].confidence > confidence[p] {
        confidence[p] := s[i].confidence;
        boxes[p] := Some(s[i].box);
        names[p] := Some(s[i].name);
      }
    }
  }

  // ---------------------------------------------------------------- gap fill

  /** Box slots and name slots are filled together. */
  predicate Paired(boxes: seq<Option<Box>>, names: seq<Option<string>>) {
    |boxes| == |names| && forall p :: 0 <= p < |boxes| ==> (boxes[p].Some? <==> names[p].Some?)
  }

  /** Slot `i` (1 to 11) is empty between two occupied slots with the same tile. */
  predicate IsGap(names: seq<Option<string>>, i: int) {
    1 <= i <= LastGapSlot && i + 1 < |names|
    && names[i].None? && names[i - 1].Some? && names[i - 1] == names[i + 1]
  }

  /** The box made up for a gap: from the right edge and top of the tile before to the left edge and bottom of the tile after. */
  function GapBox(before: Box, after: Box): Box {
    Box(before.x1, before.y0, after.x0, after.y1)
  }

  /** The name slots after gap filling: each gap takes its neighbours' tile; every other slot is kept. */
  function FilledNames(names: seq<Option<string>>): (r: seq<Option<string>>)
    ensures |r| == |names|
    ensures forall i :: 0 <= i < |names| ==> (names[i].Some? ==> r[i] == names[i])
    ensures forall i :: 0 <= i < |names| ==> (r[i].Some? <==> names[i].Some? || IsGap(names, i))
  {
    seq(|names|, i requires 0 <= i < |names| => if IsGap(names, i) then names[i - 1] else names[i])
  }

  /** The box slots after gap filling. */
  function FilledBoxes(boxes: seq<Option<Box>>, names: seq<Option<string>>): (r: seq<Option<Box>>)
    requires Paired(boxes, names)
    ensures Paired(r, FilledNames(names))
  {
    seq(|boxes|, i requires 0 <= i < |boxes| =>
      if IsGap(names, i) then Some(GapBox(boxes[i - 1].value, boxes[i + 1].value)) else boxes[i])
  }

  /** A gap's neighbours are not gaps, so filling one never depends on filling another. */
  lemma GapsApart(names: seq<Option<string>>, i: int)
    requires IsGap(names, i)
    ensures !IsGap(names, i - 1) && !IsGap(names, i + 1)
  {
  }

  /**
   * The gap-filling loop, in place over slots 1 to 11 in order. Because two
   * gaps are never adjacent it has the same effect as filling every gap of
   * the original slots at once.
   */
  method FillGaps(boxes: array<Option<Box>>, names: array<Option<string>>)
    requires boxes.Length == names.Length == SlotCount
    requires Paired(boxes[..], names[..])
    modifies boxes, names
    ensures names[..] == FilledNames(old(names[..]))
    ensures boxes[..] == FilledBoxes(old(boxes[..]), old(names[..]))
  {
    ghost var names0 := names[..];
    ghost var boxes0 := boxes[..];
    for i := 1 to LastGapSlot + 1
      invariant forall p :: 0 <= p < SlotCount ==> names[p] == (if p < i then FilledNames(names0)[p] else names0[p])
      invariant forall p :: 0 <= p < SlotCount ==>
                  boxes[p] == (if p < i then FilledBoxes(boxes0, names0)[p] else boxes0[p])
    {
      if names0[i].None? {
        assert names[i - 1] == names0[i - 1] && boxes[i - 1] == boxes0[i - 1];
      }
      if names[i].None? && names[i - 1] == names[i + 1] && names[i - 1].Some? {
        assert IsGap(names0, i);
        names[i] := names[i - 1];
        boxes[i] := Some(GapBox(boxes[i - 1].value, boxes[i + 1].value));
      } else {
        assert !IsGap(names0, i);
      }
    }
    assert names[..] == FilledNames(names0);
    assert boxes[..] == FilledBoxes(boxes0, names0);
  }

  /**
   * Gap filling changes only gaps: an occupied slot keeps its tile and box,
   * and a slot that changes is an empty one among slots 1 to 11 between two
   * equal tiles, which it takes on.
   */
  lemma FillOnlyGaps(boxes: seq<Option<Box>>, names: seq<Option<string>>, p: int)
    requires Paired(boxes, names) && 0 <= p < |names|
    ensures names[p].Some? ==> FilledNames(names)[p] == names[p] && FilledBoxes(boxes, names)[p] == boxes[p]
    ensures FilledNames(names)[p] != names[p] ==>
              1 <= p <= LastGapSlot && names[p].None? && FilledNames(names)[p] == names[p - 1] == names[p + 1]
  {
  }

  // -------------------------------------------------------- compact and shift

  /** Which slots hold a box. */
  function Occupancy(boxes: seq<Option<Box>>): (occ: seq<bool>)
    ensures |occ| == |boxes|
  {
    seq(|boxes|, p requires 0 <= p < |boxes| => boxes[p].Some?)
  }

  /** The boxes of the occupied slots, in slot order. */
  function OccupiedBoxes(boxes: seq<Option<Box>>): (r: seq<Box>)
    ensures |r| <= |boxes|
  {
    var idx := Where(Occupancy(boxes));
    seq(|idx|, k requires 0 <= k < |idx| => boxes[idx[k]].value)
  }

  /** The names of the occupied slots, in slot order. */
  function OccupiedNames(boxes: seq<Option<Box>>, names: seq<Option<string>>): (r: seq<string>)
    requires Paired(boxes, names)
    ensures |r| == |OccupiedBoxes(boxes)|
  {
    var idx := Where(Occupancy(boxes));
    seq(|idx|, k requires 0 <= k < |idx| => names[idx[k]].value)
  }

  /** The hand region's offset in the frame: a tenth of the width from the left, three quarters of the height from the top. */
  function HandLeft(width: nat): nat { width / 10 }
  function HandTop(height: nat): nat { height / 4 * 3 }

  function Shift(b: Box, dx: int, dy: int): Box {
    Box(b.x0 + dx, b.y0 + dy, b.x1 + dx, b.y1 + dy)
  }

  function ShiftAll(boxes: seq<Box>, dx: int, dy: int): (r: seq<Box>)
    ensures |r| == |boxes|
  {
    seq(|boxes|, k requires 0 <= k < |boxes| => Shift(boxes[k], dx, dy))
  }

  /** Compaction: keep the occupied slots in slot order, then move every box back into frame coordinates. */
  method Collect(boxes: array<Option<Box>>, names: array<Option<string>>, left: int, top: int)
    returns (xyxy: seq<Box>, tiles: seq<string>)
    requires Paired(boxes[..], names[..])
    ensures xyxy == ShiftAll(OccupiedBoxes(boxes[..]), left, top)
    ensures tiles == OccupiedNames(boxes[..], names[..])
  {
    ghost var occ := Occupancy(boxes[..]);
    xyxy, tiles := [], [];
    for p := 0 to boxes.Length
      invariant var idx := Where(occ[..p]);
                |xyxy| == |tiles| == |idx|
                && (forall k :: 0 <= k < |idx| ==> idx[k] < p && xyxy[k] == boxes[idx[k]].value && tiles[k] == names[idx[k]].value)
    {
      WhereExtend(occ, p);
      if boxes[p].Some? {
        xyxy := xyxy + [boxes[p].value];
        tiles := tiles + [names[p].value];
      }
    }
    assert occ[..boxes.Length] == occ;
    ghost var compact := xyxy;
    for k := 0 to |xyxy|
      invariant |xyxy| == |compact|
      invariant forall j :: 0 <= j < |xyxy| ==> xyxy[j] == (if j < k then Shift(compact[j], left, top) else compact[j])
    {
      xyxy := xyxy[k := Shift(xyxy[k], left, top)];
    }
  }

  // ------------------------------------------------------------- whole layout

  /**
   * The hand `detect_tiles` returns for the raw tile detections of a frame
   * `width` x `height`: survivors of the outlier test placed into slots,
   * gaps filled, occupied slots in slot order, shifted into the frame.
   */
  function Layout(dets: seq<Detection>, width: nat, height: nat): (hand: Hand)
    requires OrderedWidths(dets)
    ensures |hand.boxes| == |hand.names| <= SlotCount
  {
    var s := Survivors(dets);
    if |s| == 0 then Hand([], [])
    else
      SurvivorsHaveWidth(dets);
      var pos := Positions(s);
      var names := AssignedNames(s, pos);
      var boxes := AssignedBoxes(s, pos);
      Hand(ShiftAll(OccupiedBoxes(FilledBoxes(boxes, names)), HandLeft(width), HandTop(height)),
           OccupiedNames(FilledBoxes(boxes, names), FilledNames(names)))
  }

  /** No detections, or none passing the outlier test, give the empty hand. */
  lemma EmptyLayout(dets: seq<Detection>, width: nat, height: nat)
    requires OrderedWidths(dets) && |Survivors(dets)| == 0
    ensures Layout(dets, width, height) == Hand([], [])
  {
  }

  /** The post-inference part of `detect_tiles`. */
  method DetectTiles(dets: seq<Detection>, width: nat, height: nat) returns (xyxy: seq<Box>, tiles: seq<string>)
    requires OrderedWidths(dets)
    ensures Hand(xyxy, tiles) == Layout(dets, width, height)
  {
    if |dets| == 0 {
      return [], [];
    }
    var s := Survivors(dets);
    if |s| == 0 {
      return [], [];
    }
    SurvivorsHaveWidth(dets);
    var pos := Positions(s);
    var boxes, names := AssignSlots(s, pos);
    FillGaps(boxes, names);
    xyxy, tiles := Collect(boxes, names, HandLeft(width), HandTop(height));
  }
}
