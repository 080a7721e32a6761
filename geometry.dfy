/**
 * Box geometry shared by the tile reconciler and the button de-duplicator
 * (`area` and `iou_ratio` in detector/detector.py), and the detection record
 * the object detector hands over.
 */
module Geometry {

  /** An axis-aligned box (x0, y0, x1, y1): left, top, right, bottom, in pixels. */
  datatype Box = Box(x0: int, y0: int, x1: int, y1: int)

  /** One detector output: a box, its class name and the detector's confidence. */
  datatype Detection = Detection(box: Box, name: string, confidence: real)

  function Max(a: int, b: int): int { if a >= b then a else b }
  function Min(a: int, b: int): int { if a <= b then a else b }

  /** A box whose right edge is not left of its left edge and whose bottom is not above its top. */
  predicate Ordered(b: Box) { b.x0 <= b.x1 && b.y0 <= b.y1 }

  /** The area of a box; a box with x1 < x0 or y1 < y0 has none. */
  function Area(b: Box): (a: int)
    ensures a >= 0
    ensures !Ordered(b) ==> a == 0
    ensures a > 0 <==> b.x0 < b.x1 && b.y0 < b.y1
  {
    if b.x1 < b.x0 || b.y1 < b.y0 then 0
    else
      MulPositive(b.x1 - b.x0, b.y1 - b.y0);
      (b.x1 - b.x0) * (b.y1 - b.y0)
  }

  /** The overlap of two boxes: greatest left/top edges, least right/bottom edges. */
  function Intersection(a: Box, b: Box): Box {
    Box(Max(a.x0, b.x0), Max(a.y0, b.y0), Min(a.x1, b.x1), Min(a.y1, b.y1))
  }

  /**
   * Intersection over union. When the overlap has no area the ratio is 0, so
   * degenerate and disjoint boxes never divide by zero.
   */
  function IouRatio(a: Box, b: Box): (r: real)
    ensures 0.0 <= r <= 1.0
    ensures r > 0.0 <==> Area(Intersection(a, b)) > 0
  {
    var inter := Area(Intersection(a, b));
    if inter == 0 then 0.0
    else
      OverlapWithin(a, b);
      inter as real / (Area(a) + Area(b) - inter) as real
  }

  lemma MulPositive(p: int, q: int)
    requires p >= 0 && q >= 0
    ensures p * q >= 0
    ensures p * q > 0 <==> p > 0 && q > 0
  {
  }

  lemma MulMonotone(p: int, q: int, r: int, s: int)
    requires 0 <= p <= q && 0 <= r <= s
    ensures p * r <= q * s
  {
    assert p * r <= q * r by {
      assert (q - p) * r >= 0 by { MulPositive(q - p, r); }
    }
    assert q * r <= q * s by {
      assert q * (s - r) >= 0 by { MulPositive(q, s - r); }
    }
  }

  /** An overlap with area lies inside both boxes, so its area is at most either box's. */
  lemma OverlapWithin(a: Box, b: Box)
    requires Area(Intersection(a, b)) > 0
    ensures Area(a) > 0 && Area(b) > 0
    ensures Area(Intersection(a, b)) <= Area(a)
    ensures Area(Intersection(a, b)) <= Area(b)
  {
    var i := Intersection(a, b);
    MulMonotone(i.x1 - i.x0, a.x1 - a.x0, i.y1 - i.y0, a.y1 - a.y0);
    MulMonotone(i.x1 - i.x0, b.x1 - b.x0, i.y1 - i.y0, b.y1 - b.y0);
  }

  /** The ratio does not depend on the order of its arguments. */
  lemma IouSymmetric(a: Box, b: Box)
    ensures IouRatio(a, b) == IouRatio(b, a)
  {
    assert Intersection(a, b) == Intersection(b, a);
  }

  /** A box with area overlaps itself completely. */
  lemma IouIdentical(b: Box)
    requires Area(b) > 0
    ensures IouRatio(b, b) == 1.0
  {
    assert Intersection(b, b) == b;
  }

  /** With an overlap that has area, the ratio is overlap / (area a + area b - overlap), strictly positive. */
  lemma IouOverlapping(a: Box, b: Box)
    requires Area(Intersection(a, b)) > 0
    ensures Area(a) + Area(b) - Area(Intersection(a, b)) > 0
    ensures IouRatio(a, b)
         == Area(Intersection(a, b)) as real / (Area(a) + Area(b) - Area(Intersection(a, b))) as real
    ensures 0.0 < IouRatio(a, b) <= 1.0
  {
    OverlapWithin(a, b);
  }
}
