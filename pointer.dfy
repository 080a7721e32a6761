/**
 * `MyClick` (utils/click.py): turns a box into a pointer position inside the
 * browser page. It stores the game window's top-left corner as an origin and
 * aims at a box's centre (or its top-left corner), shifted by that origin.
 * The page's mouse is modelled by the sequence of events it is asked to
 * perform.
 */
module Pointer {
  import opened Geometry

  datatype Point = Point(x: int, y: int)

  /**
   * What one `click` asks of the page's mouse: `mouse.move` to `at`, then,
   * when `press` is set, `mouse.click` at the same point.
   */
  datatype Gesture = Gesture(at: Point, press: bool)

  /**
   * The point `click` aims at: the box's centre, each coordinate halved and
   * rounded down, or its top-left corner; either moved by the origin.
   */
  function Target(box: Box, center: bool, origin: Point): (p: Point)
    ensures center ==> 2 * (p.x - origin.x) <= box.x0 + box.x1 < 2 * (p.x - origin.x) + 2
    ensures center ==> 2 * (p.y - origin.y) <= box.y0 + box.y1 < 2 * (p.y - origin.y) + 2
    ensures !center ==> p.x - origin.x == box.x0 && p.y - origin.y == box.y0
  {
    if center then Point((box.x0 + box.x1) / 2 + origin.x, (box.y0 + box.y1) / 2 + origin.y)
    else Point(box.x0 + origin.x, box.y0 + origin.y)
  }

  /** The centre target of a box lies inside the box, moved by the origin. */
  lemma CenterInside(box: Box, origin: Point)
    requires Ordered(box)
    ensures var p := Target(box, true, origin);
            box.x0 + origin.x <= p.x <= box.x1 + origin.x && box.y0 + origin.y <= p.y <= box.y1 + origin.y
  {
  }

  /** The gestures of one `click(box, click, center)`: one with a page, none without. */
  function Effect(origin: Point, hasPage: bool, box: Box, press: bool, center: bool): (g: seq<Gesture>)
    ensures |g| == if hasPage then 1 else 0
    ensures hasPage ==> g[0].at == Target(box, center, origin) && g[0].press == press
  {
    if hasPage then [Gesture(Target(box, center, origin), press)] else []
  }

  class MyClick {
    /** Whether a Playwright page was given. */
    const hasPage: bool
    /** `top_left_corner`. */
    var origin: Point
    /** Every event the page's mouse has been asked to perform, oldest first. */
    var mouse: seq<Gesture>

    constructor (hasPage: bool)
      ensures this.hasPage == hasPage
      ensures origin == Point(0, 0) && mouse == []
    {
      this.hasPage := hasPage;
      origin := Point(0, 0);
      mouse := [];
    }

    /** `set_top_left_corner`: remembers the box's left and top edges and nothing else. */
    method SetTopLeftCorner(box: Box)
      modifies this`origin
      ensures origin == Point(box.x0, box.y0)
    {
      origin := Point(box.x0, box.y0);
    }

    /** `click`: moves to the target and presses there when asked. */
    method Click(box: Box, press: bool, center: bool)
      modifies this`mouse
      ensures mouse == old(mouse) + Effect(origin, hasPage, box, press, center)
    {
      if hasPage {
        mouse := mouse + [Gesture(Target(box, center, origin), press)];
      }
    }
  }
}
