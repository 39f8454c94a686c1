/**
 * The camera of the view model: the world rectangle shown, `x`, `y` and width `w`, with
 * the height derived for a fixed 4:3 aspect ratio and the zoom factor derived from the
 * design width of 1140. Pan, zoom and zoom-to-fit are functions from the old camera
 * (and, for zoom-to-fit, the node rectangles) to the new one.
 */
module Viewport {

  datatype Camera = Camera(x: real, y: real, w: real)

  /** The rectangle a node occupies: its position and size. */
  datatype Box = Box(x: real, y: real, width: real, height: real)

  /** The design width of the drawing surface; its height is 1140 / 4 * 3. */
  const DesignWidth: real := 1140.0

  /** The camera a new view model starts with: origin (0, 0), the full design width. */
  const Initial: Camera := Camera(0.0, 0.0, DesignWidth)

  /** Zoom-to-fit leaves this much room on each side of the nodes. */
  const FitMargin: real := 20.0

  /** `h`: the height shown, `w / 4 * 3`. */
  function Height(w: real): real {
    w / 4.0 * 3.0
  }

  /** `zoomFactor`: how many times the design width fits in the width shown. */
  function ZoomFactor(w: real): real
    requires w != 0.0
  {
    DesignWidth / w
  }

  /** `viewport`: the tuple handed to the drawing surface. */
  function ViewportOf(c: Camera): seq<real> {
    [c.x, c.y, c.w, Height(c.w)]
  }

  /** The height is three quarters of the width and the zoom factor scales the width to 1140. */
  lemma DerivedQuantities(w: real)
    ensures Height(w) == w * 3.0 / 4.0
    ensures w != 0.0 ==> ZoomFactor(w) * w == DesignWidth
  {
  }

  function Min(a: real, b: real): real { if a <= b then a else b }
  function Max(a: real, b: real): real { if a >= b then a else b }

  // ---------------------------------------------------------------- pan

  /** `pan(deltaX, deltaY)`. */
  function Panned(c: Camera, deltaX: real, deltaY: real): Camera {
    Camera(c.x + deltaX, c.y + deltaY, c.w)
  }

  /** Panning moves the corner by the delta and keeps the width, hence the height and zoom factor. */
  lemma PanMovesCorner(c: Camera, deltaX: real, deltaY: real)
    ensures var p := Panned(c, deltaX, deltaY);
      p.x - c.x == deltaX && p.y - c.y == deltaY && p.w == c.w && Height(p.w) == Height(c.w)
  {
  }

  /** Panning back by the opposite delta restores the camera. */
  lemma PanUndone(c: Camera, deltaX: real, deltaY: real)
    ensures Panned(Panned(c, deltaX, deltaY), -deltaX, -deltaY) == c
  {
  }

  // ---------------------------------------------------------------- zoom

  /**
   * `zoomBy / this.zoomFactor` at width `w`. At width 0 the zoom factor is infinite in
   * JavaScript and the quotient is 0.
   */
  function ZoomShift(w: real, zoomBy: real): real {
    if w == 0.0 then 0.0 else zoomBy / ZoomFactor(w)
  }

  /**
   * `zoom(zoomBy)`: three successive updates. The first two read the zoom factor of the
   * old width; the third reads it after the width has changed.
   */
  function Zoomed(c: Camera, zoomBy: real): Camera {
    var x1 := c.x + ZoomShift(c.w, zoomBy);
    var w1 := c.w - ZoomShift(c.w, zoomBy) * 2.0;
    var y1 := c.y + ZoomShift(w1, zoomBy) * 4.0 / 3.0;
    Camera(x1, y1, w1)
  }

  /** The shift is proportional to the width shown, whether or not the width is 0. */
  lemma ZoomShiftProportional(w: real, zoomBy: real)
    ensures ZoomShift(w, zoomBy) == zoomBy * w / DesignWidth
  {
    if w != 0.0 {
      calc {
        zoomBy / ZoomFactor(w);
        zoomBy / (DesignWidth / w);
        { assert (DesignWidth / w) * w == DesignWidth; }
        zoomBy * w / DesignWidth;
      }
    }
  }

  /** Zooming keeps the horizontal centre and scales the width by `1 - zoomBy / 570`. */
  lemma ZoomKeepsHorizontalCentre(c: Camera, zoomBy: real)
    ensures Zoomed(c, zoomBy).x + Zoomed(c, zoomBy).w / 2.0 == c.x + c.w / 2.0
    ensures Zoomed(c, zoomBy).w == c.w * (1.0 - zoomBy / 570.0)
  {
    ZoomShiftProportional(c.w, zoomBy);
  }

  /**
   * Nothing clamps the width: from a positive width, it stays positive exactly when
   * `zoomBy < 570`.
   */
  lemma ZoomWidthPositive(c: Camera, zoomBy: real)
    requires c.w > 0.0
    ensures Zoomed(c, zoomBy).w > 0.0 <==> zoomBy < 570.0
  {
    ZoomKeepsHorizontalCentre(c, zoomBy);
    var f := 1.0 - zoomBy / 570.0;
    if f > 0.0 {
      assert c.w * f > 0.0;
    } else {
      assert c.w * f <= 0.0;
    }
  }

  /**
   * The vertical shift is 4/3 of the horizontal one, computed at the NEW width; the
   * vertical centre therefore moves.
   */
  lemma ZoomVerticalShift(c: Camera, zoomBy: real)
    ensures Zoomed(c, zoomBy).y == c.y + zoomBy * Zoomed(c, zoomBy).w / 855.0
  {
    var w1 := Zoomed(c, zoomBy).w;
    ZoomShiftProportional(w1, zoomBy);
  }

  /** Zooming the initial camera in by 57 moves its vertical centre from 427.5 to 453.15. */
  lemma ZoomMovesVerticalCentre()
    ensures Initial.y + Height(Initial.w) / 2.0 == 427.5
    ensures Zoomed(Initial, 57.0).y + Height(Zoomed(Initial, 57.0).w) / 2.0 == 453.15
  {
    ZoomKeepsHorizontalCentre(Initial, 57.0);
    ZoomVerticalShift(Initial, 57.0);
    assert Zoomed(Initial, 57.0).w == 1026.0;
  }

  /**
   * The tuple handed to the drawing surface follows the camera: panning shifts its
   * corner by the delta, zooming keeps the middle of its horizontal span, and its height
   * stays three quarters of its width either way.
   */
  lemma ViewportTracksCamera(c: Camera, deltaX: real, deltaY: real, zoomBy: real)
    ensures var v, p := ViewportOf(c), ViewportOf(Panned(c, deltaX, deltaY));
      p == [v[0] + deltaX, v[1] + deltaY, v[2], v[3]]
    ensures var v, z := ViewportOf(c), ViewportOf(Zoomed(c, zoomBy));
      && |z| == 4 && z[0] + z[2] / 2.0 == v[0] + v[2] / 2.0
      && z[2] == v[2] * (1.0 - zoomBy / 570.0) && z[3] == z[2] * 3.0 / 4.0
  {
    ZoomKeepsHorizontalCentre(c, zoomBy);
  }

  // ---------------------------------------------------------------- bounding box

  /** `nodes.reduce((min, n) => Math.min(min, n.x), seed)`. */
  function LeftEdge(boxes: seq<Box>, seed: real): (r: real)
    ensures r <= seed
    ensures forall i :: 0 <= i < |boxes| ==> r <= boxes[i].x
    ensures r == seed || exists i :: 0 <= i < |boxes| && r == boxes[i].x
  {
    if boxes == [] then seed else LeftEdge(boxes[1..], Min(seed, boxes[0].x))
  }

  /** `nodes.reduce((max, n) => Math.max(max, n.x + n.width), seed)`. */
  function RightEdge(boxes: seq<Box>, seed: real): (r: real)
    ensures r >= seed
    ensures forall i :: 0 <= i < |boxes| ==> boxes[i].x + boxes[i].width <= r
    ensures r == seed || exists i :: 0 <= i < |boxes| && r == boxes[i].x + boxes[i].width
  {
    if boxes == [] then seed else RightEdge(boxes[1..], Max(seed, boxes[0].x + boxes[0].width))
  }

  /** `nodes.reduce((min, n) => Math.min(min, n.y), seed)`. */
  function TopEdge(boxes: seq<Box>, seed: real): (r: real)
    ensures r <= seed
    ensures forall i :: 0 <= i < |boxes| ==> r <= boxes[i].y
    ensures r == seed || exists i :: 0 <= i < |boxes| && r == boxes[i].y
  {
    if boxes == [] then seed else TopEdge(boxes[1..], Min(seed, boxes[0].y))
  }

  /** `nodes.reduce((max, n) => Math.max(max, n.y + n.height), seed)`. */
  function BottomEdge(boxes: seq<Box>, seed: real): (r: real)
    ensures r >= seed
    ensures forall i :: 0 <= i < |boxes| ==> boxes[i].y + boxes[i].height <= r
    ensures r == seed || exists i :: 0 <= i < |boxes| && r == boxes[i].y + boxes[i].height
  {
    if boxes == [] then seed else BottomEdge(boxes[1..], Max(seed, boxes[0].y + boxes[0].height))
  }

  /** `minX`: seeded with half the width shown. */
  function MinX(c: Camera, boxes: seq<Box>): real { LeftEdge(boxes, c.w / 2.0) }
  /** `maxX`: seeded with 0. */
  function MaxX(boxes: seq<Box>): real { RightEdge(boxes, 0.0) }
  /** `minY`: seeded with half the height shown. */
  function MinY(c: Camera, boxes: seq<Box>): real { TopEdge(boxes, Height(c.w) / 2.0) }
  /** `maxY`: seeded with 0. */
  function MaxY(boxes: seq<Box>): real { BottomEdge(boxes, 0.0) }

  // ---------------------------------------------------------------- zoom to fit

  /**
   * `zoomToFit()`: when the horizontal extent is positive, frame the bounding box with a
   * margin of 20, widening to keep the 4:3 ratio; otherwise leave the camera alone. All
   * four extents are those of the camera before the call.
   */
  function Fitted(c: Camera, boxes: seq<Box>): Camera {
    var minX, maxX := MinX(c, boxes), MaxX(boxes);
    var minY, maxY := MinY(c, boxes), MaxY(boxes);
    if maxX - minX > 0.0 then
      Camera(minX - FitMargin, minY - FitMargin, Max(maxX - minX, (maxY - minY) * 4.0 / 3.0) + 2.0 * FitMargin)
    else
      c
  }

  /** The box lies inside the world rectangle the camera shows. */
  predicate Shows(c: Camera, b: Box) {
    && c.x <= b.x && b.x + b.width <= c.x + c.w
    && c.y <= b.y && b.y + b.height <= c.y + Height(c.w)
  }

  /** After a zoom to fit that changes the camera, every node is inside the view. */
  lemma FitShowsEveryNode(c: Camera, boxes: seq<Box>)
    requires MaxX(boxes) - MinX(c, boxes) > 0.0
    ensures Fitted(c, boxes).w > 0.0
    ensures forall i :: 0 <= i < |boxes| ==> Shows(Fitted(c, boxes), boxes[i])
  {
    var minX, maxX := MinX(c, boxes), MaxX(boxes);
    var minY, maxY := MinY(c, boxes), MaxY(boxes);
    var f := Fitted(c, boxes);
    assert f.w >= (maxY - minY) * 4.0 / 3.0 + 40.0;
    assert Height(f.w) >= maxY - minY + 30.0;
    forall i | 0 <= i < |boxes| ensures Shows(f, boxes[i]) {
    }
  }

  /** With no nodes and a positive width, zoom to fit changes nothing. */
  lemma FitWithoutNodes(c: Camera)
    requires c.w > 0.0
    ensures Fitted(c, []) == c
  {
  }

  /**
   * Nodes at (0,0) and (600,400), each 40 by 30, seen from the initial camera: the camera
   * moves to (-20,-20) with width 680, the horizontal span 640 plus the margins.
   */
  lemma FitTwoNodes()
    ensures Fitted(Initial, [Box(0.0, 0.0, 40.0, 30.0), Box(600.0, 400.0, 40.0, 30.0)])
         == Camera(-20.0, -20.0, 680.0)
  {
    var boxes := [Box(0.0, 0.0, 40.0, 30.0), Box(600.0, 400.0, 40.0, 30.0)];
    assert MinX(Initial, boxes) == 0.0;
    assert MaxX(boxes) == 640.0;
    assert MinY(Initial, boxes) == 0.0;
    assert MaxY(boxes) == 430.0;
  }
}
