/** The arithmetic and the control flow of `get_inner_plate` around the OpenCV calls:
    the three-way outcome of a frame, the target size of the rectification and the 10% crop.
    Edge detection, contour search, polygon approximation, edge lengths and the perspective
    warp are foreign routines and enter as inputs. */
module Localizer {
  import opened Wrappers
  import opened Corners

  /** An image of `height` rows of `width` pixels (numpy's `shape[:2]`). */
  datatype Raster<P> = Raster(height: nat, width: nat, rows: seq<seq<P>>) {
    predicate Valid() {
      |rows| == height && forall i :: 0 <= i < |rows| ==> |rows[i]| == width
    }
  }

  datatype Size = Size(width: nat, height: nat)

  /** `int(widthA)`, `int(widthB)`, `int(heightA)`, `int(heightB)`: the truncated lengths of
      the bottom, top, right and left edges. */
  datatype Edges = Edges(widthA: nat, widthB: nat, heightA: nat, heightB: nat)

  /** `maxWidth = max(int(widthA), int(widthB))`, `maxHeight = max(int(heightA), int(heightB))`. */
  function TargetSize(e: Edges): (s: Size)
    ensures s.width >= e.widthA && s.width >= e.widthB
    ensures s.width == e.widthA || s.width == e.widthB
    ensures s.height >= e.heightA && s.height >= e.heightB
    ensures s.height == e.heightA || s.height == e.heightB
  {
    Size(if e.widthA >= e.widthB then e.widthA else e.widthB,
         if e.heightA >= e.heightB then e.heightA else e.heightB)
  }

  /** There is no lower bound of 1: a degenerate quadrilateral gives a zero-sized target. */
  lemma TargetSizeMayBeEmpty()
    ensures TargetSize(Edges(0, 0, 0, 0)) == Size(0, 0)
  {
  }

  /** `int(w * 0.10)`: the first column kept by the crop, a tenth of the width rounded down. */
  function CropStart(w: nat): (c: nat)
    ensures c <= w
    ensures 10 * c <= w < 10 * c + 10
  {
    w / 10
  }

  /** `warp[0:h, int(w*0.10):w]`: every row loses its first `CropStart(w)` pixels. */
  function Crop<P>(img: Raster<P>): (r: Raster<P>)
    requires img.Valid()
    ensures r.Valid()
    ensures r.height == img.height && r.width == img.width - CropStart(img.width)
    ensures forall i, j :: 0 <= i < r.height && 0 <= j < r.width ==>
              r.rows[i][j] == img.rows[i][j + CropStart(img.width)]
  {
    var c := CropStart(img.width);
    Raster(img.height, img.width - c,
           seq(img.height, i requires 0 <= i < img.height => img.rows[i][c..]))
  }

  /** The triple `get_inner_plate` returns: (cropped plate, uncropped warp, annotated frame). */
  datatype Located<P> = Located(inner: Option<Raster<P>>, warped: Option<Raster<P>>, debug: Option<Raster<P>>)

  /** The edge lengths of the labelled quadrilateral, as `get_inner_plate` pairs the corners:
      widths along the bottom and top edges, heights along the right and left edges. When a point
      is at distance 0 from itself, corners that coincide across the top and across the bottom
      give widths of 0, and corners that coincide down the left and down the right give heights
      of 0. */
  function EdgesOf(q: Quad, edgeLength: (Point, Point) -> nat): (e: Edges)
    ensures (forall a: Point :: edgeLength(a, a) == 0) && q.tl == q.tr && q.br == q.bl ==>
              e.widthA == 0 && e.widthB == 0
    ensures (forall a: Point :: edgeLength(a, a) == 0) && q.tr == q.br && q.tl == q.bl ==>
              e.heightA == 0 && e.heightB == 0
  {
    Edges(edgeLength(q.br, q.bl), edgeLength(q.tr, q.tl), edgeLength(q.tr, q.br), edgeLength(q.tl, q.bl))
  }

  /** The size of the image `cv2.warpPerspective` produces for the requested size `s`: an empty
      request (a width or height of 0) yields an image the size of the source frame. The result is
      either the request or the frame's size, a non-empty request is honoured, and the result is
      never empty when the frame is not. */
  function WarpSize<P>(s: Size, frame: Raster<P>): (r: Size)
    ensures r == s || (r.width == frame.width && r.height == frame.height)
    ensures s.width > 0 && s.height > 0 ==> r == s
    ensures frame.width > 0 && frame.height > 0 ==> r.width > 0 && r.height > 0
  {
    if s.width > 0 && s.height > 0 then s else Size(frame.width, frame.height)
  }

  /** `get_inner_plate(frame)`. `approx` is `None` when no contour was found, and otherwise the
      polygon approximation of the largest contour; `edgeLength(a, b)` stands for
      `int(np.linalg.norm(a - b))` and `warp` for `cv2.warpPerspective` of the frame with the
      transform that maps the labelled corners onto the requested target rectangle. */
  function GetInnerPlate<P>(frame: Raster<P>, approx: Option<seq<Point>>,
                            edgeLength: (Point, Point) -> nat,
                            warp: (Quad, Size) -> Raster<P>): (r: Located<P>)
    requires forall q, s :: warp(q, s).Valid() && warp(q, s).width == WarpSize(s, frame).width &&
                            warp(q, s).height == WarpSize(s, frame).height
    ensures approx == None ==> r == Located(None, Some(frame), None)
    ensures approx.Some? && |approx.value| != 4 ==> r == Located(None, None, Some(frame))
    ensures r.inner.Some? <==> approx.Some? && |approx.value| == 4
    ensures r.inner.Some? ==>
              var q := OrderPoints(approx.value);
              var s := TargetSize(EdgesOf(q, edgeLength));
              r.warped == Some(warp(q, s)) && r.debug == Some(frame) &&
              r.inner == Some(Crop(warp(q, s))) &&
              r.inner.value.height == WarpSize(s, frame).height &&
              r.inner.value.width == WarpSize(s, frame).width - CropStart(WarpSize(s, frame).width)
    ensures r.inner.Some? && frame.width > 0 && frame.height > 0 ==>
              r.inner.value.width > 0 && r.inner.value.height > 0
  {
    match approx
    case None => Located(None, Some(frame), None)
    case Some(pts) =>
      if |pts| == 4 then
        var q := OrderPoints(pts);
        var w := warp(q, TargetSize(EdgesOf(q, edgeLength)));
        Located(Some(Crop(w)), Some(w), Some(frame))
      else
        Located(None, None, Some(frame))
  }

  /** A quadrilateral whose labelled corners coincide in pairs requests an empty target, and the
      plate is then cut from a warp the size of the whole frame. */
  lemma DegenerateQuadWarpsWholeFrame<P>(frame: Raster<P>, pts: seq<Point>,
                                         edgeLength: (Point, Point) -> nat,
                                         warp: (Quad, Size) -> Raster<P>)
    requires |pts| == 4
    requires forall a: Point :: edgeLength(a, a) == 0
    requires OrderPoints(pts).tl == OrderPoints(pts).tr && OrderPoints(pts).br == OrderPoints(pts).bl
    requires forall q, s :: warp(q, s).Valid() && warp(q, s).width == WarpSize(s, frame).width &&
                            warp(q, s).height == WarpSize(s, frame).height
    ensures TargetSize(EdgesOf(OrderPoints(pts), edgeLength)).width == 0
    ensures var r := GetInnerPlate(frame, Some(pts), edgeLength, warp);
            r.inner.Some? && r.inner.value.height == frame.height &&
            r.inner.value.width == frame.width - CropStart(frame.width)
  {
  }

  function Abs(n: int): nat { if n < 0 then -n else n }

  /** An upright w-by-h rectangle, its corners listed in any order, is rectified to a w-by-h
      target when the length of a horizontal or vertical edge is measured exactly. */
  lemma UprightRectangleTargetSize(x0: int, y0: int, w: int, h: int, pts: seq<Point>,
                                   edgeLength: (Point, Point) -> nat)
    requires w > 0 && h > 0
    requires multiset(pts) == multiset(Upright(x0, y0, w, h))
    requires forall a: Point, b: Point :: a.y == b.y ==> edgeLength(a, b) == Abs(a.x - b.x)
    requires forall a: Point, b: Point :: a.x == b.x ==> edgeLength(a, b) == Abs(a.y - b.y)
    ensures |pts| == 4
    ensures TargetSize(EdgesOf(OrderPoints(pts), edgeLength)) == Size(w, h)
  {
    UprightRectangleLabels(x0, y0, w, h, pts);
  }
}
