/** Canonical labelling of the four polygon vertices in `get_inner_plate`:
    top-left and bottom-right by the smallest and largest x+y (`pts.sum(axis=1)`),
    top-right and bottom-left by the smallest and largest y-x (`np.diff(pts, axis=1)`),
    each choosing the first index on ties, as numpy's argmin/argmax do. */
module Corners {

  /** One vertex of `approx`, in integer pixel coordinates. */
  datatype Point = Point(x: int, y: int)

  /** The two rankings the labelling uses. */
  datatype Key = Sum | Diff

  function KeyOf(k: Key, p: Point): int {
    match k
    case Sum => p.x + p.y
    case Diff => p.y - p.x
  }

  function Keys(k: Key, pts: seq<Point>): seq<int> {
    seq(|pts|, i requires 0 <= i < |pts| => KeyOf(k, pts[i]))
  }

  /** `i` is what `np.argmin(v)` returns: a minimal entry, and the first one. */
  predicate IsFirstMin(v: seq<int>, i: int) {
    0 <= i < |v| &&
    (forall j :: 0 <= j < |v| ==> v[i] <= v[j]) &&
    (forall j :: 0 <= j < i ==> v[i] < v[j])
  }

  /** `i` is what `np.argmax(v)` returns: a maximal entry, and the first one. */
  predicate IsFirstMax(v: seq<int>, i: int) {
    0 <= i < |v| &&
    (forall j :: 0 <= j < |v| ==> v[j] <= v[i]) &&
    (forall j :: 0 <= j < i ==> v[j] < v[i])
  }

  function ArgMin(v: seq<int>): (i: nat)
    requires |v| > 0
    ensures IsFirstMin(v, i)
  {
    if |v| == 1 then 0
    else
      var k := ArgMin(v[..|v| - 1]);
      if v[|v| - 1] < v[k] then |v| - 1 else k
  }

  function ArgMax(v: seq<int>): (i: nat)
    requires |v| > 0
    ensures IsFirstMax(v, i)
  {
    if |v| == 1 then 0
    else
      var k := ArgMax(v[..|v| - 1]);
      if v[k] < v[|v| - 1] then |v| - 1 else k
  }

  /** `rect` as (tl, tr, br, bl). */
  datatype Quad = Quad(tl: Point, tr: Point, br: Point, bl: Point)

  /** `p` is a point of `pts` with the smallest key. */
  predicate MinPoint(pts: seq<Point>, k: Key, p: Point) {
    p in pts && forall q :: q in pts ==> KeyOf(k, p) <= KeyOf(k, q)
  }

  /** `p` is a point of `pts` with the largest key. */
  predicate MaxPoint(pts: seq<Point>, k: Key, p: Point) {
    p in pts && forall q :: q in pts ==> KeyOf(k, q) <= KeyOf(k, p)
  }

  /** `p` is `pts[i]` for the first index `i` whose key is smallest. */
  ghost predicate FirstMinPoint(pts: seq<Point>, k: Key, p: Point) {
    MinPoint(pts, k, p) &&
    exists i :: 0 <= i < |pts| && pts[i] == p && forall j :: 0 <= j < i ==> KeyOf(k, p) < KeyOf(k, pts[j])
  }

  /** `p` is `pts[i]` for the first index `i` whose key is largest. */
  ghost predicate FirstMaxPoint(pts: seq<Point>, k: Key, p: Point) {
    MaxPoint(pts, k, p) &&
    exists i :: 0 <= i < |pts| && pts[i] == p && forall j :: 0 <= j < i ==> KeyOf(k, pts[j]) < KeyOf(k, p)
  }

  lemma FirstMinIndexPoint(pts: seq<Point>, k: Key, i: int)
    requires IsFirstMin(Keys(k, pts), i)
    ensures FirstMinPoint(pts, k, pts[i])
  {
    var v := Keys(k, pts);
    assert forall j :: 0 <= j < i ==> KeyOf(k, pts[i]) < KeyOf(k, pts[j]) by {
      forall j | 0 <= j < i ensures KeyOf(k, pts[i]) < KeyOf(k, pts[j]) {
        assert v[i] < v[j];
      }
    }
    forall q | q in pts ensures KeyOf(k, pts[i]) <= KeyOf(k, q) {
      var j :| 0 <= j < |pts| && pts[j] == q;
      assert v[i] <= v[j];
    }
  }

  lemma FirstMaxIndexPoint(pts: seq<Point>, k: Key, i: int)
    requires IsFirstMax(Keys(k, pts), i)
    ensures FirstMaxPoint(pts, k, pts[i])
  {
    var v := Keys(k, pts);
    assert forall j :: 0 <= j < i ==> KeyOf(k, pts[j]) < KeyOf(k, pts[i]) by {
      forall j | 0 <= j < i ensures KeyOf(k, pts[j]) < KeyOf(k, pts[i]) {
        assert v[j] < v[i];
      }
    }
    forall q | q in pts ensures KeyOf(k, q) <= KeyOf(k, pts[i]) {
      var j :| 0 <= j < |pts| && pts[j] == q;
      assert v[j] <= v[i];
    }
  }

  /** At most one point is the first minimal one: the labels are well defined. */
  lemma FirstMinPointUnique(pts: seq<Point>, k: Key, p: Point, q: Point)
    requires FirstMinPoint(pts, k, p) && FirstMinPoint(pts, k, q)
    ensures p == q
  {
  }

  /** The labelling at anpr.py lines 56-62. */
  function OrderPoints(pts: seq<Point>): (q: Quad)
    requires |pts| == 4
    ensures FirstMinPoint(pts, Sum, q.tl)
    ensures FirstMinPoint(pts, Diff, q.tr)
    ensures FirstMaxPoint(pts, Sum, q.br)
    ensures FirstMaxPoint(pts, Diff, q.bl)
  {
    var s := Keys(Sum, pts);
    var d := Keys(Diff, pts);
    FirstMinIndexPoint(pts, Sum, ArgMin(s));
    FirstMinIndexPoint(pts, Diff, ArgMin(d));
    FirstMaxIndexPoint(pts, Sum, ArgMax(s));
    FirstMaxIndexPoint(pts, Diff, ArgMax(d));
    Quad(pts[ArgMin(s)], pts[ArgMin(d)], pts[ArgMax(s)], pts[ArgMax(d)])
  }

  /** Only one point value of `pts` attains the smallest (largest) key `k`. */
  predicate UniqueMin(pts: seq<Point>, k: Key) {
    forall p, q :: p in pts && q in pts && MinPoint(pts, k, p) && MinPoint(pts, k, q) ==> p == q
  }

  predicate UniqueMax(pts: seq<Point>, k: Key) {
    forall p, q :: p in pts && q in pts && MaxPoint(pts, k, p) && MaxPoint(pts, k, q) ==> p == q
  }

  predicate UniqueExtremes(pts: seq<Point>) {
    UniqueMin(pts, Sum) && UniqueMax(pts, Sum) && UniqueMin(pts, Diff) && UniqueMax(pts, Diff)
  }

  /** When every extreme is attained by a single point, the labelling does not depend on the
      order in which the contour approximation listed the vertices. */
  lemma OrderPointsPermutationInvariant(pts: seq<Point>, qts: seq<Point>)
    requires |pts| == 4 && multiset(pts) == multiset(qts)
    requires UniqueExtremes(pts)
    ensures |qts| == 4 && OrderPoints(pts) == OrderPoints(qts)
  {
    SameElements(pts, qts);
    var a, b := OrderPoints(pts), OrderPoints(qts);
    assert MinPoint(pts, Sum, b.tl) && MinPoint(pts, Diff, b.tr);
    assert MaxPoint(pts, Sum, b.br) && MaxPoint(pts, Diff, b.bl);
  }

  /** With tied keys the labelling does depend on the input order: when the first two listed
      vertices share the smallest x+y (two corners of a square turned by 45 degrees, say),
      swapping them in the input swaps which one is labelled top-left. */
  lemma TiedTopLeftFollowsInputOrder(pts: seq<Point>)
    requires |pts| == 4 && pts[0] != pts[1]
    requires KeyOf(Sum, pts[0]) == KeyOf(Sum, pts[1])
    requires forall j :: 0 <= j < 4 ==> KeyOf(Sum, pts[0]) <= KeyOf(Sum, pts[j])
    ensures var swapped := [pts[1], pts[0], pts[2], pts[3]];
            multiset(swapped) == multiset(pts) &&
            OrderPoints(pts).tl == pts[0] && OrderPoints(swapped).tl == pts[1] &&
            OrderPoints(pts) != OrderPoints(swapped)
  {
    var swapped := [pts[1], pts[0], pts[2], pts[3]];
    SwapKeepsPoints(pts);
    TopLeftIsFirstListed(pts);
    assert forall j :: 0 <= j < 4 ==> KeyOf(Sum, swapped[0]) <= KeyOf(Sum, swapped[j]);
    TopLeftIsFirstListed(swapped);
  }

  lemma SwapKeepsPoints(pts: seq<Point>)
    requires |pts| == 4
    ensures multiset([pts[1], pts[0], pts[2], pts[3]]) == multiset(pts)
  {
    assert [pts[1], pts[0], pts[2], pts[3]] == [pts[1]] + [pts[0]] + pts[2..];
    assert pts == [pts[0]] + [pts[1]] + pts[2..];
  }

  lemma TopLeftIsFirstListed(pts: seq<Point>)
    requires |pts| == 4
    requires forall j :: 0 <= j < 4 ==> KeyOf(Sum, pts[0]) <= KeyOf(Sum, pts[j])
    ensures OrderPoints(pts).tl == pts[0]
  {
    assert FirstMinPoint(pts, Sum, pts[0]);
    FirstMinPointUnique(pts, Sum, pts[0], OrderPoints(pts).tl);
  }

  /** The point of `pts` whose key is strictly below every other point's key is the one chosen. */
  lemma StrictMinChosen(pts: seq<Point>, k: Key, p: Point, r: Point)
    requires p in pts && forall q :: q in pts && q != p ==> KeyOf(k, p) < KeyOf(k, q)
    requires MinPoint(pts, k, r)
    ensures r == p
  {
  }

  lemma StrictMaxChosen(pts: seq<Point>, k: Key, p: Point, r: Point)
    requires p in pts && forall q :: q in pts && q != p ==> KeyOf(k, q) < KeyOf(k, p)
    requires MaxPoint(pts, k, r)
    ensures r == p
  {
  }

  lemma SameElements(pts: seq<Point>, qts: seq<Point>)
    requires multiset(pts) == multiset(qts)
    ensures |pts| == |qts|
    ensures forall p :: p in pts <==> p in qts
  {
    assert |pts| == |multiset(pts)| == |multiset(qts)| == |qts|;
    forall p ensures p in pts <==> p in qts {
      assert p in pts <==> p in multiset(pts);
      assert p in qts <==> p in multiset(qts);
    }
  }

  /** The corners of an upright rectangle, in the order top-left, top-right, bottom-right,
      bottom-left (y grows downwards, as in image coordinates). */
  function Upright(x0: int, y0: int, w: int, h: int): seq<Point> {
    [Point(x0, y0), Point(x0 + w, y0), Point(x0 + w, y0 + h), Point(x0, y0 + h)]
  }

  /** In an upright rectangle with positive sides each corner is the strict extreme of its key. */
  lemma UprightExtremes(x0: int, y0: int, w: int, h: int)
    requires w > 0 && h > 0
    ensures var r := Upright(x0, y0, w, h);
            (forall q :: q in r && q != r[0] ==> KeyOf(Sum, r[0]) < KeyOf(Sum, q)) &&
            (forall q :: q in r && q != r[1] ==> KeyOf(Diff, r[1]) < KeyOf(Diff, q)) &&
            (forall q :: q in r && q != r[2] ==> KeyOf(Sum, q) < KeyOf(Sum, r[2])) &&
            (forall q :: q in r && q != r[3] ==> KeyOf(Diff, q) < KeyOf(Diff, r[3]))
  {
  }

  /** The corners of an upright rectangle with positive sides, listed in any order, receive
      their true labels. */
  lemma UprightRectangleLabels(x0: int, y0: int, w: int, h: int, pts: seq<Point>)
    requires w > 0 && h > 0
    requires multiset(pts) == multiset(Upright(x0, y0, w, h))
    ensures |pts| == 4
    ensures OrderPoints(pts) == Quad(Point(x0, y0), Point(x0 + w, y0), Point(x0 + w, y0 + h), Point(x0, y0 + h))
  {
    var rect := Upright(x0, y0, w, h);
    SameElements(pts, rect);
    UprightExtremes(x0, y0, w, h);
    var q := OrderPoints(pts);
    StrictMinChosen(pts, Sum, rect[0], q.tl);
    StrictMinChosen(pts, Diff, rect[1], q.tr);
    StrictMaxChosen(pts, Sum, rect[2], q.br);
    StrictMaxChosen(pts, Diff, rect[3], q.bl);
  }
}
