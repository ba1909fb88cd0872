/**
 * Geometry of the segment analyser: segments whose endpoints lie on the
 * boundary of the unit square, the (left, right) area split a segment
 * induces, and the intersection of two segments' supporting lines.
 * Coordinates are exact reals, so the source's equality tests against 0
 * and 1 and its determinant formula carry over without rounding.
 */
module Geometry {
  import opened Wrappers

  datatype Point = Point(x: real, y: real)

  /** A parsed segment: two endpoints, in file order, and its number. */
  datatype Segment = Segment(p1: Point, p2: Point, id: int)

  predicate InUnit(v: real) { 0.0 <= v <= 1.0 }

  predicate InSquare(p: Point) { InUnit(p.x) && InUnit(p.y) }

  function Abs(v: real): real { if v < 0.0 then -v else v }

  function Min(a: real, b: real): real { if a <= b then a else b }

  function Max(a: real, b: real): real { if a >= b then a else b }

  function Sub(a: Point, b: Point): Point { Point(a.x - b.x, a.y - b.y) }

  /** The z-component of the cross product of two plane vectors. */
  function Cross(a: Point, b: Point): real { a.x * b.y - a.y * b.x }

  // ---------------------------------------------------------------------
  // Sides of the square and the connections area_ratio recognises
  // ---------------------------------------------------------------------

  datatype Side = Left | Right | Bottom | Top

  predicate OnSide(p: Point, side: Side)
  {
    match side
    case Left => p.x == 0.0
    case Right => p.x == 1.0
    case Bottom => p.y == 0.0
    case Top => p.y == 1.0
  }

  /**
   * The ordered (first endpoint, second endpoint) side pairs that the
   * classification accepts. The reversed pairs (Right, Left), (Top, Bottom),
   * (Top, Left) and (Right, Bottom) are not among them.
   */
  const Connections: set<(Side, Side)> :=
    {(Left, Top), (Bottom, Right),
     (Left, Bottom), (Bottom, Left), (Top, Right), (Right, Top),
     (Left, Right), (Bottom, Top)}

  predicate Connects(s: Segment, a: Side, b: Side)
  {
    OnSide(s.p1, a) && OnSide(s.p2, b)
  }

  predicate Recognised(s: Segment)
  {
    exists a: Side, b: Side :: (a, b) in Connections && Connects(s, a, b)
  }

  // ---------------------------------------------------------------------
  // area_ratio
  // ---------------------------------------------------------------------

  datatype AreaError = OffSquare | NotConnecting

  datatype Ratio = Ratio(left: real, right: real)

  datatype AreaResult = Ok(ratio: Ratio) | Err(error: AreaError)

  predicate EndpointsInSquare(s: Segment)
  {
    InSquare(s.p1) && InSquare(s.p2)
  }

  /** The first test, "bottom-right or left-top"; its clauses repeat themselves. */
  predicate NearCornerPattern(s: Segment)
  {
    var x1, y1, x2, y2 := s.p1.x, s.p1.y, s.p2.x, s.p2.y;
    (x1 == 0.0 && y2 == 1.0) || (y1 == 0.0 && x2 == 1.0) || (y1 == 0.0 && x2 == 1.0) || (x1 == 0.0 && y2 == 1.0)
  }

  /** The second test, "bottom-left or right-top". */
  predicate FarCornerPattern(s: Segment)
  {
    var x1, y1, x2, y2 := s.p1.x, s.p1.y, s.p2.x, s.p2.y;
    ((x1 == 0.0 && y2 == 0.0) || (y1 == 0.0 && x2 == 0.0)) || ((y1 == 1.0 && x2 == 1.0) || (x1 == 1.0 && y2 == 1.0))
  }

  /** The area split of one segment, or the error the source raises. */
  function AreaRatio(s: Segment): AreaResult
  {
    var x1, y1, x2, y2 := s.p1.x, s.p1.y, s.p2.x, s.p2.y;
    if !EndpointsInSquare(s) then
      Err(OffSquare)
    else if NearCornerPattern(s) then
      var area := 0.5 * (x2 - x1) * (y2 - y1);
      Ok(Ratio(Min(area, 1.0 - area), Max(area, 1.0 - area)))
    else if FarCornerPattern(s) then
      var area := Abs(0.5 * (x2 - x1) * (y2 - y1));
      Ok(Ratio(Min(area, 1.0 - area), Max(area, 1.0 - area)))
    else if x1 == 0.0 && x2 == 1.0 then
      var area := 0.5 * (y2 + y1);
      Ok(Ratio(area, 1.0 - area))
    else if y1 == 0.0 && y2 == 1.0 then
      var area := 0.5 * (x1 + x2);
      Ok(Ratio(area, 1.0 - area))
    else
      Err(NotConnecting)
  }

  // ---------------------------------------------------------------------
  // Polygon area (shoelace formula), the reference for the area split
  // ---------------------------------------------------------------------

  /** Sum of the cross products of consecutive vertices of an open chain. */
  function Chain(ps: seq<Point>): real
  {
    if |ps| < 2 then 0.0 else Cross(ps[0], ps[1]) + Chain(ps[1..])
  }

  /** Area enclosed by a simple polygon given by its vertices in order. */
  function PolygonArea(ps: seq<Point>): real
  {
    if ps == [] then 0.0 else Abs(Chain(ps + [ps[0]])) / 2.0
  }

  lemma TriangleShoelace(a: Point, b: Point, c: Point)
    ensures PolygonArea([a, b, c]) == Abs(Cross(a, b) + Cross(b, c) + Cross(c, a)) / 2.0
  {
    assert [a, b, c] + [a] == [a, b, c, a];
    assert Chain([a]) == 0.0;
    assert Chain([c, a]) == Cross(c, a) + Chain([c, a][1..]) && [c, a][1..] == [a];
    assert Chain([b, c, a]) == Cross(b, c) + Chain([b, c, a][1..]) && [b, c, a][1..] == [c, a];
    assert Chain([a, b, c, a]) == Cross(a, b) + Chain([a, b, c, a][1..]) && [a, b, c, a][1..] == [b, c, a];
  }

  lemma QuadShoelace(a: Point, b: Point, c: Point, d: Point)
    ensures PolygonArea([a, b, c, d]) == Abs(Cross(a, b) + Cross(b, c) + Cross(c, d) + Cross(d, a)) / 2.0
  {
    assert [a, b, c, d] + [a] == [a, b, c, d, a];
    assert Chain([a]) == 0.0;
    assert Chain([d, a]) == Cross(d, a) + Chain([d, a][1..]) && [d, a][1..] == [a];
    assert Chain([c, d, a]) == Cross(c, d) + Chain([c, d, a][1..]) && [c, d, a][1..] == [d, a];
    assert Chain([b, c, d, a]) == Cross(b, c) + Chain([b, c, d, a][1..]) && [b, c, d, a][1..] == [c, d, a];
    assert Chain([a, b, c, d, a]) == Cross(a, b) + Chain([a, b, c, d, a][1..]) && [a, b, c, d, a][1..] == [b, c, d, a];
  }

  lemma ProductInUnit(a: real, b: real)
    requires InUnit(a) && InUnit(b)
    ensures 0.0 <= a * b <= b <= 1.0
  {
    assert (1.0 - a) * b >= 0.0;
  }

  const TopLeft: Point := Point(0.0, 1.0)
  const BottomRight: Point := Point(1.0, 0.0)
  const Origin: Point := Point(0.0, 0.0)
  const TopRight: Point := Point(1.0, 1.0)

  /** A corner triangle of doubled area m in [0, 1] is the smaller part. */
  lemma NearCornerArea(s: Segment, m: real)
    requires EndpointsInSquare(s) && NearCornerPattern(s) && 0.0 <= m <= 1.0
    requires 0.5 * (s.p2.x - s.p1.x) * (s.p2.y - s.p1.y) == 0.5 * m
    ensures AreaRatio(s) == Ok(Ratio(0.5 * m, 1.0 - 0.5 * m))
  {
    var area := 0.5 * (s.p2.x - s.p1.x) * (s.p2.y - s.p1.y);
    assert Min(area, 1.0 - area) == 0.5 * m && Max(area, 1.0 - area) == 1.0 - 0.5 * m;
  }

  lemma FarCornerArea(s: Segment, m: real)
    requires EndpointsInSquare(s) && !NearCornerPattern(s) && FarCornerPattern(s) && 0.0 <= m <= 1.0
    requires 0.5 * (s.p2.x - s.p1.x) * (s.p2.y - s.p1.y) == -0.5 * m
    ensures AreaRatio(s) == Ok(Ratio(0.5 * m, 1.0 - 0.5 * m))
  {
    var area := Abs(0.5 * (s.p2.x - s.p1.x) * (s.p2.y - s.p1.y));
    assert area == 0.5 * m;
    assert Min(area, 1.0 - area) == 0.5 * m && Max(area, 1.0 - area) == 1.0 - 0.5 * m;
  }

  /**
   * First branch, first endpoint on the left side and second on the top:
   * the smaller part is the triangle cut off the top-left corner.
   */
  lemma TopLeftCornerSplit(s: Segment)
    requires EndpointsInSquare(s)
    requires OnSide(s.p1, Left) && OnSide(s.p2, Top)
    ensures var t := PolygonArea([s.p1, s.p2, TopLeft]);
      t <= 0.5 && AreaRatio(s) == Ok(Ratio(t, 1.0 - t))
  {
    var x1, y1, x2, y2 := s.p1.x, s.p1.y, s.p2.x, s.p2.y;
    TriangleShoelace(s.p1, s.p2, TopLeft);
    var m := x2 * (1.0 - y1);
    ProductInUnit(x2, 1.0 - y1);
    assert Cross(s.p1, s.p2) + Cross(s.p2, TopLeft) + Cross(TopLeft, s.p1) == m;
    assert 0.5 * (x2 - x1) * (y2 - y1) == 0.5 * m;
    NearCornerArea(s, m);
  }

  /**
   * First branch, first endpoint on the bottom and second on the right:
   * the smaller part is the triangle cut off the bottom-right corner.
   */
  lemma BottomRightCornerSplit(s: Segment)
    requires EndpointsInSquare(s)
    requires OnSide(s.p1, Bottom) && OnSide(s.p2, Right)
    ensures var t := PolygonArea([s.p1, s.p2, BottomRight]);
      t <= 0.5 && AreaRatio(s) == Ok(Ratio(t, 1.0 - t))
  {
    var x1, y1, x2, y2 := s.p1.x, s.p1.y, s.p2.x, s.p2.y;
    TriangleShoelace(s.p1, s.p2, BottomRight);
    var m := (1.0 - x1) * y2;
    ProductInUnit(1.0 - x1, y2);
    assert Cross(s.p1, s.p2) + Cross(s.p2, BottomRight) + Cross(BottomRight, s.p1) == -m;
    assert 0.5 * (x2 - x1) * (y2 - y1) == 0.5 * m;
    NearCornerArea(s, m);
  }

  /**
   * Second branch, endpoints on the left and bottom sides (either order):
   * the smaller part is the triangle at the origin.
   */
  lemma OriginCornerSplit(s: Segment)
    requires EndpointsInSquare(s) && !NearCornerPattern(s)
    requires Connects(s, Left, Bottom) || Connects(s, Bottom, Left)
    ensures var t := PolygonArea([s.p1, s.p2, Origin]);
      t <= 0.5 && AreaRatio(s) == Ok(Ratio(t, 1.0 - t))
  {
    TriangleShoelace(s.p1, s.p2, Origin);
    if Connects(s, Left, Bottom) {
      LeftThenBottom(s);
    } else {
      BottomThenLeft(s);
    }
  }

  lemma LeftThenBottom(s: Segment)
    requires EndpointsInSquare(s) && !NearCornerPattern(s) && Connects(s, Left, Bottom)
    ensures var t := Abs(Cross(s.p1, s.p2) + Cross(s.p2, Origin) + Cross(Origin, s.p1)) / 2.0;
      t <= 0.5 && AreaRatio(s) == Ok(Ratio(t, 1.0 - t))
  {
    var m := OriginArith(s.p1.y, s.p2.x);
    assert s.p1 == Point(0.0, s.p1.y) && s.p2 == Point(s.p2.x, 0.0);
    FarCornerArea(s, m);
  }

  lemma BottomThenLeft(s: Segment)
    requires EndpointsInSquare(s) && !NearCornerPattern(s) && Connects(s, Bottom, Left)
    ensures var t := Abs(Cross(s.p1, s.p2) + Cross(s.p2, Origin) + Cross(Origin, s.p1)) / 2.0;
      t <= 0.5 && AreaRatio(s) == Ok(Ratio(t, 1.0 - t))
  {
    var m := OriginArith(s.p2.y, s.p1.x);
    assert s.p1 == Point(s.p1.x, 0.0) && s.p2 == Point(0.0, s.p2.y);
    FarCornerArea(s, m);
  }

  /**
   * Second branch, endpoints on the top and right sides (either order):
   * the smaller part is the triangle at the corner (1, 1).
   */
  lemma TopRightCornerSplit(s: Segment)
    requires EndpointsInSquare(s) && !NearCornerPattern(s)
    requires Connects(s, Top, Right) || Connects(s, Right, Top)
    ensures var t := PolygonArea([s.p1, s.p2, TopRight]);
      t <= 0.5 && AreaRatio(s) == Ok(Ratio(t, 1.0 - t))
  {
    TriangleShoelace(s.p1, s.p2, TopRight);
    if Connects(s, Top, Right) {
      TopThenRight(s);
    } else {
      RightThenTop(s);
    }
  }

  lemma TopThenRight(s: Segment)
    requires EndpointsInSquare(s) && !NearCornerPattern(s) && Connects(s, Top, Right)
    ensures var t := Abs(Cross(s.p1, s.p2) + Cross(s.p2, TopRight) + Cross(TopRight, s.p1)) / 2.0;
      t <= 0.5 && AreaRatio(s) == Ok(Ratio(t, 1.0 - t))
  {
    var m := TopRightArith(s.p1.x, s.p2.y);
    assert s.p1 == Point(s.p1.x, 1.0) && s.p2 == Point(1.0, s.p2.y);
    FarCornerArea(s, m);
  }

  lemma RightThenTop(s: Segment)
    requires EndpointsInSquare(s) && !NearCornerPattern(s) && Connects(s, Right, Top)
    ensures var t := Abs(Cross(s.p1, s.p2) + Cross(s.p2, TopRight) + Cross(TopRight, s.p1)) / 2.0;
      t <= 0.5 && AreaRatio(s) == Ok(Ratio(t, 1.0 - t))
  {
    var m := TopRightArith(s.p2.x, s.p1.y);
    assert s.p1 == Point(1.0, s.p1.y) && s.p2 == Point(s.p2.x, 1.0);
    FarCornerArea(s, m);
  }

  /** The arithmetic of the two corner triangles at the origin, on bare coordinates. */
  lemma OriginArith(v: real, u: real) returns (m: real)
    requires InUnit(u) && InUnit(v)
    ensures m == u * v && 0.0 <= m <= 1.0
    ensures 0.5 * (u - 0.0) * (0.0 - v) == -0.5 * m
    ensures 0.5 * (0.0 - u) * (v - 0.0) == -0.5 * m
    ensures Cross(Point(0.0, v), Point(u, 0.0)) + Cross(Point(u, 0.0), Origin) + Cross(Origin, Point(0.0, v)) == -m
    ensures Cross(Point(u, 0.0), Point(0.0, v)) + Cross(Point(0.0, v), Origin) + Cross(Origin, Point(u, 0.0)) == m
  {
    m := u * v;
    ProductInUnit(u, v);
  }

  /** The arithmetic of the two top-right corner triangles, on bare coordinates. */
  lemma TopRightArith(u: real, v: real) returns (m: real)
    requires InUnit(u) && InUnit(v)
    ensures m == (1.0 - u) * (1.0 - v) && 0.0 <= m <= 1.0
    ensures 0.5 * (1.0 - u) * (v - 1.0) == -0.5 * m
    ensures 0.5 * (u - 1.0) * (1.0 - v) == -0.5 * m
    ensures Cross(Point(u, 1.0), Point(1.0, v)) + Cross(Point(1.0, v), TopRight) + Cross(TopRight, Point(u, 1.0)) == m
    ensures Cross(Point(1.0, v), Point(u, 1.0)) + Cross(Point(u, 1.0), TopRight) + Cross(TopRight, Point(1.0, v)) == -m
  {
    m := (1.0 - u) * (1.0 - v);
    ProductInUnit(1.0 - u, 1.0 - v);
  }

  /**
   * Left-to-right segment that touches no corner side pair: the left ratio
   * is the area of the part of the square below the segment.
   */
  lemma LeftRightSplit(s: Segment)
    requires EndpointsInSquare(s) && !NearCornerPattern(s) && !FarCornerPattern(s)
    requires Connects(s, Left, Right)
    ensures var below := PolygonArea([Origin, BottomRight, s.p2, s.p1]);
      0.0 <= below <= 1.0 && below == 0.5 * (s.p1.y + s.p2.y)
      && AreaRatio(s) == Ok(Ratio(below, 1.0 - below))
  {
    QuadShoelace(Origin, BottomRight, s.p2, s.p1);
  }

  /**
   * Bottom-to-top segment that matches no earlier pattern: the left ratio
   * is the area of the part of the square left of the segment.
   */
  lemma BottomTopSplit(s: Segment)
    requires EndpointsInSquare(s) && !NearCornerPattern(s) && !FarCornerPattern(s)
    requires Connects(s, Bottom, Top) && !Connects(s, Left, Right)
    ensures var leftPart := PolygonArea([Origin, s.p1, s.p2, TopLeft]);
      0.0 <= leftPart <= 1.0 && leftPart == 0.5 * (s.p1.x + s.p2.x)
      && AreaRatio(s) == Ok(Ratio(leftPart, 1.0 - leftPart))
  {
    QuadShoelace(Origin, s.p1, s.p2, TopLeft);
  }

  /** The coordinate check comes before any side classification. */
  lemma OffSquareFirst(s: Segment)
    ensures AreaRatio(s) == Err(OffSquare) <==> !EndpointsInSquare(s)
  {
  }

  /** Both corner branches put the smaller part on the left. */
  lemma {:induction false} CornerSplitOrdered(s: Segment)
    requires EndpointsInSquare(s) && (NearCornerPattern(s) || FarCornerPattern(s))
    ensures AreaRatio(s).Ok?
    ensures var r := AreaRatio(s).ratio; 0.0 <= r.left <= 0.5 <= r.right <= 1.0 && r.left + r.right == 1.0
  {
    if Connects(s, Left, Top) {
      TopLeftCornerSplit(s);
    } else if Connects(s, Bottom, Right) {
      BottomRightCornerSplit(s);
    } else if Connects(s, Left, Bottom) || Connects(s, Bottom, Left) {
      OriginCornerSplit(s);
    } else {
      TopRightCornerSplit(s);
    }
  }

  /** Every successful split divides the whole square between left and right. */
  lemma {:induction false} RatioSplitsSquare(s: Segment)
    requires AreaRatio(s).Ok?
    ensures var r := AreaRatio(s).ratio;
      r.left + r.right == 1.0 && InUnit(r.left) && InUnit(r.right)
  {
    if NearCornerPattern(s) || FarCornerPattern(s) {
      CornerSplitOrdered(s);
    } else if Connects(s, Left, Right) {
      LeftRightSplit(s);
    } else {
      BottomTopSplit(s);
    }
  }

  /**
   * The classification succeeds exactly for in-square segments whose
   * endpoints lie, in order, on one of the accepted side pairs.
   */
  lemma {:induction false} AreaRatioSucceedsIff(s: Segment)
    ensures AreaRatio(s).Ok? <==> EndpointsInSquare(s) && Recognised(s)
    ensures AreaRatio(s) == Err(NotConnecting) <==> EndpointsInSquare(s) && !Recognised(s)
  {
    if EndpointsInSquare(s) {
      if AreaRatio(s).Ok? {
        if Connects(s, Left, Top) {
          assert (Left, Top) in Connections;
        } else if Connects(s, Bottom, Right) {
          assert (Bottom, Right) in Connections;
        } else if Connects(s, Left, Bottom) {
          assert (Left, Bottom) in Connections;
        } else if Connects(s, Bottom, Left) {
          assert (Bottom, Left) in Connections;
        } else if Connects(s, Top, Right) {
          assert (Top, Right) in Connections;
        } else if Connects(s, Right, Top) {
          assert (Right, Top) in Connections;
        } else if Connects(s, Left, Right) {
          assert (Left, Right) in Connections;
        } else {
          assert (Bottom, Top) in Connections;
        }
      }
    }
  }

  /** Worked example: a horizontal segment across the middle splits evenly. */
  lemma HorizontalMidline()
    ensures AreaRatio(Segment(Point(0.0, 0.5), Point(1.0, 0.5), 1)) == Ok(Ratio(0.5, 0.5))
  {
  }

  /** The same segment drawn right to left is rejected. */
  lemma ReversedMidlineRejected()
    ensures AreaRatio(Segment(Point(1.0, 0.5), Point(0.0, 0.5), 1)) == Err(NotConnecting)
  {
  }

  // ---------------------------------------------------------------------
  // segment_intersection and its inner line()
  // ---------------------------------------------------------------------

  /** The line a*x + b*y == c. */
  datatype LineEq = LineEq(a: real, b: real, c: real)

  predicate OnLine(l: LineEq, q: Point) { l.a * q.x + l.b * q.y == l.c }

  /** The supporting line through two points, in the source's coefficients. */
  function LineThrough(p1: Point, p2: Point): (l: LineEq)
    ensures OnLine(l, p1) && OnLine(l, p2)
    ensures l.a == 0.0 && l.b == 0.0 <==> p1 == p2
    ensures forall q :: OnLine(l, q) <==> Cross(Sub(p2, p1), Sub(q, p1)) == 0.0
  {
    var A := p1.y - p2.y;
    var B := p2.x - p1.x;
    var C := p1.x * p2.y - p2.x * p1.y;
    LineEq(A, B, -C)
  }

  function Det(l1: LineEq, l2: LineEq): real { l1.a * l2.b - l1.b * l2.a }

  lemma DetIsCrossOfDirections(s1: Segment, s2: Segment)
    ensures Det(LineThrough(s1.p1, s1.p2), LineThrough(s2.p1, s2.p2))
         == Cross(Sub(s1.p2, s1.p1), Sub(s2.p2, s2.p1))
  {
  }

  /** Cramer's rule on two line equations; a solution outside the square is dropped. */
  function Solve(l1: LineEq, l2: LineEq): Option<Point>
  {
    if Det(l1, l2) != 0.0 then
      var p := Cramer(l1, l2);
      if InUnit(p.x) && InUnit(p.y) then Some(p) else None
    else
      None
  }

  /** x = Dx / D and y = Dy / D. */
  function Cramer(l1: LineEq, l2: LineEq): Point
    requires Det(l1, l2) != 0.0
  {
    var d := Det(l1, l2);
    var dx := l1.c * l2.b - l1.b * l2.c;
    var dy := l1.a * l2.c - l1.c * l2.a;
    Point(dx / d, dy / d)
  }

  /** A returned point lies in the square and on both lines; parallel lines give none. */
  lemma SolveSound(l1: LineEq, l2: LineEq)
    ensures Solve(l1, l2).Some? ==>
      InSquare(Solve(l1, l2).value) && OnLine(l1, Solve(l1, l2).value) && OnLine(l2, Solve(l1, l2).value)
    ensures Det(l1, l2) == 0.0 ==> Solve(l1, l2) == None
  {
    if Det(l1, l2) != 0.0 {
      var p := Cramer(l1, l2);
      CramerSolves(l1, l2, p.x, p.y);
    }
  }

  lemma CramerSolves(l1: LineEq, l2: LineEq, x: real, y: real)
    requires Det(l1, l2) != 0.0
    requires x == (l1.c * l2.b - l1.b * l2.c) / Det(l1, l2)
    requires y == (l1.a * l2.c - l1.c * l2.a) / Det(l1, l2)
    ensures OnLine(l1, Point(x, y)) && OnLine(l2, Point(x, y))
  {
    var d := Det(l1, l2);
    assert x * d == l1.c * l2.b - l1.b * l2.c;
    assert y * d == l1.a * l2.c - l1.c * l2.a;
    assert (l1.a * x + l1.b * y) * d == l1.c * d;
    assert (l2.a * x + l2.b * y) * d == l2.c * d;
  }

  /** When the lines cross, the common point inside the square is the one returned. */
  lemma SolveComplete(l1: LineEq, l2: LineEq, q: Point)
    requires Det(l1, l2) != 0.0 && InSquare(q) && OnLine(l1, q) && OnLine(l2, q)
    ensures Solve(l1, l2) == Some(q)
  {
    UniqueSolution(l1.a, l1.b, l1.c, l2.a, l2.b, l2.c, q.x, q.y);
    assert Cramer(l1, l2) == q;
  }

  /** segment_intersection: the crossing point of the two supporting lines, if in the square. */
  function Intersect(s1: Segment, s2: Segment): (r: Option<Point>)
    ensures r.Some? ==>
      InSquare(r.value) && OnLine(LineThrough(s1.p1, s1.p2), r.value) && OnLine(LineThrough(s2.p1, s2.p2), r.value)
    ensures Cross(Sub(s1.p2, s1.p1), Sub(s2.p2, s2.p1)) == 0.0 ==> r == None
  {
    DetIsCrossOfDirections(s1, s2);
    SolveSound(LineThrough(s1.p1, s1.p2), LineThrough(s2.p1, s2.p2));
    Solve(LineThrough(s1.p1, s1.p2), LineThrough(s2.p1, s2.p2))
  }

  /**
   * When the supporting lines cross, the only point on both is the one
   * Intersect computes: any common point inside the square is returned.
   */
  lemma IntersectComplete(s1: Segment, s2: Segment, q: Point)
    requires Cross(Sub(s1.p2, s1.p1), Sub(s2.p2, s2.p1)) != 0.0
    requires InSquare(q)
    requires OnLine(LineThrough(s1.p1, s1.p2), q) && OnLine(LineThrough(s2.p1, s2.p2), q)
    ensures Intersect(s1, s2) == Some(q)
  {
    DetIsCrossOfDirections(s1, s2);
    SolveComplete(LineThrough(s1.p1, s1.p2), LineThrough(s2.p1, s2.p2), q);
  }

  /** A 2x2 system with non-zero determinant has only the Cramer solution. */
  lemma UniqueSolution(a1: real, b1: real, c1: real, a2: real, b2: real, c2: real, x: real, y: real)
    requires a1 * b2 - b1 * a2 != 0.0
    requires a1 * x + b1 * y == c1 && a2 * x + b2 * y == c2
    ensures x == (c1 * b2 - b1 * c2) / (a1 * b2 - b1 * a2)
    ensures y == (a1 * c2 - c1 * a2) / (a1 * b2 - b1 * a2)
  {
    var d := a1 * b2 - b1 * a2;
    assert c1 * b2 - b1 * c2 == (a1 * x + b1 * y) * b2 - b1 * (a2 * x + b2 * y);
    assert (a1 * x + b1 * y) * b2 - b1 * (a2 * x + b2 * y) == x * d;
    assert a1 * c2 - c1 * a2 == a1 * (a2 * x + b2 * y) - (a1 * x + b1 * y) * a2;
    assert a1 * (a2 * x + b2 * y) - (a1 * x + b1 * y) * a2 == y * d;
  }

  /** A segment with equal endpoints has no supporting line, so no intersection. */
  lemma DegenerateNeverIntersects(s1: Segment, s2: Segment)
    requires s1.p1 == s1.p2 || s2.p1 == s2.p2
    ensures Intersect(s1, s2) == None && Intersect(s2, s1) == None
  {
  }

  /** Worked example: two horizontal segments are parallel. */
  lemma ParallelExample()
    ensures Intersect(Segment(Point(0.0, 0.2), Point(1.0, 0.2), 1),
                      Segment(Point(0.0, 0.8), Point(1.0, 0.8), 2)) == None
  {
  }
}
