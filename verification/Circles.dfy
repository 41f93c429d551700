/** Integer circle drawing (kernel/gui/fb.c): the pixels or spans handed to the pixel routines, in
    order, and the radii for which 32 bits are enough. */
module Circles {
  import opened Bytes
  import opened Raster

  /** x^2 + y^2 - r^2 */
  function Off(r: int, x: int, y: int): int { x * x + y * y - r * r }

  /** The decision value of the midpoint test between (x + 1, y) and (x + 1, y - 1). */
  function Decision(r: int, x: int, y: int): int {
    2 * (x + 1) * (x + 1) + y * y + (y - 1) * (y - 1) - 2 * r * r
  }

  /** The points of one octant from (x, y) on. */
  function Octant(r: int, x: int, y: int): (ps: seq<Point>)
    decreases y - x + 1
  {
    if y < x then []
    else [Point(x, y)] + (if Decision(r, x, y) < 0 then Octant(r, x + 1, y) else Octant(r, x + 1, y - 1))
  }

  lemma DecisionSteps(r: int, x: int, y: int)
    ensures Decision(r, x + 1, y) == Decision(r, x, y) + 4 * x + 6
    ensures Decision(r, x + 1, y - 1) == Decision(r, x, y) + 4 * (x - y) + 10
    ensures Decision(r, x, y) == 2 * Off(r, x, y) + 4 * x - 2 * y + 3
    ensures Off(r, x + 1, y) == Off(r, x, y) + 2 * x + 1
    ensures Off(r, x + 1, y - 1) == Off(r, x, y) + 2 * (x - y) + 2
  {
    assert (x + 1) * (x + 1) == x * x + 2 * x + 1;
    assert 2 * (x + 1) * (x + 1) == 2 * x * x + 4 * x + 2;
    assert 2 * (x + 2) * (x + 2) == 2 * x * x + 8 * x + 8;
    assert (y - 1) * (y - 1) == y * y - 2 * y + 1;
    assert (y - 2) * (y - 2) == y * y - 4 * y + 4;
  }

  predicate OnOctant(r: int, x: int, y: int) { 0 <= x <= y && Abs(Off(r, x, y)) <= y }

  lemma OctantStart(r: nat)
    ensures OnOctant(r, 0, r)
  {}

  /** Every point generated lies on the circle up to rounding: |x^2 + y^2 - r^2| <= y. */
  lemma {:induction false} OctantStays(r: int, x: int, y: int)
    requires 0 <= x && (y >= x ==> OnOctant(r, x, y))
    ensures forall p | p in Octant(r, x, y) :: OnOctant(r, p.x, p.y) && p.y <= y
    decreases y - x + 1
  {
    if y >= x {
      DecisionSteps(r, x, y);
      hide Off, Decision;
      if Decision(r, x, y) < 0 { OctantStays(r, x + 1, y); } else { OctantStays(r, x + 1, y - 1); }
    }
  }

  /** A filled row at height v: half as long as the span drawn for (x, y) at that height. */
  predicate Fills(p: Point, u: int, v: int) { (v == p.y && u <= p.x) || (v == p.x && u <= p.y) }

  lemma SquareBeyond(n: int, u: int)
    ensures u > n >= 0 ==> u * u >= n * n + 2 * n + 1
  {
    if u > n >= 0 {
      Times(n + 1, u, n + 1);
      Times(n + 1, u, u);
    }
  }

  lemma BeyondIsOutside(r: int, x: int, y: int, u: int, v: int)
    requires 0 <= u && 0 <= v && u * u + v * v <= r * r
    ensures OnOctant(r, x, y) && v == x ==> u <= y
    ensures OnOctant(r, x, y) && v == y && Decision(r, x, y) >= 0 ==> u <= x
  {
    DecisionSteps(r, x, y);
    SquareBeyond(y, u);
    SquareBeyond(x, u);
    hide Decision;
  }

  /** Every lattice point of the disc between the rows of the octant that are still to come is filled. */
  lemma {:induction false} OctantFills(r: int, x: int, y: int, u: int, v: int) returns (p: Point)
    requires OnOctant(r, x, y) && x <= v <= y && 0 <= u && u * u + v * v <= r * r
    ensures p in Octant(r, x, y) && Fills(p, u, v)
    decreases y - x + 1
  {
    hide Off, Decision;
    OctantNext(r, x, y);
    BeyondIsOutside(r, x, y, u, v);
    p := Point(x, y);
    if Decision(r, x, y) < 0 {
      if v > x { p := OctantFills(r, x + 1, y, u, v); }
    } else if x < v < y {
      p := OctantFills(r, x + 1, y - 1, u, v);
    }
  }

  datatype Mark =
    | Dot(x: int, y: int)
    | Span(x: int, y: int, len: int)

  /** What one turn of the loop draws for octant point p: four spans or eight pixels. */
  function Marks(cx: int, cy: int, filled: bool, p: Point): seq<Mark> {
    if filled then
      [Span(cx - p.x, cy - p.y, 2 * p.x + 1), Span(cx - p.x, cy + p.y, 2 * p.x + 1),
       Span(cx - p.y, cy - p.x, 2 * p.y + 1), Span(cx - p.y, cy + p.x, 2 * p.y + 1)]
    else
      [Dot(cx + p.x, cy + p.y), Dot(cx - p.x, cy + p.y), Dot(cx + p.x, cy - p.y), Dot(cx - p.x, cy - p.y),
       Dot(cx + p.y, cy + p.x), Dot(cx - p.y, cy + p.x), Dot(cx + p.y, cy - p.x), Dot(cx - p.y, cy - p.x)]
  }

  function AllMarks(cx: int, cy: int, filled: bool, ps: seq<Point>): (ms: seq<Mark>) {
    if ps == [] then [] else Marks(cx, cy, filled, ps[0]) + AllMarks(cx, cy, filled, ps[1..])
  }

  lemma {:induction false} MarksOf(cx: int, cy: int, filled: bool, ps: seq<Point>, m: Mark)
    ensures m in AllMarks(cx, cy, filled, ps) <==> exists p | p in ps :: m in Marks(cx, cy, filled, p)
  {
    hide Marks;
    if ps != [] {
      MarksOf(cx, cy, filled, ps[1..], m);
      assert forall p :: p in ps <==> p == ps[0] || p in ps[1..];
    }
  }

  /** On the octant the decision value is small. */
  lemma DecisionInRange(r: int, x: int, y: int)
    requires OnOctant(r, x, y)
    ensures -4 * y <= Decision(r, x, y) <= 4 * y + 3
  {
    DecisionSteps(r, x, y);
    hide Decision, Off;
  }

  lemma OctantNext(r: int, x: int, y: int)
    requires OnOctant(r, x, y)
    ensures if Decision(r, x, y) < 0 then y >= x + 1 ==> OnOctant(r, x + 1, y) else y - 1 >= x + 1 ==> OnOctant(r, x + 1, y - 1)
  {
    DecisionSteps(r, x, y);
    hide Decision, Off;
  }

  /** The loop of fb_circle from (x, y, d) on, in integers of any size. */
  function CircleLoop(cx: int, cy: int, filled: bool, x: int, y: int, d: int): seq<Mark>
    decreases y - x + 1
  {
    if y < x then []
    else
      Marks(cx, cy, filled, Point(x, y)) +
      if d < 0 then CircleLoop(cx, cy, filled, x + 1, y, d + 4 * x + 6)
      else CircleLoop(cx, cy, filled, x + 1, y - 1, d + 4 * (x - y) + 10)
  }

  lemma {:induction false} LoopIsOctant(cx: int, cy: int, filled: bool, r: int, x: int, y: int)
    ensures CircleLoop(cx, cy, filled, x, y, Decision(r, x, y)) == AllMarks(cx, cy, filled, Octant(r, x, y))
    decreases y - x + 1
  {
    hide Decision, Marks, CircleLoop, AllMarks, Octant;
    if y < x {
      NoMarks(cx, cy, filled, r, x, y);
    } else {
      DecisionSteps(r, x, y);
      FirstMarks(cx, cy, filled, r, x, y);
      FirstTurn(cx, cy, filled, x, y, Decision(r, x, y));
      if Decision(r, x, y) < 0 {
        LoopIsOctant(cx, cy, filled, r, x + 1, y);
      } else {
        LoopIsOctant(cx, cy, filled, r, x + 1, y - 1);
      }
    }
  }

  lemma NoMarks(cx: int, cy: int, filled: bool, r: int, x: int, y: int)
    requires y < x
    ensures AllMarks(cx, cy, filled, Octant(r, x, y)) == [] && forall d :: CircleLoop(cx, cy, filled, x, y, d) == []
  {}

  lemma FirstMarks(cx: int, cy: int, filled: bool, r: int, x: int, y: int)
    requires y >= x
    ensures AllMarks(cx, cy, filled, Octant(r, x, y)) ==
            Marks(cx, cy, filled, Point(x, y)) +
            AllMarks(cx, cy, filled, if Decision(r, x, y) < 0 then Octant(r, x + 1, y) else Octant(r, x + 1, y - 1))
  {
    hide Decision, Marks;
  }

  lemma FirstTurn(cx: int, cy: int, filled: bool, x: int, y: int, d: int)
    requires y >= x
    ensures CircleLoop(cx, cy, filled, x, y, d) ==
            Marks(cx, cy, filled, Point(x, y)) +
            CircleLoop(cx, cy, filled, x + 1, if d < 0 then y else y - 1, d + if d < 0 then 4 * x + 6 else 4 * (x - y) + 10)
  {
    hide Marks;
  }

  /** For every radius d is the decision value throughout, so that the marks are those of the octant's
      points, in order (none for a negative radius). */
  lemma CircleDraws(cx: int, cy: int, filled: bool, r: int)
    ensures CircleLoop(cx, cy, filled, 0, r, 3 - 2 * r) == AllMarks(cx, cy, filled, Octant(r, 0, r))
  {
    DecisionSteps(r, 0, r);
    hide Decision;
    LoopIsOctant(cx, cy, filled, r, 0, r);
  }

  // in 32 bits

  const CIRCLE_MIN: int := -0x3FFF_FFFE
  const CIRCLE_MAX: int := 0x2000_0000 + 23170

  /** The update of d at octant point p fits. */
  predicate CircleTurnFits(r: int, p: Point) {
    var d := Decision(r, p.x, p.y);
    if d < 0 then Fits32(4 * p.x + 6) && Fits32(d + 4 * p.x + 6)
    else Fits32(4 * (p.x - p.y)) && Fits32(d + 4 * (p.x - p.y) + 10)
  }

  ghost predicate RestFits(r: int, x: int, y: int) { forall p | p in Octant(r, x, y) :: CircleTurnFits(r, p) }

  ghost predicate AllCircleTurnsFit(r: int) { Fits32(2 * r) && Fits32(3 - 2 * r) && RestFits(r, 0, r) }

  /** The first step down comes early enough, and afterwards y - x falls. */
  predicate Narrow(r: int, x: int, y: int) { (y == r || y - x <= 0x2000_0000) && Decision(r, x, y) >= -0x8000_0000 }

  lemma FirstDown(r: nat, x: nat)
    requires Decision(r, x, r) >= 0 && r <= CIRCLE_MAX
    ensures r - x <= 0x2000_0000
  {
    Times(x + 1, 23170, x + 1);
    Times(x + 1, 23170, 23170);
    DecisionAtTop(r, x);
  }

  lemma DecisionAtTop(r: int, x: int)
    ensures Decision(r, x, r) == 2 * ((x + 1) * (x + 1)) - 2 * r + 1
  {}

  /** On the octant x stays well below the radius. */
  lemma OctantWidth(r: nat, x: int, y: int)
    requires OnOctant(r, x, y) && y <= r <= CIRCLE_MAX
    ensures x <= 0x1FFF_FFF0
  {
    var n := 0x1FFF_FFF0;
    Times(n, x, x);
    Times(n, x, n);
    Times(n, y, y);
    Times(n, y, n);
    Times(r, CIRCLE_MAX, r);
    Times(r, CIRCLE_MAX, CIRCLE_MAX);
    YAgainstSquare(y);
  }

  lemma YAgainstSquare(y: int)
    requires y >= 0
    ensures y > 0x1FFF_FFF0 ==> y * y - y >= 0x1FFF_FFF0 * 0x1FFF_FFF0 - 0x1FFF_FFF0
  {
    if y > 0 { Times(0x1FFF_FFF0, y, y - 1); }
  }

  lemma CircleTurnKeeps(r: nat, x: int, y: int)
    requires OnOctant(r, x, y) && y <= r <= CIRCLE_MAX && Narrow(r, x, y)
    ensures CircleTurnFits(r, Point(x, y))
    ensures if Decision(r, x, y) < 0 then Narrow(r, x + 1, y) else Narrow(r, x + 1, y - 1)
  {
    hide OnOctant, Decision, Off;
    OctantWidth(r, x, y);
    DecisionInRange(r, x, y);
    InQuadrant(r, x, y);
    DecisionSteps(r, x, y);
    if y == r && Decision(r, x, y) >= 0 { FirstDown(r, x); }
  }

  lemma InQuadrant(r: int, x: int, y: int)
    requires OnOctant(r, x, y)
    ensures 0 <= x <= y
  {}

  lemma {:induction false} OctantTurnsFit(r: nat, x: int, y: int)
    requires r <= CIRCLE_MAX && y <= r && 0 <= x && (y >= x ==> OnOctant(r, x, y) && Narrow(r, x, y))
    ensures RestFits(r, x, y)
    decreases y - x + 1
  {
    hide OnOctant, Decision, Narrow, CircleTurnFits;
    if y >= x {
      CircleTurnKeeps(r, x, y);
      OctantNext(r, x, y);
      if Decision(r, x, y) < 0 { OctantTurnsFit(r, x + 1, y); } else { OctantTurnsFit(r, x + 1, y - 1); }
    }
  }

  /** The last octant point in the top row, when there is one with x below it. */
  lemma {:induction false} TopRowEnds(r: nat, x: nat) returns (k: nat)
    requires x <= r && r > 1 && (x == 0 || Decision(r, x - 1, r) < 0)
    ensures Point(k, r) in Octant(r, x, r) && Decision(r, k, r) >= 0 && k > 0 && Decision(r, k - 1, r) < 0
    decreases r - x
  {
    DecisionAtTop(r, x);
    k := x;
    if Decision(r, x, r) < 0 {
      Times(1, x + 1, x + 1);
      hide Decision;
      k := TopRowEnds(r, x + 1);
    }
  }

  /** Beyond the bound the step down out of the top row overflows. */
  lemma TooLarge(r: nat)
    requires CIRCLE_MAX < r
    ensures !RestFits(r, 0, r)
  {
    hide Decision, Octant;
    var k := TopRowEnds(r, 0);
    DecisionAtTop(r, k - 1);
    TooWide(r, k);
    assert !CircleTurnFits(r, Point(k, r));
  }

  lemma TooWide(r: nat, k: nat)
    requires CIRCLE_MAX < r && 0 < k && k * k < r
    ensures r - k > 0x2000_0000
  {
    Times(23170, k - 1, k);
    assert (k - 1) * k == k * k - k;
  }

  /** fb_circle computes within 32 bits on every turn for exactly these radii. */
  lemma CircleFitsIff(r: int)
    ensures AllCircleTurnsFit(r) <==> CIRCLE_MIN <= r <= CIRCLE_MAX
  {
    hide OnOctant, CircleTurnFits, RestFits;
    if r > CIRCLE_MAX {
      TooLarge(r);
    } else if r >= 0 {
      OctantStart(r);
      DecisionSteps(r, 0, r);
      NarrowStart(r);
      OctantTurnsFit(r, 0, r);
    } else {
      NoTurns(r);
    }
  }

  lemma NarrowStart(r: nat)
    requires r <= CIRCLE_MAX
    ensures Narrow(r, 0, r)
  {
    DecisionAtTop(r, 0);
    hide Decision;
  }

  lemma NoTurns(r: int)
    requires r < 0
    ensures RestFits(r, 0, r)
  {}

  /** The update at the end of fb_circle's loop. */
  method CircleTurn(ghost r: int, x: int32, y: int32, d: int32) returns (x': int32, y': int32, d': int32)
    requires 0 <= x <= y && d as int == Decision(r, x as int, y as int) && CircleTurnFits(r, Point(x as int, y as int))
    requires x as int < INT_MAX
    ensures x' as int == x as int + 1 && y' as int == if d < 0 then y as int else y as int - 1
    ensures d' as int == d as int + if d < 0 then 4 * x as int + 6 else 4 * (x as int - y as int) + 10
  {
    hide Decision;
    x', y', d' := x, y, d;
    if d < 0 {
      d' := d + (4 * x + 6);
    } else {
      d' := d + (4 * (x - y) + 10);
      y' := y - 1;
    }
    x' := x + 1;
  }

  /** The state at the head of the loop: what is drawn, and what of the whole is still to come. */
  ghost predicate OnLoop(cx: int, cy: int, filled: bool, r: int, x: int, y: int, d: int, marks: seq<Mark>) {
    && 0 <= x && y <= r && d == Decision(r, x, y) && RestFits(r, x, y)
    && marks + CircleLoop(cx, cy, filled, x, y, d) == CircleLoop(cx, cy, filled, 0, r, 3 - 2 * r)
  }

  lemma LoopStarts(cx: int, cy: int, filled: bool, r: int)
    requires RestFits(r, 0, r)
    ensures OnLoop(cx, cy, filled, r, 0, r, 3 - 2 * r, [])
  {
    DecisionSteps(r, 0, r);
    hide Decision, CircleLoop, RestFits;
  }

  lemma LoopTurns(cx: int, cy: int, filled: bool, r: int, x: int, y: int, d: int, marks: seq<Mark>)
    requires OnLoop(cx, cy, filled, r, x, y, d, marks) && y >= x
    ensures CircleTurnFits(r, Point(x, y)) && x <= y <= r
    ensures OnLoop(cx, cy, filled, r, x + 1, if d < 0 then y else y - 1,
                   d + (if d < 0 then 4 * x + 6 else 4 * (x - y) + 10), marks + Marks(cx, cy, filled, Point(x, y)))
  {
    hide Decision, Marks, CircleTurnFits, CircleLoop, RestFits;
    DecisionSteps(r, x, y);
    RestNext(r, x, y);
    FirstTurn(cx, cy, filled, x, y, d);
    var dy, dd := if d < 0 then y else y - 1, if d < 0 then 4 * x + 6 else 4 * (x - y) + 10;
    MovesOver(marks, Marks(cx, cy, filled, Point(x, y)), CircleLoop(cx, cy, filled, x + 1, dy, d + dd));
  }

  lemma RestNext(r: int, x: int, y: int)
    requires RestFits(r, x, y) && y >= x
    ensures CircleTurnFits(r, Point(x, y)) && RestFits(r, x + 1, if Decision(r, x, y) < 0 then y else y - 1)
  {
    hide Decision, CircleTurnFits;
    assert Point(x, y) in Octant(r, x, y);
  }

  lemma MovesOver<T>(a: seq<T>, b: seq<T>, c: seq<T>)
    ensures (a + b) + c == a + (b + c)
  {}

  /** fb_circle in 32 bits, for every radius for which that does not overflow: the pixels or spans drawn,
      in order. */
  method Circle(cx: int32, cy: int32, radius: int32, filled: bool) returns (marks: seq<Mark>)
    requires CIRCLE_MIN <= radius as int <= CIRCLE_MAX
    ensures marks == AllMarks(cx as int, cy as int, filled, Octant(radius as int, 0, radius as int))
  {
    hide Marks, CircleLoop, Decision, CircleTurnFits, RestFits;
    ghost var r := radius as int;
    CircleFitsIff(r);
    CircleDraws(cx as int, cy as int, filled, r);
    LoopStarts(cx as int, cy as int, filled, r);
    var x, y, d := 0, radius, 3 - 2 * radius;
    marks := [];
    while y >= x
      invariant OnLoop(cx as int, cy as int, filled, r, x as int, y as int, d as int, marks)
      decreases y as int - x as int + 1
    {
      LoopTurns(cx as int, cy as int, filled, r, x as int, y as int, d as int, marks);
      marks := marks + Marks(cx as int, cy as int, filled, Point(x as int, y as int));
      x, y, d := CircleTurn(r, x, y, d);
    }
    NoMarks(cx as int, cy as int, filled, r, x as int, y as int);
  }

  /** Every coordinate and length drawn fits 32 bits when the circle lies inside that range. */
  lemma MarksFit(cx: int, cy: int, filled: bool, r: nat, m: Mark)
    requires m in AllMarks(cx, cy, filled, Octant(r, 0, r)) && Max(Abs(cx), Abs(cy)) + 2 * r + 1 <= INT_MAX
    ensures Abs(m.x) <= INT_MAX && Abs(m.y) <= INT_MAX && (m.Span? ==> 0 < m.len <= INT_MAX && m.x + m.len <= INT_MAX)
  {
    hide AllMarks, Octant, Off, Marks, Abs, Max;
    MarksOf(cx, cy, filled, Octant(r, 0, r), m);
    OctantStart(r);
    OctantStays(r, 0, r);
    var p :| p in Octant(r, 0, r) && m in Marks(cx, cy, filled, p);
    MarkFits(cx, cy, filled, r, p, m);
  }

  lemma MarkFits(cx: int, cy: int, filled: bool, r: nat, p: Point, m: Mark)
    requires m in Marks(cx, cy, filled, p) && 0 <= p.x <= p.y <= r && Max(Abs(cx), Abs(cy)) + 2 * r + 1 <= INT_MAX
    ensures Abs(m.x) <= INT_MAX && Abs(m.y) <= INT_MAX && (m.Span? ==> 0 < m.len <= INT_MAX && m.x + m.len <= INT_MAX)
  {
    MarkPlaces(cx, cy, filled, p, m);
    hide Marks;
  }

  /** A mark starts at most p.y away from the centre in both directions. */
  lemma MarkPlaces(cx: int, cy: int, filled: bool, p: Point, m: Mark)
    requires m in Marks(cx, cy, filled, p) && 0 <= p.x <= p.y
    ensures cx - p.y <= m.x <= cx + p.y && cy - p.y <= m.y <= cy + p.y
    ensures m.Span? ==> 0 < m.len <= 2 * p.y + 1 && m.x <= cx
  {
    if filled { assert m.Span?; } else { assert m.Dot?; }
  }

  lemma SameSquare(u: int, x: int, y: int)
    ensures u == x || u == -x ==> u * u == x * x
    ensures u == y || u == -y ==> u * u == y * y
  {}

  /** (u, v) is one of the eight mirror images of p. */
  predicate Mirrors(p: Point, u: int, v: int) { (Abs(u) == p.x && Abs(v) == p.y) || (Abs(u) == p.y && Abs(v) == p.x) }

  lemma EightDots(cx: int, cy: int, p: Point, m: Mark)
    requires 0 <= p.x && 0 <= p.y
    ensures m in Marks(cx, cy, false, p) <==> m.Dot? && Mirrors(p, m.x - cx, m.y - cy)
  {
    if m.Dot? && Mirrors(p, m.x - cx, m.y - cy) {
      assert m == Dot(cx + (m.x - cx), cy + (m.y - cy));
    }
  }

  lemma MirrorIsRound(r: nat, p: Point, u: int, v: int)
    requires OnOctant(r, p.x, p.y) && Mirrors(p, u, v)
    ensures Abs(Off(r, u, v)) <= Max(Abs(u), Abs(v)) == p.y
  {
    SameSquare(u, p.x, p.y);
    SameSquare(v, p.x, p.y);
  }

  /** The pixels of an outline are the mirror images of the octant. */
  lemma OutlinePixels(cx: int, cy: int, r: nat, m: Mark)
    ensures m in AllMarks(cx, cy, false, Octant(r, 0, r)) <==>
            m.Dot? && exists p | p in Octant(r, 0, r) :: Mirrors(p, m.x - cx, m.y - cy)
  {
    OctantStays(r, 0, r);
    MarksOf(cx, cy, false, Octant(r, 0, r), m);
    hide Marks, AllMarks, Octant, Mirrors, Off;
    forall p | p in Octant(r, 0, r) ensures m in Marks(cx, cy, false, p) <==> m.Dot? && Mirrors(p, m.x - cx, m.y - cy) {
      EightDots(cx, cy, p, m);
    }
  }

  /** Every pixel of an outline is on the circle up to rounding. */
  lemma OutlineIsRound(cx: int, cy: int, r: nat, m: Mark)
    requires m in AllMarks(cx, cy, false, Octant(r, 0, r))
    ensures m.Dot? && Abs(Off(r, m.x - cx, m.y - cy)) <= Max(Abs(m.x - cx), Abs(m.y - cy)) <= r
  {
    OutlinePixels(cx, cy, r, m);
    OctantStays(r, 0, r);
    hide AllMarks, Octant, Mirrors, Off, Abs, Max;
    var p :| p in Octant(r, 0, r) && Mirrors(p, m.x - cx, m.y - cy);
    MirrorIsRound(r, p, m.x - cx, m.y - cy);
  }

  /** Every height and every width between the first point and the diagonal is met. */
  lemma {:induction false} OctantMeets(r: int, x: int, y: int, v: int) returns (p: Point)
    requires 0 <= x <= v <= y
    ensures p in Octant(r, x, y) && 0 <= p.x && 0 <= p.y && (p.x == v || p.y == v)
    decreases y - x + 1
  {
    hide Decision;
    p := Point(x, y);
    if x < v < y {
      if Decision(r, x, y) < 0 { p := OctantMeets(r, x + 1, y, v); } else { p := OctantMeets(r, x + 1, y - 1, v); }
    } else {
      assert p in Octant(r, x, y);
    }
  }

  /** The outline has no gap: in every column within the radius, and so by symmetry in every row, there is
      a pixel. */
  lemma OutlineMeetsColumns(cx: int, cy: int, r: nat, u: int) returns (v: int)
    requires Abs(u) <= r
    ensures Dot(cx + u, cy + v) in AllMarks(cx, cy, false, Octant(r, 0, r))
  {
    hide AllMarks, Octant;
    var p := OctantMeets(r, 0, r, Abs(u));
    v := if p.x == Abs(u) then p.y else p.x;
    OutlinePixels(cx, cy, r, Dot(cx + u, cy + v));
    assert Mirrors(p, u, v);
  }

  /** The outline has every mirror image of every pixel. */
  lemma OutlineIsSymmetric(cx: int, cy: int, r: nat, u: int, v: int)
    requires Dot(cx + u, cy + v) in AllMarks(cx, cy, false, Octant(r, 0, r))
    ensures var ms := AllMarks(cx, cy, false, Octant(r, 0, r));
            Dot(cx - u, cy + v) in ms && Dot(cx + u, cy - v) in ms && Dot(cx + v, cy + u) in ms
  {
    hide AllMarks, Octant;
    OutlinePixels(cx, cy, r, Dot(cx + u, cy + v));
    OutlinePixels(cx, cy, r, Dot(cx - u, cy + v));
    OutlinePixels(cx, cy, r, Dot(cx + u, cy - v));
    OutlinePixels(cx, cy, r, Dot(cx + v, cy + u));
    var p :| p in Octant(r, 0, r) && Mirrors(p, u, v);
    assert Mirrors(p, -u, v) && Mirrors(p, u, -v) && Mirrors(p, v, u);
    hide Mirrors;
  }

  predicate Covers(m: Mark, x: int, y: int) { m.Span? && m.y == y && m.x <= x < m.x + m.len }

  /** A filled circle covers the whole disc: no lattice point within the radius is left out. */
  lemma DiscIsFilled(cx: int, cy: int, r: nat, x: int, y: int)
    requires Off(r, x - cx, y - cy) <= 0
    ensures exists m | m in AllMarks(cx, cy, true, Octant(r, 0, r)) :: Covers(m, x, y)
  {
    var u, v := Abs(x - cx), Abs(y - cy);
    SameSquare(u, x - cx, x - cx);
    SameSquare(v, y - cy, y - cy);
    SquareBeyond(r, v);
    hide Octant;
    var p := OctantFills(r, 0, r, u, v);
    var m := if v == p.y && u <= p.x then Span(cx - p.x, y, 2 * p.x + 1) else Span(cx - p.y, y, 2 * p.y + 1);
    assert m in Marks(cx, cy, true, p) && Covers(m, x, y);
    MarksOf(cx, cy, true, Octant(r, 0, r), m);
  }

  /** And it covers nothing beyond rounding. */
  lemma FillStaysInDisc(cx: int, cy: int, r: nat, x: int, y: int, m: Mark)
    requires m in AllMarks(cx, cy, true, Octant(r, 0, r)) && Covers(m, x, y)
    ensures Off(r, x - cx, y - cy) <= r
  {
    MarksOf(cx, cy, true, Octant(r, 0, r), m);
    OctantStays(r, 0, r);
    hide Octant, AllMarks, Off, Marks, Covers;
    var p :| p in Octant(r, 0, r) && m in Marks(cx, cy, true, p);
    SpanInDisc(cx, cy, r, x, y, p, m);
  }

  lemma SpanInDisc(cx: int, cy: int, r: nat, x: int, y: int, p: Point, m: Mark)
    requires OnOctant(r, p.x, p.y) && p.y <= r && m in Marks(cx, cy, true, p) && Covers(m, x, y)
    ensures Off(r, x - cx, y - cy) <= r
  {
    var u, v := x - cx, y - cy;
    assert (Abs(u) <= p.x && Abs(v) == p.y) || (Abs(u) <= p.y && Abs(v) == p.x);
    SquareWithin(u, p.x);
    SquareWithin(u, p.y);
    SameSquare(v, p.x, p.y);
    hide Marks, Covers;
  }

  lemma SquareWithin(u: int, n: int)
    ensures Abs(u) <= n ==> u * u <= n * n
  {
    if Abs(u) <= n {
      Times(Abs(u), n, n);
      Times(Abs(u), n, Abs(u));
      assert u * u == Abs(u) * Abs(u);
    }
  }
}
