/** Integer line drawing (kernel/gui/fb.c): the points handed to the pixel routine, in order, and the
    lines for which 32 bits are enough. Module Circles does the same for circles. */
module Raster {
  import opened Bytes

  datatype Point = Point(x: int, y: int)

  /** The C code computes in `int`; outside this range it has no meaning. */
  newtype int32 = x: int | -0x8000_0000 <= x < 0x8000_0000

  const INT_MAX: int := 0x7FFF_FFFF

  predicate Fits32(v: int) { -0x8000_0000 <= v <= INT_MAX }

  function Abs(n: int): nat { if n < 0 then -n else n }

  // ---------------------------------------------------------------- lines

  /** i steps along x and j along y lie within half a pixel of the line with slope b over a. */
  predicate Near(a: nat, b: nat, i: int, j: int) { 2 * Abs(Drift(a, b, i, j)) <= Max(a, b) }

  /** How far that is off the line, in units of 1 / Max(a, b) pixels. */
  function Drift(a: nat, b: nat, i: int, j: int): int { j * a - i * b }

  /** Within half a pixel; of two points just half a pixel off, the one that the error tests choose. */
  predicate Nearest(a: nat, b: nat, i: int, j: int) {
    var d := Drift(a, b, i, j);
    if a >= b then 2 * d <= a && (2 * d + a > 0 || a == d == 0) else 2 * d + b >= 0 && 2 * d < b
  }

  /** The loop's counts of steps taken along x and along y, with its error term. */
  datatype Steps = Steps(i: nat, j: nat, err: int)

  /** The two error tests of one turn, where dx is a and dy is -b. */
  function Turn(a: nat, b: nat, s: Steps): Steps {
    var sx := if 2 * s.err + b >= 0 then s.(i := s.i + 1, err := s.err - b) else s;
    if 2 * s.err <= a then sx.(j := s.j + 1, err := sx.err + a) else sx
  }

  function Turns(a: nat, b: nat, n: nat): Steps {
    if n == 0 then Steps(0, 0, a - b) else Turn(a, b, Turns(a, b, n - 1))
  }

  /** The longer axis steps every time, and the error test on the other one stays nearest to the line. */
  lemma StepStaysNear(a: nat, b: nat, i: int, j: int)
    requires Nearest(a, b, i, j)
    ensures var e2 := 2 * (a - b + Drift(a, b, i, j));
            && (a >= b ==> e2 + b >= 0)
            && (b >= a ==> e2 <= a)
            && Nearest(a, b, if e2 + b >= 0 then i + 1 else i, if e2 <= a then j + 1 else j)
  {
    DriftSteps(a, b, i, j);
    hide Drift;
  }

  lemma DriftSteps(a: nat, b: nat, i: int, j: int)
    ensures Drift(a, b, i + 1, j) == Drift(a, b, i, j) - b
    ensures Drift(a, b, i, j + 1) == Drift(a, b, i, j) + a
    ensures Drift(a, b, i + 1, j + 1) == Drift(a, b, i, j) - b + a
  {
    assert (j + 1) * a == j * a + a && (i + 1) * b == i * b + b;
  }

  lemma NearestIsNear(a: nat, b: nat, i: int, j: int)
    requires Nearest(a, b, i, j)
    ensures Near(a, b, i, j)
  {
    hide Drift;
  }

  /** Near the line the shorter axis never overshoots, and at the end of the longer one it is at its end. */
  lemma NearInBox(a: nat, b: nat, i: nat, j: nat)
    requires Near(a, b, i, j)
    ensures a >= b && i <= a && a > 0 ==> j <= b && (i == a ==> j == b)
    ensures b >= a && j <= b && b > 0 ==> i <= a && (j == b ==> i == a)
  {
    if a >= b && i <= a && a > 0 { MinorBound(a, b, i, j); }
    if b >= a && j <= b && b > 0 { MinorBound(b, a, j, i); }
  }

  lemma Times(m: int, n: int, k: nat)
    ensures m <= n ==> m * k <= n * k
  {}

  lemma MinorBound(a: nat, b: nat, i: nat, j: nat)
    requires i <= a && a > 0 && 2 * Abs(j * a - i * b) <= a
    ensures j <= b && (i == a ==> j == b)
  {
    Times(i, a, b);
    Times(b + 1, j, a);
    Times(j, b - 1, a);
    assert (b + 1) * a == a * b + a && (b - 1) * a == a * b - a;
    var ja, ib, ab := j * a, i * b, a * b;
    assert 2 * Abs(ja - ib) <= a;
  }

  /** What holds at the head of the loop, n turns after the start. */
  ghost predicate Walk(a: nat, b: nat, s: Steps, n: nat) {
    && s.i <= a && s.j <= b && Nearest(a, b, s.i, s.j) && s.err == a - b + Drift(a, b, s.i, s.j)
    && Max(s.i, s.j) == n && (a >= b ==> s.i == n) && (b >= a ==> s.j == n)
  }

  lemma {:induction false} TurnsWalk(a: nat, b: nat, n: nat)
    requires n <= Max(a, b)
    ensures Walk(a, b, Turns(a, b, n), n)
    ensures Turns(a, b, n).i == a && Turns(a, b, n).j == b <==> n == Max(a, b)
  {
    if n > 0 {
      TurnsWalk(a, b, n - 1);
      TurnWalks(a, b, Turns(a, b, n - 1), n - 1);
    }
    NearestIsNear(a, b, Turns(a, b, n).i, Turns(a, b, n).j);
    NearInBox(a, b, Turns(a, b, n).i, Turns(a, b, n).j);
    hide Near, Nearest, Drift;
  }

  lemma TurnWalks(a: nat, b: nat, s: Steps, n: nat)
    requires Walk(a, b, s, n) && n < Max(a, b)
    ensures Walk(a, b, Turn(a, b, s), n + 1)
  {
    var r := Turn(a, b, s);
    StepStaysNear(a, b, s.i, s.j);
    DriftSteps(a, b, s.i, s.j);
    NearestIsNear(a, b, r.i, r.j);
    NearInBox(a, b, r.i, r.j);
    hide Near, Nearest, Drift;
  }

  /** The doubled error never exceeds twice the difference of the extents plus the longer one. */
  lemma ErrIsSmall(a: nat, b: nat, n: nat)
    requires n <= Max(a, b)
    ensures Abs(2 * Turns(a, b, n).err) <= 2 * Abs(a - b) + Max(a, b)
  {
    TurnsWalk(a, b, n);
    hide Drift;
  }

  // what is drawn

  predicate OneApart(p: Point, q: Point) { Abs(p.x - q.x) <= 1 && Abs(p.y - q.y) <= 1 }

  ghost predicate OnLine(x0: int, y0: int, x1: int, y1: int, p: Point) {
    && (x0 <= p.x <= x1 || x1 <= p.x <= x0) && (y0 <= p.y <= y1 || y1 <= p.y <= y0)
    && Near(Abs(x1 - x0), Abs(y1 - y0), Abs(p.x - x0), Abs(p.y - y0))
  }

  /** The k-th point is k steps along the longer axis. */
  ghost predicate DrawnAt(x0: int, y0: int, x1: int, y1: int, p: Point, k: nat) {
    OnLine(x0, y0, x1, y1, p) && Max(Abs(p.x - x0), Abs(p.y - y0)) == k
  }

  ghost predicate Connected(points: seq<Point>) {
    forall k, l | 0 <= k < |points| && l == k + 1 < |points| :: OneApart(points[k], points[l])
  }

  /** Points of the line: each is one pixel from its neighbour, in the box of the end points and within
      half a pixel of the ideal line. */
  ghost predicate Drawn(x0: int, y0: int, x1: int, y1: int, points: seq<Point>) {
    Connected(points) && forall k: nat | k < |points| :: DrawnAt(x0, y0, x1, y1, points[k], k)
  }

  /** n steps from c0 towards c1. */
  function Toward(c0: int, c1: int, n: int): int { if c0 < c1 then c0 + n else c0 - n }

  lemma TowardBox(c0: int, c1: int, n: nat)
    requires n <= Abs(c1 - c0)
    ensures Abs(Toward(c0, c1, n) - c0) == n && (c0 <= Toward(c0, c1, n) <= c1 || c1 <= Toward(c0, c1, n) <= c0)
    ensures Toward(c0, c1, n) == c1 <==> n == Abs(c1 - c0)
  {}

  /** The pixel drawn after n turns. */
  function PointAt(x0: int, y0: int, x1: int, y1: int, n: nat): Point {
    var s := Turns(Abs(x1 - x0), Abs(y1 - y0), n);
    Point(Toward(x0, x1, s.i), Toward(y0, y1, s.j))
  }

  function LinePoints(x0: int, y0: int, x1: int, y1: int): (points: seq<Point>)
    ensures |points| == Max(Abs(x1 - x0), Abs(y1 - y0)) + 1
    ensures forall n: nat | n < |points| :: points[n] == PointAt(x0, y0, x1, y1, n)
  {
    seq(Max(Abs(x1 - x0), Abs(y1 - y0)) + 1, n requires n >= 0 => PointAt(x0, y0, x1, y1, n))
  }

  lemma PointOnLine(x0: int, y0: int, x1: int, y1: int, n: nat)
    requires n <= Max(Abs(x1 - x0), Abs(y1 - y0))
    ensures DrawnAt(x0, y0, x1, y1, PointAt(x0, y0, x1, y1, n), n)
    ensures PointAt(x0, y0, x1, y1, n) == Point(x1, y1) <==> n == Max(Abs(x1 - x0), Abs(y1 - y0))
  {
    var a, b := Abs(x1 - x0), Abs(y1 - y0);
    TurnsWalk(a, b, n);
    var s := Turns(a, b, n);
    TowardBox(x0, x1, s.i);
    TowardBox(y0, y1, s.j);
    NearestIsNear(a, b, s.i, s.j);
    hide Near, Nearest, Drift, Toward, Abs, Turns;
  }

  /** fb_line in integers of any size: from one end point to the other, whatever they are, a connected
      line of pixels, each in their box and within half a pixel of the ideal line. */
  lemma LineIsDrawn(x0: int, y0: int, x1: int, y1: int)
    ensures var points := LinePoints(x0, y0, x1, y1);
            Drawn(x0, y0, x1, y1, points) && points[0] == Point(x0, y0) && points[|points| - 1] == Point(x1, y1)
  {
    hide OneApart, DrawnAt, Turn;
    var points := LinePoints(x0, y0, x1, y1);
    forall n: nat | n < |points| ensures DrawnAt(x0, y0, x1, y1, points[n], n) { PointOnLine(x0, y0, x1, y1, n); }
    forall k, l | 0 <= k < |points| && l == k + 1 < |points| ensures OneApart(points[k], points[l]) {
      PointsApart(x0, y0, x1, y1, k);
    }
    PointOnLine(x0, y0, x1, y1, |points| - 1);
    hide PointAt;
    StartsThere(x0, y0, x1, y1);
  }

  lemma PointsApart(x0: int, y0: int, x1: int, y1: int, n: nat)
    ensures OneApart(PointAt(x0, y0, x1, y1, n), PointAt(x0, y0, x1, y1, n + 1))
  {}

  lemma StartsThere(x0: int, y0: int, x1: int, y1: int)
    ensures PointAt(x0, y0, x1, y1, 0) == Point(x0, y0)
  {}

  // in 32 bits

  /** The doubled error and the sums of one turn fit. */
  predicate TurnFits(a: nat, b: nat, err: int) {
    && Fits32(2 * err)
    && (2 * err + b >= 0 ==> Fits32(err - b))
    && (2 * err <= a ==> Fits32((if 2 * err + b >= 0 then err - b else err) + a))
  }

  ghost predicate AllTurnsFit(a: nat, b: nat) { forall n: nat | n < Max(a, b) :: TurnFits(a, b, Turns(a, b, n).err) }

  function Gcd(a: nat, b: nat): (g: nat)
    ensures a > 0 || b > 0 ==> g > 0
    decreases b
  {
    if b == 0 then a else Gcd(b, a % b)
  }

  // the multiples of g around half of m: the last up to it, the last before it, the first from it on
  function LowHalf(m: nat, g: nat): int requires g > 0 { m / g / 2 * g }
  function BelowHalf(m: nat, g: nat): int requires g > 0 { (m / g - 1) / 2 * g }
  function HighHalf(m: nat, g: nat): int requires g > 0 { (m / g + 1) / 2 * g }

  /** In range: the extents, the largest and the smallest error over the whole line, and the smallest
      sum on the way. */
  predicate LineFits(a: nat, b: nat) {
    var g := Gcd(a, b);
    && a <= INT_MAX && b <= INT_MAX
    && (a >= b && a > 0 ==> 2 * (a - b + LowHalf(a, g)) <= INT_MAX && Fits32(a - 2 * b - BelowHalf(a, g)))
    && (a < b ==> Fits32(2 * (a - b - LowHalf(b, g))) && (a > 0 ==> Fits32(HighHalf(b, g) - 2 * b)))
  }

  lemma GcdStep(a: nat, b: nat) returns (n: nat, rest: nat)
    requires b > 0
    ensures a == n * b + rest && rest < b && Gcd(a, b) == Gcd(b, rest)
  {
    n, rest := a / b, a % b;
  }

  lemma {:induction false} GcdDivides(a: nat, b: nat) returns (p: nat, q: nat)
    ensures a == p * Gcd(a, b) && b == q * Gcd(a, b)
    decreases b
  {
    if b == 0 {
      p, q := 1, 0;
    } else {
      hide Gcd;
      var n, rest := GcdStep(a, b);
      var q', r := GcdDivides(b, rest);
      Combined(n, b, rest, q', r, Gcd(b, rest));
      p, q := n * q' + r, q';
    }
  }

  lemma Combined(n: nat, b: nat, rest: nat, q: nat, r: nat, g: nat)
    requires b == q * g && rest == r * g
    ensures n * b + rest == (n * q + r) * g
  {
    assert (n * q + r) * g == n * (q * g) + r * g;
  }

  lemma {:induction false} Bezout(a: nat, b: nat) returns (u: int, v: int)
    ensures u * a + v * b == Gcd(a, b)
    decreases b
  {
    if b == 0 {
      u, v := 1, 0;
    } else {
      hide Gcd;
      var n, rest := GcdStep(a, b);
      var u', v' := Bezout(b, rest);
      u, v := v', u' - v' * n;
      BezoutStep(n, b, rest, u', v');
    }
  }

  lemma BezoutStep(n: nat, b: nat, rest: nat, u: int, v: int)
    ensures v * (n * b + rest) + (u - v * n) * b == u * b + v * rest
  {
    assert v * (n * b) == v * n * b;
  }

  /** Every multiple of g is congruent to minus some k * n. */
  lemma Congruent(m: nat, n: nat, g: int, u: int, v: int, t: int) returns (k: nat, c: int)
    requires m > 0 && u * m + v * n == g
    ensures k < m && t * g == c * m - k * n
  {
    var w := -(t * v);
    var e := w / m;
    k, c := w % m, t * u - e * n;
    assert w == e * m + k;
    calc {
      c * m - k * n;
      t * u * m - e * n * m - k * n;
      t * u * m - (e * m + k) * n;
      t * u * m + t * v * n;
      t * (u * m + v * n);
    }
  }

  /** Two congruent numbers in the same half-open range of length m are equal. */
  lemma SameResidue(m: nat, c: int, j: int, k: int)
    requires 0 - m < 2 * (c * m - k) <= m && 0 - m < 2 * (j * m - k) <= m
    ensures c == j
  {
    Times(c + 1, j, m);
    Times(j + 1, c, m);
    assert (c + 1) * m == c * m + m && (j + 1) * m == j * m + m;
  }

  /** On the way every multiple of the common divisor occurs as the drift. */
  lemma Occurs(a: nat, b: nat, t: int) returns (n: nat)
    requires Max(a, b) > 0 && -Max(a, b) < 2 * (t * Gcd(a, b)) <= Max(a, b)
    ensures n < Max(a, b) && Turns(a, b, n).err == a - b + if a >= b then t * Gcd(a, b) else -(t * Gcd(a, b))
  {
    var u, v := Bezout(a, b);
    var c: int;
    if a >= b {
      n, c := Congruent(a, b, Gcd(a, b), u, v, t);
      TurnsWalk(a, b, n);
      SameResidue(a, c, Turns(a, b, n).j, n * b);
    } else {
      n, c := Congruent(b, a, Gcd(a, b), v, u, t);
      TurnsWalk(a, b, n);
      SameResidue(b, c, Turns(a, b, n).i, n * a);
    }
  }

  lemma TwiceTimes(x: int, c: int, y: int, g: nat)
    ensures 2 * x + c <= y ==> 2 * (x * g) + c * g <= y * g
  {
    if 2 * x + c <= y {
      Times(2 * x + c, y, g);
      Distributes(x, c, g);
    }
  }

  lemma Distributes(x: int, c: int, g: int)
    ensures (2 * x + c) * g == 2 * (x * g) + c * g
  {}

  lemma HalfMultiple(g: nat, n: nat, t: int)
    requires g > 0
    ensures 0 < 2 * (t * g) + n * g <= 2 * (n * g) <==> 0 < 2 * t + n <= 2 * n
  {
    TwiceTimes(t, 0, n, g);
    TwiceTimes(0 - t, 1, n, g);
    TwiceTimes(t, n, 0, g);
    TwiceTimes(0 - t, n + 1, 2 * n, g);
    assert (0 - t) * g == 0 - t * g;
    if 2 * t > n { TwiceTimes(0 - t, n + 1, 0, g); Successor(n, g); }
  }

  lemma Successor(n: int, g: int)
    ensures (n + 1) * g == n * g + g
  {}

  lemma Negated(t: int, g: nat)
    ensures (0 - t) * g == 0 - t * g
  {}

  lemma Difference(p: int, h: int, g: nat)
    ensures (p - h) * g == p * g - h * g
  {}

  lemma Quotient(p: nat, g: nat)
    requires g > 0
    ensures p * g / g == p
  {
    var k := p * g / g;
    Times(k + 1, p, g);
    Times(p + 1, k, g);
    Successor(k, g);
    Successor(p, g);
  }

  lemma HalvesAre(m: nat, g: nat, p: nat)
    requires g > 0 && m == p * g > 0
    ensures p > 0 && LowHalf(m, g) == p / 2 * g && BelowHalf(m, g) == (p - 1) / 2 * g && HighHalf(m, g) == (p + 1) / 2 * g
    ensures 0 <= 2 * LowHalf(m, g) <= m && 0 <= 2 * BelowHalf(m, g) < m <= 2 * HighHalf(m, g) <= 2 * m
  {
    Quotient(p, g);
    HalfProducts(p, p / 2, (p - 1) / 2, (p + 1) / 2, g);
  }

  lemma HalfProducts(p: nat, l: nat, k: nat, h: nat, g: nat)
    requires g > 0 && 2 * l <= p && 2 * k < p <= 2 * h <= 2 * p
    ensures 0 <= 2 * (l * g) <= p * g && 0 <= 2 * (k * g) < p * g <= 2 * (h * g) <= 2 * (p * g)
  {
    TwiceTimes(l, 0, p, g);
    TwiceTimes(k, 1, p, g);
    Times(p, 2 * h, g);
    Distributes(h, 0, g);
    Times(h, p, g);
  }

  /** Multiples in the range, and from its middle on. */
  lemma Halves(m: nat, g: nat, p: nat, t: int)
    requires g > 0 && m == p * g > 0
    ensures 0 < 2 * (t * g) + m <= 2 * m <==> 0 < 2 * t + p <= 2 * p
    ensures 0 < 2 * (t * g) + m <= 2 * m ==> 0 - BelowHalf(m, g) <= t * g <= LowHalf(m, g)
    ensures 2 * (t * g) >= m ==> t * g >= HighHalf(m, g)
  {
    hide LowHalf, BelowHalf, HighHalf;
    HalvesAre(m, g, p);
    HalfMultiple(g, p, t);
    Bounds(g, p, t);
  }

  lemma Bounds(g: nat, p: nat, t: int)
    requires g > 0 && p > 0
    ensures 0 < 2 * t + p <= 2 * p ==> 0 - (p - 1) / 2 * g <= t * g <= p / 2 * g
    ensures 2 * (t * g) >= p * g ==> t * g >= (p + 1) / 2 * g
  {
    var k: int := (p - 1) / 2;
    Times(t, p / 2, g);
    Times(0 - k, t, g);
    Negated(k, g);
    Times((p + 1) / 2, t, g);
    TwiceTimes(t, 1, p, g);
  }

  /** x is what the error adds to the difference of the extents, with the sign of the longer axis. */
  ghost predicate DriftInRange(a: nat, b: nat, err: int, x: int) {
    var g, m := Gcd(a, b), Max(a, b);
    && m > 0 && g > 0 && err == a - b + (if a >= b then x else -x)
    && 0 < 2 * x + m <= 2 * m && 0 - BelowHalf(m, g) <= x <= LowHalf(m, g)
    && (a < b && 2 * (a - x) >= m ==> a - x >= HighHalf(m, g))
  }

  /** The drift is always a multiple of the common divisor. */
  lemma DriftIs(a: nat, b: nat, n: nat) returns (x: int)
    requires n <= Max(a, b) && Max(a, b) > 0
    ensures DriftInRange(a, b, Turns(a, b, n).err, x)
  {
    hide Turns, Gcd;
    var p, q := GcdDivides(a, b);
    var g := Gcd(a, b);
    TurnsWalk(a, b, n);
    var s := Turns(a, b, n);
    var d := s.j * p - s.i * q;
    DriftMultiple(a, b, g, p, q, s.i, s.j);
    var t: int := if a >= b then d else 0 - d;
    x := t * g;
    Negated(d, g);
    hide Drift, LowHalf, BelowHalf, HighHalf;
    Halves(Max(a, b), g, if a >= b then p else q, t);
    if a < b {
      Difference(p, t, g);
      Halves(b, g, q, p - t);
    }
  }

  lemma DriftMultiple(a: nat, b: nat, g: nat, p: nat, q: nat, i: nat, j: nat)
    requires a == p * g && b == q * g
    ensures Drift(a, b, i, j) == (j * p - i * q) * g
  {
    assert (j * p - i * q) * g == j * (p * g) - i * (q * g);
  }

  lemma TurnFitsAlongX(a: nat, b: nat, n: nat)
    requires LineFits(a, b) && a >= b && n < a
    ensures TurnFits(a, b, Turns(a, b, n).err)
  {
    hide Turns, Gcd, LowHalf, BelowHalf, HighHalf;
    var x := DriftIs(a, b, n);
    var x' := DriftIs(a, b, n + 1);
    NextErr(a, b, n);
  }

  lemma TurnFitsAlongY(a: nat, b: nat, n: nat)
    requires LineFits(a, b) && a < b && n < b
    ensures TurnFits(a, b, Turns(a, b, n).err)
  {
    hide Turns, Gcd, LowHalf, BelowHalf, HighHalf;
    var x := DriftIs(a, b, n);
    var x' := DriftIs(a, b, n + 1);
    NextErr(a, b, n);
  }

  lemma NextErr(a: nat, b: nat, n: nat)
    ensures var err := Turns(a, b, n).err;
            Turns(a, b, n + 1).err == err - (if 2 * err + b >= 0 then b else 0) + if 2 * err <= a then a else 0
  {}

  /** The drifts that matter occur: the two extremes, and the first from half the longer extent on. */
  lemma LowOccurs(a: nat, b: nat) returns (n: nat)
    requires Max(a, b) > 0
    ensures Gcd(a, b) > 0 && n < Max(a, b)
    ensures var x: int := LowHalf(Max(a, b), Gcd(a, b)); Turns(a, b, n).err == a - b + if a >= b then x else -x
  {
    hide Turns, Gcd, LowHalf, BelowHalf, HighHalf;
    var p, q := GcdDivides(a, b);
    var h := if a >= b then p else q;
    Halves(Max(a, b), Gcd(a, b), h, h / 2);
    HalvesAre(Max(a, b), Gcd(a, b), h);
    n := Occurs(a, b, h / 2);
  }

  lemma BelowOccurs(a: nat, b: nat) returns (n: nat)
    requires a >= b && a > 0
    ensures Gcd(a, b) > 0 && n < a && Turns(a, b, n).err == a - b - BelowHalf(a, Gcd(a, b))
    ensures 2 * Turns(a, b, n).err + b >= 0
  {
    hide Turns, Gcd, LowHalf, BelowHalf, HighHalf;
    var p, q := GcdDivides(a, b);
    var h: int := (p - 1) / 2;
    var t := 0 - h;
    Halves(a, Gcd(a, b), p, t);
    HalvesAre(a, Gcd(a, b), p);
    Negated(h, Gcd(a, b));
    n := Occurs(a, b, t);
  }

  lemma HighOccurs(a: nat, b: nat) returns (n: nat)
    requires b > a > 0
    ensures Gcd(a, b) > 0 && n < b && Turns(a, b, n).err == HighHalf(b, Gcd(a, b)) - b
    ensures 2 * Turns(a, b, n).err + b >= 0
  {
    hide Turns, Gcd, LowHalf, BelowHalf, HighHalf;
    var p, q := GcdDivides(a, b);
    var g, h: int := Gcd(a, b), (q + 1) / 2;
    var t := -h + p;
    Times(q, p, g);
    Halves(b, g, q, t);
    HalvesAre(b, g, q);
    Difference(p, h, g);
    n := Occurs(a, b, t);
  }

  lemma FitsAlongX(a: nat, b: nat)
    requires a >= b && 0 < a <= INT_MAX && AllTurnsFit(a, b)
    ensures LineFits(a, b)
  {
    hide Turns, Gcd, LowHalf, BelowHalf, HighHalf;
    var n := LowOccurs(a, b);
    assert TurnFits(a, b, Turns(a, b, n).err);
    var l := BelowOccurs(a, b);
    assert TurnFits(a, b, Turns(a, b, l).err);
  }

  lemma FitsAlongY(a: nat, b: nat)
    requires a < b <= INT_MAX && AllTurnsFit(a, b)
    ensures LineFits(a, b)
  {
    hide Turns, Gcd, LowHalf, BelowHalf, HighHalf;
    var n := LowOccurs(a, b);
    assert TurnFits(a, b, Turns(a, b, n).err);
    if a > 0 {
      var l := HighOccurs(a, b);
      assert TurnFits(a, b, Turns(a, b, l).err);
    }
  }

  /** fb_line computes within 32 bits on every turn exactly when two extremes of the error fit, which the
      extents and their greatest common divisor determine. */
  lemma LineFitsIff(a: nat, b: nat)
    ensures LineFits(a, b) <==> a <= INT_MAX && b <= INT_MAX && AllTurnsFit(a, b)
  {
    hide Turns, TurnFits, LineFits;
    if LineFits(a, b) {
      assert a <= INT_MAX && b <= INT_MAX by { FitsInRange(a, b); }
      forall n: nat | n < Max(a, b) ensures TurnFits(a, b, Turns(a, b, n).err) {
        if a >= b { TurnFitsAlongX(a, b, n); } else { TurnFitsAlongY(a, b, n); }
      }
    } else if a <= INT_MAX && b <= INT_MAX && AllTurnsFit(a, b) {
      if a < b { FitsAlongY(a, b); } else if a > 0 { FitsAlongX(a, b); } else { PointFits(); }
    }
  }

  lemma FitsInRange(a: nat, b: nat)
    requires LineFits(a, b)
    ensures a <= INT_MAX && b <= INT_MAX
  {}

  lemma PointFits()
    ensures LineFits(0, 0)
  {}

  /** Extents up to a third of the range always fit. */
  lemma SmallLinesFit(a: nat, b: nat)
    requires 3 * Max(a, b) <= INT_MAX
    ensures LineFits(a, b)
  {
    hide Turns, Gcd, LowHalf, BelowHalf, HighHalf;
    if a > 0 || b > 0 { HalvesFit(a, b); }
  }

  lemma HalvesFit(a: nat, b: nat)
    requires a > 0 || b > 0
    ensures var g := Gcd(a, b);
            && (a > 0 ==> 0 <= 2 * LowHalf(a, g) <= a && 0 <= 2 * BelowHalf(a, g) < a)
            && (b > 0 ==> 0 <= 2 * LowHalf(b, g) <= b <= 2 * HighHalf(b, g) <= 2 * b)
  {
    hide Gcd, LowHalf, BelowHalf, HighHalf;
    var p, q := GcdDivides(a, b);
    if a > 0 { HalvesAre(a, Gcd(a, b), p); }
    if b > 0 { HalvesAre(b, Gcd(a, b), q); }
  }

  /** Long horizontal and vertical lines and the diagonal over the whole range fit; a long line that is
      almost horizontal does not. */
  lemma LongLines()
    ensures LineFits(0x3FFF_FFFF, 0) && LineFits(0, 0x4000_0000) && LineFits(INT_MAX, INT_MAX)
    ensures LineFits(715827883, 1) && !LineFits(715827884, 1)
  {
    assert Gcd(715827883, 1) == Gcd(1, 0) == 1;
    assert Gcd(715827884, 1) == Gcd(1, 0) == 1;
    assert Gcd(0, 0x4000_0000) == Gcd(0x4000_0000, 0);
    assert Gcd(INT_MAX, INT_MAX) == Gcd(INT_MAX, 0);
  }

  /** There the doubled error leaves the range after 357913942 turns. */
  lemma LongLineOverflows()
    ensures 2 * Turns(715827884, 1, 357913942).err > INT_MAX && !AllTurnsFit(715827884, 1)
  {
    hide Turns;
    TurnsWalk(715827884, 1, 357913942);
    LongLines();
    LineFitsIff(715827884, 1);
  }

  ghost predicate AtTurn(x0: int, y0: int, x1: int, y1: int, n: nat, x: int, y: int, err: int) {
    PointAt(x0, y0, x1, y1, n) == Point(x, y) && Turns(Abs(x1 - x0), Abs(y1 - y0), n).err == err
  }

  /** The error test and the steps at the end of fb_line's loop. */
  method LineTurn(x: int32, y: int32, err: int32, dx: int32, dy: int32, sx: int32, sy: int32)
    returns (x': int32, y': int32, err': int32)
    requires 0 <= dx && -INT_MAX <= dy as int <= 0 && TurnFits(dx as nat, 0 - dy as int, err as int)
    requires 2 * err as int >= dy as int ==> Fits32(x as int + sx as int)
    requires 2 * err as int <= dx as int ==> Fits32(y as int + sy as int)
    ensures x' as int == x as int + (if 2 * err as int >= dy as int then sx as int else 0)
    ensures y' as int == y as int + (if 2 * err as int <= dx as int then sy as int else 0)
    ensures err' as int == err as int + (if 2 * err as int >= dy as int then dy as int else 0)
                           + (if 2 * err as int <= dx as int then dx as int else 0)
  {
    x', y', err' := x, y, err;
    var e2 := 2 * err;
    if e2 >= dy { err' := err' + dy; x' := x' + sx; }
    if e2 <= dx { err' := err' + dx; y' := y' + sy; }
  }

  function Sign(c0: int, c1: int): int { if c0 < c1 then 1 else -1 }

  /** What a turn of the loop adds. */
  lemma NextTurn(x0: int, y0: int, x1: int, y1: int, n: nat, x: int, y: int, err: int)
    requires AtTurn(x0, y0, x1, y1, n, x, y, err) && n < Max(Abs(x1 - x0), Abs(y1 - y0))
    ensures var a, b := Abs(x1 - x0), Abs(y1 - y0);
            var xs, ys := 2 * err >= 0 - b, 2 * err <= a;
            var x', y' := x + (if xs then Sign(x0, x1) else 0), y + (if ys then Sign(y0, y1) else 0);
            && AtTurn(x0, y0, x1, y1, n + 1, x', y', err - (if xs then b else 0) + if ys then a else 0)
            && (x0 <= x' <= x1 || x1 <= x' <= x0) && (y0 <= y' <= y1 || y1 <= y' <= y0)
  {
    hide Near, Nearest, Drift;
    PointOnLine(x0, y0, x1, y1, n + 1);
    NextPoint(x0, y0, x1, y1, n);
    hide Abs, Toward, Turns, PointAt, Sign;
  }

  lemma NextPoint(x0: int, y0: int, x1: int, y1: int, n: nat)
    ensures var a, b, err := Abs(x1 - x0), Abs(y1 - y0), Turns(Abs(x1 - x0), Abs(y1 - y0), n).err;
            var p, r := PointAt(x0, y0, x1, y1, n), PointAt(x0, y0, x1, y1, n + 1);
            && r.x == p.x + (if 2 * err >= 0 - b then Sign(x0, x1) else 0)
            && r.y == p.y + (if 2 * err <= a then Sign(y0, y1) else 0)
            && Turns(a, b, n + 1).err == err - (if 2 * err >= 0 - b then b else 0) + if 2 * err <= a then a else 0
  {}

  /** The end of the loop: on to the pixel of the next turn. */
  method NextPixel(ghost p0: Point, ghost p1: Point, ghost n: nat, x: int32, y: int32, err: int32,
                   dx: int32, dy: int32, sx: int32, sy: int32)
    returns (x': int32, y': int32, err': int32)
    requires InRange(p0) && InRange(p1) && LineFits(Abs(p1.x - p0.x), Abs(p1.y - p0.y))
    requires dx as int == Abs(p1.x - p0.x) && dy as int == 0 - Abs(p1.y - p0.y)
    requires sx as int == Sign(p0.x, p1.x) && sy as int == Sign(p0.y, p1.y)
    requires AtTurn(p0.x, p0.y, p1.x, p1.y, n, x as int, y as int, err as int)
    requires n < Max(Abs(p1.x - p0.x), Abs(p1.y - p0.y))
    ensures AtTurn(p0.x, p0.y, p1.x, p1.y, n + 1, x' as int, y' as int, err' as int)
  {
    hide Turns, PointAt, TurnFits, LineFits, AtTurn, Sign;
    var a, b := Abs(p1.x - p0.x), Abs(p1.y - p0.y);
    FitsInRange(a, b);
    LineFitsIff(a, b);
    IsAt(p0.x, p0.y, p1.x, p1.y, n, x as int, y as int, err as int);
    assert TurnFits(a, b, Turns(a, b, n).err);
    NextTurn(p0.x, p0.y, p1.x, p1.y, n, x as int, y as int, err as int);
    hide Abs, Max;
    x', y', err' := LineTurn(x, y, err, dx, dy, sx, sy);
  }

  predicate InRange(p: Point) { Fits32(p.x) && Fits32(p.y) }

  /** fb_line: the pixels drawn, in order, all computed in 32 bits, for every line on which those do not
      overflow. */
  method Line(x0: int32, y0: int32, x1: int32, y1: int32) returns (points: seq<Point>)
    requires LineFits(Abs(x1 as int - x0 as int), Abs(y1 as int - y0 as int))
    ensures points == LinePoints(x0 as int, y0 as int, x1 as int, y1 as int)
    ensures Drawn(x0 as int, y0 as int, x1 as int, y1 as int, points)
    ensures |points| == Max(Abs(x1 as int - x0 as int), Abs(y1 as int - y0 as int)) + 1
    ensures points[0] == Point(x0 as int, y0 as int) && points[|points| - 1] == Point(x1 as int, y1 as int)
  {
    ghost var p0, p1 := Point(x0 as int, y0 as int), Point(x1 as int, y1 as int);
    ghost var n, all := 0, LinePoints(p0.x, p0.y, p1.x, p1.y);
    hide LineFits, AtTurn, Abs, Max, Sign, PointAt, LinePoints, Drawn;
    LineIsDrawn(p0.x, p0.y, p1.x, p1.y);
    var dx, dy, sx, sy := Extents(x0, y0, x1, y1);
    var x, y, err := x0, y0, dx + dy;
    StartsAt(p0.x, p0.y, p1.x, p1.y);
    points := [];
    while true
      invariant n < |all| && points == all[..n]
      invariant AtTurn(p0.x, p0.y, p1.x, p1.y, n, x as int, y as int, err as int)
      decreases |all| - n
    {
      PixelOf(p0, p1, n, x as int, y as int, err as int);
      points := points + [Point(x as int, y as int)];
      assert points == all[..n + 1];
      if x == x1 && y == y1 { break; }
      x, y, err := NextPixel(p0, p1, n, x, y, err, dx, dy, sx, sy);
      n := n + 1;
    }
  }

  /** dx, dy, sx and sy, in range with their sum. */
  method Extents(x0: int32, y0: int32, x1: int32, y1: int32) returns (dx: int32, dy: int32, sx: int32, sy: int32)
    requires LineFits(Abs(x1 as int - x0 as int), Abs(y1 as int - y0 as int))
    ensures dx as int == Abs(x1 as int - x0 as int) && dy as int == 0 - Abs(y1 as int - y0 as int)
    ensures sx as int == Sign(x0 as int, x1 as int) && sy as int == Sign(y0 as int, y1 as int)
    ensures Fits32(dx as int + dy as int)
  {
    FitsInRange(Abs(x1 as int - x0 as int), Abs(y1 as int - y0 as int));
    hide LineFits;
    dx := if x1 > x0 then x1 - x0 else x0 - x1;
    dy := -(if y1 > y0 then y1 - y0 else y0 - y1);
    sx, sy := if x0 < x1 then 1 else -1, if y0 < y1 then 1 else -1;
  }

  lemma PixelOf(p0: Point, p1: Point, n: nat, x: int, y: int, err: int)
    requires AtTurn(p0.x, p0.y, p1.x, p1.y, n, x, y, err) && n < |LinePoints(p0.x, p0.y, p1.x, p1.y)|
    ensures LinePoints(p0.x, p0.y, p1.x, p1.y)[n] == Point(x, y)
    ensures |LinePoints(p0.x, p0.y, p1.x, p1.y)| == Max(Abs(p1.x - p0.x), Abs(p1.y - p0.y)) + 1
    ensures x == p1.x && y == p1.y <==> n == Max(Abs(p1.x - p0.x), Abs(p1.y - p0.y))
  {
    PointOnLine(p0.x, p0.y, p1.x, p1.y, n);
    IsAt(p0.x, p0.y, p1.x, p1.y, n, x, y, err);
    hide AtTurn, PointAt, Abs;
  }

  lemma StartsAt(x0: int, y0: int, x1: int, y1: int)
    ensures AtTurn(x0, y0, x1, y1, 0, x0, y0, Abs(x1 - x0) - Abs(y1 - y0)) && |LinePoints(x0, y0, x1, y1)| > 0
  {}

  lemma IsAt(x0: int, y0: int, x1: int, y1: int, n: nat, x: int, y: int, err: int)
    requires AtTurn(x0, y0, x1, y1, n, x, y, err)
    ensures PointAt(x0, y0, x1, y1, n) == Point(x, y) && Turns(Abs(x1 - x0), Abs(y1 - y0), n).err == err
  {}
}
