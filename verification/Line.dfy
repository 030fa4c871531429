/** draw_line24 (Kernel/gfx/draw.c): the points plotted for a line, and when they are the line asked for. */
module Line {
  import opened Arith
  import opened Plane

  /** ABS(b - a) as its macro expands: the minus sign takes only the first operand. */
  function Dist(a: int, b: int): int {
    if b - a >= 0 then b - a else -b - a
  }

  /** The distances come out right exactly when the ends are in order or the first is 0. */
  lemma DistExact(a: int, b: int)
    ensures Dist(a, b) == Abs(b - a) <==> a <= b || a == 0
  {
  }

  // ----- The walk along the longer axis -----

  /** The coordinate on the minor axis and the decision variable. */
  datatype Pen = Pen(v: int, d: int)

  function Step(e: int, ne: int, inc: int, p: Pen): Pen {
    if p.d < 0 then Pen(p.v, p.d + e) else Pen(p.v + inc, p.d + ne)
  }

  /** After k steps of a line with extents major and minor that starts at v. */
  function At(major: int, minor: int, v: int, inc: int, k: nat): Pen {
    if k == 0 then Pen(v, 2 * minor - major)
    else Step(2 * minor, 2 * (minor - major), inc, At(major, minor, v, inc, k - 1))
  }

  function Sign(a: int, b: int): int {
    if b > a then 1 else -1
  }

  function Point(u: int, v: int, steep: bool): Pt {
    if steep then Pt(v, u) else Pt(u, v)
  }

  /** The first k + 1 points of a line from (u, v), where u runs along the major axis: y when steep. */
  function Run(major: int, minor: int, u: int, v: int, inc: int, steep: bool, k: nat): seq<Pt> {
    (if k == 0 then [] else Run(major, minor, u, v, inc, steep, k - 1)) + [Point(u + k, At(major, minor, v, inc, k).v, steep)]
  }

  function XMajor(x1: int, y1: int, x2: int, y2: int, dx: int, dy: int): seq<Pt>
    requires x1 <= x2
  {
    Run(dx, dy, x1, y1, Sign(y1, y2), false, x2 - x1)
  }

  function YMajor(x1: int, y1: int, x2: int, y2: int, dx: int, dy: int): seq<Pt>
    requires y1 <= y2
  {
    Run(dy, dx, y1, x1, Sign(x1, x2), true, y2 - y1)
  }

  /** The points plotted from (x1, y1) to (x2, y2). */
  function Plot(x1: int, y1: int, x2: int, y2: int): seq<Pt> {
    var dx, dy := Dist(x1, x2), Dist(y1, y2);
    if dy <= dx then
      if x2 < x1 then XMajor(x2, y2, x1, y1, dx, dy) else XMajor(x1, y1, x2, y2, dx, dy)
    else
      if y2 < y1 then YMajor(x2, y2, x1, y1, dx, dy) else YMajor(x1, y1, x2, y2, dx, dy)
  }

  method DrawLine24(x1: int, y1: int, x2: int, y2: int) returns (pts: seq<Pt>)
    ensures pts == Plot(x1, y1, x2, y2)
  {
    var dx, dy := Dist(x1, x2), Dist(y1, y2);
    if dy <= dx {
      if x2 < x1 {
        pts := WalkX(x2, y2, x1, y1, dx, dy);
      } else {
        pts := WalkX(x1, y1, x2, y2, dx, dy);
      }
    } else {
      if y2 < y1 {
        pts := WalkY(x2, y2, x1, y1, dx, dy);
      } else {
        pts := WalkY(x1, y1, x2, y2, dx, dy);
      }
    }
  }

  method WalkX(x1: int, y1: int, x2: int, y2: int, dx: int, dy: int) returns (pts: seq<Pt>)
    requires x1 <= x2
    ensures pts == XMajor(x1, y1, x2, y2, dx, dy)
  {
    var yincr := if y2 > y1 then 1 else -1;
    var d, eincr, neincr := 2 * dy - dx, 2 * dy, 2 * (dy - dx);
    var x, y := x1, y1;
    pts := [Pt(x, y)];
    x := x + 1;
    while x <= x2
      invariant x1 < x <= x2 + 1 && Pen(y, d) == At(dx, dy, y1, yincr, x - 1 - x1)
      invariant pts == Run(dx, dy, x1, y1, yincr, false, x - 1 - x1)
    {
      if d < 0 {
        d := d + eincr;
      } else {
        d := d + neincr;
        y := y + yincr;
      }
      pts := pts + [Pt(x, y)];
      x := x + 1;
    }
  }

  method WalkY(x1: int, y1: int, x2: int, y2: int, dx: int, dy: int) returns (pts: seq<Pt>)
    requires y1 <= y2
    ensures pts == YMajor(x1, y1, x2, y2, dx, dy)
  {
    var xincr := if x2 > x1 then 1 else -1;
    var d, eincr, neincr := 2 * dx - dy, 2 * dx, 2 * (dx - dy);
    var x, y := x1, y1;
    pts := [Pt(x, y)];
    y := y + 1;
    while y <= y2
      invariant y1 < y <= y2 + 1 && Pen(x, d) == At(dy, dx, x1, xincr, y - 1 - y1)
      invariant pts == Run(dy, dx, y1, x1, xincr, true, y - 1 - y1)
    {
      if d < 0 {
        d := d + eincr;
      } else {
        d := d + neincr;
        x := x + xincr;
      }
      pts := pts + [Pt(x, y)];
      y := y + 1;
    }
  }

  // ----- Accuracy -----

  /** How often the walk has stepped on the minor axis. */
  function Rise(major: int, minor: int, k: nat): (j: int)
  {
    At(major, minor, 0, 1, k).v
  }

  /** The walk from v in either direction is the walk from 0 mirrored. */
  lemma {:induction false} Mirrored(major: int, minor: int, v: int, inc: int, k: nat)
    requires inc == 1 || inc == -1
    ensures At(major, minor, v, inc, k) == Pen(v + inc * Rise(major, minor, k), At(major, minor, 0, 1, k).d)
  {
    if k > 0 { Mirrored(major, minor, v, inc, k - 1); }
  }

  /** The error of a point, in units of 1 / (2 * major) pixels. */
  function Err(major: int, minor: int, k: int, j: int): int {
    2 * minor * k - 2 * major * j
  }

  predicate HalfOff(major: int, e: int) {
    -major <= e <= major && (major > 0 ==> e < major)
  }

  /** Every point is within half a pixel of the ideal line, on a tie the one further on, and the decision
      variable is the error of going straight on, less half a pixel. */
  lemma {:induction false} HalfPixel(major: int, minor: int, k: nat)
    requires 0 <= minor <= major
    ensures var p := At(major, minor, 0, 1, k);
            p.d == Err(major, minor, k + 1, p.v) - major && HalfOff(major, Err(major, minor, k, p.v))
    ensures k > 0 ==> Rise(major, minor, k - 1) <= Rise(major, minor, k) <= Rise(major, minor, k - 1) + 1
  {
    if k > 0 {
      HalfPixel(major, minor, k - 1);
      ErrStep(major, minor, k - 1, At(major, minor, 0, 1, k - 1));
    }
  }

  lemma ErrStep(major: int, minor: int, k: nat, p: Pen)
    requires 0 <= minor <= major && p.d == Err(major, minor, k + 1, p.v) - major && HalfOff(major, Err(major, minor, k, p.v))
    ensures var q := Step(2 * minor, 2 * (minor - major), 1, p);
            q.d == Err(major, minor, k + 2, q.v) - major && HalfOff(major, Err(major, minor, k + 1, q.v))
  {
    ErrNext(major, minor, k, p.v);
    ErrNext(major, minor, k + 1, p.v);
    ErrUp(major, minor, k + 1, p.v);
    ErrUp(major, minor, k + 2, p.v);
  }

  lemma ErrNext(major: int, minor: int, k: int, j: int)
    ensures Err(major, minor, k + 1, j) == Err(major, minor, k, j) + 2 * minor
  {
  }

  lemma ErrUp(major: int, minor: int, k: int, j: int)
    ensures Err(major, minor, k, j + 1) == Err(major, minor, k, j) - 2 * major
  {
  }

  /** So the rise is the ideal one rounded, halves upwards. */
  lemma RiseRounds(major: int, minor: int, k: nat)
    requires 0 <= minor <= major && major > 0
    ensures Rise(major, minor, k) == (2 * minor * k + major) / (2 * major)
  {
    HalfPixel(major, minor, k);
    var j := Rise(major, minor, k);
    DivModIs(2 * minor * k + major, 2 * major, j, Err(major, minor, k, j) + major);
  }

  /** The walk ends exactly at the far end. */
  lemma EndsThere(major: int, minor: int)
    requires 0 <= minor <= major
    ensures Rise(major, minor, major) == minor
  {
    HalfPixel(major, minor, major);
    if major > 0 { NoErrLeft(major, minor, Rise(major, minor, major)); }
  }

  lemma NoErrLeft(major: int, minor: int, j: int)
    requires major > 0 && -major <= Err(major, minor, major, j) <= major
    ensures j == minor
  {
    var t := minor - j;
    assert Err(major, minor, major, j) == 2 * (major * t);
    Times(major, t);
  }

  lemma Times(a: int, b: int)
    ensures a >= 0 && b >= 1 ==> a * b >= a
    ensures a >= 0 && b <= -1 ==> a * b <= -a
  {
    assert a * b == a + a * (b - 1) == -a + a * (b + 1);
  }

  // ----- The theorem -----

  /** Twice the area between p and the line from a to b; divided by the longer extent, the distance of p
      from the line along the shorter axis. */
  function Cross(p: Pt, a: Pt, b: Pt): int {
    (p.x - a.x) * (b.y - a.y) - (p.y - a.y) * (b.x - a.x)
  }

  function Extent(a: Pt, b: Pt): int {
    Max(Abs(b.x - a.x), Abs(b.y - a.y))
  }

  /** One pixel for each step of the longer axis, from one end to the other, each touching the one before and
      within half a pixel of the ideal line. */
  ghost predicate IsLine(pts: seq<Pt>, a: Pt, b: Pt) {
    && |pts| == Extent(a, b) + 1
    && ((pts[0] == a && pts[|pts| - 1] == b) || (pts[0] == b && pts[|pts| - 1] == a))
    && (forall i :: 0 <= i < |pts| ==> 2 * Abs(Cross(pts[i], a, b)) <= Extent(a, b))
    && (forall i :: 0 < i < |pts| ==> Extent(pts[i - 1], pts[i]) == 1)
  }

  lemma {:induction false} RunAt(major: int, minor: int, u: int, v: int, inc: int, steep: bool, k: nat)
    ensures var pts := Run(major, minor, u, v, inc, steep, k);
            |pts| == k + 1 && forall i :: 0 <= i <= k ==> pts[i] == Point(u + i, At(major, minor, v, inc, i).v, steep)
  {
    if k > 0 { RunAt(major, minor, u, v, inc, steep, k - 1); }
  }

  /** One pixel of a run from (u, v) to (w, z). */
  lemma PixelGood(u: int, v: int, w: int, z: int, steep: bool, i: nat)
    requires Abs(z - v) <= w - u
    ensures var p := Point(u + i, At(w - u, Abs(z - v), v, Sign(v, z), i).v, steep);
            2 * Abs(Cross(p, Point(u, v, steep), Point(w, z, steep))) <= w - u
    ensures i > 0 ==> Abs(At(w - u, Abs(z - v), v, Sign(v, z), i).v - At(w - u, Abs(z - v), v, Sign(v, z), i - 1).v) <= 1
  {
    var major, minor, inc := w - u, Abs(z - v), Sign(v, z);
    Mirrored(major, minor, v, inc, i);
    HalfPixel(major, minor, i);
    if i > 0 { Mirrored(major, minor, v, inc, i - 1); }
    CrossIsErr(u, v, w, z, steep, i, Rise(major, minor, i));
  }

  lemma CrossIsErr(u: int, v: int, w: int, z: int, steep: bool, i: int, j: int)
    ensures var p := Point(u + i, v + Sign(v, z) * j, steep);
            2 * Abs(Cross(p, Point(u, v, steep), Point(w, z, steep))) == Abs(Err(w - u, Abs(z - v), i, j))
  {
    var major, minor, inc := w - u, Abs(z - v), Sign(v, z);
    assert z - v == inc * minor;
    assert i * (z - v) == inc * (i * minor);
    assert (inc * j) * major == inc * (j * major);
    var c := i * minor - j * major;
    assert Err(major, minor, i, j) == 2 * c;
  }

  lemma RunPixel(u: int, v: int, w: int, z: int, steep: bool, pts: seq<Pt>, i: nat)
    requires Abs(z - v) <= w - u && pts == Run(w - u, Abs(z - v), u, v, Sign(v, z), steep, w - u) && i < |pts|
    ensures 2 * Abs(Cross(pts[i], Point(u, v, steep), Point(w, z, steep))) <= w - u && (i > 0 ==> Extent(pts[i - 1], pts[i]) == 1)
  {
    RunAt(w - u, Abs(z - v), u, v, Sign(v, z), steep, w - u);
    PixelGood(u, v, w, z, steep, i);
  }

  lemma RunEnds(u: int, v: int, w: int, z: int, steep: bool)
    requires Abs(z - v) <= w - u
    ensures var pts := Run(w - u, Abs(z - v), u, v, Sign(v, z), steep, w - u);
            |pts| == w - u + 1 && pts[0] == Point(u, v, steep) && pts[w - u] == Point(w, z, steep)
  {
    RunAt(w - u, Abs(z - v), u, v, Sign(v, z), steep, w - u);
    Mirrored(w - u, Abs(z - v), v, Sign(v, z), w - u);
    EndsThere(w - u, Abs(z - v));
  }

  lemma RunIsLine(u: int, v: int, w: int, z: int, steep: bool)
    requires Abs(z - v) <= w - u
    ensures IsLine(Run(w - u, Abs(z - v), u, v, Sign(v, z), steep, w - u), Point(u, v, steep), Point(w, z, steep))
  {
    var pts := Run(w - u, Abs(z - v), u, v, Sign(v, z), steep, w - u);
    RunEnds(u, v, w, z, steep);
    forall i | 0 <= i < |pts|
      ensures 2 * Abs(Cross(pts[i], Point(u, v, steep), Point(w, z, steep))) <= w - u && (i > 0 ==> Extent(pts[i - 1], pts[i]) == 1)
    {
      RunPixel(u, v, w, z, steep, pts, i);
    }
  }

  lemma IsLineBack(pts: seq<Pt>, a: Pt, b: Pt)
    requires IsLine(pts, a, b)
    ensures IsLine(pts, b, a)
  {
    forall i | 0 <= i < |pts|
      ensures Abs(Cross(pts[i], b, a)) == Abs(Cross(pts[i], a, b))
    {
      CrossBack(pts[i], a, b);
    }
  }

  lemma CrossBack(p: Pt, a: Pt, b: Pt)
    ensures Cross(p, b, a) == -Cross(p, a, b)
  {
    var s, t, m, n := p.x - a.x, p.y - a.y, b.x - a.x, b.y - a.y;
    assert Cross(p, b, a) == (s - m) * (-n) - (t - n) * (-m);
  }

  /** The line is drawn right whenever the macro computes both distances right. */
  lemma ExactDistancesGiveLine(x1: int, y1: int, x2: int, y2: int)
    requires (x1 <= x2 || x1 == 0) && (y1 <= y2 || y1 == 0)
    ensures IsLine(Plot(x1, y1, x2, y2), Pt(x1, y1), Pt(x2, y2))
  {
    var dx, dy := Dist(x1, x2), Dist(y1, y2);
    if dy <= dx {
      if x2 < x1 {
        RunIsLine(x2, y2, x1, y1, false);
        IsLineBack(Plot(x1, y1, x2, y2), Pt(x2, y2), Pt(x1, y1));
      } else {
        RunIsLine(x1, y1, x2, y2, false);
      }
    } else if y2 < y1 {
      RunIsLine(y2, x2, y1, x1, true);
      IsLineBack(Plot(x1, y1, x2, y2), Pt(x2, y2), Pt(x1, y1));
    } else {
      RunIsLine(y1, x1, y2, x2, true);
    }
  }

  /** Which pixels these are: the ideal line rounded to the pixel, halves away from the first end. */
  lemma RisingPixels(x1: int, y1: int, x2: int, y2: int, i: nat)
    requires x1 <= x2 && y1 <= y2 && i <= Max(x2 - x1, y2 - y1)
    ensures var dx, dy, pts := x2 - x1, y2 - y1, Plot(x1, y1, x2, y2);
            && |pts| == Max(dx, dy) + 1
            && (0 < dx && dy <= dx ==> pts[i] == Pt(x1 + i, y1 + (2 * dy * i + dx) / (2 * dx)))
            && (dx < dy ==> pts[i] == Pt(x1 + (2 * dx * i + dy) / (2 * dy), y1 + i))
            && (dx == dy == 0 ==> pts == [Pt(x1, y1)])
  {
    var dx, dy := x2 - x1, y2 - y1;
    if dx == 0 && dy == 0 {
    } else if dy <= dx {
      RunAt(dx, dy, x1, y1, Sign(y1, y2), false, dx);
      RisingPixel(dx, dy, y1, Sign(y1, y2), i);
    } else {
      RunAt(dy, dx, y1, x1, Sign(x1, x2), true, dy);
      RisingPixel(dy, dx, x1, Sign(x1, x2), i);
    }
  }

  lemma RisingPixel(major: int, minor: int, v: int, inc: int, i: nat)
    requires 0 <= minor <= major && major > 0 && (inc == 1 || (inc == -1 && minor == 0))
    ensures At(major, minor, v, inc, i).v == v + (2 * minor * i + major) / (2 * major)
  {
    Mirrored(major, minor, v, inc, i);
    RiseRounds(major, minor, i);
    if inc == -1 { NoRise(major, minor, i); }
  }

  lemma NoRise(major: int, minor: int, i: nat)
    requires minor == 0 && major > 0
    ensures Rise(major, minor, i) == 0
  {
    Stuck(major, minor, 0, 1, i);
  }

  // ----- Where it fails -----

  /** With a negative minor extent the walk never leaves its first row. */
  lemma {:induction false} Stuck(major: int, minor: int, v: int, inc: int, k: nat)
    requires minor <= 0 && 2 * minor < major
    ensures var p := At(major, minor, v, inc, k); p.v == v && p.d < 0
  {
    if k > 0 { Stuck(major, minor, v, inc, k - 1); }
  }

  lemma RunStuck(major: int, minor: int, u: int, v: int, inc: int, steep: bool, k: nat)
    requires minor <= 0 && 2 * minor < major
    ensures var pts := Run(major, minor, u, v, inc, steep, k); pts[0] == Point(u, v, steep) && pts[|pts| - 1] == Point(u + k, v, steep)
  {
    RunAt(major, minor, u, v, inc, steep, k);
    Stuck(major, minor, v, inc, k);
  }

  /** Ends in falling order lie to the right of 0 on the whole, as on the screen, where none is negative. */
  predicate OnScreen(a: int, b: int) {
    b < a ==> a + b > 0
  }

  lemma XMajorFails(x1: int, y1: int, x2: int, y2: int)
    requires OnScreen(x1, x2) && OnScreen(y1, y2) && Dist(y1, y2) <= Dist(x1, x2) && (x2 < x1 || y2 < y1)
    ensures !IsLine(Plot(x1, y1, x2, y2), Pt(x1, y1), Pt(x2, y2))
  {
    var dx, dy := Dist(x1, x2), Dist(y1, y2);
    if x2 < x1 {
      RunStuck(dx, dy, x2, y2, Sign(y2, y1), false, x1 - x2);
    } else {
      RunStuck(dx, dy, x1, y1, Sign(y1, y2), false, x2 - x1);
    }
  }

  lemma YMajorFails(x1: int, y1: int, x2: int, y2: int)
    requires OnScreen(x1, x2) && OnScreen(y1, y2) && Dist(y1, y2) > Dist(x1, x2) && (x2 < x1 || y2 < y1)
    ensures !IsLine(Plot(x1, y1, x2, y2), Pt(x1, y1), Pt(x2, y2))
  {
    var dx, dy := Dist(x1, x2), Dist(y1, y2);
    if y2 < y1 {
      RunStuck(dy, dx, y2, x2, Sign(x2, x1), true, y1 - y2);
    } else {
      RunStuck(dy, dx, y1, x1, Sign(x1, x2), true, y2 - y1);
    }
  }

  /** On the screen, where no coordinate is negative, and wherever a falling pair of coordinates has a positive
      sum, the line asked for is drawn exactly when both coordinates are given in rising order. */
  lemma LineIffRising(x1: int, y1: int, x2: int, y2: int)
    requires OnScreen(x1, x2) && OnScreen(y1, y2)
    ensures IsLine(Plot(x1, y1, x2, y2), Pt(x1, y1), Pt(x2, y2)) <==> x1 <= x2 && y1 <= y2
  {
    if x1 <= x2 && y1 <= y2 {
      ExactDistancesGiveLine(x1, y1, x2, y2);
    } else if Dist(y1, y2) <= Dist(x1, x2) {
      XMajorFails(x1, y1, x2, y2);
    } else {
      YMajorFails(x1, y1, x2, y2);
    }
  }

  /** What is drawn instead is straight: a line asked for leftwards and not downwards comes out vertical at its first
      end, one asked for downwards and not leftwards comes out horizontal at its first end, and one asked for both
      ways comes out straight at its second end. */
  lemma FallingIsStraight(x1: int, y1: int, x2: int, y2: int, p: Pt)
    requires OnScreen(x1, x2) && OnScreen(y1, y2) && p in Plot(x1, y1, x2, y2)
    ensures x2 < x1 && y1 <= y2 ==> p.x == x1
    ensures x1 <= x2 && y2 < y1 ==> p.y == y1
    ensures x2 < x1 && y2 < y1 ==> if Dist(y1, y2) <= Dist(x1, x2) then p.y == y2 else p.x == x2
  {
    var dx, dy := Dist(x1, x2), Dist(y1, y2);
    if x2 < x1 || y2 < y1 {
      if dy <= dx {
        if x2 < x1 {
          StuckPoint(dx, dy, x2, y2, Sign(y2, y1), false, x1 - x2, p);
        } else {
          StuckPoint(dx, dy, x1, y1, Sign(y1, y2), false, x2 - x1, p);
        }
      } else if y2 < y1 {
        StuckPoint(dy, dx, y2, x2, Sign(x2, x1), true, y1 - y2, p);
      } else {
        StuckPoint(dy, dx, y1, x1, Sign(x1, x2), true, y2 - y1, p);
      }
    }
  }

  lemma StuckPoint(major: int, minor: int, u: int, v: int, inc: int, steep: bool, k: nat, p: Pt)
    requires minor <= 0 && 2 * minor < major && p in Run(major, minor, u, v, inc, steep, k)
    ensures v == if steep then p.x else p.y
  {
    RunAt(major, minor, u, v, inc, steep, k);
    var i :| 0 <= i <= k && Run(major, minor, u, v, inc, steep, k)[i] == p;
    Stuck(major, minor, v, inc, i);
  }

  /** With a pair whose sum is 0 both distances come out 0, and this falling line is drawn right by accident. */
  lemma AccidentIsRight()
    ensures Dist(1, -1) == 0 && Plot(1, 1, -1, -1) == [Pt(-1, -1), Pt(0, 0), Pt(1, 1)]
  {
  }

  /** So this line from (4, 0) to (0, 2) ends at (4, 2). */
  lemma LeftwardsFails()
    ensures Plot(4, 0, 0, 2) == [Pt(4, 0), Pt(4, 1), Pt(4, 2)]
  {
  }
}
