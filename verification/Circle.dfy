/** draw_circle24 (Kernel/gfx/draw.c): the points plotted for a circle, filled or not. */
module Circle {
  import opened Plane

  /** The eight reflections of one point of the octant. */
  function Eight(xc: int, yc: int, x: int, y: int): seq<Pt> {
    [Pt(xc + x, yc + y), Pt(xc - x, yc + y), Pt(xc + x, yc - y), Pt(xc - x, yc - y),
     Pt(xc + y, yc + x), Pt(xc - y, yc + x), Pt(xc + y, yc - x), Pt(xc - y, yc - x)]
  }

  /** The row and the decision variable of a column. */
  datatype Pen = Pen(y: int, d: int)

  function Step(x: int, p: Pen): Pen {
    if p.d < 0 then Pen(p.y, p.d + 4 * x + 6) else Pen(p.y - 1, p.d + 4 * (x - p.y) + 10)
  }

  function At(r: int, x: nat): Pen {
    if x == 0 then Pen(r, 3 - 2 * r) else Step(x - 1, At(r, x - 1))
  }

  /** How far a point is outside the circle, in squared distance. */
  function Off(r: int, x: int, y: int): int {
    x * x + y * y - r * r
  }

  /** What the decision variable is: the sum of the errors of the two candidates for the next column. */
  lemma {:induction false} Decision(r: int, x: nat)
    ensures var p := At(r, x); p.d == Off(r, x + 1, p.y) + Off(r, x + 1, p.y - 1)
  {
    if x > 0 {
      Decision(r, x - 1);
      DecisionStep(r, x - 1, At(r, x - 1));
    }
  }

  lemma DecisionStep(r: int, x: nat, p: Pen)
    requires p.d == Off(r, x + 1, p.y) + Off(r, x + 1, p.y - 1)
    ensures var q := Step(x, p); q.d == Off(r, x + 2, q.y) + Off(r, x + 2, q.y - 1)
  {
    OffNext(r, x + 1, p.y);
    OffNext(r, x + 1, p.y - 1);
    OffBelow(r, x + 2, p.y);
    OffBelow(r, x + 2, p.y - 1);
  }

  lemma OffNext(r: int, x: int, y: int)
    ensures Off(r, x + 1, y) == Off(r, x, y) + 2 * x + 1
  {
  }

  lemma OffBelow(r: int, x: int, y: int)
    ensures Off(r, x, y - 1) == Off(r, x, y) - 2 * y + 1
  {
  }

  /** The rows fall slowly, and the error is bounded by the row as long as the column is in the octant. */
  lemma {:induction false} Near(r: nat, x: nat)
    ensures At(r, x).y <= r && (x > 0 ==> At(r, x - 1).y - 1 <= At(r, x).y <= At(r, x - 1).y)
    ensures (x > 0 ==> x - 1 <= At(r, x - 1).y) ==> Off(r, x, At(r, x).y) >= -At(r, x).y
    ensures x <= At(r, x).y ==> Off(r, x, At(r, x).y) <= At(r, x).y
  {
    if x > 0 {
      Near(r, x - 1);
      Decision(r, x - 1);
      NearStep(r, x - 1, At(r, x - 1));
    }
  }

  lemma NearStep(r: nat, x: nat, p: Pen)
    requires p.d == Off(r, x + 1, p.y) + Off(r, x + 1, p.y - 1)
    ensures Off(r, x, p.y) >= -p.y && x <= p.y ==> Off(r, x + 1, Step(x, p).y) >= -Step(x, p).y
    ensures Off(r, x, p.y) <= p.y && x <= p.y && x + 1 <= Step(x, p).y ==> Off(r, x + 1, Step(x, p).y) <= Step(x, p).y
  {
    OffNext(r, x, p.y);
    OffBelow(r, x + 1, p.y);
  }

  // ----- What is plotted -----

  function Column(xc: int, yc: int, x: int, from: int, y: int): seq<Pt>
    decreases y - from
  {
    if from > y then [] else Eight(xc, yc, x, from) + Column(xc, yc, x, from + 1, y)
  }

  /** The points plotted from column x on. */
  function Trace(r: int, fill: bool, xc: int, yc: int, x: nat): seq<Pt>
    decreases At(r, x).y - x + 1
  {
    var y := At(r, x).y;
    if x > y then []
    else Column(xc, yc, x, if fill then x else y, y) + Trace(r, fill, xc, yc, x + 1)
  }

  predicate OffScreen(width: int, height: int, r: int, xc: int, yc: int) {
    xc + r < 0 || xc - r >= width || yc + r < 0 || yc - r >= height
  }

  method DrawCircle24(width: int, height: int, r: int, xc: int, yc: int, fill: bool) returns (pts: seq<Pt>)
    ensures pts == if xc + r < 0 || xc - r >= width || yc + r < 0 || yc - r >= height then [] else Trace(r, fill, xc, yc, 0)
  {
    if OffScreen(width, height, r, xc, yc) { return []; }
    if fill {
      pts := Filled(r, xc, yc);
    } else {
      pts := Outline(r, xc, yc);
    }
  }

  /** The inner loop of the filled circle. */
  method Fill(was: seq<Pt>, xc: int, yc: int, x: int, y: int) returns (pts: seq<Pt>)
    requires x <= y
    ensures pts == was + Column(xc, yc, x, x, y)
  {
    pts := was;
    var yi := x;
    while yi <= y
      invariant x <= yi <= y + 1 && was + Column(xc, yc, x, x, y) == pts + Column(xc, yc, x, yi, y)
    {
      pts := pts + Eight(xc, yc, x, yi);
      yi := yi + 1;
    }
  }

  method Filled(r: int, xc: int, yc: int) returns (pts: seq<Pt>)
    ensures pts == Trace(r, true, xc, yc, 0)
  {
    var x, y, d := 0, r, 3 - 2 * r;
    pts := [];
    while x <= y
      invariant 0 <= x && Pen(y, d) == At(r, x)
      invariant pts + Trace(r, true, xc, yc, x) == Trace(r, true, xc, yc, 0)
      decreases y - x + 1
    {
      ghost var column, rest := Column(xc, yc, x, x, y), Trace(r, true, xc, yc, x + 1);
      assert pts + (column + rest) == (pts + column) + rest;
      pts := Fill(pts, xc, yc, x, y);
      if d < 0 {
        d := d + 4 * x + 6;
      } else {
        d := d + 4 * (x - y) + 10;
        y := y - 1;
      }
      x := x + 1;
    }
  }

  method Outline(r: int, xc: int, yc: int) returns (pts: seq<Pt>)
    ensures pts == Trace(r, false, xc, yc, 0)
  {
    var x, y, d := 0, r, 3 - 2 * r;
    pts := [];
    while x <= y
      invariant 0 <= x && Pen(y, d) == At(r, x)
      invariant pts + Trace(r, false, xc, yc, x) == Trace(r, false, xc, yc, 0)
      decreases y - x + 1
    {
      ghost var column, rest := Eight(xc, yc, x, y), Trace(r, false, xc, yc, x + 1);
      assert Column(xc, yc, x, y, y) == column + Column(xc, yc, x, y + 1, y) == column;
      assert pts + (column + rest) == (pts + column) + rest;
      pts := pts + Eight(xc, yc, x, y);
      if d < 0 {
        d := d + 4 * x + 6;
      } else {
        d := d + 4 * (x - y) + 10;
        y := y - 1;
      }
      x := x + 1;
    }
  }

  /** The octant points plotted. */
  predicate Drawn(r: int, fill: bool, x: int, y: int) {
    0 <= x <= At(r, x).y && (if fill then x <= y <= At(r, x).y else y == At(r, x).y)
  }

  lemma {:induction false} ColumnHas(xc: int, yc: int, x: int, from: int, y: int, p: Pt) returns (b: int)
    requires p in Column(xc, yc, x, from, y)
    ensures from <= b <= y && p in Eight(xc, yc, x, b)
    decreases y - from
  {
    b := from;
    if p !in Eight(xc, yc, x, from) { b := ColumnHas(xc, yc, x, from + 1, y, p); }
  }

  lemma {:induction false} ColumnAll(xc: int, yc: int, x: int, from: int, y: int, b: int, p: Pt)
    requires from <= b <= y && p in Eight(xc, yc, x, b)
    ensures p in Column(xc, yc, x, from, y)
    decreases y - from
  {
    if from < b { ColumnAll(xc, yc, x, from + 1, y, b, p); }
  }

  /** Only reflections of octant points are plotted. */
  lemma {:induction false} TraceHas(r: int, fill: bool, xc: int, yc: int, from: nat, p: Pt) returns (x: int, y: int)
    requires p in Trace(r, fill, xc, yc, from)
    ensures Drawn(r, fill, x, y) && p in Eight(xc, yc, x, y)
    decreases At(r, from).y - from + 1
  {
    var top := At(r, from).y;
    if p in Column(xc, yc, from, if fill then from else top, top) {
      x := from;
      y := ColumnHas(xc, yc, from, if fill then from else top, top, p);
    } else {
      x, y := TraceHas(r, fill, xc, yc, from + 1, p);
    }
  }

  /** Every reflection of every octant point is plotted. */
  lemma {:induction false} TraceAll(r: int, fill: bool, xc: int, yc: int, from: nat, x: int, y: int, p: Pt)
    requires from <= x && Drawn(r, fill, x, y) && p in Eight(xc, yc, x, y)
    ensures p in Trace(r, fill, xc, yc, from)
    decreases x - from
  {
    Falls(r, from, x);
    var top := At(r, from).y;
    if from == x {
      ColumnAll(xc, yc, x, if fill then from else top, top, y, p);
    } else {
      TraceAll(r, fill, xc, yc, from + 1, x, y, p);
    }
  }

  lemma {:induction false} Falls(r: int, a: nat, b: nat)
    requires a <= b
    ensures At(r, b).y <= At(r, a).y
    decreases b - a
  {
    if a < b { Falls(r, a, b - 1); }
  }

  // ----- The theorems -----

  /** Every column up to the diagonal is reached. */
  lemma {:induction false} Reached(r: nat, x: nat)
    requires 2 * (x * x) <= r * r
    ensures x <= At(r, x).y
  {
    if x > 0 {
      SquareMono(x - 1, x);
      Reached(r, x - 1);
      Near(r, x);
      var y := At(r, x).y;
      if y < x { PastDiagonal(r, x, y); }
    }
  }

  lemma PastDiagonal(r: int, x: int, y: int)
    requires x >= 1 && x - 2 <= y < x && Off(r, x, y) >= -y
    ensures r * r < 2 * (x * x)
  {
    assert y * y + y <= x * x - x by {
      if y == x - 1 { assert y * y == x * x - 2 * x + 1; } else { assert y == x - 2 && y * y == x * x - 4 * x + 4; }
    }
  }

  lemma Reflected(xc: int, yc: int, x: int, y: int, p: Pt)
    requires 0 <= x <= y
    ensures p in Eight(xc, yc, x, y) <==> (Abs(p.x - xc) == x && Abs(p.y - yc) == y) || (Abs(p.x - xc) == y && Abs(p.y - yc) == x)
  {
  }

  /** Every outline point is as near to the circle as its larger offset allows: half a pixel along that axis. */
  lemma OutlineIsNear(r: nat, xc: int, yc: int, p: Pt)
    requires p in Trace(r, false, xc, yc, 0)
    ensures Abs(Off(r, p.x - xc, p.y - yc)) <= Max(Abs(p.x - xc), Abs(p.y - yc))
  {
    var x, y := TraceHas(r, false, xc, yc, 0, p);
    SameOff(r, xc, yc, x, y, p);
    Near(r, x);
  }

  lemma SameOff(r: int, xc: int, yc: int, x: int, y: int, p: Pt)
    requires 0 <= x <= y && p in Eight(xc, yc, x, y)
    ensures Off(r, p.x - xc, p.y - yc) == Off(r, x, y) && Max(Abs(p.x - xc), Abs(p.y - yc)) == y
  {
    Reflected(xc, yc, x, y, p);
    OffAbs(r, p.x - xc, p.y - yc);
  }

  lemma OffAbs(r: int, u: int, v: int)
    ensures Off(r, u, v) == Off(r, Abs(u), Abs(v)) == Off(r, Abs(v), Abs(u))
  {
    assert Abs(u) * Abs(u) == u * u && Abs(v) * Abs(v) == v * v;
  }

  /** The outline has a point in every column, and by reflection in every row, up to the diagonals. */
  lemma OutlineIsClosed(r: nat, xc: int, yc: int, u: int) returns (v: int)
    requires 2 * (u * u) <= r * r
    ensures v >= Abs(u)
    ensures Pt(xc + u, yc + v) in Trace(r, false, xc, yc, 0) && Pt(xc + u, yc - v) in Trace(r, false, xc, yc, 0)
    ensures Pt(xc + v, yc + u) in Trace(r, false, xc, yc, 0) && Pt(xc - v, yc + u) in Trace(r, false, xc, yc, 0)
  {
    var x := Abs(u);
    assert x * x == u * u;
    Reached(r, x);
    v := At(r, x).y;
    forall p | p == Pt(xc + u, yc + v) || p == Pt(xc + u, yc - v) || p == Pt(xc + v, yc + u) || p == Pt(xc - v, yc + u)
      ensures p in Trace(r, false, xc, yc, 0)
    {
      Reflected(xc, yc, x, v, p);
      TraceAll(r, false, xc, yc, 0, x, v, p);
    }
  }

  /** A filled circle contains every point of the disc. */
  lemma DiscIsFilled(r: nat, xc: int, yc: int, p: Pt)
    requires Off(r, p.x - xc, p.y - yc) <= 0
    ensures p in Trace(r, true, xc, yc, 0)
  {
    var u, v := Abs(p.x - xc), Abs(p.y - yc);
    OffAbs(r, p.x - xc, p.y - yc);
    var x, y := if u <= v then u else v, if u <= v then v else u;
    SquareMono(x, y);
    assert 2 * (x * x) <= r * r;
    Reached(r, x);
    Near(r, x);
    Rounded(r, x, y, At(r, x).y);
    Reflected(xc, yc, x, y, p);
    TraceAll(r, true, xc, yc, 0, x, y, p);
  }

  lemma SquareMono(x: int, y: int)
    requires 0 <= x <= y
    ensures x * x <= y * y
  {
    assert y * y - x * x == (y - x) * (y + x);
  }

  lemma Rounded(r: int, x: int, y: int, top: int)
    requires Off(r, x, y) <= 0 && Off(r, x, top) >= -top && 0 <= y && 0 <= top
    ensures y <= top
  {
    if y > top { Beyond(r, x, y, top); }
  }

  lemma Beyond(r: int, x: int, y: int, top: int)
    requires Off(r, x, top) >= -top && 0 <= top < y
    ensures Off(r, x, y) > 0
  {
    SquareMono(top + 1, y);
    OffBelow(r, x, top + 1);
  }

  /** A filled circle holds nothing but the disc and its outline. */
  lemma FilledIsDisc(r: nat, xc: int, yc: int, p: Pt)
    requires p in Trace(r, true, xc, yc, 0)
    ensures Off(r, p.x - xc, p.y - yc) <= 0 || p in Trace(r, false, xc, yc, 0)
  {
    var x, y := TraceHas(r, true, xc, yc, 0, p);
    var top := At(r, x).y;
    if y == top {
      TraceAll(r, false, xc, yc, 0, x, y, p);
    } else {
      SameOff(r, xc, yc, x, y, p);
      Near(r, x);
      OffBelow(r, x, top);
      SquareMono(y, top - 1);
    }
  }

  /** The outline is part of the filled circle. */
  lemma OutlineInFilled(r: nat, xc: int, yc: int, p: Pt)
    requires p in Trace(r, false, xc, yc, 0)
    ensures p in Trace(r, true, xc, yc, 0)
  {
    var x, y := TraceHas(r, false, xc, yc, 0, p);
    TraceAll(r, true, xc, yc, 0, x, y, p);
  }

  /** A point is at most r away along either axis. */
  lemma InSquare(r: nat, fill: bool, xc: int, yc: int, p: Pt)
    requires p in Trace(r, fill, xc, yc, 0)
    ensures Abs(p.x - xc) <= r && Abs(p.y - yc) <= r
  {
    var x, y := TraceHas(r, fill, xc, yc, 0, p);
    Near(r, x);
    Reflected(xc, yc, x, y, p);
  }

  /** The early return drops nothing that could be seen: the whole circle is outside the bitmap. */
  lemma NothingSeen(width: int, height: int, r: nat, fill: bool, xc: int, yc: int, p: Pt)
    requires OffScreen(width, height, r, xc, yc) && p in Trace(r, fill, xc, yc, 0)
    ensures !(0 <= p.x < width && 0 <= p.y < height)
  {
    InSquare(r, fill, xc, yc, p);
  }
}
