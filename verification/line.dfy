/** `draw_line`: a row or a column is drawn as one run; any other line is traced with
    Bresenham's integer error term, one `set_pixel` per point, from the first endpoint to the
    second. */
module Line {
  import opened Surface

  function Abs(a: int): nat {
    if a < 0 then -a else a
  }

  function Min(a: int, b: int): int {
    if a < b then a else b
  }

  /** One step of a traced line: each coordinate stays or moves one unit in its direction,
      and at least one moves. */
  predicate Step(a: (int, int), b: (int, int), sx: int, sy: int) {
    && (b.0 == a.0 || b.0 == a.0 + sx)
    && (b.1 == a.1 || b.1 == a.1 + sy)
    && b != a
  }

  /** `k` units in direction `u`, one of -1, 0 and 1. */
  function Scale(k: int, u: int): int {
    if u == 1 then k else if u == -1 then -k else 0
  }

  /** The points of the run from (x, y), `n` long, in direction (ux, uy). */
  function Run(x: int, y: int, n: nat, ux: int, uy: int): (pts: seq<(int, int)>)
    ensures |pts| == n && forall k :: 0 <= k < n ==> pts[k] == (x + Scale(k, ux), y + Scale(k, uy))
  {
    seq(n, k => (x + Scale(k, ux), y + Scale(k, uy)))
  }

  /** `p` lies in the box spanned by the endpoints. */
  predicate Within(p: (int, int), x1: int, y1: int, x2: int, y2: int) {
    Min(x1, x2) <= p.0 <= Min(x1, x2) + Abs(x2 - x1) && Min(y1, y2) <= p.1 <= Min(y1, y2) + Abs(y2 - y1)
  }

  predicate InBox(pts: seq<(int, int)>, x1: int, y1: int, x2: int, y2: int) {
    forall k :: 0 <= k < |pts| ==> Within(pts[k], x1, y1, x2, y2)
  }

  /** Consecutive points of `pts` are steps in directions (sx, sy). */
  predicate Chain(pts: seq<(int, int)>, sx: int, sy: int) {
    forall k :: 0 < k < |pts| ==> Step(pts[k - 1], pts[k], sx, sy)
  }

  lemma ChainAppend(pts: seq<(int, int)>, p: (int, int), sx: int, sy: int)
    requires Chain(pts, sx, sy) && |pts| > 0 && Step(pts[|pts| - 1], p, sx, sy)
    ensures Chain(pts + [p], sx, sy)
  {
    forall k | 0 < k < |pts| + 1 ensures Step((pts + [p])[k - 1], (pts + [p])[k], sx, sy) {
      if k < |pts| {
        assert (pts + [p])[k - 1] == pts[k - 1] && (pts + [p])[k] == pts[k];
      }
    }
  }

  lemma InBoxAppend(pts: seq<(int, int)>, p: (int, int), x1: int, y1: int, x2: int, y2: int)
    requires InBox(pts, x1, y1, x2, y2) && Within(p, x1, y1, x2, y2)
    ensures InBox(pts + [p], x1, y1, x2, y2)
  {
    forall k | 0 <= k < |pts| + 1 ensures Within((pts + [p])[k], x1, y1, x2, y2) {
      if k < |pts| {
        assert (pts + [p])[k] == pts[k];
      }
    }
  }

  /** Draws the line and returns the points it set, in drawing order. A row stores the colour
      as given along the run, as does a column; a traced line stores 1 for a non-zero
      colour. The run writers need a start that is not negative. */
  method DrawLine(s: Surface, x1: int, y1: int, x2: int, y2: int, col: Byte) returns (r: Surface, pts: seq<(int, int)>)
    requires Wf(s)
    requires y1 == y2 ==> x1 >= 0 && x2 >= 0
    requires x1 == x2 && y1 != y2 ==> y1 >= 0 && y2 >= 0
    ensures Wf(r) && r.width == s.width && r.height == s.height
    ensures |pts| > 0 && pts[0] == (x1, y1) && pts[|pts| - 1] == (x2, y2)
    ensures InBox(pts, x1, y1, x2, y2)
    ensures y1 == y2 ==> pts == Run(x1, y1, Abs(x2 - x1) + 1, if x1 <= x2 then 1 else -1, 0)
    ensures x1 == x2 && y1 != y2 ==> pts == Run(x1, y1, Abs(y2 - y1) + 1, 0, if y1 <= y2 then 1 else -1)
    ensures y1 == y2 || x1 == x2 ==> Painted(s, r, pts, col)
    ensures y1 != y2 && x1 != x2 ==> Painted(s, r, pts, Bit(col))
    ensures y1 != y2 && x1 != x2 ==> Chain(pts, Sign(x1, x2), Sign(y1, y2))
  {
    if y1 == y2 {
      r, pts := DrawRow(s, x1, x2, y1, col);
    } else if x1 == x2 {
      r, pts := DrawColumn(s, x1, y1, y2, col);
    } else {
      r, pts := Trace(s, x1, y1, x2, y2, col);
    }
  }

  /** A row: one run of `draw_h_line` from the leftmost endpoint. */
  method DrawRow(s: Surface, x1: int, x2: int, y: int, col: Byte) returns (r: Surface, pts: seq<(int, int)>)
    requires Wf(s) && x1 >= 0 && x2 >= 0
    ensures Wf(r) && r.width == s.width && r.height == s.height
    ensures |pts| > 0 && pts[0] == (x1, y) && pts[|pts| - 1] == (x2, y)
    ensures InBox(pts, x1, y, x2, y)
    ensures pts == Run(x1, y, Abs(x2 - x1) + 1, if x1 <= x2 then 1 else -1, 0)
    ensures Painted(s, r, pts, col)
  {
    r := DrawHLine(s, Min(x1, x2), y, Abs(x2 - x1) + 1, col);
    pts := Run(x1, y, Abs(x2 - x1) + 1, if x1 <= x2 then 1 else -1, 0);
    RowRun(pts, x1, x2, y);
    HorizontalCells(s, r, pts, x1, x2, y, Abs(x2 - x1) + 1, col);
  }

  /** A column: one run of `draw_v_line` from the topmost endpoint. */
  method DrawColumn(s: Surface, x: int, y1: int, y2: int, col: Byte) returns (r: Surface, pts: seq<(int, int)>)
    requires Wf(s) && y1 >= 0 && y2 >= 0
    ensures Wf(r) && r.width == s.width && r.height == s.height
    ensures |pts| > 0 && pts[0] == (x, y1) && pts[|pts| - 1] == (x, y2)
    ensures InBox(pts, x, y1, x, y2)
    ensures pts == Run(x, y1, Abs(y2 - y1) + 1, 0, if y1 <= y2 then 1 else -1)
    ensures Painted(s, r, pts, col)
  {
    r := DrawVLine(s, x, Min(y1, y2), Abs(y2 - y1) + 1, col);
    pts := Run(x, y1, Abs(y2 - y1) + 1, 0, if y1 <= y2 then 1 else -1);
    ColumnRun(pts, x, y1, y2);
    VerticalCells(s, r, pts, x, y1, y2, Abs(y2 - y1) + 1, col);
  }

  /** A row's run goes from the first endpoint to the second, inside their box. */
  lemma RowRun(pts: seq<(int, int)>, x1: int, x2: int, y: int)
    requires pts == Run(x1, y, Abs(x2 - x1) + 1, if x1 <= x2 then 1 else -1, 0)
    ensures |pts| > 0 && pts[0] == (x1, y) && pts[|pts| - 1] == (x2, y) && InBox(pts, x1, y, x2, y)
  {
  }

  /** A column's run goes from the first endpoint to the second, inside their box. */
  lemma ColumnRun(pts: seq<(int, int)>, x: int, y1: int, y2: int)
    requires pts == Run(x, y1, Abs(y2 - y1) + 1, 0, if y1 <= y2 then 1 else -1)
    ensures |pts| > 0 && pts[0] == (x, y1) && pts[|pts| - 1] == (x, y2) && InBox(pts, x, y1, x, y2)
  {
  }

  /** The points of a run are exactly the cells of its segment. */
  lemma RunCells(x: int, y: int, n: nat, ux: int, uy: int, px: int, py: int)
    requires ((ux == 1 || ux == -1) && uy == 0) || (ux == 0 && (uy == 1 || uy == -1))
    ensures (px, py) in Run(x, y, n, ux, uy) <==>
      && 0 < n
      && (if ux == 0 then px == x else (if ux == 1 then x <= px < x + n else x - n < px <= x))
      && (if uy == 0 then py == y else (if uy == 1 then y <= py < y + n else y - n < py <= y))
  {
    var pts := Run(x, y, n, ux, uy);
    var k := if ux == 1 then px - x else if ux == -1 then x - px else if uy == 1 then py - y else y - py;
    if 0 <= k < n && (if ux == 0 then px == x else py == y) {
      assert pts[k] == (px, py);
    }
    if (px, py) in pts {
      var k' :| 0 <= k' < |pts| && pts[k'] == (px, py);
    }
  }

  lemma HorizontalCells(s: Surface, r: Surface, pts: seq<(int, int)>, x1: int, x2: int, y: int, n: nat, col: Byte)
    requires Wf(s) && x1 >= 0 && x2 >= 0 && n == Abs(x2 - x1) + 1
    requires r == DrawHLine(s, Min(x1, x2), y, n, col)
    requires pts == Run(x1, y, n, if x1 <= x2 then 1 else -1, 0)
    ensures Painted(s, r, pts, col)
  {
    forall px, py | InBounds(s, px, py)
      ensures Get(r, px, py) == if (px, py) in pts then col else Get(s, px, py)
    {
      RunCells(x1, y, n, if x1 <= x2 then 1 else -1, 0, px, py);
    }
  }

  lemma VerticalCells(s: Surface, r: Surface, pts: seq<(int, int)>, x: int, y1: int, y2: int, n: nat, col: Byte)
    requires Wf(s) && y1 >= 0 && y2 >= 0 && n == Abs(y2 - y1) + 1
    requires r == DrawVLine(s, x, Min(y1, y2), n, col)
    requires pts == Run(x, y1, n, 0, if y1 <= y2 then 1 else -1)
    ensures Painted(s, r, pts, col)
  {
    forall px, py | InBounds(s, px, py)
      ensures Get(r, px, py) == if (px, py) in pts then col else Get(s, px, py)
    {
      RunCells(x, y1, n, 0, if y1 <= y2 then 1 else -1, px, py);
    }
  }

  /** `r` is `s` with exactly the cells of `pts` (those inside the buffer) set to `v`. */
  ghost predicate Painted(s: Surface, r: Surface, pts: seq<(int, int)>, v: Byte)
    requires Wf(s) && Wf(r) && r.width == s.width && r.height == s.height
  {
    forall px, py :: InBounds(s, px, py) ==> Get(r, px, py) == if (px, py) in pts then v else Get(s, px, py)
  }

  /** Setting one more pixel paints one more point. */
  lemma PaintOne(s: Surface, r: Surface, pts: seq<(int, int)>, x: int, y: int, col: Byte)
    requires Wf(s) && Wf(r) && r.width == s.width && r.height == s.height
    requires Painted(s, r, pts, Bit(col))
    ensures Painted(s, SetPixel(r, x, y, col), pts + [(x, y)], Bit(col))
  {
    var r' := SetPixel(r, x, y, col);
    forall px, py | InBounds(s, px, py)
      ensures Get(r', px, py) == if (px, py) in pts + [(x, y)] then Bit(col) else Get(s, px, py)
    {
      assert (px, py) in pts + [(x, y)] <==> (px, py) in pts || (px, py) == (x, y);
    }
  }

  /** Sets the pixels of `pts` in order. */
  function PaintAll(s: Surface, pts: seq<(int, int)>, col: Byte): (r: Surface)
    requires Wf(s)
    ensures Wf(r) && r.width == s.width && r.height == s.height
    ensures Painted(s, r, pts, Bit(col))
  {
    if |pts| == 0 then s
    else
      var prev := PaintAll(s, pts[..|pts| - 1], col);
      PaintOne(s, prev, pts[..|pts| - 1], pts[|pts| - 1].0, pts[|pts| - 1].1, col);
      assert pts[..|pts| - 1] + [pts[|pts| - 1]] == pts;
      SetPixel(prev, pts[|pts| - 1].0, pts[|pts| - 1].1, col)
  }

  /** A traced line: its points, from the Bresenham walk, each set in turn. The walk does not
      read the buffer, so setting the pixels after the walk is the same as setting each as it
      is reached. */
  method Trace(s: Surface, x1: int, y1: int, x2: int, y2: int, col: Byte) returns (r: Surface, pts: seq<(int, int)>)
    requires Wf(s) && x1 != x2 && y1 != y2
    ensures Wf(r) && r.width == s.width && r.height == s.height
    ensures |pts| > 0 && pts[0] == (x1, y1) && pts[|pts| - 1] == (x2, y2)
    ensures InBox(pts, x1, y1, x2, y2)
    ensures Painted(s, r, pts, Bit(col))
    ensures Chain(pts, Sign(x1, x2), Sign(y1, y2))
  {
    pts := Walk(x1, y1, x2, y2);
    r := PaintAll(s, pts, col);
  }

  /** The walk's state: the current point and the error term. */
  datatype Pen = Pen(x: int, y: int, err: int)

  /** One pass of the loop body after the point is recorded: a step along x when
      2·err ≥ dy, then a step along y when 2·err ≤ dx, both judged on the error before the
      step. */
  function Next(p: Pen, dx: int, dy: int, sx: int, sy: int): Pen {
    var e2 := 2 * p.err;
    var p1 := if e2 >= dy then Pen(p.x + sx, p.y, p.err + dy) else p;
    if e2 <= dx then Pen(p1.x, p1.y + sy, p1.err + dx) else p1
  }

  /** The direction of travel along one axis. */
  function Sign(a: int, b: int): int {
    if a < b then 1 else -1
  }

  /** The pen after i steps along x and j along y, with the deviation D = i·dy − j·dx kept
      strictly within ±(dx + dy)/2 and the error term equal to dx − dy − D. */
  ghost predicate At(p: Pen, x1: int, y1: int, x2: int, y2: int, i: nat, j: nat) {
    var dx := Abs(x2 - x1);
    var DY := Abs(y2 - y1);
    && i <= dx && j <= DY
    && p.x == x1 + Scale(i, Sign(x1, x2)) && p.y == y1 + Scale(j, Sign(y1, y2))
    && p.err == dx - DY - Deviation(dx, DY, i, j)
    && -(dx + DY) < 2 * Deviation(dx, DY, i, j) < dx + DY
  }

  /** At the second endpoint exactly when both counts are complete. */
  lemma AtEnd(p: Pen, x1: int, y1: int, x2: int, y2: int, i: nat, j: nat)
    requires At(p, x1, y1, x2, y2, i, j)
    ensures (p.x == x2 && p.y == y2) <==> (i == Abs(x2 - x1) && j == Abs(y2 - y1))
  {
  }

  /** A pen on track is inside the endpoints' box. */
  lemma AtWithin(p: Pen, x1: int, y1: int, x2: int, y2: int, i: nat, j: nat)
    requires At(p, x1, y1, x2, y2, i, j)
    ensures Within((p.x, p.y), x1, y1, x2, y2)
  {
  }

  /** A step of the walk keeps it on track, moving one unit along at least one axis towards
      the second endpoint and never past it; `i2` and `j2` are the new counts. */
  lemma NextKeeps(p: Pen, x1: int, y1: int, x2: int, y2: int, dx: nat, dy: int, sx: int, sy: int, i: nat, j: nat)
    returns (i2: nat, j2: nat)
    requires x1 != x2 && y1 != y2 && At(p, x1, y1, x2, y2, i, j) && !(p.x == x2 && p.y == y2)
    requires dx == Abs(x2 - x1) && dy == -(Abs(y2 - y1) as int) && sx == Sign(x1, x2) && sy == Sign(y1, y2)
    ensures var q := Next(p, dx, dy, sx, sy);
      && At(q, x1, y1, x2, y2, i2, j2)
      && Within((q.x, q.y), x1, y1, x2, y2)
      && Step((p.x, p.y), (q.x, q.y), sx, sy)
      && i + j < i2 + j2
  {
    AtEnd(p, x1, y1, x2, y2, i, j);
    Advance(dx, Abs(y2 - y1), i, j, p.err);
    var q := Next(p, dx, dy, sx, sy);
    i2 := if q.x == p.x then i else i + 1;
    j2 := if q.y == p.y then j else j + 1;
    AtWithin(q, x1, y1, x2, y2, i2, j2);
  }

  /** The Bresenham walk from the first endpoint to the second; every step moves one unit
      along one axis or both, towards the second endpoint. */
  method Walk(x1: int, y1: int, x2: int, y2: int) returns (pts: seq<(int, int)>)
    requires x1 != x2 && y1 != y2
    ensures |pts| > 0 && pts[0] == (x1, y1) && pts[|pts| - 1] == (x2, y2)
    ensures InBox(pts, x1, y1, x2, y2)
    ensures Chain(pts, Sign(x1, x2), Sign(y1, y2))
  {
    var dx := Abs(x2 - x1);
    var dy: int := -(Abs(y2 - y1) as int);
    var sx := Sign(x1, x2);
    var sy := Sign(y1, y2);
    var pen := Pen(x1, y1, dx + dy);
    ghost var i, j := 0, 0;
    pts := [(x1, y1)];
    while !(pen.x == x2 && pen.y == y2)
      invariant At(pen, x1, y1, x2, y2, i, j)
      invariant |pts| > 0 && pts[0] == (x1, y1) && pts[|pts| - 1] == (pen.x, pen.y)
      invariant InBox(pts, x1, y1, x2, y2)
      invariant Chain(pts, sx, sy)
      decreases (dx - i) + (Abs(y2 - y1) - j)
    {
      i, j := NextKeeps(pen, x1, y1, x2, y2, dx, dy, sx, sy, i, j);
      pen := Next(pen, dx, dy, sx, sy);
      InBoxAppend(pts, (pen.x, pen.y), x1, y1, x2, y2);
      ChainAppend(pts, (pen.x, pen.y), sx, sy);
      pts := pts + [(pen.x, pen.y)];
    }
  }

  /** `a·b` as repeated addition. */
  function Mul(a: nat, b: nat): nat {
    if a == 0 then 0 else Mul(a - 1, b) + b
  }

  lemma {:induction false} MulIsProduct(a: nat, b: nat)
    ensures Mul(a, b) == a * b
  {
    if a > 0 {
      MulIsProduct(a - 1, b);
    }
  }

  /** How far the traced point is from the ideal line after i steps along x and j along y,
      scaled by dx: i·dy − j·dx. */
  function Deviation(dx: nat, DY: nat, i: nat, j: nat): int {
    Mul(i, DY) - Mul(j, dx)
  }

  /** One step of the walk keeps its bounds, and moves along at least one axis. */
  lemma Advance(dx: nat, DY: nat, i: nat, j: nat, err: int)
    requires dx > 0 && DY > 0 && i <= dx && j <= DY && !(i == dx && j == DY)
    requires err == dx - DY - Deviation(dx, DY, i, j)
    requires -(dx + DY) < 2 * Deviation(dx, DY, i, j) < dx + DY
    ensures var mx := 2 * err >= -(DY as int); var my := 2 * err <= dx;
      var i' := if mx then i + 1 else i;
      var j' := if my then j + 1 else j;
      var err' := err + (if mx then -(DY as int) else 0) + (if my then dx else 0);
      && (mx || my) && i' <= dx && j' <= DY
      && err' == dx - DY - Deviation(dx, DY, i', j')
      && -(dx + DY) < 2 * Deviation(dx, DY, i', j') < dx + DY
  {
    DeviationBounds(dx, DY, i, j);
    DeviationStep(dx, DY, i, j);
  }

  /** A step along x adds dy to the deviation, a step along y takes dx from it. */
  lemma DeviationStep(dx: nat, DY: nat, i: nat, j: nat)
    ensures Deviation(dx, DY, i + 1, j) == Deviation(dx, DY, i, j) + DY
    ensures Deviation(dx, DY, i, j + 1) == Deviation(dx, DY, i, j) - dx
    ensures Deviation(dx, DY, i + 1, j + 1) == Deviation(dx, DY, i, j) + DY - dx
  {
  }

  /** When one coordinate has reached its endpoint while the other has not, the deviation
      bound rules out another step along the finished one. */
  lemma DeviationBounds(dx: nat, DY: nat, i: nat, j: nat)
    requires dx > 0 && DY > 0 && i <= dx && j <= DY && !(i == dx && j == DY)
    requires -(dx + DY) < 2 * Deviation(dx, DY, i, j) < dx + DY
    ensures i == dx ==> Deviation(dx, DY, i, j) >= dx
    ensures j == DY ==> Deviation(dx, DY, i, j) + DY <= 0
  {
    MulIsProduct(i, DY);
    MulIsProduct(j, dx);
    if i == dx {
      assert j < DY;
      AtLeastOnce(dx, DY - j);
      assert i * DY - j * dx == dx * (DY - j) by { Distribute(dx, DY, j); }
    }
    if j == DY {
      assert i < dx;
      AtLeastOnce(DY, dx - i);
      assert i * DY - j * dx == -(DY * (dx - i)) by { Distribute(DY, dx, i); }
    }
  }

  lemma AtLeastOnce(a: nat, b: int)
    requires b >= 1
    ensures a * b >= a
  {
  }

  lemma Distribute(a: int, b: int, c: int)
    ensures a * b - c * a == a * (b - c)
  {
  }
}
