/** The bar gauges of the pixel surface: a bar of `sections` equal steps, from `min` to
    `max`, shows the values `start` to `end` as an "on" run between two "off" runs, along a
    row (horizontal bar) or a column (vertical bar), optionally inside a one-pixel border.
    Segment boundaries are the exact floors of rational products; the source computes them
    with floating-point numbers. */
module Bars {
  import opened Wrappers
  import opened Items
  import opened Surface
  import opened Arith

  function Abs(a: int): nat {
    if a < 0 then -a else a
  }

  /** `q` is the floor of the rational `a / b`. */
  predicate IsFloorOf(q: int, a: int, b: int) {
    if b > 0 then q * b <= a < q * b + b
    else b < 0 && q * b >= a > q * b + b
  }

  /** `math.floor(a / b)`; Dafny's own division rounds toward minus infinity only for a
      positive divisor, so a negative one is flipped first. */
  function FloorDiv(a: int, b: int): (q: int)
    requires b != 0
    ensures IsFloorOf(q, a, b)
  {
    if b > 0 then a / b else (-a) / (-b)
  }

  /** The first on-cell and the first cell after the on-run, along the bar's length. */
  datatype Split = Split(onFrom: int, onTo: int)

  /** The boundaries of a bar of length `len` starting at `pos`: the off-run covers
      `|min - start|` sections and the on-run `|end - start + 1|`, each section `len /
      sections` cells, rounded down. A bar of zero sections divides by zero. */
  function Segments(pos: int, len: int, lo: int, hi: int, vs: int, ve: int): (r: Result<Split, Error>)
    ensures r.Err? <==> hi - lo + 1 == 0
    ensures r.Err? ==> r.error == ZeroDivisionError
    ensures r.Ok? ==> IsFloorOf(r.value.onFrom - pos, Abs(lo - vs) * len, hi - lo + 1)
    ensures r.Ok? ==> IsFloorOf(r.value.onTo - r.value.onFrom, Abs(ve - vs + 1) * len, hi - lo + 1)
  {
    var sections := hi - lo + 1;
    if sections == 0 then Err(ZeroDivisionError)
    else
      var onFrom := pos + FloorDiv(Abs(lo - vs) * len, sections);
      Ok(Split(onFrom, onFrom + FloorDiv(Abs(ve - vs + 1) * len, sections)))
  }

  /** A floor of a non-negative numerator over a positive denominator is not negative. */
  lemma FloorNonNegative(q: int, a: int, b: int)
    requires b > 0 && a >= 0 && IsFloorOf(q, a, b)
    ensures q >= 0
  {
  }

  /** With a positive number of sections and a length that is not negative, the runs come
      in order from the bar's start. */
  lemma SegmentsOrdered(pos: int, len: int, lo: int, hi: int, vs: int, ve: int)
    requires hi - lo + 1 > 0 && len >= 0
    ensures var r := Segments(pos, len, lo, hi, vs, ve);
      r.Ok? && pos <= r.value.onFrom <= r.value.onTo
  {
    var r := Segments(pos, len, lo, hi, vs, ve).value;
    var sections := hi - lo + 1;
    FloorNonNegative(r.onFrom - pos, Abs(lo - vs) * len, sections);
    FloorNonNegative(r.onTo - r.onFrom, Abs(ve - vs + 1) * len, sections);
  }

  /** Two floors over the same positive denominator add up to at most the floor of the
      sum, which is at most `len` when the numerators add up to at most `b * len`. */
  lemma FloorsWithin(q1: int, a1: int, q2: int, a2: int, b: int, len: int)
    requires b > 0 && len >= 0
    requires IsFloorOf(q1, a1, b) && IsFloorOf(q2, a2, b)
    requires a1 + a2 <= b * len
    ensures q1 + q2 <= len
  {
    assert (q1 + q2) * b <= a1 + a2;
  }

  /** Values inside the gauge's range give an on-run inside the bar. */
  lemma SegmentsWithinBar(pos: int, len: int, lo: int, hi: int, vs: int, ve: int)
    requires lo <= vs <= ve <= hi && len >= 0
    ensures var r := Segments(pos, len, lo, hi, vs, ve);
      r.Ok? && pos <= r.value.onFrom <= r.value.onTo <= pos + len
  {
    SegmentsOrdered(pos, len, lo, hi, vs, ve);
    var r := Segments(pos, len, lo, hi, vs, ve).value;
    var sections := hi - lo + 1;
    var a1 := Abs(lo - vs) * len;
    var a2 := Abs(ve - vs + 1) * len;
    assert a1 == (vs - lo) * len && a2 == (ve - vs + 1) * len;
    assert a1 + a2 == (ve - lo + 1) * len;
    assert (ve - lo + 1) * len <= sections * len;
    FloorsWithin(r.onFrom - pos, a1, r.onTo - r.onFrom, a2, sections, len);
  }

  /** The whole range lights the whole bar. */
  lemma FullRangeFillsBar(pos: int, len: int, lo: int, hi: int)
    requires lo <= hi && len >= 0
    ensures Segments(pos, len, lo, hi, lo, hi) == Ok(Split(pos, pos + len))
  {
    var r := Segments(pos, len, lo, hi, lo, hi).value;
    var sections := hi - lo + 1;
    assert Abs(lo - lo) * len == 0;
    assert Abs(hi - lo + 1) * len == sections * len;
    FloorOfMultiple(r.onTo - r.onFrom, len, sections);
  }

  lemma FloorOfMultiple(q: int, len: int, b: int)
    requires b > 0 && IsFloorOf(q, b * len, b)
    ensures q == len
  {
    CancelLt(q, len + 1, b);
    CancelLt(len, q + 1, b);
  }

  /** A longer value run never gives a shorter on-run. */
  lemma OnRunGrows(pos: int, len: int, lo: int, hi: int, vs: int, ve: int, ve2: int)
    requires hi - lo + 1 > 0 && len >= 0 && vs <= ve + 1 <= ve2 + 1
    ensures Segments(pos, len, lo, hi, vs, ve).value.onTo <= Segments(pos, len, lo, hi, vs, ve2).value.onTo
  {
    var b := hi - lo + 1;
    var r := Segments(pos, len, lo, hi, vs, ve).value;
    var r2 := Segments(pos, len, lo, hi, vs, ve2).value;
    var n1, n2 := ve - vs + 1, ve2 - vs + 1;
    assert Abs(n1) == n1 && Abs(n2) == n2;
    ScaleMonotone(n1, n2, len);
    FloorMonotone(r.onTo - r.onFrom, n1 * len, r2.onTo - r2.onFrom, n2 * len, b);
  }

  /** The floor is monotone in the numerator. */
  lemma FloorMonotone(q1: int, a1: int, q2: int, a2: int, b: int)
    requires b > 0 && a1 <= a2 && IsFloorOf(q1, a1, b) && IsFloorOf(q2, a2, b)
    ensures q1 <= q2
  {
    CancelLt(q1, q2 + 1, b);
  }

  // ---------------------------------------------------------------------------------------
  // Drawing

  /** The colour of the off-runs: 0 for colour 1, otherwise 1. */
  function OffColour(col: Byte): (c: Byte)
    ensures c == 0 || c == 1
    ensures c == 1 <==> col != 1
  {
    if col == 1 then 0 else 1
  }

  /** A rectangle: left column, top row, width and height. */
  datatype Box = Box(x: int, y: int, w: int, h: int)

  /** The box the runs fill: the given one, or inside the border. */
  function Inner(x: int, y: int, w: int, h: int, border: bool): Box {
    if border then Box(x + 1, y + 1, w - 2, h - 2) else Box(x, y, w, h)
  }

  /** The surface the runs are drawn on: with a border, the outline in colour 1. */
  function Framed(s: Surface, x: int, y: int, w: int, h: int, border: bool): (r: Surface)
    requires Wf(s) && x >= 0 && y >= 0
    ensures Wf(r) && r.width == s.width && r.height == s.height
  {
    if border then DrawRect(s, x, y, w, h, 1) else s
  }

  /** `draw_h_bar` at a position that is not negative, for a gauge whose range is not
      reversed and whose inner width is not negative. Inside the inner rows, the cells from
      the inner box's left edge to the end of the last run take the off colour, except the
      on-run, which takes `col`; everything else is as framed. */
  function HBar(s: Surface, x: int, y: int, w: int, h: int, lo: int, hi: int, vs: int, ve: int, col: Byte, border: bool): (r: Result<Surface, Error>)
    requires Wf(s) && x >= 0 && y >= 0
    requires hi - lo + 1 >= 0
    requires if border then w >= 2 else w >= 0
    ensures r.Err? <==> hi - lo + 1 == 0
    ensures r.Err? ==> r.error == ZeroDivisionError
    ensures r.Ok? ==> Wf(r.value) && r.value.width == s.width && r.value.height == s.height
    ensures r.Ok? ==>
      var b := Inner(x, y, w, h, border); var (x1, y1, w1, h1) := (b.x, b.y, b.w, b.h);
      var seg := Segments(x1, w1, lo, hi, vs, ve).value;
      var base := Framed(s, x, y, w, h, border);
      forall px, py :: InBounds(s, px, py) ==>
        Get(r.value, px, py) ==
          if y1 <= py < y1 + h1 && x1 <= px < Max(x1 + w1, seg.onTo) then
            (if seg.onFrom <= px < seg.onTo then col else OffColour(col))
          else Get(base, px, py)
  {
    var base := Framed(s, x, y, w, h, border);
    var b := Inner(x, y, w, h, border); var (x1, y1, w1, h1) := (b.x, b.y, b.w, b.h);
    var seg :- Segments(x1, w1, lo, hi, vs, ve);
    SegmentsOrdered(x1, w1, lo, hi, vs, ve);
    Ok(RowRuns(base, x1, y1, h1, seg.onFrom, seg.onTo, x1 + w1, col))
  }

  /** The three fills of a horizontal bar over rows `top` to `top + height`: off from `left`
      to `a`, `col` from `a` to `b`, off from `b` to `right`. */
  function RowRuns(s: Surface, left: int, top: int, height: int, a: int, b: int, right: int, col: Byte): (r: Surface)
    requires Wf(s) && 0 <= left <= a <= b && top >= 0
    ensures Wf(r) && r.width == s.width && r.height == s.height
    ensures forall px, py :: InBounds(s, px, py) ==>
      Get(r, px, py) ==
        if top <= py < top + height && left <= px < Max(right, b) then
          (if a <= px < b then col else OffColour(col))
        else Get(s, px, py)
  {
    var off := OffColour(col);
    var s1 := DrawRectFill(s, left, top, a - left, height, off);
    var s2 := DrawRectFill(s1, a, top, b - a, height, col);
    DrawRectFill(s2, b, top, right - b, height, off)
  }

  /** The three fills of a vertical bar over columns `left` to `left + width`. */
  function ColumnRuns(s: Surface, left: int, top: int, width: int, a: int, b: int, bottom: int, col: Byte): (r: Surface)
    requires Wf(s) && 0 <= top <= a <= b && left >= 0
    ensures Wf(r) && r.width == s.width && r.height == s.height
    ensures forall px, py :: InBounds(s, px, py) ==>
      Get(r, px, py) ==
        if left <= px < left + width && top <= py < Max(bottom, b) then
          (if a <= py < b then col else OffColour(col))
        else Get(s, px, py)
  {
    var off := OffColour(col);
    var s1 := DrawRectFill(s, left, top, width, a - top, off);
    var s2 := DrawRectFill(s1, left, a, width, b - a, col);
    DrawRectFill(s2, left, b, width, bottom - b, off)
  }

  /** `draw_v_bar`, the same along a column: the runs go down from the inner box's top. */
  function VBar(s: Surface, x: int, y: int, w: int, h: int, lo: int, hi: int, vs: int, ve: int, col: Byte, border: bool): (r: Result<Surface, Error>)
    requires Wf(s) && x >= 0 && y >= 0
    requires hi - lo + 1 >= 0
    requires if border then h >= 2 else h >= 0
    ensures r.Err? <==> hi - lo + 1 == 0
    ensures r.Err? ==> r.error == ZeroDivisionError
    ensures r.Ok? ==> Wf(r.value) && r.value.width == s.width && r.value.height == s.height
    ensures r.Ok? ==>
      var b := Inner(x, y, w, h, border); var (x1, y1, w1, h1) := (b.x, b.y, b.w, b.h);
      var seg := Segments(y1, h1, lo, hi, vs, ve).value;
      var base := Framed(s, x, y, w, h, border);
      forall px, py :: InBounds(s, px, py) ==>
        Get(r.value, px, py) ==
          if x1 <= px < x1 + w1 && y1 <= py < Max(y1 + h1, seg.onTo) then
            (if seg.onFrom <= py < seg.onTo then col else OffColour(col))
          else Get(base, px, py)
  {
    var base := Framed(s, x, y, w, h, border);
    var b := Inner(x, y, w, h, border); var (x1, y1, w1, h1) := (b.x, b.y, b.w, b.h);
    var seg :- Segments(y1, h1, lo, hi, vs, ve);
    SegmentsOrdered(y1, h1, lo, hi, vs, ve);
    Ok(ColumnRuns(base, x1, y1, w1, seg.onFrom, seg.onTo, y1 + h1, col))
  }

  function Max(a: int, b: int): int {
    if a < b then b else a
  }

  // ---------------------------------------------------------------------------------------
  // Properties of whole bars

  /** A horizontal bar showing its whole range is `col` across its inner box and changes
      nothing outside it. */
  lemma HBarFull(s: Surface, x: int, y: int, w: int, h: int, lo: int, hi: int, col: Byte, border: bool)
    requires Wf(s) && x >= 0 && y >= 0 && lo <= hi
    requires if border then w >= 2 else w >= 0
    ensures var r := HBar(s, x, y, w, h, lo, hi, lo, hi, col, border);
      var b := Inner(x, y, w, h, border); var (x1, y1, w1, h1) := (b.x, b.y, b.w, b.h);
      r.Ok? && forall px, py :: InBounds(s, px, py) ==>
        Get(r.value, px, py) ==
          if x1 <= px < x1 + w1 && y1 <= py < y1 + h1 then col else Get(Framed(s, x, y, w, h, border), px, py)
  {
    var b := Inner(x, y, w, h, border); var (x1, y1, w1, h1) := (b.x, b.y, b.w, b.h);
    FullRangeFillsBar(x1, w1, lo, hi);
  }

  /** For values inside the range, a horizontal bar lights exactly the on-run of its inner
      box, darkens the rest of the box, and changes nothing outside the box. */
  lemma HBarWithinBox(s: Surface, x: int, y: int, w: int, h: int, lo: int, hi: int, vs: int, ve: int, col: Byte, border: bool)
    requires Wf(s) && x >= 0 && y >= 0 && lo <= vs <= ve <= hi
    requires if border then w >= 2 else w >= 0
    ensures var r := HBar(s, x, y, w, h, lo, hi, vs, ve, col, border);
      var b := Inner(x, y, w, h, border); var (x1, y1, w1, h1) := (b.x, b.y, b.w, b.h);
      var seg := Segments(x1, w1, lo, hi, vs, ve).value;
      r.Ok? && x1 <= seg.onFrom <= seg.onTo <= x1 + w1 &&
      forall px, py :: InBounds(s, px, py) ==>
        Get(r.value, px, py) ==
          if x1 <= px < x1 + w1 && y1 <= py < y1 + h1 then
            (if seg.onFrom <= px < seg.onTo then col else OffColour(col))
          else Get(Framed(s, x, y, w, h, border), px, py)
  {
    var b := Inner(x, y, w, h, border); var (x1, y1, w1, h1) := (b.x, b.y, b.w, b.h);
    SegmentsWithinBar(x1, w1, lo, hi, vs, ve);
  }
}
