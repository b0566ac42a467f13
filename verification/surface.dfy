/** The monochrome display's pixel buffer and its clipped writers. Every writer is a
    rectangle write that keeps only the cells inside the buffer, so each is specified cell by
    cell: a cell inside both the buffer and the written area takes the written value, every
    other cell keeps its old one. Cells are bytes, as in the display's 8-bit buffer. */
module Surface {

  type Byte = b: int | 0 <= b < 256

  /** `cells[y][x]` is the pixel in column `x` of row `y`. */
  datatype Surface = Surface(width: nat, height: nat, cells: seq<seq<Byte>>)

  predicate Wf(s: Surface) {
    |s.cells| == s.height && forall y :: 0 <= y < |s.cells| ==> |s.cells[y]| == s.width
  }

  predicate InBounds(s: Surface, x: int, y: int) {
    0 <= x < s.width && 0 <= y < s.height
  }

  function Get(s: Surface, x: int, y: int): Byte
    requires Wf(s) && InBounds(s, x, y)
  {
    s.cells[y][x]
  }

  /** `n` copies of `col`; empty for a count that is not positive (`[col] * n`). */
  function Repeat(col: Byte, n: int): (r: seq<Byte>)
    ensures |r| == if n > 0 then n else 0
    ensures forall j :: 0 <= j < |r| ==> r[j] == col
  {
    if n <= 0 then [] else Repeat(col, n - 1) + [col]
  }

  function BlankRows(width: nat, k: nat): (rows: seq<seq<Byte>>)
    ensures |rows| == k && forall y :: 0 <= y < k ==> rows[y] == Repeat(0, width)
  {
    if k == 0 then [] else BlankRows(width, k - 1) + [Repeat(0, width)]
  }

  /** An all-zero buffer. */
  function Blank(width: nat, height: nat): (s: Surface)
    ensures Wf(s) && s.width == width && s.height == height
    ensures forall x, y :: InBounds(s, x, y) ==> Get(s, x, y) == 0
  {
    Surface(width, height, BlankRows(width, height))
  }

  /** What a rectangle write stores: one colour, a run along a row or a column, or a block,
      each placed with its first cell at the given position. */
  datatype Paint =
    | Solid(col: Byte)
    | Across(x: int, cols: seq<Byte>)
    | Down(y: int, cols: seq<Byte>)
    | Block(left: int, top: int, rows: seq<seq<Byte>>)

  /** The colour `p` puts at (px, py); 0 where it has none. */
  function Ink(p: Paint, px: int, py: int): Byte {
    match p
    case Solid(c) => c
    case Across(x, cols) => if 0 <= px - x < |cols| then cols[px - x] else 0
    case Down(y, cols) => if 0 <= py - y < |cols| then cols[py - y] else 0
    case Block(left, top, rows) =>
      if 0 <= py - top < |rows| && 0 <= px - left < |rows[py - top]| then rows[py - top][px - left] else 0
  }

  /** The first `k` cells of row `py` after the write. */
  function FillRow(row: seq<Byte>, py: int, x0: int, x1: int, p: Paint, k: nat): (o: seq<Byte>)
    requires k <= |row|
    ensures |o| == k
    ensures forall px :: 0 <= px < k ==> o[px] == if x0 <= px < x1 then Ink(p, px, py) else row[px]
  {
    if k == 0 then []
    else FillRow(row, py, x0, x1, p, k - 1) + [if x0 <= k - 1 < x1 then Ink(p, k - 1, py) else row[k - 1]]
  }

  /** The first `k` rows after the write. */
  function FillRows(s: Surface, x0: int, y0: int, x1: int, y1: int, p: Paint, k: nat): (o: seq<seq<Byte>>)
    requires Wf(s) && k <= s.height
    ensures |o| == k
    ensures forall py :: 0 <= py < k ==> |o[py]| == s.width
    ensures forall py, px :: 0 <= py < k && 0 <= px < s.width ==>
      o[py][px] == if x0 <= px < x1 && y0 <= py < y1 then Ink(p, px, py) else s.cells[py][px]
  {
    if k == 0 then []
    else
      var row := if y0 <= k - 1 < y1 then FillRow(s.cells[k - 1], k - 1, x0, x1, p, s.width) else s.cells[k - 1];
      FillRows(s, x0, y0, x1, y1, p, k - 1) + [row]
  }

  /** The common rectangle write: cells in [x0, x1) × [y0, y1) take the paint's colour. */
  function Fill(s: Surface, x0: int, y0: int, x1: int, y1: int, p: Paint): (r: Surface)
    requires Wf(s)
    ensures Wf(r) && r.width == s.width && r.height == s.height
    ensures forall px, py :: InBounds(s, px, py) ==>
      Get(r, px, py) == if x0 <= px < x1 && y0 <= py < y1 then Ink(p, px, py) else Get(s, px, py)
  {
    Surface(s.width, s.height, FillRows(s, x0, y0, x1, y1, p, s.height))
  }

  /** 1 for any non-zero colour, else 0. */
  function Bit(col: int): (b: Byte)
    ensures b == 0 || b == 1
    ensures b == 1 <==> col != 0
  {
    if col != 0 then 1 else 0
  }

  /** `set_pixel`: only an in-bounds cell changes, and it stores 1 exactly for a non-zero
      colour. */
  function SetPixel(s: Surface, x: int, y: int, col: int): (r: Surface)
    requires Wf(s)
    ensures Wf(r) && r.width == s.width && r.height == s.height
    ensures forall px, py :: InBounds(s, px, py) ==>
      Get(r, px, py) == if px == x && py == y then (if col != 0 then 1 else 0) else Get(s, px, py)
    ensures !InBounds(s, x, y) ==> r == s
  {
    if 0 <= x < s.width && 0 <= y < s.height then
      Fill(s, x, y, x + 1, y + 1, Solid(Bit(col)))
    else s
  }

  /** `set_h_pixels` for a start column that is not negative: row `y` takes the colours
      from column `x` on, as far as the row reaches; the colours are stored as given. */
  function SetHPixels(s: Surface, x: int, y: int, cols: seq<Byte>): (r: Surface)
    requires Wf(s) && x >= 0
    ensures Wf(r) && r.width == s.width && r.height == s.height
    ensures forall px, py :: InBounds(s, px, py) ==>
      Get(r, px, py) == if py == y && x <= px < x + |cols| then cols[px - x] else Get(s, px, py)
  {
    if y < 0 || y >= s.height || x >= s.width then s
    else
      var length := if |cols| < s.width - x then |cols| else s.width - x;
      if length <= 0 then s
      else Fill(s, x, y, x + length, y + 1, Across(x, cols))
  }

  /** `set_v_pixels` for a start row that is not negative: column `x` takes the colours from
      row `y` down, as far as the column reaches. */
  function SetVPixels(s: Surface, x: int, y: int, cols: seq<Byte>): (r: Surface)
    requires Wf(s) && y >= 0
    ensures Wf(r) && r.width == s.width && r.height == s.height
    ensures forall px, py :: InBounds(s, px, py) ==>
      Get(r, px, py) == if px == x && y <= py < y + |cols| then cols[py - y] else Get(s, px, py)
  {
    if x < 0 || x >= s.width || y >= s.height then s
    else
      var length := if |cols| < s.height - y then |cols| else s.height - y;
      if length <= 0 then s
      else Fill(s, x, y, x + 1, y + length, Down(y, cols))
  }

  predicate Rectangular(block: seq<seq<Byte>>) {
    forall j :: 0 <= j < |block| ==> |block[j]| == |block[0]|
  }

  /** `set_pixels_vector` at a position that is not negative: the block is copied with its
      top-left corner at (x, y), cut at the right and bottom edges. */
  function SetBlock(s: Surface, x: int, y: int, block: seq<seq<Byte>>): (r: Surface)
    requires Wf(s) && x >= 0 && y >= 0 && Rectangular(block)
    ensures Wf(r) && r.width == s.width && r.height == s.height
    ensures forall px, py :: InBounds(s, px, py) ==>
      Get(r, px, py) ==
        if y <= py < y + |block| && 0 < |block| && x <= px < x + |block[0]| then block[py - y][px - x]
        else Get(s, px, py)
  {
    var h := |block|;
    var w := if h == 0 then 0 else |block[0]|;
    var xEnd := if x + w < s.width then x + w else s.width;
    var yEnd := if y + h < s.height then y + h else s.height;
    if x >= s.width || y >= s.height || xEnd <= x || yEnd <= y then s
    else Fill(s, x, y, xEnd, yEnd, Block(x, y, block))
  }

  /** `draw_h_line`: `w` cells of row `y` from column `x`, clipped. */
  function DrawHLine(s: Surface, x: int, y: int, w: int, col: Byte): (r: Surface)
    requires Wf(s) && x >= 0
    ensures Wf(r) && r.width == s.width && r.height == s.height
    ensures forall px, py :: InBounds(s, px, py) ==>
      Get(r, px, py) == if py == y && x <= px < x + w then col else Get(s, px, py)
  {
    SetHPixels(s, x, y, Repeat(col, w))
  }

  /** `draw_v_line`: `h` cells of column `x` from row `y`, clipped. */
  function DrawVLine(s: Surface, x: int, y: int, h: int, col: Byte): (r: Surface)
    requires Wf(s) && y >= 0
    ensures Wf(r) && r.width == s.width && r.height == s.height
    ensures forall px, py :: InBounds(s, px, py) ==>
      Get(r, px, py) == if px == x && y <= py < y + h then col else Get(s, px, py)
  {
    SetVPixels(s, x, y, Repeat(col, h))
  }

  /** `draw_rect_fill` at a position that is not negative: nothing for an empty size or a
      start outside the buffer; otherwise the rectangle, cut at the right and bottom edges. */
  function DrawRectFill(s: Surface, x: int, y: int, w: int, h: int, col: Byte): (r: Surface)
    requires Wf(s) && x >= 0 && y >= 0
    ensures Wf(r) && r.width == s.width && r.height == s.height
    ensures w <= 0 || h <= 0 || x >= s.width || y >= s.height ==> r == s
    ensures forall px, py :: InBounds(s, px, py) ==>
      Get(r, px, py) == if x <= px < x + w && y <= py < y + h then col else Get(s, px, py)
  {
    if x >= s.width || y >= s.height || w <= 0 || h <= 0 then s
    else
      var xEnd := if x + w < s.width then x + w else s.width;
      var yEnd := if y + h < s.height then y + h else s.height;
      Fill(s, x, y, xEnd, yEnd, Solid(col))
  }

  /** `draw_rect`: the outline, top and bottom rows and left and right columns. */
  function DrawRect(s: Surface, x: int, y: int, w: int, h: int, col: Byte): (r: Surface)
    requires Wf(s) && x >= 0 && y >= 0
    ensures Wf(r) && r.width == s.width && r.height == s.height
  {
    var s1 := DrawHLine(s, x, y, w, col);
    var s2 := DrawVLine(s1, x, y, h, col);
    var s3 := DrawVLine(s2, x + w - 1, y, h, col);
    DrawHLine(s3, x, y + h - 1, w, col)
  }

  // ---------------------------------------------------------------------------------------
  // Properties

  /** The outline of a rectangle at least 2 × 2 holds the colour on its border and leaves its
      inside and everything around it alone. */
  lemma {:induction false} DrawRectOutline(s: Surface, x: int, y: int, w: int, h: int, col: Byte)
    requires Wf(s) && x >= 0 && y >= 0 && w >= 2 && h >= 2
    ensures var r := DrawRect(s, x, y, w, h, col);
      forall px, py :: InBounds(s, px, py) ==>
        Get(r, px, py) ==
          if x <= px < x + w && y <= py < y + h && (px == x || px == x + w - 1 || py == y || py == y + h - 1) then col
          else Get(s, px, py)
  {
    var s1 := DrawHLine(s, x, y, w, col);
    var s2 := DrawVLine(s1, x, y, h, col);
    var s3 := DrawVLine(s2, x + w - 1, y, h, col);
    var r := DrawHLine(s3, x, y + h - 1, w, col);
    assert r == DrawRect(s, x, y, w, h, col);
    forall px, py | InBounds(s, px, py)
      ensures Get(r, px, py) ==
        if x <= px < x + w && y <= py < y + h && (px == x || px == x + w - 1 || py == y || py == y + h - 1) then col
        else Get(s, px, py)
    {
      assert Get(s1, px, py) == if py == y && x <= px < x + w then col else Get(s, px, py);
      assert Get(s2, px, py) == if px == x && y <= py < y + h then col else Get(s1, px, py);
      assert Get(s3, px, py) == if px == x + w - 1 && y <= py < y + h then col else Get(s2, px, py);
    }
  }

  /** Filling a rectangle twice with the same colour is filling it once. */
  lemma RectFillIdempotent(s: Surface, x: int, y: int, w: int, h: int, col: Byte)
    requires Wf(s) && x >= 0 && y >= 0
    ensures DrawRectFill(DrawRectFill(s, x, y, w, h, col), x, y, w, h, col) == DrawRectFill(s, x, y, w, h, col)
  {
    var r1 := DrawRectFill(s, x, y, w, h, col);
    var r2 := DrawRectFill(r1, x, y, w, h, col);
    SameCells(r2, r1);
  }

  /** Surfaces of one size that agree on every cell are equal. */
  lemma SameCells(a: Surface, b: Surface)
    requires Wf(a) && Wf(b) && a.width == b.width && a.height == b.height
    requires forall px, py :: InBounds(a, px, py) ==> Get(a, px, py) == Get(b, px, py)
    ensures a == b
  {
    forall py | 0 <= py < a.height ensures a.cells[py] == b.cells[py] {
      forall px | 0 <= px < a.width ensures a.cells[py][px] == b.cells[py][px] {
        assert Get(a, px, py) == Get(b, px, py);
      }
    }
  }

  /** A pixel written and then written again keeps only the second colour. */
  lemma SetPixelOverwrites(s: Surface, x: int, y: int, c1: int, c2: int)
    requires Wf(s)
    ensures SetPixel(SetPixel(s, x, y, c1), x, y, c2) == SetPixel(s, x, y, c2)
  {
    SameCells(SetPixel(SetPixel(s, x, y, c1), x, y, c2), SetPixel(s, x, y, c2));
  }
}
