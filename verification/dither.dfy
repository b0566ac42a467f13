/** Ordered (Bayer) dithering of a grey image to the display's two levels. The source compares
    `p / 255` with `t / 64` in single precision, for a pixel `p` and the 8x8 Bayer threshold
    `t`; since 255 and 64 are coprime the two fractions are equal only when p = t = 0, where
    both comparisons are false, and otherwise they are at least 1/16320 apart, far more than
    the rounding, so the exact integer comparison `64 p > 255 t` decides the same cell. */
module Dither {
  import opened Surface

  /** The 8x8 Bayer matrix, in 64ths. */
  const Bayer: seq<seq<int>> := [
    [0, 48, 12, 60, 3, 51, 15, 63],
    [32, 16, 44, 28, 35, 19, 47, 31],
    [8, 56, 4, 52, 11, 59, 7, 55],
    [40, 24, 36, 20, 43, 27, 39, 23],
    [2, 50, 14, 62, 1, 49, 13, 61],
    [34, 18, 46, 30, 33, 17, 45, 29],
    [10, 58, 6, 54, 9, 57, 5, 53],
    [42, 26, 38, 22, 41, 25, 37, 21]
  ]

  /** The threshold of cell (x, y): the Bayer matrix tiled over the image. */
  function Threshold(x: nat, y: nat): (t: int)
    ensures 0 <= t < 64
  {
    BayerRange(y % 8, x % 8);
    Bayer[y % 8][x % 8]
  }

  lemma BayerRange(i: nat, j: nat)
    requires i < 8 && j < 8
    ensures |Bayer| == 8 && |Bayer[i]| == 8 && 0 <= Bayer[i][j] < 64
  {
  }

  /** A grey image: rows of one width. */
  predicate IsImage(img: seq<seq<Byte>>, width: nat) {
    forall y :: 0 <= y < |img| ==> |img[y]| == width
  }

  /** The cell is lit before any inversion: the pixel is brighter than its threshold. */
  predicate Above(p: Byte, x: nat, y: nat) {
    64 * p > 255 * Threshold(x, y)
  }

  /** One output cell: 1 above the threshold, inverted when `invert` is set. */
  function Cell(p: Byte, x: nat, y: nat, invert: bool): (b: Byte)
    ensures b <= 1 && (b == 1 <==> Above(p, x, y) != invert)
  {
    var out := if Above(p, x, y) then 1 else 0;
    if invert then 1 - out else out
  }

  function DitherRow(row: seq<Byte>, y: nat, invert: bool): (r: seq<Byte>)
    ensures |r| == |row|
    ensures forall x :: 0 <= x < |row| ==> r[x] == Cell(row[x], x, y, invert)
  {
    if |row| == 0 then [] else DitherRow(row[..|row| - 1], y, invert) + [Cell(row[|row| - 1], |row| - 1, y, invert)]
  }

  /** `_ordered_dither`: the image's shape, with each pixel replaced by its cell. */
  function Dithered(img: seq<seq<Byte>>, width: nat, invert: bool): (r: seq<seq<Byte>>)
    requires IsImage(img, width)
    ensures |r| == |img| && IsImage(r, width)
    ensures forall y, x :: 0 <= y < |img| && 0 <= x < width ==> r[y][x] <= 1 && (r[y][x] == 1 <==> Above(img[y][x], x, y) != invert)
  {
    if |img| == 0 then []
    else
      var n := |img| - 1;
      var front := Dithered(img[..n], width, invert);
      assert forall y :: 0 <= y < n ==> img[..n][y] == img[y];
      front + [DitherRow(img[n], n, invert)]
  }

  /** With the default inversion, cell (x, y) is lit exactly when `64 p <= 255 t`. */
  lemma DefaultInverts(img: seq<seq<Byte>>, width: nat)
    requires IsImage(img, width)
    ensures forall y, x :: 0 <= y < |img| && 0 <= x < width ==>
      (Dithered(img, width, true)[y][x] == 1 <==> 64 * img[y][x] <= 255 * Threshold(x, y))
  {
  }

  /** A black image lights every cell under the default inversion; a white one lights none. */
  lemma BlackAndWhite(img: seq<seq<Byte>>, width: nat, v: Byte)
    requires IsImage(img, width) && (v == 0 || v == 255)
    requires forall y, x :: 0 <= y < |img| && 0 <= x < width ==> img[y][x] == v
    ensures forall y, x :: 0 <= y < |img| && 0 <= x < width ==>
      Dithered(img, width, true)[y][x] == if v == 0 then 1 else 0
  {
  }

  /** Without inversion, a brighter pixel never gives a darker cell, and the same grey gives
      the same cell eight rows or columns further on. */
  lemma MonotoneAndPeriodic(p: Byte, q: Byte, x: nat, y: nat)
    requires p <= q
    ensures Cell(p, x, y, false) <= Cell(q, x, y, false)
    ensures Cell(p, x + 8, y, false) == Cell(p, x, y, false)
    ensures Cell(p, x, y + 8, false) == Cell(p, x, y, false)
  {
    assert (x + 8) % 8 == x % 8 && (y + 8) % 8 == y % 8;
  }

  /** `draw_image` in ordered mode, for an image already at its final size: the dithered image
      written at (x, y), cut at the display's edges. */
  function DrawOrdered(s: Surface, img: seq<seq<Byte>>, width: nat, x: int, y: int): (r: Surface)
    requires Wf(s) && x >= 0 && y >= 0 && IsImage(img, width)
    ensures Wf(r) && r.width == s.width && r.height == s.height
    ensures forall px, py :: InBounds(s, px, py) ==>
      Get(r, px, py) ==
        if y <= py < y + |img| && x <= px < x + width
        then Cell(img[py - y][px - x], px - x, py - y, true)
        else Get(s, px, py)
  {
    var mono := Dithered(img, width, true);
    SetBlock(s, x, y, mono)
  }
}
