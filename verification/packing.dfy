/** The panel's pixel format: each cell becomes a 4-bit grey sample (`cell * 15` in 8-bit
    arithmetic, clipped to 15), and two horizontally adjacent samples share a byte, the even
    column in the high nibble. The two halves of a row are combined with numpy's broadcasting,
    which is what decides the outcome for odd widths. The shift and the bitwise or of two
    samples below 16 are written as `16 * hi + lo`, which they equal. */
module Packing {
  import opened Wrappers
  import opened Items
  import opened Surface
  import opened Arith

  /** A sample is a 4-bit grey level. */
  predicate IsSample(n: int) {
    0 <= n <= 15
  }

  /** `(cell * 15)` in `uint8`, then `clip(0, 15)`. */
  function Sample(v: Byte): (n: int)
    ensures IsSample(n)
    ensures v <= 1 ==> n == 15 * v
  {
    var p := (v * 15) % 256;
    if p > 15 then 15 else p
  }

  /** The samples of the even columns of a row: `img[y, ::2]`. */
  function Evens(row: seq<Byte>): (e: seq<int>)
    ensures |e| == (|row| + 1) / 2
    ensures forall k :: 0 <= k < |e| ==> e[k] == Sample(row[2 * k])
    decreases |row|
  {
    if |row| == 0 then [] else if |row| == 1 then [Sample(row[0])] else [Sample(row[0])] + Evens(row[2..])
  }

  /** The samples of the odd columns of a row: `img[y, 1::2]`. */
  function Odds(row: seq<Byte>): (o: seq<int>)
    ensures |o| == |row| / 2
    ensures forall k :: 0 <= k < |o| ==> o[k] == Sample(row[2 * k + 1])
    decreases |row|
  {
    if |row| <= 1 then [] else [Sample(row[1])] + Odds(row[2..])
  }

  /** numpy broadcasting of two lengths: equal, or one of them 1. */
  predicate Broadcastable(a: nat, b: nat) {
    a == b || a == 1 || b == 1
  }

  /** The broadcast length. */
  function Broadcast(a: nat, b: nat): nat {
    if a == b then a else if a == 1 then b else a
  }

  /** `(e << 4) | o` elementwise after broadcasting; a length-1 operand is repeated. */
  function Combine(e: seq<int>, o: seq<int>, n: nat): (r: seq<Byte>)
    requires Broadcastable(|e|, |o|) && n <= Broadcast(|e|, |o|)
    requires forall k :: 0 <= k < |e| ==> IsSample(e[k])
    requires forall k :: 0 <= k < |o| ==> IsSample(o[k])
    ensures |r| == n
    ensures forall k :: 0 <= k < n ==> r[k] == 16 * e[if |e| == 1 then 0 else k] + o[if |o| == 1 then 0 else k]
  {
    if n == 0 then []
    else
      var k := n - 1;
      Combine(e, o, k) + [16 * e[if |e| == 1 then 0 else k] + o[if |o| == 1 then 0 else k]]
  }

  /** The number of bytes a row of `width` cells packs into, when it packs at all. */
  function RowBytes(width: nat): nat {
    Broadcast((width + 1) / 2, width / 2)
  }

  /** One row, packed. */
  function PackRow(row: seq<Byte>): (r: seq<Byte>)
    requires Broadcastable((|row| + 1) / 2, |row| / 2)
    ensures |r| == RowBytes(|row|)
  {
    var e := Evens(row);
    var o := Odds(row);
    Combine(e, o, Broadcast(|e|, |o|))
  }

  /** `reshape(-1)`: the rows laid end to end. */
  function Flatten(rows: seq<seq<Byte>>): (r: seq<Byte>)
  {
    if |rows| == 0 then [] else Flatten(rows[..|rows| - 1]) + rows[|rows| - 1]
  }

  /** With rows of one length `n`, element `i` of the flattened rows is element `i mod n` of
      row `i div n`. */
  lemma {:induction false} FlattenIndex(rows: seq<seq<Byte>>, n: nat)
    requires forall j :: 0 <= j < |rows| ==> |rows[j]| == n
    ensures |Flatten(rows)| == |rows| * n
    ensures forall i :: 0 <= i < |Flatten(rows)| ==> 0 <= i / n < |rows| && Flatten(rows)[i] == rows[i / n][i % n]
  {
    if |rows| > 0 {
      var k := |rows| - 1;
      var front := rows[..k];
      FlattenIndex(front, n);
      var f := Flatten(front);
      var r := Flatten(rows);
      assert r == f + rows[k];
      forall i | 0 <= i < |r| ensures 0 <= i / n < |rows| && r[i] == rows[i / n][i % n] {
        if i < |f| {
          assert front[i / n] == rows[i / n];
        } else {
          DivModOf(k, n, i - |f|);
        }
      }
    }
  }

  /** The rows of a surface, each packed. */
  function PackedRows(s: Surface, k: nat): (rows: seq<seq<Byte>>)
    requires Wf(s) && k <= s.height && Broadcastable((s.width + 1) / 2, s.width / 2)
    ensures |rows| == k
    ensures forall j :: 0 <= j < k ==> rows[j] == PackRow(s.cells[j])
  {
    if k == 0 then [] else PackedRows(s, k - 1) + [PackRow(s.cells[k - 1])]
  }

  /** Packing a row of even width puts each pair of cells in one byte, the even one high. */
  lemma PackEvenRow(row: seq<Byte>)
    requires |row| % 2 == 0
    ensures |PackRow(row)| == |row| / 2
    ensures forall k :: 0 <= k < |row| / 2 ==> PackRow(row)[k] == 16 * Sample(row[2 * k]) + Sample(row[2 * k + 1])
  {
  }

  /** The OLED's `do_flush` image: the packed rows, row after row. Even widths give two cells
      per byte; width 1 and width 3 broadcast (an empty image, and two bytes a row sharing the
      middle sample); any other odd width is the broadcasting `ValueError`. */
  function Pack(s: Surface): (r: Result<seq<Byte>, Error>)
    requires Wf(s)
    ensures r.Err? <==> s.width % 2 == 1 && s.width >= 5
    ensures r.Err? ==> r.error == ValueError
    ensures s.width == 1 ==> r == Ok([])
    ensures s.width % 2 == 0 ==> r.Ok? && |r.value| == s.height * (s.width / 2)
    ensures s.width % 2 == 0 ==> forall i :: 0 <= i < |r.value| ==> s.width > 0 && EvenByte(s, r.value, i)
  {
    if !Broadcastable((s.width + 1) / 2, s.width / 2) then Err(ValueError)
    else
      var rows := PackedRows(s, s.height);
      FlattenIndex(rows, RowBytes(s.width));
      var r := Flatten(rows);
      if s.width % 2 == 0 then
        EvenBytes(s, rows, r);
        Ok(r)
      else Ok(r)
  }

  /** Byte `i` of the image of an even-width surface holds the cells of row `i div (w/2)` at
      columns `2 (i mod (w/2))` and the one after. */
  predicate EvenByte(s: Surface, r: seq<Byte>, i: int)
    requires Wf(s) && s.width % 2 == 0 && s.width > 0 && 0 <= i < |r|
  {
    var hw := s.width / 2;
    var y := i / hw;
    var k := i % hw;
    0 <= y < s.height && r[i] == 16 * Sample(Get(s, 2 * k, y)) + Sample(Get(s, 2 * k + 1, y))
  }

  lemma EvenBytes(s: Surface, rows: seq<seq<Byte>>, r: seq<Byte>)
    requires Wf(s) && s.width % 2 == 0
    requires |rows| == s.height && forall j :: 0 <= j < |rows| ==> rows[j] == PackRow(s.cells[j])
    requires |r| == s.height * (s.width / 2)
    requires s.width > 0 ==> forall i :: 0 <= i < |r| ==>
      0 <= i / (s.width / 2) < |rows| && i % (s.width / 2) < |rows[i / (s.width / 2)]| && r[i] == rows[i / (s.width / 2)][i % (s.width / 2)]
    ensures forall i :: 0 <= i < |r| ==> s.width > 0 && EvenByte(s, r, i)
  {
    var hw := s.width / 2;
    forall i | 0 <= i < |r| ensures s.width > 0 && EvenByte(s, r, i) {
      assert s.width > 0;
      var y := i / hw;
      PackEvenRow(s.cells[y]);
    }
  }

  /** The width-3 quirk: both bytes of a row carry the middle cell in their low nibble. */
  lemma WidthThreeSharesMiddle(s: Surface)
    requires Wf(s) && s.width == 3 && s.height > 0
    ensures Pack(s).Ok? && |Pack(s).value| == 2 * s.height
    ensures Pack(s).value[0] == 16 * Sample(Get(s, 0, 0)) + Sample(Get(s, 1, 0))
    ensures Pack(s).value[1] == 16 * Sample(Get(s, 2, 0)) + Sample(Get(s, 1, 0))
  {
    var rows := PackedRows(s, s.height);
    FlattenIndex(rows, 2);
    var r := Flatten(rows);
    assert Pack(s).value == r;
    assert r[1] == rows[0][1];
  }

  // ---------------------------------------------------------------------------------------
  // Reading an image back

  /** The cell a sample shows on a two-level display. */
  function Level(n: int): (b: Byte)
    ensures b <= 1
  {
    if n == 0 then 0 else 1
  }

  function HighNibble(b: Byte): int {
    b / 16
  }

  function LowNibble(b: Byte): int {
    b % 16
  }

  /** Cell (x, y) of an image of even width `width`: the high nibble of its byte for an even
      column, the low one for an odd column. */
  function UnpackCell(bytes: seq<Byte>, width: nat, x: nat, y: nat): (b: Byte)
    requires width % 2 == 0 && x < width && y * (width / 2) + x / 2 < |bytes|
    ensures b <= 1
  {
    var byte := bytes[y * (width / 2) + x / 2];
    Level(if x % 2 == 0 then HighNibble(byte) else LowNibble(byte))
  }

  /** Packing a black-and-white surface of even width loses nothing: every cell can be read
      back from the bytes. */
  lemma PackRoundTrip(s: Surface)
    requires Wf(s) && s.width % 2 == 0
    requires forall x, y :: InBounds(s, x, y) ==> Get(s, x, y) <= 1
    ensures Pack(s).Ok?
    ensures forall x, y :: InBounds(s, x, y) ==>
      y * (s.width / 2) + x / 2 < |Pack(s).value| && UnpackCell(Pack(s).value, s.width, x, y) == Get(s, x, y)
  {
    var r := Pack(s).value;
    forall x, y | InBounds(s, x, y)
      ensures y * (s.width / 2) + x / 2 < |r| && UnpackCell(r, s.width, x, y) == Get(s, x, y)
    {
      RoundTripCell(s, r, x, y);
    }
  }

  lemma RoundTripCell(s: Surface, r: seq<Byte>, x: int, y: int)
    requires Wf(s) && s.width % 2 == 0 && InBounds(s, x, y) && Get(s, 2 * (x / 2), y) <= 1 && Get(s, 2 * (x / 2) + 1, y) <= 1
    requires |r| == s.height * (s.width / 2)
    requires forall i :: 0 <= i < |r| ==> s.width > 0 && EvenByte(s, r, i)
    ensures y * (s.width / 2) + x / 2 < |r| && UnpackCell(r, s.width, x, y) == Get(s, x, y)
  {
    var hw := s.width / 2;
    var i := y * hw + x / 2;
    DivModOf(y, hw, x / 2);
    CellIndexBelow(y, hw, x / 2, s.height);
    assert EvenByte(s, r, i);
    Nibbles(r[i], Sample(Get(s, 2 * (x / 2), y)), Sample(Get(s, 2 * (x / 2) + 1, y)));
  }

  lemma CellIndexBelow(y: int, n: int, d: int, h: int)
    requires 0 <= y < h && 0 <= d < n
    ensures y * n + d < h * n
  {
    ScaleMonotone(y + 1, h, n);
  }

  /** The two samples of a byte read back as its nibbles. */
  lemma Nibbles(b: Byte, hi: int, lo: int)
    requires IsSample(hi) && IsSample(lo) && b == 16 * hi + lo
    ensures HighNibble(b) == hi && LowNibble(b) == lo
  {
    DivModOf(hi, 16, lo);
  }
}
