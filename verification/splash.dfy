/** The boot splash: a small logo centred on the panel, written straight into the panel's
    byte buffer two pixels per byte, the even column in the high nibble. The panel's size comes
    from its driver and is a parameter here. The nibble writes `(pv << 4) | (b & 0x0F)` and
    `(b & 0xF0) | pv` of a sample `pv` below 16 into a byte `b` are written as
    `16 * pv + b % 16` and `16 * (b / 16) + pv`, which they equal. */
module Splash {
  import opened Surface
  import opened Arith
  import Packing

  /** Where a logo goes: its cells, its size, the panel's size and the logo's top-left corner
      on the panel. */
  datatype Layout = Layout(logo: seq<seq<Byte>>, lw: nat, lh: nat, width: nat, height: nat, xo: nat, yo: nat)

  /** A logo of `lw` by `lh` cells that fits the panel, centred with the offsets
      `(width - lw) // 2` and `(height - lh) // 2`, on a panel of even width. */
  predicate Centred(l: Layout) {
    && |l.logo| == l.lh && (forall r :: 0 <= r < l.lh ==> |l.logo[r]| == l.lw)
    && l.lw <= l.width && l.lh <= l.height && l.width % 2 == 0
    && l.xo == (l.width - l.lw) / 2 && l.yo == (l.height - l.lh) / 2
  }

  predicate InLogo(l: Layout, px: int, py: int) {
    l.yo <= py < l.yo + l.lh && l.xo <= px < l.xo + l.lw
  }

  /** The sample the splash puts at panel pixel (px, py): 0x0F on a logo cell equal to 1,
      0 anywhere else. */
  function Target(l: Layout, px: int, py: int): (n: int)
    requires Centred(l)
    ensures n == 0 || n == 15
  {
    if InLogo(l, px, py) && l.logo[py - l.yo][px - l.xo] == 1 then 15 else 0
  }

  /** Logo pixel (px, py) has been written once the loops have passed it: its logo row is
      before row `y`, or it is in row `y` before column `x`. */
  predicate Written(l: Layout, px: int, py: int, y: int, x: int) {
    InLogo(l, px, py) && (py - l.yo < y || (py - l.yo == y && px - l.xo < x))
  }

  function Current(l: Layout, px: int, py: int, y: int, x: int): (n: int)
    requires Centred(l)
    ensures n == 0 || n == 15
  {
    if Written(l, px, py, y, x) then Target(l, px, py) else 0
  }

  /** Byte `i` of the buffer after the loops reached (y, x): for the first `height * width / 2`
      bytes, the current samples of its two pixels; zero beyond. */
  function Expected(l: Layout, i: int, y: int, x: int): int
    requires Centred(l) && 0 <= i && l.width > 0
  {
    var hw := l.width / 2;
    if i < l.height * hw then 16 * Current(l, 2 * (i % hw), i / hw, y, x) + Current(l, 2 * (i % hw) + 1, i / hw, y, x)
    else 0
  }

  predicate Inv(l: Layout, buf: seq<Byte>, y: int, x: int)
    requires Centred(l) && l.width > 0
  {
    |buf| == l.width * l.height && forall i :: 0 <= i < |buf| ==> buf[i] == Expected(l, i, y, x)
  }

  /** The loops of the splash script over a centred logo: each logo pixel's sample goes into
      the high nibble of byte `(sy * width + sx) // 2` for an even panel column, the low nibble
      for an odd one, leaving the other nibble as it was. */
  method PlaceLogo(l: Layout) returns (buf: seq<Byte>)
    requires Centred(l) && l.width > 0
    ensures |buf| == l.width * l.height
    ensures forall i :: 0 <= i < |buf| ==> buf[i] == Expected(l, i, l.lh, 0)
  {
    buf := Repeat(0, l.width * l.height);
    var y := 0;
    while y < l.lh
      invariant 0 <= y <= l.lh
      invariant Inv(l, buf, y, 0)
    {
      var x := 0;
      while x < l.lw
        invariant 0 <= x <= l.lw
        invariant Inv(l, buf, y, x)
      {
        buf := PlacePixel(l, buf, y, x);
        x := x + 1;
      }
      RowDone(l, buf, y);
      y := y + 1;
    }
  }

  /** One pass of the inner loop: the sample of logo cell (x, y) written into its nibble. */
  method PlacePixel(l: Layout, buf: seq<Byte>, y: int, x: int) returns (after: seq<Byte>)
    requires Centred(l) && l.width > 0 && 0 <= y < l.lh && 0 <= x < l.lw
    requires Inv(l, buf, y, x)
    ensures Inv(l, after, y, x + 1)
  {
    var pv := if l.logo[y][x] == 1 then 15 else 0;
    var sx := x + l.xo;
    var sy := y + l.yo;
    var index := (sy * l.width + sx) / 2;
    WriteIndex(l, sx, sy);
    if sx % 2 == 0 {
      after := buf[index := 16 * pv + buf[index] % 16];
    } else {
      after := buf[index := 16 * (buf[index] / 16) + pv];
    }
    forall i | 0 <= i < |after| ensures after[i] == Expected(l, i, y, x + 1) {
      ByteStep(l, buf, after, y, x, i);
    }
  }

  /** The byte a panel pixel lands in. */
  lemma WriteIndex(l: Layout, sx: int, sy: int)
    requires Centred(l) && 0 <= sx < l.width && 0 <= sy < l.height
    ensures (sy * l.width + sx) / 2 == sy * (l.width / 2) + sx / 2
    ensures sy * (l.width / 2) + sx / 2 < l.height * (l.width / 2) <= l.width * l.height
  {
    HalfIndex(sy, l.width, sx);
    Packing.CellIndexBelow(sy, l.width / 2, sx / 2, l.height);
    ScaleMonotone(l.width / 2, l.width, l.height);
  }

  /** Pixel `sx` of row `sy` of an even-width image is half-byte `sy * width + sx`. */
  lemma HalfIndex(sy: int, width: int, sx: int)
    requires width % 2 == 0 && 0 <= sx < width
    ensures (sy * width + sx) / 2 == sy * (width / 2) + sx / 2
  {
    var hw := width / 2;
    assert sy * width == 2 * (sy * hw);
    assert sy * width + sx == 2 * (sy * hw + sx / 2) + sx % 2;
    DivModOf(sy * hw + sx / 2, 2, sx % 2);
  }

  /** Passing logo cell (x, y) writes its target at its panel pixel and nowhere else. */
  lemma CurrentStep(l: Layout, px: int, py: int, y: int, x: int)
    requires Centred(l) && 0 <= y < l.lh && 0 <= x < l.lw
    ensures Current(l, px, py, y, x + 1) ==
      if px == x + l.xo && py == y + l.yo then (if l.logo[y][x] == 1 then 15 else 0) else Current(l, px, py, y, x)
  {
  }

  /** Byte `i` after writing logo cell (x, y): the written byte takes the new sample in the
      pixel's nibble and keeps the other, and every other byte is unchanged. */
  lemma {:induction false} ByteStep(l: Layout, before: seq<Byte>, after: seq<Byte>, y: int, x: int, i: int)
    requires Centred(l) && l.width > 0 && 0 <= y < l.lh && 0 <= x < l.lw
    requires Inv(l, before, y, x)
    requires var sx := x + l.xo; var sy := y + l.yo;
      var index := sy * (l.width / 2) + sx / 2;
      var pv := if l.logo[y][x] == 1 then 15 else 0;
      && index < l.height * (l.width / 2) <= |before|
      && after == before[index := if sx % 2 == 0 then 16 * pv + before[index] % 16 else 16 * (before[index] / 16) + pv]
    requires 0 <= i < |after|
    ensures after[i] == Expected(l, i, y, x + 1)
  {
    var hw := l.width / 2;
    var sx := x + l.xo;
    var sy := y + l.yo;
    var index := sy * hw + sx / 2;
    var py := i / hw;
    var k := i % hw;
    SplitIndex(i, hw, sy, sx / 2);
    CurrentStep(l, 2 * k, py, y, x);
    CurrentStep(l, 2 * k + 1, py, y, x);
    assert before[i] == Expected(l, i, y, x);
    if i == index {
      var c0 := Current(l, 2 * k, py, y, x);
      var c1 := Current(l, 2 * k + 1, py, y, x);
      assert before[i] == 16 * c0 + c1;
      Packing.Nibbles(before[i], c0, c1);
    }
  }

  /** Finishing a logo row is starting the next one. */
  lemma RowDone(l: Layout, buf: seq<Byte>, y: int)
    requires Centred(l) && l.width > 0 && Inv(l, buf, y, l.lw)
    ensures Inv(l, buf, y + 1, 0)
  {
    forall i | 0 <= i < |buf| ensures Expected(l, i, y, l.lw) == Expected(l, i, y + 1, 0) {
    }
  }

  // ---------------------------------------------------------------------------------------
  // The splash screen as a drawn surface

  /** The logo drawn on a blank surface of the panel's size at the centring offsets. */
  function Screen(l: Layout): (s: Surface)
    requires Centred(l)
    ensures Wf(s) && s.width == l.width && s.height == l.height
    ensures forall px, py :: InBounds(s, px, py) ==>
      Get(s, px, py) == if InLogo(l, px, py) then l.logo[py - l.yo][px - l.xo] else 0
  {
    SetBlock(Blank(l.width, l.height), l.xo, l.yo, l.logo)
  }

  /** The placed logo is the packed image of the logo drawn on a blank surface, and the second
      half of the buffer stays zero: the script allocates a byte per pixel where the panel
      reads one per two pixels. */
  lemma PlacedIsPacked(l: Layout, buf: seq<Byte>)
    requires Centred(l) && l.width > 0
    requires forall r, c :: 0 <= r < l.lh && 0 <= c < l.lw ==> l.logo[r][c] <= 1
    requires |buf| == l.width * l.height && forall i :: 0 <= i < |buf| ==> buf[i] == Expected(l, i, l.lh, 0)
    ensures l.height * (l.width / 2) <= |buf|
    ensures Packing.Pack(Screen(l)).Ok?
    ensures buf[..l.height * (l.width / 2)] == Packing.Pack(Screen(l)).value
    ensures forall i :: l.height * (l.width / 2) <= i < |buf| ==> buf[i] == 0
  {
    ScreenPacks(l);
    var r := Packing.Pack(Screen(l)).value;
    PrefixIsPacked(l, buf, r);
    TailIsZero(l, buf);
  }

  lemma ScreenPacks(l: Layout)
    requires Centred(l) && l.width > 0
    ensures l.height * (l.width / 2) <= l.width * l.height
    ensures Packing.Pack(Screen(l)).Ok? && |Packing.Pack(Screen(l)).value| == l.height * (l.width / 2)
    ensures forall i :: 0 <= i < |Packing.Pack(Screen(l)).value| ==> l.width > 0 && Packing.EvenByte(Screen(l), Packing.Pack(Screen(l)).value, i)
  {
    ScaleMonotone(l.width / 2, l.width, l.height);
  }

  lemma PrefixIsPacked(l: Layout, buf: seq<Byte>, r: seq<Byte>)
    requires Centred(l) && l.width > 0 && Wf(Screen(l))
    requires forall r, c :: 0 <= r < l.lh && 0 <= c < l.lw ==> l.logo[r][c] <= 1
    requires |r| <= |buf| && forall i :: 0 <= i < |buf| ==> buf[i] == Expected(l, i, l.lh, 0)
    requires forall i :: 0 <= i < |r| ==> l.width > 0 && Packing.EvenByte(Screen(l), r, i)
    ensures buf[..|r|] == r
  {
    forall i | 0 <= i < |r| ensures buf[i] == r[i] {
      PackedByte(l, buf, r, i);
    }
  }

  lemma TailIsZero(l: Layout, buf: seq<Byte>)
    requires Centred(l) && l.width > 0
    requires forall i :: 0 <= i < |buf| ==> buf[i] == Expected(l, i, l.lh, 0)
    ensures forall i :: l.height * (l.width / 2) <= i < |buf| ==> buf[i] == 0
  {
  }

  lemma PackedByte(l: Layout, buf: seq<Byte>, r: seq<Byte>, i: int)
    requires Centred(l) && l.width > 0
    requires forall r, c :: 0 <= r < l.lh && 0 <= c < l.lw ==> l.logo[r][c] <= 1
    requires 0 <= i < |r| && 0 <= i < |buf| && buf[i] == Expected(l, i, l.lh, 0)
    requires Packing.EvenByte(Screen(l), r, i)
    ensures buf[i] == r[i]
  {
    var hw := l.width / 2;
    var py := i / hw;
    var k := i % hw;
    var s := Screen(l);
    assert r[i] == 16 * Packing.Sample(Get(s, 2 * k, py)) + Packing.Sample(Get(s, 2 * k + 1, py));
    RowBelow(i, hw, l.height);
    SampleIsTarget(l, 2 * k, py);
    SampleIsTarget(l, 2 * k + 1, py);
  }

  /** A byte whose row is inside the image is inside the image. */
  lemma RowBelow(i: int, hw: int, h: int)
    requires hw > 0 && 0 <= i && i / hw < h
    ensures i < h * hw
  {
    SplitIndex(i, hw, i / hw, i % hw);
    Packing.CellIndexBelow(i / hw, hw, i % hw, h);
  }

  /** The sample of a drawn pixel is what the splash writes for it. */
  lemma {:induction false} SampleIsTarget(l: Layout, px: int, py: int)
    requires Centred(l) && 0 <= px < l.width && 0 <= py < l.height
    requires forall r, c :: 0 <= r < l.lh && 0 <= c < l.lw ==> l.logo[r][c] <= 1
    ensures Packing.Sample(Get(Screen(l), px, py)) == Current(l, px, py, l.lh, 0) == Target(l, px, py)
  {
  }
}

/** The splash script itself: the camera logo on a panel of the driver's size. */
module SplashScreen {
  import opened Surface
  import opened Splash
  import Packing

  /** The camera logo, 21 columns by 17 rows. */
  function Logo(): seq<seq<Byte>> {
  [
    [0,0,1,1,1,1,1,1,0,0,0,0,0,0,0,0,0,0,0,0,0],
    [0,0,1,1,1,1,1,1,0,0,0,0,0,0,0,0,0,0,0,0,0],
    [0,0,1,1,1,1,1,1,0,0,0,0,0,0,0,0,0,0,0,0,0],
    [0,1,1,1,1,1,1,1,1,1,1,1,1,1,1,1,1,1,1,1,0],
    [1,1,1,1,1,1,1,1,1,1,1,1,1,1,1,1,1,1,1,1,1],
    [1,1,1,1,1,1,1,1,1,1,1,1,1,1,1,1,1,1,1,1,1],
    [1,1,0,0,0,0,0,0,0,0,0,1,1,0,0,0,0,1,1,1,1],
    [1,1,0,0,0,0,0,0,0,0,1,1,0,1,1,1,1,0,1,1,1],
    [1,1,1,1,1,1,1,1,1,1,1,0,1,1,0,0,1,1,0,1,1],
    [1,1,0,0,0,0,0,0,0,0,1,0,1,0,1,0,0,1,0,1,1],
    [1,1,0,0,0,0,0,0,0,0,1,0,1,0,0,0,0,1,0,1,1],
    [1,1,1,1,1,1,1,1,1,1,1,0,1,1,0,0,1,1,0,1,1],
    [1,1,0,0,0,0,0,0,0,0,1,1,0,1,1,1,1,0,1,1,1],
    [1,1,0,0,0,0,0,0,0,0,0,1,1,0,0,0,0,1,1,1,1],
    [1,1,1,1,1,1,1,1,1,1,1,1,1,1,1,1,1,1,1,1,1],
    [1,1,1,1,1,1,1,1,1,1,1,1,1,1,1,1,1,1,1,1,1],
    [1,1,1,1,1,1,1,1,1,1,1,1,1,1,1,1,1,1,1,1,1]
  ]
  }

  /** The splash script: the camera logo centred on a panel of even width at least 21 and
      height at least 17; the buffer's first half is the packed image of the logo on a blank
      screen and its second half is zero. */
  method SplashBuffer(width: nat, height: nat) returns (buf: seq<Byte>)
    requires width % 2 == 0 && 21 <= width && 17 <= height
    ensures |buf| == width * height
    ensures var l := Layout(Logo(), 21, 17, width, height, (width - 21) / 2, (height - 17) / 2);
      && Centred(l)
      && height * (width / 2) <= |buf|
      && Packing.Pack(Screen(l)).Ok?
      && buf[..height * (width / 2)] == Packing.Pack(Screen(l)).value
      && forall i :: height * (width / 2) <= i < |buf| ==> buf[i] == 0
  {
    LogoShape();
    var l := Layout(Logo(), 21, 17, width, height, (width - 21) / 2, (height - 17) / 2);
    buf := PlaceLogo(l);
    PlacedIsPacked(l, buf);
  }

  /** The logo is 21 by 17 cells of 0 and 1. */
  lemma LogoShape()
    ensures |Logo()| == 17 && forall r :: 0 <= r < 17 ==> |Logo()[r]| == 21
    ensures forall r, c :: 0 <= r < 17 && 0 <= c < 21 ==> Logo()[r][c] <= 1
  {
  }
}
