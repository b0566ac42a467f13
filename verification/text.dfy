/** Text on the pixel surface: fitting a string to a width of characters, padding it on the
    right, centring it or aligning it right, and rendering it as a block of glyphs, one advance
    (the glyph width plus a blank column) per character. */
module Text {
  import opened Surface
  import opened Arith
  import Font

  /** `" " * n`: `n` blanks, none when `n` is not positive. */
  function Blanks(n: int): (s: string)
    ensures |s| == if n > 0 then n else 0
    ensures forall j :: 0 <= j < |s| ==> s[j] == ' '
  {
    if n <= 0 then "" else Blanks(n - 1) + " "
  }

  /** `_fit_text`: the text cut with the slice `text[:width]` when it is longer than `width`.
      A negative width counts from the end, so it drops that many characters instead. */
  function FitText(text: string, width: int): (t: string)
    ensures |t| <= |text| && t == text[..|t|]
    ensures width >= 0 ==> |t| == if |text| <= width then |text| else width
    ensures width < 0 ==> |t| == if |text| + width > 0 then |text| + width else 0
  {
    if |text| > width then
      if width >= 0 then text[..width]
      else if |text| + width > 0 then text[..|text| + width]
      else ""
    else text
  }

  /** `draw_padded_text`'s string: the fitted text followed by blanks up to the width. */
  function Padded(text: string, w: int): (r: string)
    ensures var t := FitText(text, w);
      && |r| == (if w >= 0 then w else |t|)
      && forall j :: 0 <= j < |r| ==> r[j] == if j < |t| then t[j] else ' '
  {
    var t := FitText(text, w);
    t + Blanks(w - |t|)
  }

  /** `draw_right_aligned_text`'s string: blanks up to the width, then the fitted text. */
  function RightAligned(text: string, w: int): (r: string)
    ensures var t := FitText(text, w);
      var lead := if w >= 0 then w - |t| else 0;
      && |r| == lead + |t|
      && forall j :: 0 <= j < |r| ==> r[j] == if j < lead then ' ' else t[j - lead]
  {
    var t := FitText(text, w);
    Blanks(w - |t|) + t
  }

  /** The number of blanks before a centred text of length `len` in `w` characters. */
  function Lead(w: int, len: int): int {
    if w >= 0 then (w - len) / 2 else 0
  }

  /** `draw_centered_text`'s string: the fitted text with half the spare room (rounded down)
      before it and the rest after it. */
  function Centered(text: string, w: int): (r: string)
    ensures var t := FitText(text, w);
      var lead := Lead(w, |t|);
      && |r| == (if w >= 0 then w else |t|)
      && forall j :: 0 <= j < |r| ==> r[j] == if lead <= j < lead + |t| then t[j - lead] else ' '
    ensures var t := FitText(text, w);
      w >= 0 ==> 0 <= Lead(w, |t|) && |r| - (Lead(w, |t|) + |t|) - Lead(w, |t|) in {0, 1}
  {
    var t := FitText(text, w);
    var before := Floor2(w - |t|);
    var after := w - (before + |t|);
    Blanks(before) + t + Blanks(after)
  }

  /** `math.floor(n / 2)`. */
  function Floor2(n: int): (q: int)
    ensures 2 * q <= n < 2 * q + 2
  {
    n / 2
  }

  /** Cutting to a width that is not negative twice cuts once. */
  lemma FitTextIdempotent(text: string, w: int)
    requires w >= 0
    ensures FitText(FitText(text, w), w) == FitText(text, w)
    ensures |FitText(text, w)| <= w
  {
  }

  /** A text that fills the width is shown the same way by all three alignments. */
  lemma FullTextAlignsAlike(text: string, w: int)
    requires 0 <= w <= |text|
    ensures Padded(text, w) == text[..w]
    ensures RightAligned(text, w) == text[..w]
    ensures Centered(text, w) == text[..w]
  {
  }

  // ---------------------------------------------------------------------------------------
  // Rendering

  /** The horizontal distance between consecutive characters. */
  function Advance(f: Font.Font): (a: nat)
    requires Font.Wf(f)
    ensures a == Font.Width(f) + 1
  {
    Font.Width(f) + 1
  }

  /** Cell (r, d) of character `ch`'s advance box: its glyph's cell, blank in the gap column
      and for a character the font does not have. */
  function CharCell(f: Font.Font, ch: char, r: int, d: int): (b: Byte)
    requires Font.Wf(f) && 0 <= r < Font.Height(f) && 0 <= d
    ensures b <= 1
  {
    if d < Font.Width(f) && Font.HasChar(f, ch as int) then Font.GetChar(f, ch as int)[r][d] else 0
  }

  /** Cell (r, c) of a text's box, read from the character whose advance box holds column `c`. */
  function TextCell(f: Font.Font, text: string, r: int, c: int): (b: Byte)
    requires Font.Wf(f) && 0 <= r < Font.Height(f) && 0 <= c
    ensures b <= 1
  {
    var k := c / Advance(f);
    if k < |text| then CharCell(f, text[k], r, c % Advance(f)) else 0
  }

  /** Row `r` of one character's advance box. */
  function CharRow(f: Font.Font, ch: char, r: int): (row: seq<Byte>)
    requires Font.Wf(f) && 0 <= r < Font.Height(f)
    ensures |row| == Advance(f)
    ensures forall d :: 0 <= d < |row| ==> row[d] == CharCell(f, ch, r, d)
  {
    if Font.HasChar(f, ch as int) then Font.GetChar(f, ch as int)[r] + [0] else Repeat(0, Advance(f))
  }

  /** Row `r` of the text's box, one character box after the other. */
  function TextRow(f: Font.Font, text: string, r: int): (row: seq<Byte>)
    requires Font.Wf(f) && 0 <= r < Font.Height(f)
    ensures |row| == |text| * Advance(f)
    ensures forall c :: 0 <= c < |row| ==> row[c] == TextCell(f, text, r, c)
    decreases |text|
  {
    if |text| == 0 then []
    else
      var n := |text| - 1;
      var front := TextRow(f, text[..n], r);
      var back := CharRow(f, text[n], r);
      AppendCharRow(f, text, r, front, back);
      front + back
  }

  lemma AppendCharRow(f: Font.Font, text: string, r: int, front: seq<Byte>, back: seq<Byte>)
    requires Font.Wf(f) && 0 <= r < Font.Height(f) && |text| > 0
    requires var n := |text| - 1;
      && |front| == n * Advance(f)
      && (forall c :: 0 <= c < |front| ==> front[c] == TextCell(f, text[..n], r, c))
      && |back| == Advance(f)
      && (forall d :: 0 <= d < |back| ==> back[d] == CharCell(f, text[n], r, d))
    ensures var row := front + back;
      |row| == |text| * Advance(f) && forall c :: 0 <= c < |row| ==> row[c] == TextCell(f, text, r, c)
  {
    var n := |text| - 1;
    var a := Advance(f);
    var row := front + back;
    assert |row| == |text| * a;
    forall c | 0 <= c < |row| ensures row[c] == TextCell(f, text, r, c) {
      if c < |front| {
        BlockBelow(c, n, a);
        assert text[..n][c / a] == text[c / a];
      } else {
        DivModOf(n, a, c - n * a);
      }
    }
  }

  /** What the text's cell becomes on the display: unchanged for colour 1, inverted for any
      other colour. */
  function Tone(col: int, b: Byte): (t: Byte)
    requires b <= 1
    ensures t <= 1 && (t == b <==> col == 1)
  {
    if col == 1 then b else 1 - b
  }

  function ToneRow(row: seq<Byte>, col: int): (o: seq<Byte>)
    requires forall c :: 0 <= c < |row| ==> row[c] <= 1
    ensures |o| == |row| && forall c :: 0 <= c < |row| ==> o[c] == Tone(col, row[c])
  {
    if |row| == 0 then [] else ToneRow(row[..|row| - 1], col) + [Tone(col, row[|row| - 1])]
  }

  /** The first `k` rows of the toned text box. */
  function TextRows(f: Font.Font, text: string, col: int, k: nat): (b: seq<seq<Byte>>)
    requires Font.Wf(f) && k <= Font.Height(f)
    ensures |b| == k
    ensures forall r :: 0 <= r < k ==> |b[r]| == |text| * Advance(f)
    ensures forall r, c :: 0 <= r < k && 0 <= c < |text| * Advance(f) ==> b[r][c] == Tone(col, TextCell(f, text, r, c))
  {
    if k == 0 then []
    else TextRows(f, text, col, k - 1) + [ToneRow(TextRow(f, text, k - 1), col)]
  }

  /** `draw_text` without rotation: the toned box of the text, font-height rows and an advance
      per character, written with its top-left corner at (x, y) and cut at the display's
      edges. */
  function DrawText(s: Surface, f: Font.Font, text: string, x: int, y: int, col: int): (r: Surface)
    requires Wf(s) && Font.Wf(f) && x >= 0 && y >= 0
    ensures Wf(r) && r.width == s.width && r.height == s.height
    ensures forall px, py :: InBounds(s, px, py) ==>
      Get(r, px, py) ==
        if y <= py < y + Font.Height(f) && x <= px < x + |text| * Advance(f)
        then Tone(col, TextCell(f, text, py - y, px - x))
        else Get(s, px, py)
  {
    var block := TextRows(f, text, col, Font.Height(f));
    SetBlock(s, x, y, block)
  }

  /** `draw_padded_text`, `draw_centered_text` and `draw_right_aligned_text` without rotation:
      the text fitted and aligned in `w` characters, then drawn. */
  function DrawPaddedText(s: Surface, f: Font.Font, text: string, x: int, y: int, w: int, col: int): (r: Surface)
    requires Wf(s) && Font.Wf(f) && x >= 0 && y >= 0
  {
    DrawText(s, f, Padded(text, w), x, y, col)
  }

  function DrawCenteredText(s: Surface, f: Font.Font, text: string, x: int, y: int, w: int, col: int): (r: Surface)
    requires Wf(s) && Font.Wf(f) && x >= 0 && y >= 0
  {
    DrawText(s, f, Centered(text, w), x, y, col)
  }

  function DrawRightAlignedText(s: Surface, f: Font.Font, text: string, x: int, y: int, w: int, col: int): (r: Surface)
    requires Wf(s) && Font.Wf(f) && x >= 0 && y >= 0
  {
    DrawText(s, f, RightAligned(text, w), x, y, col)
  }

  /** Aligned text always covers its whole box of `w` characters, so whatever was drawn there
      before is overwritten: two displays of one size agree on the box afterwards, and each
      keeps its own cells outside it. */
  lemma AlignedTextOverwritesBox(s1: Surface, s2: Surface, f: Font.Font, text: string, x: int, y: int, w: int, col: int)
    requires Wf(s1) && Wf(s2) && s1.width == s2.width && s1.height == s2.height
    requires Font.Wf(f) && x >= 0 && y >= 0 && w >= 0
    ensures forall px, py :: InBounds(s1, px, py) && y <= py < y + Font.Height(f) && x <= px < x + w * Advance(f) ==>
      && Get(DrawPaddedText(s1, f, text, x, y, w, col), px, py) == Get(DrawPaddedText(s2, f, text, x, y, w, col), px, py)
      && Get(DrawCenteredText(s1, f, text, x, y, w, col), px, py) == Get(DrawCenteredText(s2, f, text, x, y, w, col), px, py)
      && Get(DrawRightAlignedText(s1, f, text, x, y, w, col), px, py) == Get(DrawRightAlignedText(s2, f, text, x, y, w, col), px, py)
    ensures forall px, py :: InBounds(s1, px, py) && !(y <= py < y + Font.Height(f) && x <= px < x + w * Advance(f)) ==>
      && Get(DrawPaddedText(s1, f, text, x, y, w, col), px, py) == Get(s1, px, py)
      && Get(DrawCenteredText(s1, f, text, x, y, w, col), px, py) == Get(s1, px, py)
      && Get(DrawRightAlignedText(s1, f, text, x, y, w, col), px, py) == Get(s1, px, py)
  {
    assert |Padded(text, w)| == w && |Centered(text, w)| == w && |RightAligned(text, w)| == w;
  }
}
