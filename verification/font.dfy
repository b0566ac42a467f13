/** The monospaced bitmap fonts: a table of glyphs and a character map from the printable
    codes 32.. to glyph indices. The literal glyph bitmaps are a parameter of the model; the two
    character maps are the ones the display's fonts use. */
module Font {
  import opened Surface

  /** `rows[r][c]` is the cell in row `r`, column `c` of one character. */
  type Glyph = seq<seq<Byte>>

  /** `charMap[code - 32]` is the glyph index of character `code`. */
  datatype Font = Font(glyphs: seq<Glyph>, charMap: seq<int>)

  /** The first code a character map covers. */
  const FirstCode := 32

  /** A usable font: at least one glyph, every glyph of one size with 0/1 cells, and every map
      entry naming a glyph. */
  predicate Wf(f: Font) {
    && |f.glyphs| > 0 && |f.glyphs[0]| > 0 && |f.glyphs[0][0]| > 0
    && (forall g :: 0 <= g < |f.glyphs| ==> IsGlyph(f.glyphs[g], |f.glyphs[0]|, |f.glyphs[0][0]|))
    && (forall i :: 0 <= i < |f.charMap| ==> 0 <= f.charMap[i] < |f.glyphs|)
  }

  predicate IsGlyph(g: Glyph, height: nat, width: nat) {
    && |g| == height
    && forall r :: 0 <= r < height ==> |g[r]| == width && forall c :: 0 <= c < width ==> g[r][c] <= 1
  }

  /** The font's character width: the width of its first glyph. */
  function Width(f: Font): (w: nat)
    requires Wf(f)
    ensures w > 0
  {
    |f.glyphs[0][0]|
  }

  /** The font's character height: the height of its first glyph. */
  function Height(f: Font): (h: nat)
    requires Wf(f)
    ensures h > 0
  {
    |f.glyphs[0]|
  }

  /** `has_char`: the code lies in the range the character map covers. */
  predicate HasChar(f: Font, code: int) {
    FirstCode <= code < FirstCode + |f.charMap|
  }

  /** `get_char`: the mapped glyph of a covered code, the first glyph for any other code. */
  function GetChar(f: Font, code: int): (g: Glyph)
    requires Wf(f)
    ensures IsGlyph(g, Height(f), Width(f))
    ensures HasChar(f, code) ==> g == f.glyphs[f.charMap[code - FirstCode]]
    ensures !HasChar(f, code) ==> g == f.glyphs[0]
  {
    if HasChar(f, code) then f.glyphs[f.charMap[code - FirstCode]] else f.glyphs[0]
  }

  // ---------------------------------------------------------------------------------------
  // The character maps

  /** The indices `lo`, `lo + 1`, ..., `hi - 1`. */
  function Range(lo: int, hi: int): (r: seq<int>)
    ensures |r| == if lo <= hi then hi - lo else 0
    ensures forall j :: 0 <= j < |r| ==> r[j] == lo + j
    decreases hi - lo
  {
    if hi <= lo then [] else Range(lo, hi - 1) + [hi - 1]
  }

  /** The full ASCII map: a glyph per printable code, with the backquote drawn as glyph 0. */
  const AsciiMap := Range(0, 64) + [0] + Range(64, 94)

  /** The capitals-only map: lower-case letters share the capitals' glyphs. */
  const CapsMap := Range(0, 64) + [0] + Range(33, 59) + Range(64, 68)

  /** The glyph index the ASCII map gives a printable code, case by case. */
  function AsciiIndex(code: int): int {
    if code < 96 then code - 32 else if code == 96 then 0 else code - 33
  }

  /** The glyph index the capitals-only map gives a printable code, case by case. */
  function CapsIndex(code: int): int {
    if code < 96 then code - 32
    else if code == 96 then 0
    else if code <= 122 then code - 64
    else code - 59
  }

  /** Both maps cover exactly the printable codes 32 to 126. */
  lemma MapsCoverPrintable(glyphs: seq<Glyph>, code: int)
    ensures HasChar(Font(glyphs, AsciiMap), code) <==> 32 <= code <= 126
    ensures HasChar(Font(glyphs, CapsMap), code) <==> 32 <= code <= 126
  {
    MapLengths();
  }

  lemma MapLengths()
    ensures |AsciiMap| == 95 && |CapsMap| == 95
  {
  }

  /** The ASCII map agrees with its case-by-case reading. */
  lemma AsciiMapIndex(code: int)
    requires 32 <= code <= 126
    ensures AsciiMap[code - 32] == AsciiIndex(code)
  {
    var i := code - 32;
    var a := Range(0, 64);
    var b := Range(64, 94);
    assert AsciiMap == a + [0] + b;
    if i < 64 {
      assert AsciiMap[i] == a[i];
    } else if i > 64 {
      assert AsciiMap[i] == b[i - 65];
    }
  }

  /** The capitals-only map agrees with its case-by-case reading. */
  lemma CapsMapIndex(code: int)
    requires 32 <= code <= 126
    ensures CapsMap[code - 32] == CapsIndex(code)
  {
    var i := code - 32;
    var a := Range(0, 64);
    var b := Range(33, 59);
    var c := Range(64, 68);
    assert CapsMap == a + [0] + b + c;
    if i < 64 {
      assert CapsMap[i] == a[i];
    } else if 64 < i < 91 {
      assert CapsMap[i] == b[i - 65];
    } else if i >= 91 {
      assert CapsMap[i] == c[i - 91];
    }
  }

  /** A font with the ASCII map is well formed when its table has the 94 glyphs the map
      names. */
  lemma AsciiFontWf(glyphs: seq<Glyph>)
    requires |glyphs| >= 94 && |glyphs[0]| > 0 && |glyphs[0][0]| > 0
    requires forall g :: 0 <= g < |glyphs| ==> IsGlyph(glyphs[g], |glyphs[0]|, |glyphs[0][0]|)
    ensures Wf(Font(glyphs, AsciiMap))
  {
    forall i | 0 <= i < |AsciiMap| ensures 0 <= AsciiMap[i] < |glyphs| {
      AsciiMapIndex(i + 32);
    }
  }

  /** A font with the capitals-only map is well formed when its table has the 68 glyphs the
      map names. */
  lemma CapsFontWf(glyphs: seq<Glyph>)
    requires |glyphs| >= 68 && |glyphs[0]| > 0 && |glyphs[0][0]| > 0
    requires forall g :: 0 <= g < |glyphs| ==> IsGlyph(glyphs[g], |glyphs[0]|, |glyphs[0][0]|)
    ensures Wf(Font(glyphs, CapsMap))
  {
    forall i | 0 <= i < |CapsMap| ensures 0 <= CapsMap[i] < |glyphs| {
      CapsMapIndex(i + 32);
    }
  }

  /** With the ASCII map, every printable character other than the space and the backquote has
      a glyph index of its own. */
  lemma AsciiMapInjective(a: int, b: int)
    requires 32 <= a <= 126 && 32 <= b <= 126 && a != b
    ensures AsciiMap[a - 32] == AsciiMap[b - 32] <==> (a == 32 && b == 96) || (a == 96 && b == 32)
  {
    AsciiMapIndex(a);
    AsciiMapIndex(b);
  }

  /** An unsupported code draws the same glyph as the space. */
  lemma UnsupportedDrawsSpace(glyphs: seq<Glyph>, code: int)
    requires Wf(Font(glyphs, AsciiMap)) && !(32 <= code <= 126)
    ensures GetChar(Font(glyphs, AsciiMap), code) == GetChar(Font(glyphs, AsciiMap), 32)
  {
    MapsCoverPrintable(glyphs, code);
    MapsCoverPrintable(glyphs, 32);
    AsciiMapIndex(32);
  }

  /** With the capitals-only map, a lower-case letter draws exactly its capital's glyph. */
  lemma CapsFoldsLowerCase(glyphs: seq<Glyph>, code: int)
    requires Wf(Font(glyphs, CapsMap))
    requires 'a' as int <= code <= 'z' as int
    ensures GetChar(Font(glyphs, CapsMap), code) == GetChar(Font(glyphs, CapsMap), code - 32)
  {
    MapsCoverPrintable(glyphs, code);
    MapsCoverPrintable(glyphs, code - 32);
    CapsMapIndex(code);
    CapsMapIndex(code - 32);
  }
}
