/** `generate_battery_icon`: a battery percentage becomes a 44x44 RGBA tray icon.
    Above 50 % the icon is a template image (a black square with the digits cut
    out as transparent holes, for the host to tint); otherwise it is a red or
    orange square with the digits drawn in white. */
module IconGenerator {
  import opened Image
  import Decimal

  /** Side of the square icon, in pixels. */
  const ICON_SIZE: nat := 44
  /** Glyph size for every percentage with one or two digits. */
  const FONT_SIZE: real := 36.0
  /** Smaller glyph size so that "100" fits the icon. */
  const FONT_SIZE_100: real := 30.0

  /** Top of the text for "100" and for every other percentage. */
  const START_Y_100: int := 6
  const START_Y: int := 3

  /** Colour-mode backgrounds: bright red when the battery is critical, orange
      when it is low. */
  const RED := Rgba(255, 0, 0, 255)
  const ORANGE := Rgba(255, 120, 0, 255)

  const I32_MAX: int := 0x7fff_ffff

  // ---------------------------------------------------------------------------
  // Selection rules

  /** Template mode (cut-out digits) above half charge, colour mode otherwise. */
  predicate UseTemplate(percentage: Byte) { percentage > 50 }

  function FontSizeFor(percentage: Byte): (size: real)
    ensures FONT_SIZE_100 <= size <= FONT_SIZE
  {
    if percentage == 100 then FONT_SIZE_100 else FONT_SIZE
  }

  function StartY(percentage: Byte): (y: int)
    ensures START_Y <= y <= START_Y_100
  {
    if percentage == 100 then START_Y_100 else START_Y
  }

  /** The colour-mode background; the source computes it only in colour mode. */
  function ColourBackground(percentage: Byte): (bg: Rgba)
    requires !UseTemplate(percentage)
    ensures bg.IsOpaque() && bg.r == 255 && bg.b == 0
  {
    if percentage <= 20 then RED else ORANGE
  }

  /** Template mode is upward closed and switches on between 50 and 51: every
      percentage is in exactly one of the two modes, and a fuller battery is never
      shown in colour mode when an emptier one is shown as a template. */
  lemma ModeThreshold(p: Byte, q: Byte)
    ensures p <= q && UseTemplate(p) ==> UseTemplate(q)
    ensures !UseTemplate(50) && UseTemplate(51)
  {
  }

  /** The colour-mode background is opaque; it is red exactly up to 20 % and
      orange from 21 % to 50 %, and it never gets less alarming (its green
      channel never grows) as the charge falls. */
  lemma BackgroundSeverity(p: Byte, q: Byte)
    requires !UseTemplate(p)
    ensures ColourBackground(p).IsOpaque()
    ensures ColourBackground(p) == RED <==> p <= 20
    ensures ColourBackground(p) == ORANGE <==> 20 < p
    ensures q <= p ==> ColourBackground(q).g <= ColourBackground(p).g
  {
  }

  /** 100 % gets size 30 at row 6: the strictly smallest glyphs, with the text
      starting lower to make up for them; every other percentage gets size 36 at
      row 3. */
  lemma FontAndOffsetFor100(p: Byte)
    ensures FontSizeFor(100) == FONT_SIZE_100 && StartY(100) == START_Y_100
    ensures p != 100 ==> FontSizeFor(100) < FontSizeFor(p) && StartY(p) < StartY(100)
    ensures p != 100 ==> FontSizeFor(p) == FONT_SIZE && StartY(p) == START_Y
  {
  }

  // ---------------------------------------------------------------------------
  // Text width and horizontal centring

  /** The horizontal advance of a character's glyph at a given font size (a
      metric of the embedded font, read from its tables). */
  type Advance = (real, char) -> real

  /** The width of `text`: the sum of its characters' advances. */
  function SumAdvances(text: string, size: real, advance: Advance): (width: real)
  {
    if text == [] then 0.0 else advance(size, text[0]) + SumAdvances(text[1..], size, advance)
  }

  /** The width of two strings put together is the sum of their widths. */
  lemma {:induction false} SumAdvancesAppend(s: string, t: string, size: real, advance: Advance)
    ensures SumAdvances(s + t, size, advance) == SumAdvances(s, size, advance) + SumAdvances(t, size, advance)
  {
    if s != [] {
      assert (s + t)[0] == s[0] && (s + t)[1..] == s[1..] + t;
      SumAdvancesAppend(s[1..], t, size, advance);
    } else {
      assert s + t == t;
    }
  }

  /** With no negative advance, no text has a negative width. */
  lemma {:induction false} SumAdvancesNonNegative(text: string, size: real, advance: Advance)
    requires forall c :: advance(size, c) >= 0.0
    ensures SumAdvances(text, size, advance) >= 0.0
  {
    if text != [] {
      SumAdvancesNonNegative(text[1..], size, advance);
    }
  }

  /** The loop that adds up the advances of the characters of the text. */
  method TextWidth(text: string, size: real, advance: Advance) returns (width: real)
    ensures width == SumAdvances(text, size, advance)
  {
    width := 0.0;
    for i := 0 to |text|
      invariant width == SumAdvances(text[..i], size, advance)
    {
      SumAdvancesAppend(text[..i], [text[i]], size, advance);
      assert text[..i + 1] == text[..i] + [text[i]];
      width := width + advance(size, text[i]);
    }
    assert text[..|text|] == text;
  }

  /** `((ICON_SIZE as f32 - text_width) / 2.0).max(0.0) as i32`: half the free
      width, at least 0, truncated to a pixel (the float-to-int cast saturates at
      the largest `i32`).  For a text no wider than the icon the left margin is
      the largest whole number of pixels not above the right one; a wider text
      starts at the left edge. */
  function StartX(textWidth: real): (x: int)
    ensures 0 <= x <= I32_MAX
    ensures textWidth >= 0.0 ==> x <= ICON_SIZE / 2
    ensures 0.0 <= textWidth <= ICON_SIZE as real ==>
      2.0 * x as real + textWidth <= ICON_SIZE as real < 2.0 * (x + 1) as real + textWidth
    ensures textWidth >= ICON_SIZE as real ==> x == 0
  {
    var half := (ICON_SIZE as real - textWidth) / 2.0;
    var clamped := if half > 0.0 then half else 0.0;
    if clamped.Floor > I32_MAX then I32_MAX else clamped.Floor
  }

  // ---------------------------------------------------------------------------
  // The template cutout

  /** One step of the cutout: where the scratch image has ink, the icon pixel
      becomes fully transparent; elsewhere it is left alone.  The result has zero
      alpha exactly when the scratch pixel has ink or the icon pixel already had
      zero alpha. */
  function CutPixel(canvas: Rgba, scratch: Rgba): (p: Rgba)
    ensures p == canvas || p == TRANSPARENT
    ensures p.a == 0 <==> scratch.a > 0 || canvas.a == 0
  {
    if scratch.a > 0 then TRANSPARENT else canvas
  }

  /** The coordinates of row `y`, left to right, up to column `width`. */
  function Row(y: nat, width: nat): seq<(nat, nat)>
  {
    seq(width, x => (x, y))
  }

  /** The coordinates of the first `height` rows in the order the cutout loop
      visits them: row by row, each row left to right. */
  function RowMajor(height: nat, width: nat): seq<(nat, nat)>
  {
    if height == 0 then [] else RowMajor(height - 1, width) + Row(height - 1, width)
  }

  /** The cutout loop visits every pixel of a `width` x `height` image exactly
      once and nothing outside it. */
  lemma {:induction false} RowMajorVisitsEachPixelOnce(height: nat, width: nat)
    ensures |RowMajor(height, width)| == height * width
    ensures forall x: nat, y: nat :: (x, y) in RowMajor(height, width) <==> x < width && y < height
    ensures forall i, j :: 0 <= i < j < |RowMajor(height, width)| ==>
      RowMajor(height, width)[i] != RowMajor(height, width)[j]
  {
    if height > 0 {
      RowMajorVisitsEachPixelOnce(height - 1, width);
      var before, row := RowMajor(height - 1, width), Row(height - 1, width);
      assert forall k :: 0 <= k < |before| ==> before[k].1 < height - 1 by {
        forall k | 0 <= k < |before| ensures before[k].1 < height - 1 {
          assert before[k] in before;
        }
      }
      assert (height - 1) * width + width == height * width;
      forall x: nat, y: nat
        ensures (x, y) in before + row <==> x < width && y < height
      {
        if x < width && y == height - 1 {
          assert row[x] == (x, y);
        }
      }
    }
  }

  /** Lines 52-60: for every `y`, for every `x`, if the scratch pixel has
      non-zero alpha, the icon pixel becomes transparent.  The ghost result is the
      sequence of coordinates the loop visits. */
  method CutOut(img: array2<Rgba>, textImg: array2<Rgba>) returns (ghost visited: seq<(nat, nat)>)
    requires img.Length0 == ICON_SIZE && img.Length1 == ICON_SIZE
    requires textImg.Length0 == ICON_SIZE && textImg.Length1 == ICON_SIZE
    requires img != textImg
    modifies img
    ensures forall x, y :: 0 <= x < ICON_SIZE && 0 <= y < ICON_SIZE ==>
      img[x, y] == CutPixel(old(img[x, y]), textImg[x, y])
    ensures visited == RowMajor(ICON_SIZE, ICON_SIZE)
  {
    visited := [];
    for y := 0 to ICON_SIZE
      invariant forall x', y' :: 0 <= x' < ICON_SIZE && 0 <= y' < ICON_SIZE ==>
        img[x', y'] == if y' < y then CutPixel(old(img[x', y']), textImg[x', y']) else old(img[x', y'])
      invariant visited == RowMajor(y, ICON_SIZE)
    {
      for x := 0 to ICON_SIZE
        invariant forall x', y' :: 0 <= x' < ICON_SIZE && 0 <= y' < ICON_SIZE ==>
          img[x', y'] == if y' < y || (y' == y && x' < x)
                         then CutPixel(old(img[x', y']), textImg[x', y'])
                         else old(img[x', y'])
        invariant visited == RowMajor(y, ICON_SIZE) + Row(y, x)
      {
        var textPixel := textImg[x, y];
        if textPixel.a > 0 {
          img[x, y] := TRANSPARENT;
        }
        assert Row(y, x + 1) == Row(y, x) + [(x, y)];
        visited := visited + [(x, y)];
      }
    }
  }

  // ---------------------------------------------------------------------------
  // The whole icon

  /** The one text draw the renderer makes, the same in both modes: the decimal
      text in white, at the size and origin chosen for the percentage, centred by
      the width the font gives that text. */
  function TextDrawFor(percentage: Byte, advance: Advance): (draw: TextDraw)
  {
    var text := Decimal.Format(percentage);
    var size := FontSizeFor(percentage);
    TextDraw(WHITE, StartX(SumAdvances(text, size, advance)), StartY(percentage), size, text)
  }

  /** What the draw of a percentage says: its text reads back as the
      percentage, has one to three canonical digits, and three exactly for 100;
      it starts inside the left half of the icon whenever the font has no negative
      advance, and at row 3 or 6. */
  lemma TextDrawProperties(percentage: Byte, advance: Advance)
    ensures var d := TextDrawFor(percentage, advance);
      && Decimal.IsCanonical(d.text)
      && Decimal.Parse(d.text) == percentage
      && 1 <= |d.text| <= 3
      && (percentage == 100 ==> d.text == "100")
      && d.colour == WHITE
      && d.size == FontSizeFor(percentage)
      && d.y == StartY(percentage)
      && 0 <= d.x
    ensures (forall c :: advance(FontSizeFor(percentage), c) >= 0.0) ==>
      TextDrawFor(percentage, advance).x <= ICON_SIZE / 2
  {
    var d := TextDrawFor(percentage, advance);
    Decimal.ParseFormat(percentage);
    Decimal.ByteDigits(percentage);
    if percentage == 100 {
      Decimal.FormatParse("100");
    }
    if forall c :: advance(d.size, c) >= 0.0 {
      SumAdvancesNonNegative(d.text, d.size, advance);
    }
  }

  /** The finished icon's pixel at `(x, y)`.  Template mode: opaque black, cut
      out wherever the text drawn on a transparent scratch image left any alpha.
      Colour mode: the background with the text drawn over it. */
  function IconPixel(percentage: Byte, advance: Advance, raster: Rasteriser, x: int, y: int): (p: Rgba)
    ensures UseTemplate(percentage) ==> p in {TRANSPARENT, OPAQUE_BLACK}
  {
    var draw := TextDrawFor(percentage, advance);
    if UseTemplate(percentage) then CutPixel(OPAQUE_BLACK, raster(draw, TRANSPARENT, x, y))
    else raster(draw, ColourBackground(percentage), x, y)
  }

  /** A template icon is a pure alpha stencil: a pixel is fully transparent where
      the glyphs have ink and keeps the opaque black fill everywhere else. */
  lemma TemplateIconIsStencil(percentage: Byte, advance: Advance, raster: Rasteriser, x: int, y: int)
    requires UseTemplate(percentage)
    ensures var ink := raster(TextDrawFor(percentage, advance), TRANSPARENT, x, y);
      IconPixel(percentage, advance, raster, x, y) == (if ink.a > 0 then TRANSPARENT else OPAQUE_BLACK)
    ensures IconPixel(percentage, advance, raster, x, y) in {TRANSPARENT, OPAQUE_BLACK}
  {
  }

  /** A colour icon has no transparent pixel, given a rasteriser that keeps an
      opaque pixel opaque when it draws opaque text over it. */
  lemma ColourIconIsOpaque(percentage: Byte, advance: Advance, raster: Rasteriser, x: int, y: int)
    requires !UseTemplate(percentage)
    requires forall d: TextDraw, under: Rgba, i: int, j: int ::
      d.colour.IsOpaque() && under.IsOpaque() ==> raster(d, under, i, j).IsOpaque()
    ensures IconPixel(percentage, advance, raster, x, y).IsOpaque()
  {
  }

  /** Four sample percentages: 5 is a red colour icon, 35 an orange one, 75 a
      template at the usual size and origin, and 100 a template in the smaller
      size, drawn lower. */
  lemma SamplePercentages(advance: Advance)
    ensures !UseTemplate(5) && ColourBackground(5) == RED && TextDrawFor(5, advance).text == "5"
    ensures !UseTemplate(35) && ColourBackground(35) == ORANGE && TextDrawFor(35, advance).text == "35"
    ensures UseTemplate(75) && TextDrawFor(75, advance).text == "75"
    ensures TextDrawFor(75, advance).size == FONT_SIZE && TextDrawFor(75, advance).y == START_Y
    ensures UseTemplate(100) && TextDrawFor(100, advance).text == "100"
    ensures TextDrawFor(100, advance).size == FONT_SIZE_100 && TextDrawFor(100, advance).y == START_Y_100
  {
  }

  /** Lines 11-86 of `generate_battery_icon`: choose the mode, the text, its size
      and width; build the canvas; draw; and in template mode cut the text out of
      the black square.  Returns the 44x44 canvas that the source then encodes. */
  method GenerateBatteryIcon(percentage: Byte, advance: Advance, raster: Rasteriser) returns (img: array2<Rgba>)
    ensures fresh(img)
    ensures img.Length0 == ICON_SIZE && img.Length1 == ICON_SIZE
    ensures forall x, y :: 0 <= x < ICON_SIZE && 0 <= y < ICON_SIZE ==>
      img[x, y] == IconPixel(percentage, advance, raster, x, y)
  {
    var useTemplate := UseTemplate(percentage);
    var text := Decimal.Format(percentage);
    var fontSize := FontSizeFor(percentage);
    var textWidth := TextWidth(text, fontSize, advance);

    if useTemplate {
      img := FromPixel(ICON_SIZE, ICON_SIZE, OPAQUE_BLACK);
      var textImg := FromPixel(ICON_SIZE, ICON_SIZE, TRANSPARENT);
      var startX := StartX(textWidth);
      var startY := StartY(percentage);
      DrawText(textImg, TextDraw(WHITE, startX, startY, fontSize, text), raster);
      ghost var visited := CutOut(img, textImg);
    } else {
      var bgColor := ColourBackground(percentage);
      img := FromPixel(ICON_SIZE, ICON_SIZE, bgColor);
      var startX := StartX(textWidth);
      var startY := StartY(percentage);
      DrawText(img, TextDraw(WHITE, startX, startY, fontSize, text), raster);
    }
  }
}
