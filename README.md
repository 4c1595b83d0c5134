# Battery tray icon renderer

A Dafny model of `generate_battery_icon`, the function that turns a battery
percentage (`u8`) into the 44x44 RGBA tray icon of the ZMK battery centre, and of
the template flag that `update_tray_icon` sets beside it.

- Above 50 % the icon is a **template**. It is an opaque black square. The
  digits are drawn in white on a transparent scratch image. Every icon pixel whose
  scratch pixel has non-zero alpha is then made fully transparent.
- At 50 % and below the icon is a **colour** icon: a red (up to 20 %) or orange
  (21-50 %) square with the digits drawn in white over it.
- The text is the decimal form of the percentage. Its size is 30 for 100 and 36
  otherwise. Its top is row 6 for 100 and row 3 otherwise. It is centred by
  half the free width, at least 0, truncated to a whole pixel.

Modules:

- `Image` (`image.dfy`): pixels and RGBA buffers. A buffer is an `array2<Rgba>`
  indexed `[x, y]`. `FromPixel` models `ImageBuffer::from_pixel`. `DrawText`
  models `draw_text_mut` over a rasteriser given as a parameter.
- `Decimal` (`decimal.dfy`): `format!("{}", n)` and its inverse.
- `IconGenerator` (`icon_generator.dfy`): the selection rules, the text-width loop,
  the centring, the cutout loop, and the whole renderer, specified pixel by pixel
  by `IconPixel`.
- `Tray` (`tray.dfy`): the template flag of `update_tray_icon`.

Foreign inputs become parameters. `Advance` is the glyph advance of a character
at a font size, read from the embedded font. `Rasteriser` is what the glyph
rasteriser leaves at a pixel, given the draw and the pixel's previous value.

Notes on the source:

- The template fill is opaque black (icon_generator.rs:34).
- Percentages above 100 are neither clamped nor rejected, so 255 becomes a
  three-digit template icon at size 36.

## Model

| member | source | states |
|---|---|---|
| `IconGenerator.UseTemplate` | src-tauri/src/icon_generator.rs:11 | computes `percentage > 50`, the choice of template mode; `ModeThreshold` proves it upward closed with the switch between 50 and 51, and `Tray.TemplateFlagMatchesRenderer` that the tray flag agrees with it |
| `IconGenerator.FontSizeFor` | src-tauri/src/icon_generator.rs:20 | the glyph size lies between 30 and 36; `FontAndOffsetFor100` proves 100 alone gets 30 and every other percentage 36 |
| `IconGenerator.StartY` | src-tauri/src/icon_generator.rs:39 | the top of the text (the same expression at line 73) lies between rows 3 and 6; `FontAndOffsetFor100` proves 100 alone gets 6 and every other percentage 3 |
| `IconGenerator.ColourBackground` | src-tauri/src/icon_generator.rs:65-69 | the colour-mode background is opaque with red 255 and blue 0; `BackgroundSeverity` proves it is (255,0,0,255) exactly up to 20 and (255,120,0,255) exactly from 21 to 50 |
| `IconGenerator.SumAdvances` | src-tauri/src/icon_generator.rs:25-29 | the text width as the sum of the characters' advances; `TextWidth` proves the source's loop computes it, `SumAdvancesAppend` and `SumAdvancesNonNegative` that it is additive and non-negative for non-negative advances |
| `IconGenerator.CutPixel` | src-tauri/src/icon_generator.rs:55-58 | the result is the icon pixel or (0,0,0,0), and has zero alpha exactly when the scratch pixel has alpha > 0 or the icon pixel had zero alpha |
| `IconGenerator.TextDrawFor` | src-tauri/src/icon_generator.rs:38-49 | the one text draw of both modes (the same arguments at lines 72-83): white decimal text at the chosen size, at `StartX` of the text width and at `StartY`; `TextDrawProperties` proves what it says |
| `IconGenerator.IconPixel` | src-tauri/src/icon_generator.rs:31-85 | the finished pixel at (x, y): in template mode always (0,0,0,0) or (0,0,0,255), the black fill cut where the scratch draw has ink; in colour mode the draw over the background; `GenerateBatteryIcon` is proved to produce it at every pixel |
| `Decimal.Parse` | src-tauri/src/icon_generator.rs:18 | the value of a digit string, 0 exactly when every digit is '0'; `ParseFormat` and `FormatParse` prove it the inverse of the formatting |
| `Tray.TemplateFlag` | src-tauri/src/tray.rs:71 | computes `percentage > 50`, the flag passed to `set_icon_as_template`; `Tray.TemplateFlagMatchesRenderer` proves it equals the renderer's mode |
| `IconGenerator.ModeThreshold` | src-tauri/src/icon_generator.rs:11 | template mode is upward closed in the percentage and switches on exactly between 50 and 51, so each percentage has exactly one mode |
| `IconGenerator.BackgroundSeverity` | src-tauri/src/icon_generator.rs:65-69 | the colour-mode background is opaque, is (255,0,0,255) exactly for 0-20 and (255,120,0,255) exactly for 21-50, and never becomes less alarming as the charge falls |
| `IconGenerator.FontAndOffsetFor100` | src-tauri/src/icon_generator.rs:20 | 100 gets font size 30 and vertical origin row 6 (lines 39 and 73); its size is strictly smaller than for any other percentage and its origin strictly lower; every other percentage gets size 36 and row 3 |
| `Decimal.Format` | src-tauri/src/icon_generator.rs:18 | the text is one or more digits, with a leading '0' only for 0, and has one digit exactly below 10 |
| `Decimal.ParseFormat` | src-tauri/src/icon_generator.rs:18 | reading the text back as decimal gives the percentage |
| `Decimal.FormatParse` | src-tauri/src/icon_generator.rs:18 | every canonical digit string is the text of the number it denotes |
| `Decimal.FormatInjective` | src-tauri/src/icon_generator.rs:18 | two percentages get the same text exactly when they are equal |
| `Decimal.ByteDigits` | src-tauri/src/icon_generator.rs:18 | the text of a `u8` has 1 to 3 digits: 1 exactly below 10, 3 exactly from 100 on |
| `IconGenerator.SumAdvancesAppend` | src-tauri/src/icon_generator.rs:25-29 | the text width of a concatenation is the sum of the parts' widths |
| `IconGenerator.SumAdvancesNonNegative` | src-tauri/src/icon_generator.rs:25-29 | with no negative glyph advance, the text width is not negative |
| `IconGenerator.TextWidth` | src-tauri/src/icon_generator.rs:25-29 | the accumulating loop returns the sum of the advances of all characters of the text |
| `IconGenerator.StartX` | src-tauri/src/icon_generator.rs:38 | the horizontal origin is in [0, i32::MAX], and in [0, 22] for a non-negative width; for a width up to 44 it is the largest whole pixel with 2x + width <= 44; for a width of 44 or more it is 0 |
| `IconGenerator.RowMajorVisitsEachPixelOnce` | src-tauri/src/icon_generator.rs:52-53 | the nested `for y` / `for x` order lists height*width coordinates, exactly those inside the image, none twice |
| `IconGenerator.CutOut` | src-tauri/src/icon_generator.rs:52-60 | after the loop each pixel of the 44x44 icon is transparent where the scratch pixel has alpha > 0 and unchanged elsewhere; the loop visits the coordinates in row-major order, each once |
| `IconGenerator.TextDrawProperties` | src-tauri/src/icon_generator.rs:41-49 | the draw is white, at the percentage's size and row, with canonical 1-3 digit text that reads back as the percentage ("100" for 100), at a horizontal origin >= 0 and <= 22 when no advance is negative |
| `IconGenerator.TemplateIconIsStencil` | src-tauri/src/icon_generator.rs:31-62 | a template icon pixel is (0,0,0,0) where the scratch image has ink and (0,0,0,255) everywhere else |
| `IconGenerator.ColourIconIsOpaque` | src-tauri/src/icon_generator.rs:63-85 | a colour icon has no transparent pixel, provided the rasteriser keeps an opaque pixel opaque under opaque text |
| `IconGenerator.SamplePercentages` | src-tauri/src/icon_generator.rs:11-20 | 5 gives a red colour icon "5", 35 an orange one "35", 75 a template "75" at size 36 and row 3, 100 a template "100" at size 30 and row 6 |
| `IconGenerator.GenerateBatteryIcon` | src-tauri/src/icon_generator.rs:9-86 | returns a fresh 44x44 canvas whose every pixel is `IconPixel`: the cut-out black square in template mode, the background with the text drawn over it in colour mode, with one and the same text draw in both modes |
| `Image.FromPixel` | src-tauri/src/icon_generator.rs:34 | a fresh canvas of the requested size, every pixel the fill colour |
| `Image.DrawText` | src-tauri/src/icon_generator.rs:41-49 | every pixel of the canvas becomes the rasteriser's result for that draw over its previous value |
| `Tray.TemplateFlagMatchesRenderer` | src-tauri/src/tray.rs:71 | the tray's template flag is set exactly when the renderer used template mode, so every flagged icon is a black-and-transparent stencil |

## Left out

- Font loading (`include_bytes!`, `FontRef::try_from_slice`, icon_generator.rs:14-15) and its error path: foreign parsing of a binary font file. The font's metrics and glyphs appear only through the `Advance` and `Rasteriser` parameters.
- PNG encoding (`write_to(..., ImageFormat::Png)`, icon_generator.rs:89-93) and its error path: a foreign encoder. `GenerateBatteryIcon` returns the canvas that would be encoded, not the bytes.
- IconGenerator.TextWidth: advances are exact reals, so the `f32` rounding of the sum is not modelled.
- IconGenerator.StartX: the `f32` subtraction and halving are exact reals, and NaN is not modelled. The cast is modelled as truncation (the value is never negative) saturating at `i32::MAX`.
- Image.DrawText: glyph coverage and blending belong to the foreign rasteriser. The model knows only that each pixel's result depends on the draw, the pixel's previous value and its position.
- IconGenerator.ColourIconIsOpaque: holds only for a rasteriser that keeps opaque pixels opaque under opaque text. Blending is not modelled, so this cannot be proved unconditionally.
- The rest of `tray.rs`: tray handle lookups, `set_icon`, event emission, positioner calls, resource paths. This is host-application plumbing. The template flag is modelled for every platform, although the source sets it only on macOS.
