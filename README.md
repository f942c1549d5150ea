# Recolouring, image-loading, countdown and feature helpers in Dafny

This project models the discrete logic of a small C++ graphics toolbox.
The drawing itself is done by Cairo and librsvg and is not modelled.

- **Hex colours** (`hex_color.dfy`). `parse_hex_rgba` is a strict parser of
  `#RRGGBB` / `#RRGGBBAA`, modelled over bytes. The `sscanf("%02x")` field
  reader it relies on is modelled as reading one or two hex digits and
  failing when the first character is not a hex digit. Every colour the
  encoder `EncodeHex` writes parses back to itself.
- **Key colours** (`key_color.dfy`). `string_to_rgba` has a lenient hex
  branch: the `sscanf` result is ignored and unreached channels keep 255.
  Other keys take a hash branch: hue `hash % 360`, saturation index
  `(hash >> 9) & 0x3F`, value 0.85, alpha 1. The string hash and the
  HSV-to-RGB conversion are function parameters. Being functions of their
  inputs, equal keys under a fixed hash give equal colours.
- **Hue shift** (`hue_shift.dfy`). `hue_shift_png` is a `Surface` class over
  an array of 32-bit words, rewritten in place by two nested loops.
  - Each word of the image is unpacked and skipped when its alpha is 0.
  - Otherwise it is un-premultiplied, transformed, clamped, re-premultiplied
    with `round` and repacked with its own alpha.
  - The colour transform (RGB→HSV, hue rotation, HSV→RGB) is a parameter.
- **Image loading** (`image_loader.dfy`):
  - `ends_with_ci`, a loop method proved against a case-folding suffix
    predicate;
  - `ends_with`, through a model of `strncasecmp`;
  - the extension dispatch of `load_image_or_svg`;
  - the size fallback and failure paths of `render_svg`.
- **PNG output** (`atomic_write.dfy`). `atomic_write_png` is a method on a
  `FileSystem` object whose files are a map from paths to bytes. The encoder
  outcome and whether the rename is allowed are parameters.
- **Countdown frame** (`decimal.dfy`, `countdown.dfy`):
  - `formatTime`, with a reader `ParseTime` that inverts it;
  - the glyph and border file names;
  - the integer layout and the placement loop that advances the x
    coordinate glyph by glyph.
- **Derived variables** (`derived_variables.dfy`):
  - the `getline` tokenising loop and the row acceptance rule of
    `parse_csv_row`;
  - `ema` as an index loop over an array;
  - `rsi14`, with NaN entries as `None`, over `real`.

Where the comments of the source and its code disagree, the model follows the
code:
- The saturation of `string_to_rgba` reaches about 0.682, not the 0.87 of
  the inline comment.
- `atomic_write_png` removes the destination before the rename, so it is not
  atomic. When the remove succeeds and the rename then fails, no destination
  is left at all, not the old file.

## Model

| member | source | states |
|---|---|---|
| HexColor.ReadHexField | recolor_png.cpp:10-11 | one `%02x` conversion succeeds iff the first character is a hex digit; it then consumes two digits (value of the pair) when the second is a hex digit, else one |
| HexColor.ScanHex | recolor_png.cpp:10-11 | `sscanf` with `k` conversions stores at most `k` values and at least one iff the text starts with a hex digit; the count is the length of the result |
| HexColor.ScanAllHex | recolor_png.cpp:10-11 | on a run of at least `2k` hex digits all `k` conversions succeed and the `j`-th value is the `j`-th digit pair |
| HexColor.ScanStopsAtBadPair | recolor_png.cpp:10-11 | when pair `j` does not start with a hex digit, exactly `j` values are read |
| HexColor.ParseHexRgba | recolor_png.cpp:7-14 | success needs a leading `#` and length 7 or 9; the empty string, another first character and every other length fail; a 7-character colour has alpha 255 |
| HexColor.ToColor | recolor_png.cpp:13 | each channel is its byte divided by 255, so lies in [0, 1] |
| HexColor.SixDigitsParse | recolor_png.cpp:9-10 | `#` and six hex digits parse to the three pairs with alpha 255 |
| HexColor.EightDigitsParse | recolor_png.cpp:11 | `#` and eight hex digits parse to four pairs, the fourth being alpha |
| HexColor.BadPairFails | recolor_png.cpp:10-11 | a pair not starting with a hex digit makes the parse fail |
| HexColor.ParseEncode | recolor_png.cpp:7-14 | every colour written as `#rrggbb` or `#rrggbbaa` parses back to itself |
| KeyColor.LenientHex | cairo_set_source_rgba.cpp:25-29 | a `#` key of a length other than 7 or 9 gives 255 everywhere; a 7-character key keeps alpha 255 |
| KeyColor.HueOf | cairo_set_source_rgba.cpp:35 | the hue is below 360 |
| KeyColor.SatIndexOf | cairo_set_source_rgba.cpp:36 | the saturation index is below 64 |
| KeyColor.Derive | cairo_set_source_rgba.cpp:25-36 | the hex branch is taken iff the key is non-empty and starts with `#`; otherwise hue is `hash % 360` (below 360) and the saturation index below 64 |
| KeyColor.StringToRgba | cairo_set_source_rgba.cpp:23-40 | a key outside the hex branch always gets alpha 1.0 |
| KeyColor.Saturation | cairo_set_source_rgba.cpp:36 | the saturation is at least 0.62, and at most 0.62 + 63 * 0.25 / 255 for an index below 64 |
| KeyColor.SaturationRange | cairo_set_source_rgba.cpp:36 | hash-branch saturation lies in [0.62, 0.62 + 63 * 0.25 / 255], below 0.69 |
| KeyColor.HashBranchColor | cairo_set_source_rgba.cpp:33-39 | hash-branch colours are the HSV conversion of (`hash % 360`, saturation, 0.85) with alpha 1.0 |
| KeyColor.SevenCharKeyOpaque | cairo_set_source_rgba.cpp:27-29 | a `#` key of length 7 yields alpha 1.0 whatever its digits |
| KeyColor.OtherLengthKeyWhite | cairo_set_source_rgba.cpp:26-29 | a `#` key of any length but 7 or 9 yields opaque white |
| KeyColor.NineCharKeyAlpha | cairo_set_source_rgba.cpp:28-29 | a 9-character `#` key of hex digits yields alpha = fourth pair / 255 |
| KeyColor.LenientStopsAtBadPair | cairo_set_source_rgba.cpp:26-28 | once a pair does not start with a hex digit, that channel and every later one keep 255 |
| KeyColor.LenientAgreesWithStrict | cairo_set_source_rgba.cpp:26-29 | wherever the strict parser accepts a key, the lenient branch stores the same bytes |
| HueShift.Unpack | recolor_png.cpp:107 | the four bytes of a word, alpha highest; its inverse is `Pack` (see `PackUnpack`) |
| HueShift.Pack | recolor_png.cpp:127 | the word of four bytes, alpha highest; its inverse is `Unpack` (see `UnpackPack`) |
| HueShift.Unpremultiply | recolor_png.cpp:111-112 | the straight value of a channel is non-negative, and at most 1 when the channel does not exceed alpha |
| HueShift.PackUnpack | recolor_png.cpp:127 | repacking the four unpacked bytes reproduces the word |
| HueShift.UnpackPack | recolor_png.cpp:107 | unpacking a packed word gives back its four bytes |
| HueShift.Clamp01 | recolor_png.cpp:120-122 | the result is in [0, 1], equal to the input inside it, 0 below and 1 above |
| HueShift.Round | recolor_png.cpp:123-125 | `std::round` lands within one half of its argument, with the argument's sign |
| HueShift.Premultiply | recolor_png.cpp:123-125 | `round(C * A * 255)` of a clamped channel lies in 0..a, so the byte cast cannot wrap |
| HueShift.ChannelByte | recolor_png.cpp:120-125 | the stored colour byte never exceeds the pixel's alpha byte |
| HueShift.ShiftPixel | recolor_png.cpp:106-127 | alpha is kept; an alpha-0 word is left bit for bit; any other result is validly premultiplied |
| HueShift.UnpremultiplyBound | recolor_png.cpp:111-112 | un-premultiplying a channel not above alpha gives a value in [0, 1] that scales back exactly |
| HueShift.PremultiplyUndoes | recolor_png.cpp:111-125 | un-premultiply, clamp and re-premultiply return the channel value |
| HueShift.ChannelByteUndoes | recolor_png.cpp:111-125 | the same round trip on channel bytes |
| HueShift.IdentityShiftFixes | recolor_png.cpp:106-127 | with the identity transform a word is unchanged iff it is transparent or validly premultiplied |
| HueShift.Shifted | recolor_png.cpp:103-106 | the shifted buffer has the length of the original |
| HueShift.RowColumn | recolor_png.cpp:104-105 | word `y * stride + x` with `x < stride` is row `y`, column `x` |
| HueShift.ShiftedAt | recolor_png.cpp:103-106 | pixel (x, y) of the image is shifted; a word in the stride padding or past the last row is untouched |
| HueShift.ShiftedKeepsAlpha | recolor_png.cpp:108 | every alpha byte survives the pass and transparent words are kept bit for bit |
| HueShift.IdentityShiftedUnchanged | recolor_png.cpp:103-127 | the identity transform leaves the buffer unchanged when every image word is transparent or validly premultiplied, whatever the stride padding holds |
| HueShift.VisitStep | recolor_png.cpp:103-105 | one inner-loop step visits exactly word `y * stride + x` |
| HueShift.HueShiftPixels | recolor_png.cpp:103-129 | the nested loops leave the buffer equal to `Shifted` of its old contents |
| ImageLoader.EndsWithCi | import_check.cpp:8-18 | true iff the last characters equal the suffix after ASCII case folding; false for a shorter string; true for an empty suffix |
| ImageLoader.CiSuffixIgnoresCase | import_check.cpp:11-17 | the test gives the same answer after lower-casing either side |
| ImageLoader.StrNCaseCmp | import_check.cpp:79 | `strncasecmp` over C strings ending at NUL; its zero case is characterised by `StrNCaseCmpZero` |
| ImageLoader.EndsWith | import_check.cpp:77-80 | `ends_with`: long enough and `strncasecmp` over the suffix is zero; equivalent to `ends_with_ci` by `EndsWithAgrees` |
| ImageLoader.StrNCaseCmpZero | import_check.cpp:79 | `strncasecmp` over the suffix length is zero iff both fold to the same text |
| ImageLoader.EndsWithAgrees | import_check.cpp:77-80 | `ends_with` and `ends_with_ci` accept the same strings |
| ImageLoader.PngAndSvgExclusive | import_check.cpp:64-66 | no path ends in both `.png` and `.svg` |
| ImageLoader.AxisSize | import_check.cpp:42-43 | a positive request is kept, else a positive intrinsic size, else the default; always positive |
| ImageLoader.SvgSize | import_check.cpp:39-44 | the viewport is the per-axis fallback of each side and is positive |
| ImageLoader.RenderSvg | import_check.cpp:30-61 | a surface exists iff the handle opens and rendering succeeds; its size is positive, and the request when both sides are positive |
| ImageLoader.Dispatch | import_check.cpp:63-72 | the PNG loader iff the path ends in `.png`, the SVG renderer iff it ends in `.svg`, unsupported iff neither, in any case |
| ImageLoader.Load | import_check.cpp:63-72 | the PNG outcome, the `render_svg` outcome or null, by the dispatch; its outcomes are stated by `LoadOutcomes` |
| ImageLoader.LoadOutcomes | import_check.cpp:63-72 | unsupported extensions give null; `.svg` goes to the renderer and yields a positive size, the requested one when it is positive |
| ImageLoader.LoadImageOrSvg | import_check.cpp:63-72 | the method returns what the dispatch specification `Load` gives |
| AtomicWrite.FileSystem.WritePng | import_check.cpp:84 | reports success iff the encode succeeds and stores the image, a partial file or nothing at the path |
| AtomicWrite.FileSystem.Remove | import_check.cpp:85 | the path is absent afterwards whether or not it existed |
| AtomicWrite.FileSystem.Rename | import_check.cpp:86 | succeeds iff allowed and the source exists, moving the contents over the target |
| AtomicWrite.AfterWrite | import_check.cpp:84 | the files after the encoder writes, fails to write, or partly writes a path |
| AtomicWrite.AfterRename | import_check.cpp:86 | the files after a rename that succeeds, or that changes nothing when refused or when the source is missing |
| AtomicWrite.AtomicWriteSpec | import_check.cpp:82-87 | the result is true iff the encode and the rename succeed; the files are the last of `Steps`; its outcomes are stated by the lemmas below |
| AtomicWrite.TempPath | import_check.cpp:83 | the temporary path differs from the destination |
| AtomicWrite.Steps | import_check.cpp:83-86 | three intermediate states when the encode succeeds, one otherwise |
| AtomicWrite.EncodeFailureKeepsDestination | import_check.cpp:84 | a failed encode returns false and changes no path but the temporary one |
| AtomicWrite.SuccessReplacesDestination | import_check.cpp:85-86 | on success the destination holds the image and the temporary file is gone |
| AtomicWrite.RenameFailureLosesDestination | import_check.cpp:85-86 | a failed rename leaves no destination, only the temporary file |
| AtomicWrite.OtherPathsUntouched | import_check.cpp:82-87 | paths other than the destination and the temporary file never change |
| AtomicWrite.DestinationMissingBetweenSteps | import_check.cpp:85-86 | between remove and rename the destination does not exist |
| AtomicWrite.AtomicWritePng | import_check.cpp:82-87 | the method's result and final files are those of `AtomicWriteSpec` |
| Decimal.NatToDecimal | countdown_timer.cpp:14 | a non-empty digit string, starting with `0` iff the number is 0, one digit below 10 and two below 100 |
| Decimal.IntToDecimal | countdown_timer.cpp:14 | non-negative values as `NatToDecimal`, negative ones after a `-` |
| Decimal.DecimalRoundTrip | countdown_timer.cpp:14 | the digits read back as the number |
| Decimal.LeadingZero | countdown_timer.cpp:13-15 | a padding `0` does not change the value read |
| Countdown.FormatTime | countdown_timer.cpp:11-17 | the text starts with `0` iff minutes are below 10; for both values in 0..99 it is five characters `DD:DD` |
| Countdown.PaddedValue | countdown_timer.cpp:13-16 | a padded value is digits and reads back as the value |
| Countdown.ParseJoined | countdown_timer.cpp:14 | two digit strings joined by `:` read back as their two values |
| Countdown.FormatTimeRoundTrip | countdown_timer.cpp:11-17 | for non-negative values, however large (75 seconds is printed as given), the text reads back as the two numbers |
| Countdown.GlyphPath | countdown_timer.cpp:21-24 | every glyph path starts with `chars/` and ends with `.svg` |
| Countdown.BorderPath | countdown_timer.cpp:27-29 | the border path is `border/`, the name, then `.svg` |
| Countdown.GlyphPathInjective | countdown_timer.cpp:21-24 | distinct characters get distinct glyph files |
| Countdown.RowWidth | countdown_timer.cpp:85-88 | an empty row is 0 wide; a row of `n` glyphs plus one spacing is `n` times glyph width plus spacing |
| Countdown.RowStart | countdown_timer.cpp:109 | C's truncating halving: twice the start is the free width, or one less |
| Countdown.LastGlyphEnd | countdown_timer.cpp:85-88 | the last of `n` advancing glyphs ends one row width after the start |
| Countdown.Centred | countdown_timer.cpp:107-109 | a centred row lies inside the margins, with the left gap at most one pixel narrower than the right |
| Countdown.PlaceRow | countdown_timer.cpp:110-114 | glyph `i` is placed at `start + i * (glyph width + spacing)` |
| Countdown.GlyphFiles | countdown_timer.cpp:70-81 | one glyph file per character, in order |
| Countdown.RowInside | countdown_timer.cpp:107-123 | every placed glyph lies inside the border margins |
| Countdown.CountdownLayout | countdown_timer.cpp:53-123 | the time text, canvas height 270, canvas width from the wider row, border file, every glyph's file, and each row starting at the centred x `(canvas_width - row_width) / 2` and advancing by glyph width plus spacing, all inside the margins |
| DerivedVariables.Pieces | ml_trading_overlay/generate_derived_variables.cpp:44 | a line splits into at least one piece |
| DerivedVariables.JoinPieces | ml_trading_overlay/generate_derived_variables.cpp:44 | joining the pieces with commas gives the line back |
| DerivedVariables.PiecesNoComma | ml_trading_overlay/generate_derived_variables.cpp:44 | no piece contains a comma |
| DerivedVariables.TokensJoin | ml_trading_overlay/generate_derived_variables.cpp:44 | no tokens iff the line is empty; joined they give the line minus a trailing comma, so empty inner fields are kept; no token holds a comma |
| DerivedVariables.Tokens | ml_trading_overlay/generate_derived_variables.cpp:44 | the pieces, without an empty last one; characterised by `TokensJoin` |
| DerivedVariables.Tokenize | ml_trading_overlay/generate_derived_variables.cpp:44 | the `getline` loop yields exactly `Tokens` |
| DerivedVariables.AcceptRow | ml_trading_overlay/generate_derived_variables.cpp:45-47 | a row is accepted iff there are at least six tokens and the second is non-empty and starts with a digit; the fields are the first six tokens |
| DerivedVariables.ParseCsvRow | ml_trading_overlay/generate_derived_variables.cpp:39-55 | the result is `AcceptRow` of the tokens; an empty line is rejected |
| DerivedVariables.EmaPrefix | ml_trading_overlay/generate_derived_variables.cpp:15-16 | `k` values, the first being `x[0]` |
| DerivedVariables.EmaSeries | ml_trading_overlay/generate_derived_variables.cpp:11-18 | as long as the input; all zeros when `n <= 0`; starts with `x[0]` otherwise |
| DerivedVariables.AlphaRange | ml_trading_overlay/generate_derived_variables.cpp:14 | the smoothing factor lies in (0, 1] for `n >= 1` |
| DerivedVariables.StepBounded | ml_trading_overlay/generate_derived_variables.cpp:16 | one averaging step of two values in [lo, hi] stays in [lo, hi] |
| DerivedVariables.EmaPrefixBounded | ml_trading_overlay/generate_derived_variables.cpp:15-16 | every average stays within any bounds the input keeps |
| DerivedVariables.EmaBounded | ml_trading_overlay/generate_derived_variables.cpp:11-18 | the same for `ema` with `n >= 1` |
| DerivedVariables.Ema | ml_trading_overlay/generate_derived_variables.cpp:11-18 | the loop fills exactly `EmaSeries` |
| DerivedVariables.Gain | ml_trading_overlay/generate_derived_variables.cpp:30 | a gain is never negative |
| DerivedVariables.Loss | ml_trading_overlay/generate_derived_variables.cpp:30 | a loss is never negative |
| DerivedVariables.SumGains | ml_trading_overlay/generate_derived_variables.cpp:25 | the summed gains are never negative |
| DerivedVariables.SumLosses | ml_trading_overlay/generate_derived_variables.cpp:25 | the summed losses are never negative |
| DerivedVariables.Smooth | ml_trading_overlay/generate_derived_variables.cpp:31-32 | one Wilder step lies between the old average and the new value |
| DerivedVariables.Averages | ml_trading_overlay/generate_derived_variables.cpp:26-32 | both smoothed averages are non-negative |
| DerivedVariables.RsiValue | ml_trading_overlay/generate_derived_variables.cpp:33-34 | 100 when the average loss is 0 (infinite `rs`), else `100 - 100 / (1 + ag / al)`; its range is stated by `RsiValueRange` |
| DerivedVariables.RsiSeries | ml_trading_overlay/generate_derived_variables.cpp:20-37 | the result is as long as the input |
| DerivedVariables.RsiValueRange | ml_trading_overlay/generate_derived_variables.cpp:27-34 | the index lies in [0, 100] and equals 100 iff the average loss is zero |
| DerivedVariables.RsiShape | ml_trading_overlay/generate_derived_variables.cpp:20-37 | entries 0..13 are NaN, all are when there are at most 14 prices, and each later one is defined, in [0, 100], and 100 iff the average loss is 0 |
| DerivedVariables.FirstSums | ml_trading_overlay/generate_derived_variables.cpp:25 | the first loop sums the gains and losses of the first 14 changes |
| DerivedVariables.Rsi14 | ml_trading_overlay/generate_derived_variables.cpp:20-37 | the method returns exactly `RsiSeries` |

## Left out

- The HSV conversions and the `fmod` hue wrap (recolor_png.cpp:70-92 and 116, cairo_set_source_rgba.cpp:8-20) are floating-point numerics. They enter as function parameters.
- Doubles are modelled as exact reals. Rounding errors in `R * A * 255`, in the averages and in the index are not captured.
- `tint_png_multiply`, `recolor_png_with_alpha_mask` and `draw_colored_frame` are left out: their whole effect is Cairo compositing.
- `std::hash` is implementation-defined, so it is a parameter returning 64 bits (a 64-bit `size_t` is assumed).
- `std::stod` is not modelled: `parse_csv_row` keeps the six fields as text, and a field that `stod` rejects (an exception) is not covered.
- PNG decoding and encoding are parameters: the decoded surface, or the encoder outcome.
- A loaded surface is represented by its size only.
- HexColor.ReadHexField: leading white space, a sign and a `0x` prefix, which `%x` would accept, are not modelled.
- ImageLoader.StrNCaseCmp: only whether the result is zero is modelled; the sign of a non-zero result may differ from the C library's.
- ImageLoader.Lower: folding is ASCII-only, as in the C locale.
- HueShift.Surface: the stride is counted in 32-bit words (Cairo's byte stride divided by four).
- HueShift.Surface: the image is not read from or written to a PNG file; only the pixel pass is modelled.
- HueShift.Unpack and HueShift.Pack: words and bytes are unsigned integers; shifts and masks are division and remainder by powers of two, which is exact for `uint32_t`.
- AtomicWrite.FileSystem.Remove always succeeds. The source ignores the result of `std::remove`, and a failing remove is not modelled: it happens, for instance, when the destination is a non-empty directory. In that case the rename fails too and the old destination survives. So AtomicWrite.RenameFailureLosesDestination and AtomicWrite.DestinationMissingBetweenSteps hold only when the remove succeeds.
- rsvg_render.cpp (`renderSvgToSurface`) is not part of this model. Unlike `render_svg`, it still returns the surface after a render error.
- ml_trading_overlay/fetch_prices_api.cpp is left out: it is network access and JSON printing.
- texture_obs_plugin.cpp is left out: it is a GPU/plugin fragment that does not compile.
- The `main` functions and the features computed from the indicators (returns, the row-count check) are I/O around the modelled helpers and are left out.
- The stdin prompts of `countdownTimer` (countdown_timer.cpp:33-50) are left out; the layout takes their values as parameters.
- Countdown.CountdownLayout: widths are unbounded integers. The `int` arithmetic of the source could overflow for titles of tens of millions of characters.
- `countdownTimer` also ends with `return 0` although it is declared `void` (countdown_timer.cpp:135); the model returns nothing.
- Every `string` stands for the C++ byte string, one `char` per byte. The model does not restrict characters to values below 256, so its lengths (the 7 and 9 of a `#` key, the number of title glyphs) are counts of bytes only for such strings. A non-ASCII character, which the source sees as several UTF-8 bytes, is not modelled.
- The headers only declare these functions and are not modelled.
