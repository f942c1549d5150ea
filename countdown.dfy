/** The countdown-timer frame of countdown_timer.cpp: the `MM:SS` text, the
    glyph and border file names, and the integer layout that centres a title
    row and a digit row on the canvas. Rendering and compositing the glyph
    images are done by the SVG library and Cairo and are not modelled. */
module Countdown {
  import opened Wrappers
  import opened Decimal
  import opened Arith

  /** The zero `formatTime` writes before a value below 10. */
  function Pad(n: int): string {
    if n < 10 then "0" else ""
  }

  /** `formatTime(min, sec)`: each value is written as `<<` writes it, after a
      single `'0'` when it is below 10. Nothing is normalised. */
  function FormatTime(min: int, sec: int): (r: string)
    ensures |r| >= 3
    ensures r[0] == '0' <==> min < 10
    ensures 0 <= min <= 99 && 0 <= sec <= 99 ==> |r| == 5 && r[2] == ':' && AllDigits(r[..2]) && AllDigits(r[3..])
  {
    Pad(min) + IntToDecimal(min) + ":" + Pad(sec) + IntToDecimal(sec)
  }

  /** The position of the first `c` in `s`. */
  function IndexOf(s: string, c: char): (k: Option<nat>)
    ensures k.Some? ==> k.value < |s| && s[k.value] == c && c !in s[..k.value]
    ensures k.None? ==> c !in s
  {
    if s == [] then None
    else if s[0] == c then Some(0)
    else match IndexOf(s[1..], c)
      case None => None
      case Some(k) => Some(k + 1)
  }

  /** Reads `MM:SS` text back: the digits before the first `':'` and the
      digits after it. */
  function ParseTime(s: string): Option<(nat, nat)> {
    match IndexOf(s, ':')
    case None => None
    case Some(k) =>
      var mm, ss := s[..k], s[k + 1..];
      if mm != [] && ss != [] && AllDigits(mm) && AllDigits(ss)
      then Some((DecimalValue(mm), DecimalValue(ss)))
      else None
  }

  lemma {:induction false} IndexOfFirst(a: string, b: string, c: char)
    requires c !in a
    ensures IndexOf(a + [c] + b, c) == Some(|a|)
  {
    if a != [] {
      assert (a + [c] + b)[1..] == a[1..] + [c] + b;
      IndexOfFirst(a[1..], b, c);
    }
  }

  /** The padded text of a non-negative value is digits and reads back as
      the value. */
  lemma PaddedValue(n: nat)
    ensures AllDigits(Pad(n) + NatToDecimal(n)) && DecimalValue(Pad(n) + NatToDecimal(n)) == n
  {
    DecimalRoundTrip(n);
    if n < 10 {
      LeadingZero(NatToDecimal(n));
    } else {
      assert Pad(n) + NatToDecimal(n) == NatToDecimal(n);
    }
  }

  /** Two digit strings joined by `':'` read back as their two values. */
  lemma ParseJoined(mm: string, ss: string)
    requires mm != [] && ss != [] && AllDigits(mm) && AllDigits(ss)
    ensures ParseTime(mm + [':'] + ss) == Some((DecimalValue(mm), DecimalValue(ss)))
  {
    assert ':' !in mm by {
      forall i | 0 <= i < |mm| ensures mm[i] != ':' {
        assert IsDigit(mm[i]);
      }
    }
    IndexOfFirst(mm, ss, ':');
    assert (mm + [':'] + ss)[..|mm|] == mm;
    assert (mm + [':'] + ss)[|mm| + 1..] == ss;
  }

  /** Round trip: for non-negative minutes and seconds, however large,
      `formatTime` writes text that reads back as the same two numbers; a
      value such as 75 seconds is printed as given. */
  lemma FormatTimeRoundTrip(min: nat, sec: nat)
    ensures ParseTime(FormatTime(min, sec)) == Some((min, sec))
  {
    var mm, ss := Pad(min) + NatToDecimal(min), Pad(sec) + NatToDecimal(sec);
    PaddedValue(min);
    PaddedValue(sec);
    assert FormatTime(min, sec) == mm + [':'] + ss;
    ParseJoined(mm, ss);
  }

  /** `getSvgPathForChar`. */
  function GlyphPath(c: char): (p: string)
    ensures |p| >= 11 && p[..6] == "chars/" && p[|p| - 4..] == ".svg"
  {
    if c == ':' then "chars/colon.svg" else "chars/" + [c] + ".svg"
  }

  /** `getSvgPathForCountdownTimerBorder`. */
  function BorderPath(name: string): (p: string)
    ensures |p| == |name| + 11 && p[..7] == "border/" && p[7..|p| - 4] == name && p[|p| - 4..] == ".svg"
  {
    "border/" + name + ".svg"
  }

  /** Distinct characters get distinct glyph files: `':'` is spelled out,
      every other character is the file's one-character stem. */
  lemma GlyphPathInjective(c: char, d: char)
    requires c != d
    ensures GlyphPath(c) != GlyphPath(d)
  {
    if c != ':' && d != ':' {
      assert GlyphPath(c)[6] == c && GlyphPath(d)[6] == d;
    } else {
      assert |GlyphPath(c)| != |GlyphPath(d)|;
    }
  }

  const BorderMargin: nat := 20
  const Spacing: nat := 10
  const DigitWidth: nat := 100
  const DigitHeight: nat := 150
  const CharWidth: nat := 40
  const CharHeight: nat := 60
  const TitleY: nat := BorderMargin
  const DigitsY: nat := BorderMargin + CharHeight + 20

  /** Width of a row of `n` glyphs with `Spacing` between neighbours. */
  function RowWidth(n: nat, glyph: nat): (w: nat)
    ensures n == 0 ==> w == 0
    ensures n > 0 ==> w + Spacing == n * (glyph + Spacing)
  {
    var w := n * glyph + (if n > 0 then n - 1 else 0) * Spacing;
    assert n > 0 ==> n * (glyph + Spacing) == n * glyph + (n - 1) * Spacing + Spacing;
    w
  }

  function Max(a: int, b: int): int {
    if a >= b then a else b
  }

  /** Canvas and row positions for a title and a time string. */
  datatype Layout = Layout(
    canvasWidth: int, canvasHeight: int,
    titleGlyphs: seq<string>, digitGlyphs: seq<string>, borderFile: string,
    titleXs: seq<int>, digitXs: seq<int>)

  /** The left edge of a centred row: `(canvas_width - row_width) / 2`, with
      C's division, which truncates toward zero. */
  function RowStart(canvasWidth: int, rowWidth: nat): (x: int)
    ensures canvasWidth >= rowWidth ==> 2 * x <= canvasWidth - rowWidth <= 2 * x + 1
    ensures canvasWidth < rowWidth ==> 2 * x >= canvasWidth - rowWidth >= 2 * x - 1
  {
    var d := canvasWidth - rowWidth;
    if d >= 0 then d / 2 else -((-d) / 2)
  }

  /** The `i`-th glyph of a row sits `i` steps of glyph width plus spacing
      after the start, so the last one ends exactly one row width after it. */
  lemma {:induction false} LastGlyphEnd(n: nat, glyph: nat)
    requires n >= 1
    ensures (n - 1) * (glyph + Spacing) + glyph == RowWidth(n, glyph)
  {
    assert (n - 1) * (glyph + Spacing) == (n - 1) * glyph + (n - 1) * Spacing;
    assert n * glyph == (n - 1) * glyph + glyph;
  }

  /** Centring a row no wider than the content on a canvas of content width
      plus two margins keeps the row inside the margins, with the left gap at
      most one pixel narrower than the right. */
  lemma {:induction false} Centred(contentWidth: nat, rowWidth: nat)
    requires rowWidth <= contentWidth
    ensures var canvas := contentWidth + 2 * BorderMargin;
            var start := RowStart(canvas, rowWidth);
            BorderMargin <= start && start + rowWidth <= canvas - BorderMargin &&
            start - BorderMargin <= (canvas - BorderMargin) - (start + rowWidth) <= start - BorderMargin + 1
  {
  }

  /** The placement loop: each glyph is drawn at the running x, which then
      advances by the glyph width plus the spacing. */
  method PlaceRow(n: nat, glyph: nat, start: int) returns (xs: seq<int>)
    ensures |xs| == n
    ensures forall i :: 0 <= i < n ==> xs[i] == start + i * (glyph + Spacing)
  {
    xs := [];
    var x := start;
    while |xs| < n
      invariant |xs| <= n
      invariant x == start + |xs| * (glyph + Spacing)
      invariant forall i :: 0 <= i < |xs| ==> xs[i] == start + i * (glyph + Spacing)
    {
      xs := xs + [x];
      x := x + glyph + Spacing;
    }
  }

  /** The glyph file of every character, in order, as the render loops
      request them. */
  method GlyphFiles(text: string) returns (paths: seq<string>)
    ensures |paths| == |text|
    ensures forall i :: 0 <= i < |text| ==> paths[i] == GlyphPath(text[i])
  {
    paths := [];
    for i := 0 to |text|
      invariant |paths| == i
      invariant forall j :: 0 <= j < i ==> paths[j] == GlyphPath(text[j])
    {
      paths := paths + [GlyphPath(text[i])];
    }
  }

  /** All glyphs of a placed row lie inside the border margins. */
  lemma RowInside(xs: seq<int>, n: nat, glyph: nat, contentWidth: nat)
    requires RowWidth(n, glyph) <= contentWidth
    requires |xs| == n
    requires forall i :: 0 <= i < n ==>
               xs[i] == RowStart(contentWidth + 2 * BorderMargin, RowWidth(n, glyph)) + i * (glyph + Spacing)
    ensures forall i :: 0 <= i < n ==>
              BorderMargin <= xs[i] && xs[i] + glyph <= contentWidth + 2 * BorderMargin - BorderMargin
  {
    Centred(contentWidth, RowWidth(n, glyph));
    forall i | 0 <= i < n
      ensures BorderMargin <= xs[i] && xs[i] + glyph <= contentWidth + BorderMargin
    {
      LastGlyphEnd(n, glyph);
      MulMono(i, n - 1, glyph + Spacing);
    }
  }

  /** The layout part of `countdownTimer`, after the prompts: the time text,
      the glyph files, the canvas size and the x of every glyph. */
  method CountdownLayout(title: string, minutes: int, seconds: int, borderChoice: string)
    returns (time: string, layout: Layout)
    ensures time == FormatTime(minutes, seconds)
    ensures layout.canvasHeight == 270
    ensures layout.canvasWidth == Max(RowWidth(|title|, CharWidth), RowWidth(|time|, DigitWidth)) + 2 * BorderMargin
    ensures layout.borderFile == BorderPath(borderChoice)
    ensures |layout.titleGlyphs| == |layout.titleXs| == |title|
    ensures |layout.digitGlyphs| == |layout.digitXs| == |time|
    ensures forall i :: 0 <= i < |title| ==> layout.titleGlyphs[i] == GlyphPath(title[i])
    ensures forall i :: 0 <= i < |time| ==> layout.digitGlyphs[i] == GlyphPath(time[i])
    ensures forall i :: 0 <= i < |title| ==>
              layout.titleXs[i] == RowStart(layout.canvasWidth, RowWidth(|title|, CharWidth)) + i * (CharWidth + Spacing) &&
              BorderMargin <= layout.titleXs[i] && layout.titleXs[i] + CharWidth <= layout.canvasWidth - BorderMargin
    ensures forall i :: 0 <= i < |time| ==>
              layout.digitXs[i] == RowStart(layout.canvasWidth, RowWidth(|time|, DigitWidth)) + i * (DigitWidth + Spacing) &&
              BorderMargin <= layout.digitXs[i] && layout.digitXs[i] + DigitWidth <= layout.canvasWidth - BorderMargin
  {
    time := FormatTime(minutes, seconds);
    var titleGlyphs := GlyphFiles(title);
    var digitGlyphs := GlyphFiles(time);
    var titleRowWidth := RowWidth(|titleGlyphs|, CharWidth);
    var digitsRowWidth := RowWidth(|digitGlyphs|, DigitWidth);
    var contentWidth := Max(titleRowWidth, digitsRowWidth);
    var canvasWidth := contentWidth + 2 * BorderMargin;
    var canvasHeight := DigitsY + DigitHeight + BorderMargin;
    var titleXs := PlaceRow(|titleGlyphs|, CharWidth, RowStart(canvasWidth, titleRowWidth));
    var digitXs := PlaceRow(|digitGlyphs|, DigitWidth, RowStart(canvasWidth, digitsRowWidth));
    RowInside(titleXs, |title|, CharWidth, contentWidth);
    RowInside(digitXs, |time|, DigitWidth, contentWidth);
    layout := Layout(canvasWidth, canvasHeight, titleGlyphs, digitGlyphs, BorderPath(borderChoice), titleXs, digitXs);
  }
}
