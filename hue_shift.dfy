/** The per-pixel hue shift of recolor_png.cpp (`hue_shift_png`): a Cairo
    ARGB32 image surface is rewritten in place, one premultiplied 32-bit word
    at a time. The HSV rotation itself is floating-point work outside this
    model; it enters as a function `shift` on straight (non-premultiplied)
    colour. Un-premultiplying, clamping and re-premultiplying are modelled
    over `real`. Words and bytes are unsigned integers; a shift right by `k`
    bits followed by `& 0xFF` is division by `2^k` followed by `% 256`, and
    the repacking `|` of disjoint shifted bytes is their weighted sum. */
module HueShift {
  import opened Arith

  /** A `uint32_t` pixel word and a `uint8_t` channel. */
  type Word = w: int | 0 <= w < 0x1_0000_0000
  type Byte = b: int | 0 <= b < 0x100

  /** The four bytes of one pixel word. */
  datatype Argb = Argb(a: Byte, r: Byte, g: Byte, b: Byte)

  /** The colour transform on straight red, green and blue. */
  type Transform = (real, real, real) -> (real, real, real)

  /** An ARGB32 image surface: `height` rows of `width` pixel words, row `y`
      starting at word `y * stride`. The stride is counted in 32-bit words
      (Cairo's byte stride divided by four). */
  class Surface {
    const width: nat
    const height: nat
    const stride: nat
    const data: array<Word>

    ghost predicate Valid() {
      width <= stride && (height == 0 || (height - 1) * stride + width <= data.Length)
    }
  }

  /** Unpacks a word by shifts, as `(p >> 24) & 0xFF` and so on: each shift
      by eight more bits is one more division by 256. */
  function Unpack(p: Word): Argb {
    Argb(p / 0x100 / 0x100 / 0x100, p / 0x100 / 0x100 % 0x100, p / 0x100 % 0x100, p % 0x100)
  }

  /** Repacks four bytes as `(a << 24) | (r << 16) | (g << 8) | b`. */
  function Pack(c: Argb): Word {
    var ar := c.a * 0x100 + c.r;
    var arg := ar * 0x100 + c.g;
    arg * 0x100 + c.b
  }

  /** Appending a byte below `q` and taking it off again. */
  lemma SplitByte(q: nat, r: Byte)
    ensures (q * 0x100 + r) / 0x100 == q && (q * 0x100 + r) % 0x100 == r
  {
  }

  lemma PackUnpack(p: Word)
    ensures Pack(Unpack(p)) == p
  {
    var p1 := p / 0x100;
    var p2 := p1 / 0x100;
    assert p == p1 * 0x100 + p % 0x100;
    assert p1 == p2 * 0x100 + p1 % 0x100;
    assert p2 == p2 / 0x100 * 0x100 + p2 % 0x100;
  }

  lemma UnpackPack(c: Argb)
    ensures Unpack(Pack(c)) == c
  {
    var ar := c.a * 0x100 + c.r;
    var arg := ar * 0x100 + c.g;
    SplitByte(arg, c.b);
    SplitByte(ar, c.g);
    SplitByte(c.a, c.r);
  }

  function Clamp01(x: real): (y: real)
    ensures 0.0 <= y <= 1.0
    ensures 0.0 <= x <= 1.0 ==> y == x
    ensures x < 0.0 ==> y == 0.0
    ensures x > 1.0 ==> y == 1.0
  {
    if x < 0.0 then 0.0 else if x > 1.0 then 1.0 else x
  }

  /** `std::round`: halves are rounded away from zero. */
  function Round(x: real): (n: int)
    ensures x >= 0.0 ==> x - 0.5 <= n as real <= x + 0.5 && n >= 0
    ensures x < 0.0 ==> x - 0.5 <= n as real <= x + 0.5 && n <= 0
  {
    if x >= 0.0 then (x + 0.5).Floor else -((-x + 0.5).Floor)
  }

  lemma RoundInt(n: int)
    ensures Round(n as real) == n
  {
  }

  lemma ScaleBound(c: real, ar: real)
    requires 0.0 <= c <= 1.0 && 0.0 <= ar
    ensures 0.0 <= c * ar <= ar
  {
  }

  /** `std::round(C * A * 255.0)` for a clamped channel `C` and `A = a / 255`:
      the result lies between 0 and the alpha byte, so the `uint8_t` cast does
      not wrap. */
  function Premultiply(c: real, a: nat): (v: int)
    requires 0.0 <= c <= 1.0
    ensures 0 <= v <= a
  {
    var x := c * (a as real / 255.0) * 255.0;
    assert x == c * a as real;
    ScaleBound(c, a as real);
    Round(x)
  }

  /** The straight value of a premultiplied channel: `(c / 255) / (a / 255)`. */
  function Unpremultiply(c: nat, a: nat): (u: real)
    requires a != 0
    ensures u >= 0.0
    ensures c <= a ==> u <= 1.0
  {
    (c as real / 255.0) / (a as real / 255.0)
  }

  /** The re-premultiplied channel byte stored in the word. */
  function ChannelByte(c: real, a: Byte): (v: Byte)
    ensures v <= a
  {
    Premultiply(Clamp01(c), a)
  }

  /** The body of the inner loop for one word: transparent pixels are skipped
      outright; any other is un-premultiplied, transformed, clamped,
      re-premultiplied and repacked with its own alpha byte. */
  function ShiftPixel(p: Word, shift: Transform): (q: Word)
    ensures Unpack(q).a == Unpack(p).a
    ensures Unpack(p).a == 0 ==> q == p
    ensures Unpack(p).a != 0 ==> Premultiplied(q)
  {
    var c := Unpack(p);
    if c.a == 0 then p
    else
      var rgb := shift(Unpremultiply(c.r, c.a), Unpremultiply(c.g, c.a), Unpremultiply(c.b, c.a));
      var out := Argb(c.a, ChannelByte(rgb.0, c.a), ChannelByte(rgb.1, c.a), ChannelByte(rgb.2, c.a));
      UnpackPack(out);
      Pack(out)
  }

  /** Every colour byte of a valid premultiplied pixel is at most its alpha. */
  predicate Premultiplied(p: Word) {
    var c := Unpack(p);
    c.r <= c.a && c.g <= c.a && c.b <= c.a
  }

  function Identity(r: real, g: real, b: real): (real, real, real) { (r, g, b) }

  /** `(c / 255) / (a / 255)` is at most 1 when `c <= a`, and scaling it back
      by `a / 255` and 255 gives `c`. */
  lemma UnpremultiplyBound(c: nat, a: nat)
    requires 0 < a && c <= a
    ensures 0.0 <= Unpremultiply(c, a) <= 1.0
    ensures Unpremultiply(c, a) * (a as real / 255.0) * 255.0 == c as real
  {
    var u := Unpremultiply(c, a);
    assert u * (a as real / 255.0) == c as real / 255.0;
    assert u * a as real == c as real;
  }

  /** Un-premultiplying then re-premultiplying gives the value back whenever
      it does not exceed alpha. */
  lemma PremultiplyUndoes(c: nat, a: nat)
    requires 0 < a && c <= a
    ensures Premultiply(Clamp01(Unpremultiply(c, a)), a) == c
  {
    UnpremultiplyBound(c, a);
    RoundInt(c);
  }

  /** The same round trip on the bytes of a pixel word. */
  lemma ChannelByteUndoes(c: Byte, a: Byte)
    requires a != 0 && c <= a
    ensures ChannelByte(Unpremultiply(c, a), a) == c
  {
    PremultiplyUndoes(c, a);
  }

  /** With the identity colour transform a pixel is left unchanged exactly
      when it is transparent or validly premultiplied: the rounding round
      trip is exact, and a colour byte above alpha is clamped down to it. */
  lemma IdentityShiftFixes(p: Word)
    ensures ShiftPixel(p, Identity) == p <==> (Unpack(p).a == 0 || Premultiplied(p))
  {
    var c := Unpack(p);
    if c.a != 0 && Premultiplied(p) {
      ChannelByteUndoes(c.r, c.a);
      ChannelByteUndoes(c.g, c.a);
      ChannelByteUndoes(c.b, c.a);
      PackUnpack(p);
    }
  }

  /** Whether word `i` of the buffer is one of the `w` pixels of one of the
      first `h` rows. */
  predicate InImage(i: int, w: nat, h: nat, stride: nat) {
    stride > 0 && 0 <= i && i / stride < h && i % stride < w
  }

  /** The buffer after the hue shift: image words are shifted, stride padding
      and everything past the last row are not. */
  function Shifted(d: seq<Word>, w: nat, h: nat, stride: nat, shift: Transform): (r: seq<Word>)
    ensures |r| == |d|
  {
    seq(|d|, i requires 0 <= i < |d| => if InImage(i, w, h, stride) then ShiftPixel(d[i], shift) else d[i])
  }

  /** Word `y * stride + x` is row `y`, column `x`. */
  lemma {:induction false} RowColumn(y: nat, x: nat, stride: nat)
    requires x < stride
    ensures (y * stride + x) / stride == y && (y * stride + x) % stride == x
  {
    var i := y * stride + x;
    var q, r := i / stride, i % stride;
    assert i == q * stride + r;
    if q > y {
      MulMono(y + 1, q, stride);
    } else if q < y {
      MulMono(q + 1, y, stride);
    }
  }

  /** The shift reaches pixel (`x`, `y`) of the image and nothing in the
      padding after a row's `w` pixels. */
  lemma ShiftedAt(d: seq<Word>, w: nat, h: nat, stride: nat, shift: Transform, y: nat, x: nat)
    requires x < stride && y * stride + x < |d|
    ensures y < h && x < w ==> Shifted(d, w, h, stride, shift)[y * stride + x] == ShiftPixel(d[y * stride + x], shift)
    ensures x >= w || y >= h ==> Shifted(d, w, h, stride, shift)[y * stride + x] == d[y * stride + x]
  {
    RowColumn(y, x, stride);
  }

  /** Alpha bytes survive the whole pass, and transparent words are kept bit
      for bit. */
  lemma ShiftedKeepsAlpha(d: seq<Word>, w: nat, h: nat, stride: nat, shift: Transform, i: nat)
    requires i < |d|
    ensures Unpack(Shifted(d, w, h, stride, shift)[i]).a == Unpack(d[i]).a
    ensures Unpack(d[i]).a == 0 ==> Shifted(d, w, h, stride, shift)[i] == d[i]
  {
  }

  /** A shift with the identity transform leaves the buffer as it was when
      every image word is transparent or validly premultiplied; stride
      padding may hold anything. */
  lemma {:induction false} IdentityShiftedUnchanged(d: seq<Word>, w: nat, h: nat, stride: nat)
    requires forall i :: 0 <= i < |d| && InImage(i, w, h, stride) ==> Unpack(d[i]).a == 0 || Premultiplied(d[i])
    ensures Shifted(d, w, h, stride, Identity) == d
  {
    forall i | 0 <= i < |d| ensures Shifted(d, w, h, stride, Identity)[i] == d[i] {
      IdentityShiftFixes(d[i]);
    }
  }

  /** Whether the loops, now at row `y` and column `x`, have already
      rewritten word `i`. */
  ghost predicate Visited(i: int, w: nat, h: nat, stride: nat, y: nat, x: nat) {
    InImage(i, w, h, stride) && (i / stride < y || (i / stride == y && i % stride < x))
  }

  /** One step of the inner loop visits exactly word `y * stride + x`. */
  lemma VisitStep(i: int, w: nat, h: nat, stride: nat, y: nat, x: nat)
    requires y < h && x < w <= stride
    ensures Visited(i, w, h, stride, y, x + 1) <==> Visited(i, w, h, stride, y, x) || i == y * stride + x
  {
    RowColumn(y, x, stride);
    if InImage(i, w, h, stride) && i / stride == y && i % stride == x {
      assert i == (i / stride) * stride + i % stride;
    }
  }

  /** The two nested loops of `hue_shift_png`, rewriting each word of the
      image in place. */
  method HueShiftPixels(s: Surface, shift: Transform)
    requires s.Valid()
    modifies s.data
    ensures s.data[..] == Shifted(old(s.data[..]), s.width, s.height, s.stride, shift)
  {
    ghost var d0 := s.data[..];
    var w, h, stride := s.width, s.height, s.stride;
    for y := 0 to h
      invariant forall i :: 0 <= i < s.data.Length ==>
        s.data[i] == if Visited(i, w, h, stride, y, 0) then ShiftPixel(d0[i], shift) else d0[i]
    {
      for x := 0 to w
        invariant forall i :: 0 <= i < s.data.Length ==>
          s.data[i] == if Visited(i, w, h, stride, y, x) then ShiftPixel(d0[i], shift) else d0[i]
      {
        MulMono(y, h - 1, stride);
        RowColumn(y, x, stride);
        var k := y * stride + x;
        assert !Visited(k, w, h, stride, y, x);
        ghost var before := s.data[..];
        s.data[k] := ShiftPixel(s.data[k], shift);
        forall i | 0 <= i < s.data.Length
          ensures s.data[i] == if Visited(i, w, h, stride, y, x + 1) then ShiftPixel(d0[i], shift) else d0[i]
        {
          VisitStep(i, w, h, stride, y, x);
          if i != k {
            assert s.data[i] == before[i];
          }
        }
      }
      assert forall i :: Visited(i, w, h, stride, y, w) == Visited(i, w, h, stride, y + 1, 0);
    }
  }
}
