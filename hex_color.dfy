/** Hex colour parsing of the recolouring tool: the strict `parse_hex_rgba`
    (recolor_png.cpp) and the `sscanf("%02x")` field reader it shares with
    the lenient key-to-colour path (cairo_set_source_rgba.cpp). */
module HexColor {
  import opened Wrappers

  /** An 8-bit channel value. */
  type Byte = x: int | 0 <= x < 256

  /** A colour as four channel bytes, straight (not premultiplied). */
  datatype Rgba = Rgba(r: Byte, g: Byte, b: Byte, a: Byte)

  /** The same colour as the doubles the source hands to Cairo, each byte / 255. */
  datatype Color = Color(r: real, g: real, b: real, a: real)

  predicate IsHexDigit(c: char) {
    '0' <= c <= '9' || 'a' <= c <= 'f' || 'A' <= c <= 'F'
  }

  predicate AllHex(s: string) {
    forall i :: 0 <= i < |s| ==> IsHexDigit(s[i])
  }

  function HexValue(c: char): (v: nat)
    requires IsHexDigit(c)
    ensures v < 16
  {
    if '0' <= c <= '9' then c as int - '0' as int
    else if 'a' <= c <= 'f' then c as int - 'a' as int + 10
    else c as int - 'A' as int + 10
  }

  /** The lower-case hex digit for a value below 16. */
  function HexDigit(v: nat): (c: char)
    requires v < 16
    ensures IsHexDigit(c) && HexValue(c) == v
  {
    if v < 10 then ('0' as int + v) as char else ('a' as int + v - 10) as char
  }

  /** The byte spelled by two hex digits. */
  function PairValue(hi: char, lo: char): Byte
    requires IsHexDigit(hi) && IsHexDigit(lo)
  {
    HexValue(hi) * 16 + HexValue(lo)
  }

  /** One `%02x` conversion of `sscanf`: it reads at most two hex digits and
      fails when the first character is not one. The result is the value
      read and the number of characters consumed. */
  function ReadHexField(s: string): (r: Option<(Byte, nat)>)
    ensures r.Some? <==> |s| > 0 && IsHexDigit(s[0])
    ensures r.Some? ==> 1 <= r.value.1 <= 2 && r.value.1 <= |s|
    ensures r.Some? && |s| >= 2 && IsHexDigit(s[1]) ==> r.value == (PairValue(s[0], s[1]), 2)
    ensures r.Some? && (|s| < 2 || !IsHexDigit(s[1])) ==> r.value == (HexValue(s[0]), 1)
  {
    if |s| == 0 || !IsHexDigit(s[0]) then None
    else if |s| >= 2 && IsHexDigit(s[1]) then Some((PairValue(s[0], s[1]), 2))
    else Some((HexValue(s[0]), 1))
  }

  /** The values stored by `sscanf` with `k` consecutive `%02x` conversions:
      scanning stops at the first conversion that fails, so the result holds
      the successful conversions in order. Its length is the count `sscanf`
      returns, except that `sscanf` returns `EOF` rather than 0 when the text
      ends before the first conversion; both callers treat the two alike. */
  function ScanHex(s: string, k: nat): (vs: seq<Byte>)
    ensures |vs| <= k
    ensures k > 0 && |s| > 0 && IsHexDigit(s[0]) ==> |vs| >= 1
    ensures |vs| > 0 ==> |s| > 0 && IsHexDigit(s[0])
    decreases k
  {
    if k == 0 then []
    else
      match ReadHexField(s)
      case None => []
      case Some((v, used)) => [v] + ScanHex(s[used..], k - 1)
  }

  /** The byte spelled by the `j`-th pair of digits of `s`. */
  function Pair(s: string, j: nat): Byte
    requires 2 * j + 1 < |s| && AllHex(s)
  {
    PairValue(s[2 * j], s[2 * j + 1])
  }

  /** On a run of hex digits every conversion reads a full pair. */
  lemma {:induction false} ScanAllHex(s: string, k: nat)
    requires AllHex(s) && |s| >= 2 * k
    ensures |ScanHex(s, k)| == k
    ensures forall j :: 0 <= j < k ==> ScanHex(s, k)[j] == Pair(s, j)
  {
    if k > 0 {
      var rest := s[2..];
      assert AllHex(rest);
      ScanAllHex(rest, k - 1);
      assert ScanHex(s, k) == [Pair(s, 0)] + ScanHex(rest, k - 1);
      forall j | 1 <= j < k ensures ScanHex(s, k)[j] == Pair(s, j) {
        assert Pair(rest, j - 1) == Pair(s, j);
      }
    }
  }

  /** When the `j`-th pair of a digit string does not start with a hex digit,
      scanning stops there: exactly `j` values are read. */
  lemma {:induction false} ScanStopsAtBadPair(s: string, k: nat, j: nat)
    requires j < k && 2 * j < |s|
    requires AllHex(s[..2 * j]) && !IsHexDigit(s[2 * j])
    ensures |ScanHex(s, k)| == j
  {
    if j > 0 {
      var rest := s[2..];
      var head := rest[..2 * (j - 1)];
      assert AllHex(head) by {
        forall i | 0 <= i < |head| ensures IsHexDigit(head[i]) {
          assert head[i] == s[..2 * j][i + 2];
        }
      }
      assert s[0] == s[..2 * j][0] && s[1] == s[..2 * j][1];
      ScanStopsAtBadPair(rest, k - 1, j - 1);
    }
  }

  /** `parse_hex_rgba`: `#RRGGBB` (alpha 255) or `#RRGGBBAA`; anything else,
      or a scan that does not convert every field, fails. */
  function ParseHexRgba(hex: string): (c: Option<Rgba>)
    ensures c.Some? ==> |hex| > 0 && hex[0] == '#' && (|hex| == 7 || |hex| == 9)
    ensures c.Some? && |hex| == 7 ==> c.value.a == 255
  {
    if |hex| == 0 || hex[0] != '#' then None
    else if |hex| == 7 then
      var vs := ScanHex(hex[1..], 3);
      if |vs| != 3 then None else Some(Rgba(vs[0], vs[1], vs[2], 255))
    else if |hex| == 9 then
      var vs := ScanHex(hex[1..], 4);
      if |vs| != 4 then None else Some(Rgba(vs[0], vs[1], vs[2], vs[3]))
    else None
  }

  /** The doubles the source stores through its out-parameters. */
  function ToColor(c: Rgba): (u: Color)
    ensures 0.0 <= u.r <= 1.0 && 0.0 <= u.g <= 1.0 && 0.0 <= u.b <= 1.0 && 0.0 <= u.a <= 1.0
    ensures u.r * 255.0 == c.r as real && u.g * 255.0 == c.g as real
    ensures u.b * 255.0 == c.b as real && u.a * 255.0 == c.a as real
  {
    Color(c.r as real / 255.0, c.g as real / 255.0, c.b as real / 255.0, c.a as real / 255.0)
  }

  /** `#` followed by six hex digits parses to the three pairs and alpha 255. */
  lemma SixDigitsParse(hex: string)
    requires |hex| == 7 && hex[0] == '#' && AllHex(hex[1..])
    ensures ParseHexRgba(hex) == Some(Rgba(Pair(hex[1..], 0), Pair(hex[1..], 1), Pair(hex[1..], 2), 255))
  {
    ScanAllHex(hex[1..], 3);
  }

  /** `#` followed by eight hex digits parses to the four pairs, the last
      being alpha. */
  lemma EightDigitsParse(hex: string)
    requires |hex| == 9 && hex[0] == '#' && AllHex(hex[1..])
    ensures ParseHexRgba(hex) == Some(Rgba(Pair(hex[1..], 0), Pair(hex[1..], 1), Pair(hex[1..], 2), Pair(hex[1..], 3)))
  {
    ScanAllHex(hex[1..], 4);
  }

  /** A pair whose first character is not a hex digit makes the strict parser
      fail, whatever follows. */
  lemma BadPairFails(hex: string, j: nat)
    requires |hex| == 7 || |hex| == 9
    requires hex[0] == '#' && 2 * j + 1 < |hex|
    requires AllHex(hex[1..][..2 * j]) && !IsHexDigit(hex[1 + 2 * j])
    ensures ParseHexRgba(hex) == None
  {
    ScanStopsAtBadPair(hex[1..], (|hex| - 1) / 2, j);
  }

  /** The two lower-case digits of a byte. */
  function ByteHex(v: Byte): (s: string)
    ensures |s| == 2 && AllHex(s) && PairValue(s[0], s[1]) == v
  {
    [HexDigit(v / 16), HexDigit(v % 16)]
  }

  /** Writes a colour as `#rrggbb`, or `#rrggbbaa` when it is not opaque. */
  function EncodeHex(c: Rgba): (s: string)
    ensures |s| == (if c.a == 255 then 7 else 9) && s[0] == '#' && AllHex(s[1..])
  {
    "#" + ByteHex(c.r) + ByteHex(c.g) + ByteHex(c.b) + (if c.a == 255 then "" else ByteHex(c.a))
  }

  /** Round trip: every colour written by `EncodeHex` parses back to itself. */
  lemma ParseEncode(c: Rgba)
    ensures ParseHexRgba(EncodeHex(c)) == Some(c)
  {
    var s := EncodeHex(c);
    var d := s[1..];
    assert d == ByteHex(c.r) + ByteHex(c.g) + ByteHex(c.b) + (if c.a == 255 then "" else ByteHex(c.a));
    assert Pair(d, 0) == c.r && Pair(d, 1) == c.g && Pair(d, 2) == c.b;
    if c.a == 255 {
      SixDigitsParse(s);
    } else {
      assert Pair(d, 3) == c.a;
      EightDigitsParse(s);
    }
  }
}
