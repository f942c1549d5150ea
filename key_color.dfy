/** `string_to_rgba` (cairo_set_source_rgba.cpp): a lenient hex branch for keys
    starting with `#`, and a hash-derived hue/saturation otherwise. The
    string hash and the HSV-to-RGB conversion are collaborators passed in as
    functions. */
module KeyColor {
  import opened Wrappers
  import opened HexColor

  /** How a key is turned into a colour before any HSV conversion. */
  datatype Derivation =
    | HexKey(rgba: Rgba)                       // channel bytes, default 255
    | HashKey(hue: nat, satIndex: nat)         // hash % 360 and (hash >> 9) & 0x3F

  const Value: real := 0.85

  /** The stored value of the `i`-th conversion, or the initial 255 when
      `sscanf` stopped before it. */
  function ScannedOr255(vs: seq<Byte>, i: nat): Byte {
    if i < |vs| then vs[i] else 255
  }

  /** The lenient hex branch: the result of `sscanf` is ignored, so the
      channels it did not reach keep 255, and lengths other than 7 and 9 scan
      nothing at all. */
  function LenientHex(key: string): (c: Rgba)
    requires |key| > 0 && key[0] == '#'
    ensures |key| != 7 && |key| != 9 ==> c == Rgba(255, 255, 255, 255)
    ensures |key| == 7 ==> c.a == 255
  {
    var vs := if |key| == 7 then ScanHex(key[1..], 3)
              else if |key| == 9 then ScanHex(key[1..], 4)
              else [];
    Rgba(ScannedOr255(vs, 0), ScannedOr255(vs, 1), ScannedOr255(vs, 2), ScannedOr255(vs, 3))
  }

  function HueOf(hash: bv64): (h: nat)
    ensures h < 360
  {
    (hash as int) % 360
  }

  function SatIndexOf(hash: bv64): (i: nat)
    ensures i < 64
  {
    ((hash >> 9) & 0x3F) as int
  }

  /** `0.62 + index / 255 * 0.25`: the saturation grows with the index. */
  function Saturation(satIndex: nat): (s: real)
    ensures s >= 0.62
    ensures satIndex < 64 ==> s <= 0.62 + 63.0 * 0.25 / 255.0
  {
    0.62 + satIndex as real / 255.0 * 0.25
  }

  /** The branch `string_to_rgba` takes and the integers it derives. */
  function Derive(key: string, hash: string -> bv64): (d: Derivation)
    ensures d.HexKey? <==> |key| > 0 && key[0] == '#'
    ensures d.HashKey? ==> d.hue < 360 && d.satIndex < 64
    ensures d.HashKey? ==> d.hue == (hash(key) as int) % 360
  {
    if |key| > 0 && key[0] == '#' then HexKey(LenientHex(key))
    else HashKey(HueOf(hash(key)), SatIndexOf(hash(key)))
  }

  /** The four doubles `string_to_rgba` stores. */
  function StringToRgba(key: string, hash: string -> bv64,
                        hsvToRgb: (real, real, real) -> (real, real, real)): (c: Color)
    ensures !(|key| > 0 && key[0] == '#') ==> c.a == 1.0
  {
    match Derive(key, hash)
    case HexKey(rgba) => ToColor(rgba)
    case HashKey(hue, satIndex) =>
      var rgb := hsvToRgb(hue as real, Saturation(satIndex), Value);
      Color(rgb.0, rgb.1, rgb.2, 1.0)
  }

  /** The saturation of the hash branch stays within
      [0.62, 0.62 + 63 * 0.25 / 255] (about 0.682): the upper end is well
      below the 0.87 the source's comment suggests. */
  lemma SaturationRange(key: string, hash: string -> bv64)
    requires !(|key| > 0 && key[0] == '#')
    ensures 0.62 <= Saturation(Derive(key, hash).satIndex) <= 0.62 + 63.0 * 0.25 / 255.0
    ensures Saturation(Derive(key, hash).satIndex) < 0.69
  {
  }

  /** Hash-branch colours come from hue `hash % 360`, value 0.85 and alpha 1. */
  lemma HashBranchColor(key: string, hash: string -> bv64,
                        hsvToRgb: (real, real, real) -> (real, real, real))
    requires |key| == 0 || key[0] != '#'
    ensures var h := (hash(key) as int) % 360;
            var rgb := hsvToRgb(h as real, Saturation(SatIndexOf(hash(key))), 0.85);
            StringToRgba(key, hash, hsvToRgb) == Color(rgb.0, rgb.1, rgb.2, 1.0)
  {
  }

  /** A `#` key of length 7 gives alpha 1.0 whatever its digits. */
  lemma SevenCharKeyOpaque(key: string, hash: string -> bv64,
                           hsvToRgb: (real, real, real) -> (real, real, real))
    requires |key| == 7 && key[0] == '#'
    ensures StringToRgba(key, hash, hsvToRgb).a == 1.0
  {
  }

  /** A `#` key of any length but 7 or 9 yields opaque white. */
  lemma OtherLengthKeyWhite(key: string, hash: string -> bv64,
                            hsvToRgb: (real, real, real) -> (real, real, real))
    requires |key| > 0 && key[0] == '#' && |key| != 7 && |key| != 9
    ensures StringToRgba(key, hash, hsvToRgb) == Color(1.0, 1.0, 1.0, 1.0)
  {
  }

  /** A nine-character `#` key of hex digits gives alpha = fourth pair / 255. */
  lemma NineCharKeyAlpha(key: string, hash: string -> bv64,
                         hsvToRgb: (real, real, real) -> (real, real, real))
    requires |key| == 9 && key[0] == '#' && AllHex(key[1..])
    ensures StringToRgba(key, hash, hsvToRgb).a == Pair(key[1..], 3) as real / 255.0
  {
    ScanAllHex(key[1..], 4);
  }

  /** The lenient parser never fails: once a pair does not start with a hex
      digit, that channel and every later one keep 255. */
  lemma LenientStopsAtBadPair(key: string, j: nat)
    requires (|key| == 7 && j < 3) || (|key| == 9 && j < 4)
    requires key[0] == '#' && AllHex(key[1..][..2 * j]) && !IsHexDigit(key[1 + 2 * j])
    ensures var c := LenientHex(key);
            var chans := [c.r, c.g, c.b, c.a];
            forall i :: j <= i < 4 ==> chans[i] == 255
  {
    ScanStopsAtBadPair(key[1..], (|key| - 1) / 2, j);
  }

  /** Where the strict parser accepts a colour, the lenient path stores the
      same bytes. */
  lemma LenientAgreesWithStrict(key: string)
    requires ParseHexRgba(key).Some?
    ensures LenientHex(key) == ParseHexRgba(key).value
  {
  }
}
