/** Image loading of import_check.cpp: case-insensitive suffix tests, the
    dispatch of `load_image_or_svg` on the file extension, and the size
    fallback and failure paths of `render_svg`. The PNG decoder and the SVG
    library are collaborators: their outcome for the path at hand is passed
    in. A loaded surface is represented by its dimensions. */
module ImageLoader {
  import opened Wrappers

  /** The ASCII fold of `ends_with_ci` (and of `tolower` in the C locale):
      `A`..`Z` become `a`..`z`, every other character is kept. */
  function Lower(c: char): char {
    if 'A' <= c <= 'Z' then (c as int + 32) as char else c
  }

  function LowerAll(s: string): seq<char> {
    seq(|s|, i requires 0 <= i < |s| => Lower(s[i]))
  }

  /** `s` ends with `suf` once both are folded to lower case. */
  predicate CiSuffix(s: string, suf: string) {
    |s| >= |suf| && LowerAll(s[|s| - |suf|..]) == LowerAll(suf)
  }

  /** `ends_with_ci`: the loop over the last `n` characters, returning at the
      first mismatch. */
  method EndsWithCi(s: string, suf: string) returns (r: bool)
    ensures r == CiSuffix(s, suf)
    ensures |s| < |suf| ==> !r
    ensures suf == [] ==> r
  {
    var n := |suf|;
    if |s| < n {
      return false;
    }
    var i := 0;
    while i < n
      invariant 0 <= i <= n
      invariant forall j :: 0 <= j < i ==> Lower(s[|s| - n + j]) == Lower(suf[j])
    {
      var a, b := s[|s| - n + i], suf[i];
      if 'A' <= a <= 'Z' {
        a := (a as int + 32) as char;
      }
      if 'A' <= b <= 'Z' {
        b := (b as int + 32) as char;
      }
      if a != b {
        assert LowerAll(s[|s| - n..])[i] != LowerAll(suf)[i];
        return false;
      }
      i := i + 1;
    }
    assert LowerAll(s[|s| - n..]) == LowerAll(suf);
    return true;
  }

  /** Case-insensitive suffixes ignore case on both sides. */
  lemma CiSuffixIgnoresCase(s: string, suf: string)
    ensures CiSuffix(s, suf) <==> CiSuffix(LowerAll(s), LowerAll(suf))
  {
    if |s| >= |suf| {
      var t := s[|s| - |suf|..];
      var lt := LowerAll(s)[|s| - |suf|..];
      assert LowerAll(lt) == LowerAll(t) by {
        forall i | 0 <= i < |t| ensures LowerAll(lt)[i] == LowerAll(t)[i] {
          assert lt[i] == Lower(t[i]);
        }
      }
      assert LowerAll(LowerAll(suf)) == LowerAll(suf);
    }
  }

  /** `strncasecmp(a, b, n)` on two C strings: `a` and `b` end at their first
      NUL or at the end of the sequence. The result is zero exactly when the
      first `n` characters agree after folding. */
  function StrNCaseCmp(a: string, b: string, n: nat): int
    decreases n
  {
    if n == 0 then 0
    else
      var c1 := if |a| > 0 then Lower(a[0]) else '\0';
      var c2 := if |b| > 0 then Lower(b[0]) else '\0';
      if c1 != c2 then c1 as int - c2 as int
      else if c1 == '\0' then 0
      else StrNCaseCmp(a[1..], b[1..], n - 1)
  }

  /** `ends_with`: the `strncasecmp` form of the same test. */
  predicate EndsWith(s: string, suf: string) {
    |s| >= |suf| && StrNCaseCmp(s[|s| - |suf|..], suf, |suf|) == 0
  }

  lemma {:induction false} StrNCaseCmpZero(a: string, b: string)
    requires |a| == |b| && '\0' !in b
    ensures StrNCaseCmp(a, b, |b|) == 0 <==> LowerAll(a) == LowerAll(b)
  {
    if |b| > 0 {
      assert b[0] in b;
      if Lower(a[0]) == Lower(b[0]) {
        StrNCaseCmpZero(a[1..], b[1..]);
        if LowerAll(a[1..]) == LowerAll(b[1..]) {
          assert LowerAll(a) == [Lower(a[0])] + LowerAll(a[1..]);
          assert LowerAll(b) == [Lower(b[0])] + LowerAll(b[1..]);
        } else {
          var j :| 0 <= j < |b| - 1 && LowerAll(a[1..])[j] != LowerAll(b[1..])[j];
          assert LowerAll(a)[j + 1] != LowerAll(b)[j + 1];
        }
      } else {
        assert LowerAll(a)[0] != LowerAll(b)[0];
      }
    } else {
      assert LowerAll(a) == LowerAll(b);
    }
  }

  /** `ends_with` and `ends_with_ci` accept the same strings: a C-string
      suffix holds no NUL. */
  lemma EndsWithAgrees(s: string, suf: string)
    requires '\0' !in suf
    ensures EndsWith(s, suf) <==> CiSuffix(s, suf)
  {
    if |s| >= |suf| {
      StrNCaseCmpZero(s[|s| - |suf|..], suf);
    }
  }

  /** A path cannot end in both `.png` and `.svg`, so the order of the two
      tests in `load_image_or_svg` only matters for the error path. */
  lemma PngAndSvgExclusive(path: string)
    ensures !(CiSuffix(path, ".png") && CiSuffix(path, ".svg"))
  {
    if CiSuffix(path, ".png") {
      assert LowerAll(path[|path| - 4..])[1] == 'p';
      assert LowerAll(".svg")[1] == 's';
    }
  }

  /** Width and height of a surface. */
  datatype Dims = Dims(width: int, height: int)

  /** What the SVG library does with one file: whether a handle can be
      created, the intrinsic size it reports, and whether rendering into the
      viewport succeeds. */
  datatype SvgFile = SvgFile(opens: bool, intrinsic: Dims, renders: bool)

  /** One axis of the fallback: a positive request is kept, otherwise the
      intrinsic size when positive, otherwise the default. */
  function AxisSize(requested: int, intrinsic: int, fallback: int): (n: int)
    requires fallback > 0
    ensures n > 0
    ensures requested > 0 ==> n == requested
    ensures requested <= 0 && intrinsic > 0 ==> n == intrinsic
    ensures requested <= 0 && intrinsic <= 0 ==> n == fallback
  {
    if requested > 0 then requested else if intrinsic > 0 then intrinsic else fallback
  }

  /** The viewport `render_svg` renders into: the intrinsic size is consulted
      only when one of the requested sizes is not positive, with 800 x 600 as
      the last resort. */
  function SvgSize(w: int, h: int, intrinsic: Dims): (d: Dims)
    ensures d.width > 0 && d.height > 0
    ensures d == Dims(AxisSize(w, intrinsic.width, 800), AxisSize(h, intrinsic.height, 600))
  {
    if w <= 0 || h <= 0 then
      Dims(if w <= 0 then (if intrinsic.width > 0 then intrinsic.width else 800) else w,
           if h <= 0 then (if intrinsic.height > 0 then intrinsic.height else 600) else h)
    else Dims(w, h)
  }

  /** `render_svg`: null when the handle cannot be created or rendering
      fails, otherwise a surface of the fallback size. */
  function RenderSvg(w: int, h: int, svg: SvgFile): (r: Option<Dims>)
    ensures r.Some? <==> svg.opens && svg.renders
    ensures r.Some? ==> r.value.width > 0 && r.value.height > 0
    ensures r.Some? && w > 0 && h > 0 ==> r.value == Dims(w, h)
  {
    if !svg.opens then None
    else
      var size := SvgSize(w, h, svg.intrinsic);
      if !svg.renders then None else Some(size)
  }

  /** The three outcomes of the extension dispatch. */
  datatype Loader = PngLoader | SvgRenderer | Unsupported

  /** The loader `load_image_or_svg` picks: the PNG test comes first, but
      the two extensions never both match, so each outcome is characterised
      by its own suffix alone. */
  function Dispatch(path: string): (l: Loader)
    ensures l == PngLoader <==> CiSuffix(path, ".png")
    ensures l == SvgRenderer <==> CiSuffix(path, ".svg")
    ensures l == Unsupported <==> !CiSuffix(path, ".png") && !CiSuffix(path, ".svg")
  {
    PngAndSvgExclusive(path);
    if CiSuffix(path, ".png") then PngLoader
    else if CiSuffix(path, ".svg") then SvgRenderer
    else Unsupported
  }

  /** The result of `load_image_or_svg`; `png` is what decoding the path as a
      PNG yields (`None` for a failed status). */
  function Load(path: string, width: int, height: int, png: Option<Dims>, svg: SvgFile): Option<Dims> {
    match Dispatch(path)
    case PngLoader => png
    case SvgRenderer => RenderSvg(width, height, svg)
    case Unsupported => None
  }

  /** A path with neither extension never loads; an `.svg` path that loads
      has a positive size, and the requested one when both were positive. */
  lemma LoadOutcomes(path: string, width: int, height: int, png: Option<Dims>, svg: SvgFile)
    ensures Dispatch(path) == Unsupported ==> Load(path, width, height, png, svg) == None
    ensures CiSuffix(path, ".svg") ==> Dispatch(path) == SvgRenderer
    ensures CiSuffix(path, ".svg") && Load(path, width, height, png, svg).Some? ==>
              Load(path, width, height, png, svg).value.width > 0 && Load(path, width, height, png, svg).value.height > 0
    ensures CiSuffix(path, ".svg") && width > 0 && height > 0 && svg.opens && svg.renders ==>
              Load(path, width, height, png, svg) == Some(Dims(width, height))
  {
    PngAndSvgExclusive(path);
  }

  /** `load_image_or_svg` with its two calls of `ends_with_ci`. */
  method LoadImageOrSvg(path: string, width: int, height: int, png: Option<Dims>, svg: SvgFile)
    returns (surface: Option<Dims>)
    ensures surface == Load(path, width, height, png, svg)
  {
    var isPng := EndsWithCi(path, ".png");
    if isPng {
      return png;
    }
    var isSvg := EndsWithCi(path, ".svg");
    if isSvg {
      return RenderSvg(width, height, svg);
    }
    return None;
  }
}
