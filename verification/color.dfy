/**
 * Colour mathematics of the build-time analyser: alpha compositing over an
 * opaque background, the sRGB transfer curve of IEC 61966-2-1 (clause 5.2)
 * followed by the sRGB-to-XYZ matrix, XYZ to CIELAB against the D65 white,
 * and the CIE76 colour difference with its seven-bucket classifier.
 *
 * `Math.pow` and `Math.sqrt` are not computed here: they are supplied as a
 * `MathLib` value, and the lemmas assume only the handful of exact facts
 * collected in `Lawful`.
 */
module ColorHelpers {

  /** An opaque colour; the composited channels are integers. */
  datatype Rgb = Rgb(r: int, g: int, b: int)

  /** A colour with an alpha in [0, 1] on top of its integer channels. */
  datatype Rgba = Rgba(r: int, g: int, b: int, a: real)

  /** CIE XYZ tristimulus values. */
  datatype Xyz = Xyz(x: real, y: real, z: real)

  /** CIELAB coordinates. */
  datatype Lab = Lab(L: real, a: real, b: real)

  /** The seven buckets of a colour difference, in increasing order of distance. */
  datatype DiffCategory =
    | NotPerceptible
    | HardlyPerceptible
    | Perceptible
    | MoreSimilarThanOpposite
    | MoreOppositeThanSimilar
    | ExactOpposite
    | OutOfBounds
  {
    /** Position of the bucket in the list above. */
    function Rank(): nat {
      match this
      case NotPerceptible => 0
      case HardlyPerceptible => 1
      case Perceptible => 2
      case MoreSimilarThanOpposite => 3
      case MoreOppositeThanSimilar => 4
      case ExactOpposite => 5
      case OutOfBounds => 6
    }
  }

  /** `Math.pow` and `Math.sqrt`, supplied by the caller. */
  datatype MathLib = MathLib(pow: (real, real) -> real, sqrt: real -> real)

  function Square(x: real): real {
    x * x
  }

  /** The only facts about `pow` and `sqrt` the proofs rely on. */
  ghost predicate Lawful(m: MathLib) {
    && (forall y :: m.pow(1.0, y) == 1.0)
    && (forall x :: m.pow(x, 2.0) == Square(x))
    && m.sqrt(0.0) == 0.0
    && (forall x :: x >= 0.0 ==> m.sqrt(Square(x)) == x)
  }

  /** The D65 reference white used to normalise XYZ values. */
  const D65: Xyz := Xyz(0.95047, 1.0000001, 1.08883)

  /** The opaque white background the image analyser composites against. */
  const White: Rgb := Rgb(255, 255, 255)

  predicate IsChannel(v: int) {
    0 <= v <= 255
  }

  predicate IsRgb(c: Rgb) {
    IsChannel(c.r) && IsChannel(c.g) && IsChannel(c.b)
  }

  predicate IsRgba(c: Rgba) {
    IsChannel(c.r) && IsChannel(c.g) && IsChannel(c.b) && 0.0 <= c.a <= 1.0
  }

  /** The exact blend `a * fg + (1 - a) * bg` of one channel. */
  function Blend(a: real, fg: real, bg: real): real {
    a * fg + (1.0 - a) * bg
  }

  /** One composited channel: the blend rounded down. */
  function Composite(a: real, fg: int, bg: int): (v: int)
    ensures a == 1.0 ==> v == fg
    ensures a == 0.0 ==> v == bg
    ensures 0.0 <= a <= 1.0 ==> (if fg <= bg then fg <= v <= bg else bg <= v <= fg)
  {
    BlendBetween(a, fg as real, bg as real);
    Blend(a, fg as real, bg as real).Floor
  }

  /** A convex combination of two numbers lies between them. */
  lemma BlendBetween(a: real, fg: real, bg: real)
    ensures 0.0 <= a <= 1.0 && fg <= bg ==> fg <= Blend(a, fg, bg) <= bg
    ensures 0.0 <= a <= 1.0 && bg < fg ==> bg <= Blend(a, fg, bg) <= fg
  {
    if 0.0 <= a <= 1.0 {
      if fg <= bg {
        BlendTowards(a, fg, bg);
      } else {
        BlendTowards(1.0 - a, bg, fg);
        assert Blend(1.0 - a, bg, fg) == Blend(a, fg, bg) by {
          assert 1.0 - (1.0 - a) == a;
        }
      }
    }
  }

  lemma BlendTowards(a: real, lo: real, hi: real)
    requires 0.0 <= a <= 1.0 && lo <= hi
    ensures lo <= Blend(a, lo, hi) <= hi
  {
    var d := hi - lo;
    var p := a * d;
    ScaleWithin(a, d);
    assert 0.0 <= p <= d;
    calc {
      Blend(a, lo, hi);
      a * lo + (1.0 - a) * hi;
      hi - (a * hi - a * lo);
      { assert a * hi - a * lo == a * (hi - lo); }
      hi - p;
    }
  }

  lemma ScaleWithin(a: real, x: real)
    requires 0.0 <= a <= 1.0 && 0.0 <= x
    ensures 0.0 <= a * x <= x
  {
    assert (1.0 - a) * x >= 0.0;
  }

  /** `rgba2rgb`: alpha-composite `foreground` over `background`, channel by channel. */
  function Rgba2Rgb(background: Rgb, foreground: Rgba): (c: Rgb)
    ensures foreground.a == 1.0 ==> c == Rgb(foreground.r, foreground.g, foreground.b)
    ensures foreground.a == 0.0 ==> c == background
    ensures IsRgba(foreground) && IsRgb(background) ==> IsRgb(c)
  {
    Rgb(Composite(foreground.a, foreground.r, background.r),
        Composite(foreground.a, foreground.g, background.g),
        Composite(foreground.a, foreground.b, background.b))
  }

  /** `adjustChannelForXYZ`: scale to [0, 1] and undo the sRGB transfer curve. */
  function LinearizeChannel(m: MathLib, channel: int): (v: real)
    ensures channel == 0 ==> v == 0.0
    ensures channel as real / 255.0 > 0.04045 ==> v == m.pow((channel as real / 255.0 + 0.055) / 1.055, 2.4)
  {
    var c := channel as real / 255.0;
    if c > 0.04045 then m.pow((c + 0.055) / 1.055, 2.4) else c / 12.92
  }

  /** Full intensity linearises to 1. */
  lemma LinearizeFullIntensity(m: MathLib)
    requires Lawful(m)
    ensures LinearizeChannel(m, 255) == 1.0
  {
    assert (255 as real / 255.0 + 0.055) / 1.055 == 1.0;
  }

  /**
   * `rgb2xyz`: linearise the channels, then apply the sRGB-to-XYZ (D65)
   * matrix. Each row of the matrix sums to the matching D65 coordinate, so a
   * grey is the white point scaled by its linearised intensity.
   */
  function Rgb2Xyz(m: MathLib, c: Rgb): (r: Xyz)
    ensures c.r == c.g == c.b ==>
              var l := LinearizeChannel(m, c.r);
              r == Xyz(l * D65.x, l * D65.y, l * D65.z)
  {
    var r := LinearizeChannel(m, c.r);
    var g := LinearizeChannel(m, c.g);
    var b := LinearizeChannel(m, c.b);
    Xyz(r * 0.4124564 + g * 0.3575761 + b * 0.1804375,
        r * 0.2126729 + g * 0.7151522 + b * 0.0721750,
        r * 0.0193339 + g * 0.1191920 + b * 0.9503041)
  }

  /** `adjustChannelForLab`: normalise by the reference white, then the CIELAB companding. */
  function LabCompand(m: MathLib, channel: real, reference: real): (v: real)
    requires reference > 0.0
    ensures channel == 0.0 ==> v == 16.0 / 116.0
    ensures channel / reference > 0.008856 ==> v == m.pow(channel / reference, 1.0 / 3.0)
  {
    var c := channel / reference;
    if c > 0.008856 then m.pow(c, 1.0 / 3.0) else (903.3 * c + 16.0) / 116.0
  }

  /** The reference value itself compands to 1. */
  lemma CompandReference(m: MathLib, reference: real)
    requires Lawful(m) && reference > 0.0
    ensures LabCompand(m, reference, reference) == 1.0
  {
    DivideBySelf(reference);
  }

  lemma DivideBySelf(x: real)
    requires x > 0.0
    ensures x / x == 1.0
  {
  }

  /**
   * `xyz2lab` against the D65 white. Red-green `a` vanishes when X and Y
   * stand in the white point's proportion, and yellow-blue `b` when Y and Z do.
   */
  function Xyz2Lab(m: MathLib, c: Xyz): (r: Lab)
    ensures c.x / D65.x == c.y / D65.y ==> r.a == 0.0
    ensures c.y / D65.y == c.z / D65.z ==> r.b == 0.0
  {
    var fx := LabCompand(m, c.x, D65.x);
    var fy := LabCompand(m, c.y, D65.y);
    var fz := LabCompand(m, c.z, D65.z);
    Lab(116.0 * fy - 16.0, 500.0 * (fx - fy), 200.0 * (fy - fz))
  }

  /**
   * `rgba2lab`: composite over the background, then convert to CIELAB. A
   * fully transparent colour shows the background, and an opaque one
   * ignores it.
   */
  function Rgba2Lab(m: MathLib, foreground: Rgba, background: Rgb): (r: Lab)
    ensures foreground.a == 0.0 ==> r == Xyz2Lab(m, Rgb2Xyz(m, background))
    ensures foreground.a == 1.0 ==> r == Xyz2Lab(m, Rgb2Xyz(m, Rgb(foreground.r, foreground.g, foreground.b)))
  {
    Xyz2Lab(m, Rgb2Xyz(m, Rgba2Rgb(background, foreground)))
  }

  /** The Euclidean distance of two CIELAB points. */
  function LabDistance(m: MathLib, lab1: Lab, lab2: Lab): real {
    m.sqrt(m.pow(lab1.L - lab2.L, 2.0) + m.pow(lab1.a - lab2.a, 2.0) + m.pow(lab1.b - lab2.b, 2.0))
  }

  /** `colorDiff`: the CIE76 difference (Euclidean distance in CIELAB) of two colours over a background. */
  function ColorDiff(m: MathLib, c1: Rgba, c2: Rgba, background: Rgb): (d: real)
    ensures Lawful(m) && Rgba2Rgb(background, c1) == Rgba2Rgb(background, c2) ==> d == 0.0
  {
    LabDistance(m, Rgba2Lab(m, c1, background), Rgba2Lab(m, c2, background))
  }

  lemma SquareOfNegation(x: real, y: real)
    ensures Square(x - y) == Square(y - x)
  {
    assert y - x == -(x - y);
  }

  /** The distance does not depend on the order of its points. */
  lemma LabDistanceSymmetric(m: MathLib, lab1: Lab, lab2: Lab)
    requires Lawful(m)
    ensures LabDistance(m, lab1, lab2) == LabDistance(m, lab2, lab1)
  {
    SquareOfNegation(lab1.L, lab2.L);
    SquareOfNegation(lab1.a, lab2.a);
    SquareOfNegation(lab1.b, lab2.b);
  }

  /** A point is at distance 0 from itself. */
  lemma LabDistanceSelf(m: MathLib, lab: Lab)
    requires Lawful(m)
    ensures LabDistance(m, lab, lab) == 0.0
  {
    assert Square(0.0) == 0.0;
    assert m.pow(0.0, 2.0) == 0.0;
  }

  /** `colorDiffCategory`: the bucket a colour difference falls into. */
  function ColorDiffCategory(diff: real): (cat: DiffCategory)
    ensures cat == NotPerceptible <==> diff <= 1.0
    ensures cat == HardlyPerceptible <==> 1.0 < diff < 2.0
    ensures cat == Perceptible <==> 2.0 <= diff < 10.0
    ensures cat == MoreSimilarThanOpposite <==> 10.0 <= diff < 49.0
    ensures cat == MoreOppositeThanSimilar <==> 49.0 <= diff < 100.0
    ensures cat == ExactOpposite <==> diff == 100.0
    ensures cat == OutOfBounds <==> diff > 100.0
  {
    if diff <= 1.0 then NotPerceptible
    else if diff < 2.0 then HardlyPerceptible
    else if diff < 10.0 then Perceptible
    else if diff < 49.0 then MoreSimilarThanOpposite
    else if diff < 100.0 then MoreOppositeThanSimilar
    else if diff == 100.0 then ExactOpposite
    else OutOfBounds
  }

  /** A larger difference never falls into an earlier bucket. */
  lemma CategoryMonotone(d1: real, d2: real)
    requires d1 <= d2
    ensures ColorDiffCategory(d1).Rank() <= ColorDiffCategory(d2).Rank()
  {
  }

  /** Opaque black and opaque white map to the ends of the XYZ gamut. */
  lemma XyzOfBlackAndWhite(m: MathLib)
    requires Lawful(m)
    ensures Rgb2Xyz(m, Rgb(0, 0, 0)) == Xyz(0.0, 0.0, 0.0)
    ensures Rgb2Xyz(m, Rgb(255, 255, 255)) == D65
  {
    LinearizeFullIntensity(m);
  }

  /** The D65 white is CIELAB (100, 0, 0), and XYZ zero goes through the linear branch to (0, 0, 0). */
  lemma LabOfWhitePointAndZero(m: MathLib)
    requires Lawful(m)
    ensures Xyz2Lab(m, D65) == Lab(100.0, 0.0, 0.0)
    ensures Xyz2Lab(m, Xyz(0.0, 0.0, 0.0)) == Lab(0.0, 0.0, 0.0)
  {
    CompandReference(m, D65.x);
    CompandReference(m, D65.y);
    CompandReference(m, D65.z);
  }

  /** A grey — three equal channels — has no chroma: its CIELAB `a` and `b` are 0, whatever its level. */
  lemma GreysAreNeutral(m: MathLib, v: int)
    ensures var lab := Xyz2Lab(m, Rgb2Xyz(m, Rgb(v, v, v)));
            lab.a == 0.0 && lab.b == 0.0
  {
    var l := LinearizeChannel(m, v);
    assert l * D65.x / D65.x == l * D65.y / D65.y == l * D65.z / D65.z == l;
  }

  /** An opaque grey stays neutral over any background. */
  lemma OpaqueGreyIsNeutral(m: MathLib, v: int, background: Rgb)
    ensures var lab := Rgba2Lab(m, Rgba(v, v, v, 1.0), background);
            lab.a == 0.0 && lab.b == 0.0
  {
    GreysAreNeutral(m, v);
  }

  /** The colour difference does not depend on which colour comes first. */
  lemma ColorDiffSymmetric(m: MathLib, c1: Rgba, c2: Rgba, background: Rgb)
    requires Lawful(m)
    ensures ColorDiff(m, c1, c2, background) == ColorDiff(m, c2, c1, background)
  {
    LabDistanceSymmetric(m, Rgba2Lab(m, c1, background), Rgba2Lab(m, c2, background));
  }

  /** A colour has no difference from itself. */
  lemma ColorDiffSelf(m: MathLib, c: Rgba, background: Rgb)
    requires Lawful(m)
    ensures ColorDiff(m, c, c, background) == 0.0
  {
    LabDistanceSelf(m, Rgba2Lab(m, c, background));
  }

  /** Two fully transparent colours over the same background cannot be told apart. */
  lemma TransparentColorsIndistinguishable(m: MathLib, c1: Rgba, c2: Rgba, background: Rgb)
    requires Lawful(m)
    requires c1.a == 0.0 && c2.a == 0.0
    ensures ColorDiff(m, c1, c2, background) == 0.0
  {
    assert Rgba2Rgb(background, c1) == Rgba2Rgb(background, c2);
    LabDistanceSelf(m, Rgba2Lab(m, c1, background));
  }

  /** Opaque black against opaque white is exactly 100 apart, whatever the background. */
  lemma BlackWhiteDiffIsHundred(m: MathLib, background: Rgb)
    requires Lawful(m)
    ensures ColorDiff(m, Rgba(0, 0, 0, 1.0), Rgba(255, 255, 255, 1.0), background) == 100.0
    ensures ColorDiffCategory(ColorDiff(m, Rgba(0, 0, 0, 1.0), Rgba(255, 255, 255, 1.0), background)) == ExactOpposite
  {
    XyzOfBlackAndWhite(m);
    LabOfWhitePointAndZero(m);
    assert Rgba2Lab(m, Rgba(0, 0, 0, 1.0), background) == Lab(0.0, 0.0, 0.0);
    assert Rgba2Lab(m, Rgba(255, 255, 255, 1.0), background) == Lab(100.0, 0.0, 0.0);
    BlackToWhiteDistance(m);
  }

  lemma BlackToWhiteDistance(m: MathLib)
    requires Lawful(m)
    ensures LabDistance(m, Lab(0.0, 0.0, 0.0), Lab(100.0, 0.0, 0.0)) == 100.0
  {
    assert m.pow(0.0 - 100.0, 2.0) == Square(100.0);
    assert m.pow(0.0 - 0.0, 2.0) == 0.0;
    assert Square(100.0) + 0.0 + 0.0 == Square(100.0);
  }
}
