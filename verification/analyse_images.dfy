/**
 * `analyseImages`: for every image that is not a progressive variant, advise
 * compression when the compression level is low or medium; otherwise scan the
 * decoded pixels, collecting a palette of mutually distinguishable colours,
 * and suggest SVG when the palette stays within 128 colours.
 *
 * The compression level and the decoded (already contrast-adjusted) pixels
 * are inputs, each of which may be an error.
 */
module AnalyseImages {
  import opened Wrappers
  import opened Iteration
  import opened Text
  import opened ColorHelpers
  import Seqs
  import PrepareProgressive

  /** `COLOR_LIMIT`. */
  const ColorLimit: nat := 128

  /** One byte of `Jimp.intToRGBA`. */
  type Byte = x: int | 0 <= x <= 255

  /** A decoded pixel, alpha still in 0..255. */
  datatype Pixel = Pixel(r: Byte, g: Byte, b: Byte, a: Byte)

  /** The compression levels of the classifier, which is not part of this model. */
  datatype CompressionLevel = HighCompression | MediumCompression | LowCompression | NoCompressionAdvice

  /** What one image contributes: its path, its compression level and its decoded pixels in raster order. */
  datatype ImageFile = ImageFile(
    path: string,
    compression: Result<CompressionLevel, string>,
    decoded: Result<seq<Pixel>, string>)

  /** The message the analyser emits for one image; `Failed` is the caught error. */
  datatype Advisory =
    | BigLoadTimeEffect
    | MediumLoadTimeEffect
    | NoActionNeeded
    | ConsiderSvg
    | Failed(error: string)

  /** `COLOR_OBJ.a = COLOR_OBJ.a / 255`. */
  function Normalize(p: Pixel): (c: Rgba)
    ensures IsRgba(c)
    ensures c.a > 0.0 <==> p.a != 0
    ensures c.a == 1.0 <==> p.a == 255
    ensures c.r == p.r && c.g == p.g && c.b == p.b
  {
    Rgba(p.r, p.g, p.b, p.a as real / 255.0)
  }

  /** The palette test: the two colours are not, or hardly, perceptibly different over white. */
  predicate Near(m: MathLib, entry: Rgba, c: Rgba) {
    var cat := ColorDiffCategory(ColorDiff(m, entry, c, White));
    cat == NotPerceptible || cat == HardlyPerceptible
  }

  /** Near means a colour difference below 2. */
  lemma NearIffBelowTwo(m: MathLib, entry: Rgba, c: Rgba)
    ensures Near(m, entry, c) <==> ColorDiff(m, entry, c, White) < 2.0
  {
  }

  /** Every colour is near itself. */
  lemma NearReflexive(m: MathLib, c: Rgba)
    requires Lawful(m)
    ensures Near(m, c, c)
  {
    ColorDiffSelf(m, c, White);
  }

  /** `colors.find(...)`: the first palette entry near `c`. */
  function FindNear(m: MathLib, palette: seq<Rgba>, c: Rgba): (r: Option<nat>)
    ensures r.None? <==> forall j :: 0 <= j < |palette| ==> !Near(m, palette[j], c)
    ensures r.Some? ==> r.value < |palette| && Near(m, palette[r.value], c)
    ensures r.Some? ==> forall j :: 0 <= j < r.value ==> !Near(m, palette[j], c)
  {
    Seqs.FindFrom(palette, (entry: Rgba) => Near(m, entry, c), 0)
  }

  /**
   * A palette drawn from the image: each entry is the normalised colour of a
   * visible pixel, and no entry is near an entry after it.
   */
  ghost predicate Spread(m: MathLib, pixels: seq<Pixel>, s: seq<Rgba>) {
    && (forall k :: 0 <= k < |s| ==> exists i :: 0 <= i < |pixels| && pixels[i].a != 0 && s[k] == Normalize(pixels[i]))
    && (forall j, k :: 0 <= j < k < |s| ==> !Near(m, s[j], s[k]))
  }

  /** `c` is in the palette or near one of its entries. */
  ghost predicate Represented(m: MathLib, s: seq<Rgba>, c: Rgba) {
    exists k :: 0 <= k < |s| && (s[k] == c || Near(m, s[k], c))
  }

  /** Every visible pixel among the first `n` is represented in the palette. */
  ghost predicate CoversPrefix(m: MathLib, pixels: seq<Pixel>, n: nat, s: seq<Rgba>)
    requires n <= |pixels|
  {
    forall i :: 0 <= i < n && pixels[i].a != 0 ==> Represented(m, s, Normalize(pixels[i]))
  }

  /** Appending an entry keeps every colour that was represented represented. */
  lemma RepresentedAppend(m: MathLib, s: seq<Rgba>, e: Rgba, c: Rgba)
    requires Represented(m, s, c)
    ensures Represented(m, s + [e], c)
  {
    var k :| 0 <= k < |s| && (s[k] == c || Near(m, s[k], c));
    assert (s + [e])[k] == s[k];
  }

  /** The palette after visiting one pixel: transparent pixels and colours near an entry leave it unchanged. */
  function Visit(m: MathLib, palette: seq<Rgba>, p: Pixel): (r: seq<Rgba>)
    ensures p.a == 0 ==> r == palette
    ensures p.a != 0 ==> (r == palette + [Normalize(p)] <==> forall j :: 0 <= j < |palette| ==> !Near(m, palette[j], Normalize(p)))
    ensures r == palette || (p.a != 0 && r == palette + [Normalize(p)])
    ensures p.a != 0 ==> Represented(m, r, Normalize(p))
  {
    if p.a == 0 then palette
    else
      var c := Normalize(p);
      match FindNear(m, palette, c)
      case Some(k) =>
        assert Near(m, palette[k], c);
        palette
      case None =>
        assert (palette + [c])[|palette|] == c;
        palette + [c]
  }

  /** Visiting the next pixel keeps the palette a spread and extends the coverage by that pixel. */
  lemma VisitPreserves(m: MathLib, pixels: seq<Pixel>, palette: seq<Rgba>, n: nat)
    requires n < |pixels|
    requires Spread(m, pixels, palette) && CoversPrefix(m, pixels, n, palette)
    ensures Spread(m, pixels, Visit(m, palette, pixels[n]))
    ensures CoversPrefix(m, pixels, n + 1, Visit(m, palette, pixels[n]))
  {
    var r := Visit(m, palette, pixels[n]);
    if r != palette {
      var c := Normalize(pixels[n]);
      assert r == palette + [c];
      VisitAppendKeepsSpread(m, pixels, palette, n);
      forall i | 0 <= i < n && pixels[i].a != 0
        ensures Represented(m, r, Normalize(pixels[i]))
      {
        RepresentedAppend(m, palette, c, Normalize(pixels[i]));
      }
    }
  }

  lemma VisitAppendKeepsSpread(m: MathLib, pixels: seq<Pixel>, palette: seq<Rgba>, n: nat)
    requires n < |pixels| && pixels[n].a != 0
    requires Spread(m, pixels, palette)
    requires FindNear(m, palette, Normalize(pixels[n])).None?
    ensures Spread(m, pixels, palette + [Normalize(pixels[n])])
  {
    var c := Normalize(pixels[n]);
    var r := palette + [c];
    forall k | 0 <= k < |r|
      ensures exists i :: 0 <= i < |pixels| && pixels[i].a != 0 && r[k] == Normalize(pixels[i])
    {
      if k == |palette| {
        assert r[k] == Normalize(pixels[n]);
      } else {
        assert r[k] == palette[k];
      }
    }
    forall j, k | 0 <= j < k < |r|
      ensures !Near(m, r[j], r[k])
    {
      assert r[j] == palette[j];
      if k < |palette| {
        assert r[k] == palette[k];
      } else {
        assert r[k] == c;
      }
    }
  }

  /** The scan's step on one pixel. */
  function VisitOf(m: MathLib): (seq<Rgba>, Pixel) -> seq<Rgba> {
    (palette: seq<Rgba>, p: Pixel) => Visit(m, palette, p)
  }

  /** The palette once the scan has visited the first `n` pixels in raster order, starting from an empty palette. */
  function Greedy(m: MathLib, pixels: seq<Pixel>, n: nat): seq<Rgba>
    requires n <= |pixels|
  {
    Fold(VisitOf(m), [], pixels, n)
  }

  /** The greedy palette is a spread of visible colours representing every visible pixel visited. */
  lemma GreedyIsSpread(m: MathLib, pixels: seq<Pixel>, n: nat)
    requires n <= |pixels|
    ensures var palette := Greedy(m, pixels, n);
            && (forall k :: 0 <= k < |palette| ==> 0.0 < palette[k].a <= 1.0)
            && Spread(m, pixels, palette)
            && CoversPrefix(m, pixels, n, palette)
  {
    var inv := (palette: seq<Rgba>, i: nat) => i <= |pixels| && Spread(m, pixels, palette) && CoversPrefix(m, pixels, i, palette);
    forall palette: seq<Rgba>, i: nat | i < |pixels| && inv(palette, i)
      ensures inv(VisitOf(m)(palette, pixels[i]), i + 1)
    {
      VisitPreserves(m, pixels, palette, i);
    }
    assert Spread(m, pixels, []) && CoversPrefix(m, pixels, 0, []);
    FoldKeeps(VisitOf(m), inv, [], pixels, n);
    AlphasOfSpread(m, pixels, Greedy(m, pixels, n));
  }

  /** Every entry of a spread is a visible normalised colour, so its alpha lies in (0,1]. */
  lemma AlphasOfSpread(m: MathLib, pixels: seq<Pixel>, s: seq<Rgba>)
    requires Spread(m, pixels, s)
    ensures forall k :: 0 <= k < |s| ==> 0.0 < s[k].a <= 1.0
  {
    forall k | 0 <= k < |s|
      ensures 0.0 < s[k].a <= 1.0
    {
      assert exists i :: 0 <= i < |pixels| && pixels[i].a != 0 && s[k] == Normalize(pixels[i]);
      var i :| 0 <= i < |pixels| && pixels[i].a != 0 && s[k] == Normalize(pixels[i]);
    }
  }

  /** One more pixel adds at most one entry, and only at the end. */
  lemma GreedyStep(m: MathLib, pixels: seq<Pixel>, n: nat)
    requires n < |pixels|
    ensures var before := Greedy(m, pixels, n);
            var after := Greedy(m, pixels, n + 1);
            after == before || after == before + [Normalize(pixels[n])]
  {
  }

  /**
   * How many pixels the scan visits when it starts counting at `k`: the
   * first count at which the palette exceeds the limit, or all of them.
   */
  function StopFrom(m: MathLib, pixels: seq<Pixel>, k: nat): (n: nat)
    requires k <= |pixels|
    requires forall j :: 0 <= j < k ==> |Greedy(m, pixels, j)| <= ColorLimit
    ensures k <= n <= |pixels|
    ensures n == |pixels| || |Greedy(m, pixels, n)| > ColorLimit
    ensures forall j :: 0 <= j < n ==> |Greedy(m, pixels, j)| <= ColorLimit
    decreases |pixels| - k
  {
    if k == |pixels| || |Greedy(m, pixels, k)| > ColorLimit then k
    else
      WithinLimitExtends(m, pixels, k);
      StopFrom(m, pixels, k + 1)
  }

  /** A palette still within the limit after `k` pixels extends the run of such counts by one. */
  lemma WithinLimitExtends(m: MathLib, pixels: seq<Pixel>, k: nat)
    requires k <= |pixels|
    requires forall j :: 0 <= j < k ==> |Greedy(m, pixels, j)| <= ColorLimit
    requires |Greedy(m, pixels, k)| <= ColorLimit
    ensures forall j :: 0 <= j < k + 1 ==> |Greedy(m, pixels, j)| <= ColorLimit
  {
  }

  /** How many pixels the scan visits: it stops the first time the palette exceeds the limit. */
  function StopAt(m: MathLib, pixels: seq<Pixel>): (n: nat)
    ensures n <= |pixels|
    ensures n == |pixels| || |Greedy(m, pixels, n)| > ColorLimit
    ensures forall j :: 0 <= j < n ==> |Greedy(m, pixels, j)| <= ColorLimit
  {
    StopFrom(m, pixels, 0)
  }

  /** Only one count of visited pixels is the first overflow. */
  lemma StopAtUnique(m: MathLib, pixels: seq<Pixel>, n: nat)
    requires n <= |pixels|
    requires n == |pixels| || |Greedy(m, pixels, n)| > ColorLimit
    requires forall j :: 0 <= j < n ==> |Greedy(m, pixels, j)| <= ColorLimit
    ensures n == StopAt(m, pixels)
  {
  }

  /**
   * The palette scan: visit the pixels in raster order, skip transparent
   * ones, add a colour when no entry is near it, and stop the moment the
   * palette exceeds the colour limit. `examined` is how many pixels were
   * visited. The loop is `Visit` folded until the palette overflows; the
   * throw that breaks out of Jimp's scan is the early stop.
   */
  method ScanPalette(m: MathLib, pixels: seq<Pixel>) returns (palette: seq<Rgba>, stoppedEarly: bool, examined: nat)
    ensures examined == StopAt(m, pixels) && palette == Greedy(m, pixels, examined)
    ensures forall n :: 0 <= n < examined ==> |Greedy(m, pixels, n)| <= ColorLimit
    ensures examined <= |pixels|
    ensures !stoppedEarly ==> examined == |pixels|
    ensures |palette| <= ColorLimit + 1
    ensures stoppedEarly <==> |palette| > ColorLimit
    ensures forall k :: 0 <= k < |palette| ==> 0.0 < palette[k].a <= 1.0
    ensures Spread(m, pixels, palette)
    ensures CoversPrefix(m, pixels, examined, palette)
  {
    palette, stoppedEarly, examined := FoldUntilOver(VisitOf(m), [], pixels, ColorLimit);
    ScanEnds(m, pixels, examined);
  }

  /**
   * Where the scan stops, at the first overflow or at the end, the greedy
   * palette is the one `StopAt` names, at most one entry over the limit, and
   * a spread covering the pixels visited.
   */
  lemma ScanEnds(m: MathLib, pixels: seq<Pixel>, n: nat)
    requires n <= |pixels|
    requires forall j :: 0 <= j < n ==> |Greedy(m, pixels, j)| <= ColorLimit
    requires n == |pixels| || |Greedy(m, pixels, n)| > ColorLimit
    ensures n == StopAt(m, pixels)
    ensures |Greedy(m, pixels, n)| <= ColorLimit + 1
    ensures forall k :: 0 <= k < |Greedy(m, pixels, n)| ==> 0.0 < Greedy(m, pixels, n)[k].a <= 1.0
    ensures Spread(m, pixels, Greedy(m, pixels, n))
    ensures CoversPrefix(m, pixels, n, Greedy(m, pixels, n))
  {
    StopAtUnique(m, pixels, n);
    GreedyIsSpread(m, pixels, n);
    if n > 0 {
      GreedyStep(m, pixels, n - 1);
    }
  }

  /** `colors.length > COLOR_LIMIT`: many distinguishable colours mean a photograph, nothing to do. */
  function Classify(palette: seq<Rgba>): (a: Advisory)
    ensures a == NoActionNeeded <==> |palette| > ColorLimit
    ensures a == ConsiderSvg <==> |palette| <= ColorLimit
  {
    if |palette| > ColorLimit then NoActionNeeded else ConsiderSvg
  }

  /**
   * What the analyser may report for one image: the compression advisories
   * without decoding; otherwise "no action" only when the image holds more
   * than the limit of mutually distinguishable colours, and "consider SVG"
   * only when at most the limit of colours represents every visible pixel.
   * Errors from either input are reported as the failure.
   */
  ghost predicate Fits(m: MathLib, file: ImageFile, advisory: Advisory) {
    match file.compression
    case Failure(e) => advisory == Failed(e)
    case Success(LowCompression) => advisory == BigLoadTimeEffect
    case Success(MediumCompression) => advisory == MediumLoadTimeEffect
    case Success(_) =>
      match file.decoded
      case Failure(e) => advisory == Failed(e)
      case Success(pixels) =>
        || (advisory == NoActionNeeded
            && exists s :: |s| == ColorLimit + 1 && Spread(m, pixels, s))
        || (advisory == ConsiderSvg
            && exists s :: |s| <= ColorLimit && Spread(m, pixels, s) && CoversPrefix(m, pixels, |pixels|, s))
  }

  /** The image reaches the palette scan: its compression level asks for no compression and it decodes. */
  predicate Scanned(file: ImageFile) {
    && file.compression.Success?
    && file.compression.value != LowCompression
    && file.compression.value != MediumCompression
    && file.decoded.Success?
  }

  /** The advisory of the scan: the greedy palette where the scan stops, classified. */
  function ScanAdvice(m: MathLib, pixels: seq<Pixel>): Advisory {
    Classify(Greedy(m, pixels, StopAt(m, pixels)))
  }

  /**
   * The advisory of the scan is one the image admits: "no action" comes with
   * 129 mutually distinct colours, "consider SVG" with at most 128 colours
   * representing every visible pixel.
   */
  lemma ScanAdviceFits(m: MathLib, file: ImageFile)
    requires Scanned(file)
    ensures Fits(m, file, ScanAdvice(m, file.decoded.value))
  {
    var pixels := file.decoded.value;
    var n := StopAt(m, pixels);
    var palette := Greedy(m, pixels, n);
    GreedyIsSpread(m, pixels, n);
    if |palette| > ColorLimit {
      GreedyStep(m, pixels, n - 1);
      assert |palette| == ColorLimit + 1 && Spread(m, pixels, palette);
    } else {
      assert n == |pixels|;
    }
  }

  /** The per-image callback: compression first, then decode and scan; any error is caught and reported. */
  method AnalyseImage(m: MathLib, file: ImageFile) returns (advisory: Advisory)
    ensures Fits(m, file, advisory)
    ensures Scanned(file) ==> advisory == ScanAdvice(m, file.decoded.value)
  {
    match file.compression
    case Failure(e) =>
      advisory := Failed(e);
    case Success(level) =>
      if level == LowCompression {
        advisory := BigLoadTimeEffect;
      } else if level == MediumCompression {
        advisory := MediumLoadTimeEffect;
      } else {
        match file.decoded
        case Failure(e) =>
          advisory := Failed(e);
        case Success(pixels) =>
          var palette, stoppedEarly, examined := ScanPalette(m, pixels);
          advisory := Classify(palette);
      }
  }

  /** An image whose visible pixels all have one colour never holds two distinguishable colours. */
  lemma {:induction false} SolidImageSpreadsAtMostOne(m: MathLib, pixels: seq<Pixel>, colour: Rgba, s: seq<Rgba>)
    requires Lawful(m)
    requires forall i :: 0 <= i < |pixels| && pixels[i].a != 0 ==> Normalize(pixels[i]) == colour
    requires Spread(m, pixels, s)
    ensures |s| <= 1
  {
    if |s| >= 2 {
      assert s[0] == colour && s[1] == colour by {
        var i0 :| 0 <= i0 < |pixels| && pixels[i0].a != 0 && s[0] == Normalize(pixels[i0]);
        var i1 :| 0 <= i1 < |pixels| && pixels[i1].a != 0 && s[1] == Normalize(pixels[i1]);
      }
      NearReflexive(m, colour);
      assert false;
    }
  }

  /** Hence a single-colour image (an icon) that reaches the scan is always advised to become an SVG. */
  lemma SolidImageSuggestsSvg(m: MathLib, file: ImageFile, colour: Rgba, advisory: Advisory)
    requires Lawful(m)
    requires file.compression.Success? && file.compression.value !in {LowCompression, MediumCompression}
    requires file.decoded.Success?
    requires forall i :: 0 <= i < |file.decoded.value| && file.decoded.value[i].a != 0 ==> Normalize(file.decoded.value[i]) == colour
    requires Fits(m, file, advisory)
    ensures advisory == ConsiderSvg
  {
    if advisory == NoActionNeeded {
      var s :| |s| == ColorLimit + 1 && Spread(m, file.decoded.value, s);
      SolidImageSpreadsAtMostOne(m, file.decoded.value, colour, s);
    }
  }

  /** Progressive variants are not analysed: the build-time variant test, applied to the file's path. */
  predicate NotGenerated(file: ImageFile) {
    PrepareProgressive.NotGenerated(file.path)
  }

  /** One line of the analyser's output: the image and what was advised for it. */
  datatype Report = Report(path: string, advisory: Advisory)

  /**
   * `analyseImages` on the files found: the variants are dropped, the rest
   * are analysed one after the other in their order, each starting from an
   * empty palette, and an error in one image affects only that image's
   * report. The run as a whole reports success.
   */
  method Analyse(m: MathLib, found: seq<ImageFile>) returns (ok: bool, reports: seq<Report>)
    ensures ok
    ensures var images := Seqs.Filter(found, NotGenerated);
            && |reports| == |images|
            && forall j :: 0 <= j < |images| ==>
                 && reports[j].path == images[j].path
                 && Fits(m, images[j], reports[j].advisory)
                 && (Scanned(images[j]) ==> reports[j].advisory == ScanAdvice(m, images[j].decoded.value))
  {
    var images := Seqs.Filter(found, NotGenerated);
    reports := [];
    var index := 0;
    while index < |images|
      invariant index <= |images|
      invariant |reports| == index
      invariant forall j :: 0 <= j < index ==>
                  && reports[j].path == images[j].path
                  && Fits(m, images[j], reports[j].advisory)
                  && (Scanned(images[j]) ==> reports[j].advisory == ScanAdvice(m, images[j].decoded.value))
    {
      var advisory := AnalyseImage(m, images[index]);
      reports := reports + [Report(images[index].path, advisory)];
      index := index + 1;
    }
    ok := true;
  }
}
