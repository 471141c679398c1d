/**
 * `ProgressiveLoad`: a low-resolution `-OptimusIMG-progressive` image is
 * wrapped, a clone pointing at the high-resolution file is placed next to it,
 * and the clone's marker class is stripped once the clone has loaded.
 * The DOM is reduced to the attributes these rules read and write.
 */
module ProgressiveLoad {
  import opened Wrappers
  import opened Text
  import Seqs

  /** `PROGRESSIVE_IMAGE_CONFIG`. */
  const ClassName: string := "optimusIMG-progressive-image"
  const WrapperClassName: string := "optimusIMG-progressive-wrapper"
  /** `-OptimusIMG-progressive`, spelled as its two dash-led words. */
  const SrcIdentifier: string := "-" + "OptimusIMG" + "-" + "progressive"

  /** The class suffix the clone carries until it has loaded. */
  const ClassSuffix: string := " " + ClassName

  /** The attributes of an `<img>` that progressive loading touches. */
  datatype Image = Image(src: string, className: string, lazySrc: Option<string>)

  /**
   * The high-resolution clone. `listening` says whether its `load` listener
   * is still attached; `unwraps` counts how often the handler has unwrapped it.
   */
  datatype HighRes = HighRes(image: Image, listening: bool, unwraps: nat)

  /** An image selected by `[src*="-OptimusIMG-progressive"]`, with whether it already has a high-res sibling. */
  datatype PageImage = PageImage(image: Image, hasHighResSibling: bool)

  /** The identifier cannot overlap itself: its only other `-` is followed by `p`, not `O`. */
  lemma SrcIdentifierNoBorder()
    ensures NoBorder(SrcIdentifier)
  {
    var id := SrcIdentifier;
    var brand, kind := "OptimusIMG", "progressive";
    assert '-' !in brand && '-' !in kind;
    forall d | 0 < d < |id|
      ensures id[d..] != id[..|id| - d]
    {
      if d == 11 {
        assert id[d..][1] == id[12] == 'p';
        assert id[..|id| - d][1] == id[1] == 'O';
      } else {
        assert id[d] == if d < 11 then brand[d - 1] else kind[d - 12];
        assert id[d..][0] == id[d] != '-';
      }
    }
  }

  lemma ClassSuffixNoBorder()
    ensures NoBorder(ClassSuffix)
  {
    FirstCharUniqueNoBorder(ClassSuffix);
  }

  /** The clone built by `loadProgressiveImage`: identifier removed from `src`, lazy source set to the new `src`, marker class appended. */
  function HighResClone(img: Image): (h: HighRes)
    ensures h.listening && h.unwraps == 0
    ensures h.image.lazySrc == Some(h.image.src)
    ensures h.image.className == img.className + ClassSuffix
    ensures Contains(img.src, SrcIdentifier) ==> |h.image.src| == |img.src| - |SrcIdentifier|
  {
    var src := ReplaceFirst(img.src, SrcIdentifier, "");
    HighRes(Image(src, img.className + " " + ClassName, Some(src)), true, 0)
  }

  /** `loadProgressiveImage`: only images whose `src` contains the identifier get a clone. */
  function LoadProgressiveImage(img: Image): (r: Option<HighRes>)
    ensures r.Some? <==> Contains(img.src, SrcIdentifier)
    ensures r.Some? ==> r.value == HighResClone(img)
  {
    if IndexOf(img.src, SrcIdentifier).Some? then Some(HighResClone(img)) else None
  }

  /** The high-resolution `src` drops exactly the identifier: `img0-OptimusIMG-progressive.jpeg` becomes `img0.jpeg`. */
  lemma {:induction false} HighResSource(stem: string, ext: string, className: string, lazySrc: Option<string>)
    requires !Contains(stem, SrcIdentifier)
    ensures var r := LoadProgressiveImage(Image(stem + SrcIdentifier + ext, className, lazySrc));
            r.Some? && r.value.image.src == stem + ext && r.value.image.lazySrc == Some(stem + ext)
  {
    SrcIdentifierNoBorder();
    RemoveFirstOccurrence(stem, SrcIdentifier, ext);
    FirstOccurrenceAfter(stem, SrcIdentifier, ext);
  }

  /**
   * `progressiveImageLoaded`: the first time, unwrap the clone, detach the
   * listener and strip the first marker suffix from the class; later load
   * events reach no listener.
   */
  function OnLoad(h: HighRes): (r: HighRes)
    ensures !r.listening
    ensures !h.listening ==> r == h
    ensures h.listening ==> r.unwraps == h.unwraps + 1
    ensures r.image.src == h.image.src && r.image.lazySrc == h.image.lazySrc
    ensures !Contains(h.image.className, ClassSuffix) ==> r.image.className == h.image.className
  {
    if h.listening then
      HighRes(h.image.(className := ReplaceFirst(h.image.className, ClassSuffix, "")), false, h.unwraps + 1)
    else h
  }

  /** The clone after `n` load events. */
  function LoadEvents(h: HighRes, n: nat): HighRes {
    if n == 0 then h else OnLoad(LoadEvents(h, n - 1))
  }

  /** However many load events fire, the handler runs at most once. */
  lemma {:induction false} HandlerRunsOnce(img: Image, n: nat)
    ensures LoadEvents(HighResClone(img), n).unwraps == if n == 0 then 0 else 1
    ensures n > 0 ==> LoadEvents(HighResClone(img), n) == OnLoad(HighResClone(img))
  {
    if n > 1 {
      HandlerRunsOnce(img, n - 1);
    }
  }

  /** Once loaded, the clone's class is the original image's class again, provided that class did not already carry the suffix. */
  lemma {:induction false} ClassRoundTrip(img: Image)
    requires !Contains(img.className, ClassSuffix)
    ensures OnLoad(HighResClone(img)).image.className == img.className
  {
    ClassSuffixNoBorder();
    RemoveFirstOccurrence(img.className, ClassSuffix, "");
    assert img.className + ClassSuffix + "" == img.className + ClassSuffix;
  }

  /** `checkProgressiveImages` picks the images whose `src` carries the identifier and that have no high-res sibling yet. */
  predicate Selected(p: PageImage) {
    Contains(p.image.src, SrcIdentifier) && !p.hasHighResSibling
  }

  /**
   * `execute`: one clone per selected image, in document order; images that
   * are not selected are left alone.
   */
  function Execute(images: seq<PageImage>): (clones: seq<HighRes>)
    ensures var picked := Seqs.Filter(images, Selected);
            |clones| == |picked| && forall k :: 0 <= k < |clones| ==> clones[k] == HighResClone(picked[k].image)
  {
    if |images| == 0 then []
    else if Selected(images[0]) then [HighResClone(images[0].image)] + Execute(images[1..])
    else Execute(images[1..])
  }

  /** A page where every progressive image already has its high-res sibling gets no new clones. */
  lemma NothingSelectedNoClones(images: seq<PageImage>)
    requires forall i :: 0 <= i < |images| ==> !Selected(images[i])
    ensures Execute(images) == []
  {
    Seqs.FilterRejectsAll(images, Selected);
  }
}
