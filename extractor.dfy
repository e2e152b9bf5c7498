/** The plant extractor: its settings and the pipeline that turns an RGB
    image into the bounding boxes of plant regions (vegetation index,
    binary threshold, one erosion, two dilations, region boxes, size
    filter). */
module Extractor {
  import opened Grids
  import opened VegetationIndex
  import opened Binarizer
  import opened Morphology
  import opened Regions

  /** The extractor's settings. Kernel sizes are (width, height) pairs, as
      OpenCV takes them. */
  datatype Config = Config(binaryThreshold: real, erosionKernel: Kernel,
                           dilatationKernel: Kernel, minBoundingBoxSize: int)

  /** Why the pipeline stops before producing boxes. */
  datatype Error =
    | BadKernel    // a structuring element with a side below 1
    | EmptyImage   // morphology on an image without pixels

  datatype Result<T> = Ok(value: T) | Err(error: Error)

  /** The constructor's default settings. */
  function DefaultConfig(): (cfg: Config)
    ensures cfg.binaryThreshold == 0.0 && cfg.minBoundingBoxSize == 15
    ensures cfg.erosionKernel == Kernel(2, 2) && cfg.dilatationKernel == Kernel(20, 20)
    ensures ValidKernel(cfg.erosionKernel) && ValidKernel(cfg.dilatationKernel)
    ensures KernelWindow(cfg.erosionKernel) == Window(1, 2, 1, 2)
    ensures KernelWindow(cfg.dilatationKernel) == Window(10, 20, 10, 20)
  {
    Config(0.0, Kernel(2, 2), Kernel(20, 20), 15)
  }

  /** Both structuring elements can be built. */
  predicate KernelsValid(cfg: Config) {
    ValidKernel(cfg.erosionKernel) && ValidKernel(cfg.dilatationKernel)
  }

  /** The binary mask whose regions are boxed: threshold the index map,
      erode once, dilate twice. */
  function CleanMask(cfg: Config, img: seq<seq<Pixel>>, eps: real): (mask: seq<seq<int>>)
    requires eps > 0.0 && KernelsValid(cfg)
    ensures SameShape(mask, img) && IsBinary(mask)
    ensures Rectangular(img) ==> Rectangular(mask)
  {
    var thresholded := Threshold(IndexMap(img, eps), cfg.binaryThreshold);
    var eroded := Erode(thresholded, cfg.erosionKernel);
    Dilate(Dilate(eroded, cfg.dilatationKernel), cfg.dilatationKernel)
  }

  /** The stages are nested: erosion only removes foreground from the
      thresholded mask, and each dilation only adds to its input. */
  lemma StagesNested(cfg: Config, img: seq<seq<Pixel>>, eps: real)
    requires eps > 0.0 && KernelsValid(cfg)
    ensures var thresholded := Threshold(IndexMap(img, eps), cfg.binaryThreshold);
            var eroded := Erode(thresholded, cfg.erosionKernel);
            var once := Dilate(eroded, cfg.dilatationKernel);
            Within(eroded, thresholded) && Within(eroded, once) &&
            Within(once, Dilate(once, cfg.dilatationKernel)) &&
            Within(eroded, CleanMask(cfg, img, eps))
  {
    var thresholded := Threshold(IndexMap(img, eps), cfg.binaryThreshold);
    var eroded := Erode(thresholded, cfg.erosionKernel);
    var once := Dilate(eroded, cfg.dilatationKernel);
    WithinTrans(eroded, once, Dilate(once, cfg.dilatationKernel));
  }

  lemma WithinTrans(a: seq<seq<int>>, b: seq<seq<int>>, c: seq<seq<int>>)
    requires Within(a, b) && Within(b, c)
    ensures Within(a, c)
  {
  }

  /** If no index value exceeds the threshold, the cleaned mask is empty. */
  lemma NothingAboveThreshold(cfg: Config, img: seq<seq<Pixel>>, eps: real)
    requires eps > 0.0 && KernelsValid(cfg)
    requires forall i, j :: 0 <= i < |img| && 0 <= j < |img[i]| ==>
               ExGExR(img[i][j], eps) <= cfg.binaryThreshold
    ensures AllBackground(CleanMask(cfg, img, eps))
  {
    var index := IndexMap(img, eps);
    ThresholdAllBelow(index, cfg.binaryThreshold);
    var thresholded := Threshold(index, cfg.binaryThreshold);
    BackgroundStays(thresholded, KernelWindow(cfg.erosionKernel));
    var eroded := Erode(thresholded, cfg.erosionKernel);
    BackgroundStays(eroded, KernelWindow(cfg.dilatationKernel));
    BackgroundStays(Dilate(eroded, cfg.dilatationKernel), KernelWindow(cfg.dilatationKernel));
  }

  /** With the default threshold 0, an all-black image has no plant pixel. */
  lemma BlackImageIsBackground(img: seq<seq<Pixel>>, eps: real)
    requires eps > 0.0
    requires forall i, j :: 0 <= i < |img| && 0 <= j < |img[i]| ==> img[i][j] == Pixel(0, 0, 0)
    ensures AllBackground(CleanMask(DefaultConfig(), img, eps))
  {
    NothingAboveThreshold(DefaultConfig(), img, eps);
  }

  /** With the default threshold 0, a pixel enters the thresholded mask
      exactly when 15 G > 12 R + 5 B on its raw channels. */
  lemma DefaultThresholdPixel(img: seq<seq<Pixel>>, eps: real, i: int, j: int)
    requires eps > 0.0 && 0 <= i < |img| && 0 <= j < |img[i]|
    ensures var p := img[i][j];
            Threshold(IndexMap(img, eps), DefaultConfig().binaryThreshold)[i][j] == 255 <==>
            15 * p.g > 12 * p.r + 5 * p.b
  {
    PositiveIff(img[i][j], eps);
  }

  /** A region is kept when its box is wider or taller than the minimum size. */
  predicate Keep(b: Box, minSize: int) {
    b.w > minSize || b.h > minSize
  }

  /** The boxes that pass the size filter, in their original order. */
  function FilterBoxes(boxes: seq<Box>, minSize: int): (kept: seq<Box>)
    ensures |kept| <= |boxes|
    ensures forall k :: 0 <= k < |kept| ==> Keep(kept[k], minSize)
  {
    if boxes == [] then []
    else
      var last := boxes[|boxes| - 1];
      FilterBoxes(boxes[..|boxes| - 1], minSize) + (if Keep(last, minSize) then [last] else [])
  }

  /** A box survives the filter iff it was found and passes the size test. */
  lemma {:induction false} FilterMembership(boxes: seq<Box>, minSize: int, b: Box)
    ensures b in FilterBoxes(boxes, minSize) <==> b in boxes && Keep(b, minSize)
  {
    if boxes != [] {
      var init := boxes[..|boxes| - 1];
      FilterMembership(init, minSize, b);
      assert boxes == init + [boxes[|boxes| - 1]];
    }
  }

  /** Filtering two runs of boxes is filtering each and concatenating, so the
      filter keeps the discovery order. */
  lemma {:induction false} FilterAppend(a: seq<Box>, b: seq<Box>, minSize: int)
    ensures FilterBoxes(a + b, minSize) == FilterBoxes(a, minSize) + FilterBoxes(b, minSize)
  {
    if b != [] {
      var init := b[..|b| - 1];
      assert (a + b)[..|a + b| - 1] == a + init;
      FilterAppend(a, init, minSize);
    } else {
      assert a + b == a;
    }
  }

  /** The filter never lengthens the list, and drops nothing that passes. */
  lemma {:induction false} FilterLength(boxes: seq<Box>, minSize: int)
    ensures |FilterBoxes(boxes, minSize)| <= |boxes|
    ensures (forall k :: 0 <= k < |boxes| ==> Keep(boxes[k], minSize)) ==> FilterBoxes(boxes, minSize) == boxes
  {
    if boxes != [] {
      var init := boxes[..|boxes| - 1];
      FilterLength(init, minSize);
      assert boxes == init + [boxes[|boxes| - 1]];
    }
  }

  /** What a fully foreground mask yields: the box of the whole image, if it
      passes the size test. */
  function FullImageBoxes(height: int, width: int, minSize: int): (boxes: seq<Box>)
    ensures |boxes| <= 1
    ensures width > minSize || height > minSize ==> boxes == [Box(0, 0, width, height)]
    ensures !(width > minSize || height > minSize) ==> boxes == []
  {
    var full := Box(0, 0, width, height);
    if Keep(full, minSize) then [full] else []
  }

  lemma FullImageFilter(height: int, width: int, minSize: int)
    ensures FilterBoxes([Box(0, 0, width, height)], minSize) == FullImageBoxes(height, width, minSize)
  {
    assert [Box(0, 0, width, height)][..0] == [];
  }

  /** When every pixel's index exceeds the threshold, the cleaned mask is
      entirely foreground: the neutral border keeps the image edge. */
  lemma EverythingAboveThreshold(cfg: Config, img: seq<seq<Pixel>>, eps: real)
    requires eps > 0.0 && KernelsValid(cfg)
    requires forall i, j :: 0 <= i < |img| && 0 <= j < |img[i]| ==>
               ExGExR(img[i][j], eps) > cfg.binaryThreshold
    ensures AllForeground(CleanMask(cfg, img, eps))
  {
    var index := IndexMap(img, eps);
    var thresholded := Threshold(index, cfg.binaryThreshold);
    assert AllForeground(thresholded);
    ForegroundStays(thresholded, KernelWindow(cfg.erosionKernel));
    var eroded := Erode(thresholded, cfg.erosionKernel);
    ForegroundStays(eroded, KernelWindow(cfg.dilatationKernel));
    ForegroundStays(Dilate(eroded, cfg.dilatationKernel), KernelWindow(cfg.dilatationKernel));
  }

  /** With the default settings, an image whose every pixel has
      15 G > 12 R + 5 B gives an entirely foreground mask, hence the single
      box of the whole image when a side exceeds 15. */
  lemma GreenImageIsForeground(img: seq<seq<Pixel>>, eps: real)
    requires eps > 0.0
    requires forall i, j :: 0 <= i < |img| && 0 <= j < |img[i]| ==>
               15 * img[i][j].g > 12 * img[i][j].r + 5 * img[i][j].b
    ensures AllForeground(CleanMask(DefaultConfig(), img, eps))
  {
    forall i, j | 0 <= i < |img| && 0 <= j < |img[i]|
      ensures ExGExR(img[i][j], eps) > 0.0
    {
      PositiveIff(img[i][j], eps);
    }
    EverythingAboveThreshold(DefaultConfig(), img, eps);
  }

  /** The loop that appends each box passing the size test to the result. */
  method SelectBoxes(found: seq<Box>, minSize: int) returns (kept: seq<Box>)
    ensures kept == FilterBoxes(found, minSize)
  {
    kept := [];
    for k := 0 to |found|
      invariant kept == FilterBoxes(found[..k], minSize)
    {
      assert found[..k + 1][..k] == found[..k];
      var b := found[k];
      if b.w > minSize || b.h > minSize {
        kept := kept + [b];
      }
    }
    assert found[..|found|] == found;
  }

  /** The plant-region boxes of an image. `regions` are the boxes of all
      8-connected regions of the cleaned mask in discovery order, before the
      size filter. */
  method GetBoundingBoxes(cfg: Config, img: seq<seq<Pixel>>, eps: real)
    returns (res: Result<seq<Box>>, ghost regions: seq<Box>, ghost comps: seq<set<Point>>,
             ghost seeds: seq<Point>)
    requires eps > 0.0 && Rectangular(img)
    ensures res == Err(BadKernel) <==> !KernelsValid(cfg)
    ensures res == Err(EmptyImage) <==> KernelsValid(cfg) && (|img| == 0 || Width(img) == 0)
    ensures res.Ok? ==>
              var mask := CleanMask(cfg, img, eps);
              IsLabelling(mask, comps) && InDiscoveryOrder(comps, seeds) && Boxed(regions, comps) &&
              res.value == FilterBoxes(regions, cfg.minBoundingBoxSize)
    ensures res.Ok? ==> forall k :: 0 <= k < |res.value| ==>
              InsideImage(res.value[k], |img|, Width(img)) && Keep(res.value[k], cfg.minBoundingBoxSize)
    ensures res.Ok? && AllBackground(CleanMask(cfg, img, eps)) ==> res.value == []
    ensures res.Ok? && AllForeground(CleanMask(cfg, img, eps)) ==>
              res.value == FullImageBoxes(|img|, Width(img), cfg.minBoundingBoxSize)
  {
    if !KernelsValid(cfg) {
      return Err(BadKernel), [], [], [];
    }
    if |img| == 0 || Width(img) == 0 {
      return Err(EmptyImage), [], [], [];
    }
    var mask := CleanMask(cfg, img, eps);
    assert |mask| == |img| && Width(mask) == Width(img);
    var found;
    found, comps, seeds := Label(mask);
    regions := found;
    var kept := SelectBoxes(found, cfg.minBoundingBoxSize);
    forall k | 0 <= k < |kept|
      ensures InsideImage(kept[k], |img|, Width(img)) && Keep(kept[k], cfg.minBoundingBoxSize)
    {
      FilterMembership(found, cfg.minBoundingBoxSize, kept[k]);
    }
    if AllForeground(mask) {
      FullMaskOneBox(mask, found, comps);
      FullImageFilter(|img|, Width(img), cfg.minBoundingBoxSize);
    }
    res := Ok(kept);
  }
}
