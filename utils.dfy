/** Canvas geometry of the image concatenation helpers and the wide-image
    test of crawler/utils.py. Pasting copies pixels inside the image library;
    the model computes the canvas size and where each image is pasted. */
module Utils {
  import opened Common
  import opened Raster

  /** A canvas size and the (x, y) corner at which each input image is pasted. */
  datatype Layout = Layout(width: int, height: int, offsets: seq<(int, int)>)

  function SumHeights(images: seq<Image>): (s: nat)
  {
    if images == [] then 0 else SumHeights(images[..|images| - 1]) + images[|images| - 1].height
  }

  function SumWidths(images: seq<Image>): (s: nat)
  {
    if images == [] then 0 else SumWidths(images[..|images| - 1]) + images[|images| - 1].width
  }

  /** Python's `max` over the widths. */
  function MaxWidth(images: seq<Image>): (m: nat)
    requires images != []
    ensures forall k :: 0 <= k < |images| ==> images[k].width <= m
    ensures exists k :: 0 <= k < |images| && images[k].width == m
  {
    if |images| == 1 then images[0].width
    else
      var m := MaxWidth(images[..|images| - 1]);
      var last := images[|images| - 1].width;
      assert forall k :: 0 <= k < |images| - 1 ==> images[..|images| - 1][k] == images[k];
      if m >= last then m else last
  }

  /** Python's `max` over the heights. */
  function MaxHeight(images: seq<Image>): (m: nat)
    requires images != []
    ensures forall k :: 0 <= k < |images| ==> images[k].height <= m
    ensures exists k :: 0 <= k < |images| && images[k].height == m
  {
    if |images| == 1 then images[0].height
    else
      var m := MaxHeight(images[..|images| - 1]);
      var last := images[|images| - 1].height;
      assert forall k :: 0 <= k < |images| - 1 ==> images[..|images| - 1][k] == images[k];
      if m >= last then m else last
  }

  lemma {:induction false} SumHeightsPrefix(images: seq<Image>, k: int)
    requires 0 <= k < |images|
    ensures SumHeights(images[..k + 1]) == SumHeights(images[..k]) + images[k].height
  {
    assert images[..k + 1][..k] == images[..k];
  }

  lemma {:induction false} SumWidthsPrefix(images: seq<Image>, k: int)
    requires 0 <= k < |images|
    ensures SumWidths(images[..k + 1]) == SumWidths(images[..k]) + images[k].width
  {
    assert images[..k + 1][..k] == images[..k];
  }

  /** Heights are non-negative, so the running sum only grows. */
  lemma {:induction false} SumHeightsMonotone(images: seq<Image>, j: int, k: int)
    requires 0 <= j <= k <= |images|
    ensures SumHeights(images[..j]) <= SumHeights(images[..k])
    decreases k - j
  {
    if j < k {
      SumHeightsPrefix(images, k - 1);
      SumHeightsMonotone(images, j, k - 1);
    }
  }

  lemma {:induction false} SumWidthsMonotone(images: seq<Image>, j: int, k: int)
    requires 0 <= j <= k <= |images|
    ensures SumWidths(images[..j]) <= SumWidths(images[..k])
    decreases k - j
  {
    if j < k {
      SumWidthsPrefix(images, k - 1);
      SumWidthsMonotone(images, j, k - 1);
    }
  }

  /** concat_images_vertically: a canvas as wide as the widest image and as
      tall as all images together; image k is pasted at x = 0 below images
      0..k-1, so the images tile the canvas rows top to bottom without gap or
      overlap. `max` of no widths raises, modelled as None. */
  method ConcatImagesVertically(images: seq<Image>) returns (layout: Option<Layout>)
    ensures layout.None? <==> images == []
    ensures layout.Some? ==>
              var l := layout.value;
              && (forall k :: 0 <= k < |images| ==> images[k].width <= l.width)
              && (exists k :: 0 <= k < |images| && images[k].width == l.width)
              && l.height == SumHeights(images)
              && |l.offsets| == |images|
              && (forall k :: 0 <= k < |images| ==> l.offsets[k] == (0, SumHeights(images[..k])))
              && l.offsets[0].1 == 0
              && (forall k :: 0 <= k < |images| - 1 ==> l.offsets[k + 1].1 == l.offsets[k].1 + images[k].height)
              && (forall j, k :: 0 <= j < k < |images| ==> l.offsets[j].1 + images[j].height <= l.offsets[k].1)
              && l.offsets[|images| - 1].1 + images[|images| - 1].height == l.height
  {
    if images == [] {
      return None;
    }
    var maxWidth := MaxWidth(images);
    var totalHeight := SumHeights(images);
    var offsets: seq<(int, int)> := [];
    var yOffset := 0;
    for k := 0 to |images|
      invariant |offsets| == k
      invariant yOffset == SumHeights(images[..k])
      invariant forall j :: 0 <= j < k ==> offsets[j] == (0, SumHeights(images[..j]))
    {
      offsets := offsets + [(0, yOffset)];
      SumHeightsPrefix(images, k);
      yOffset := yOffset + images[k].height;
    }
    assert images[..|images|] == images;
    forall j, k | 0 <= j < k < |images|
      ensures offsets[j].1 + images[j].height <= offsets[k].1
    {
      SumHeightsPrefix(images, j);
      SumHeightsMonotone(images, j + 1, k);
    }
    forall k | 0 <= k < |images| - 1
      ensures offsets[k + 1].1 == offsets[k].1 + images[k].height
    {
      SumHeightsPrefix(images, k);
    }
    SumHeightsPrefix(images, |images| - 1);
    layout := Some(Layout(maxWidth, totalHeight, offsets));
  }

  /** The layout concat_images_horizontally_centered computes: a canvas as
      wide as all images together and as tall as the tallest; image k is
      pasted right of images 0..k-1 and centred vertically with floor
      division, so it lies inside the canvas. */
  ghost predicate CenteredRow(images: seq<Image>, l: Layout)
  {
    && l.width == SumWidths(images)
    && (forall k :: 0 <= k < |images| ==> images[k].height <= l.height)
    && (exists k :: 0 <= k < |images| && images[k].height == l.height)
    && |l.offsets| == |images|
    && (forall k :: 0 <= k < |images| ==>
          l.offsets[k] == (SumWidths(images[..k]), CenterOffset(l.height, images[k].height)))
    && (forall k :: 0 <= k < |images| ==>
          0 <= l.offsets[k].1 && l.offsets[k].1 + images[k].height <= l.height)
    && (forall j, k :: 0 <= j < k < |images| ==> l.offsets[j].0 + images[j].width <= l.offsets[k].0)
    && (images != [] ==> l.offsets[|images| - 1].0 + images[|images| - 1].width == l.width)
  }

  /** Image j ends no further right than image k starts, for j < k. */
  lemma {:induction false} SumWidthsNoOverlap(images: seq<Image>, j: int, k: int)
    requires 0 <= j < k <= |images|
    ensures SumWidths(images[..j]) + images[j].width <= SumWidths(images[..k])
  {
    SumWidthsPrefix(images, j);
    SumWidthsMonotone(images, j + 1, k);
  }

  /** The offsets of the first k images of a centred row on a canvas of
      height maxHeight. */
  ghost predicate CenteredOffsets(images: seq<Image>, maxHeight: int, offsets: seq<(int, int)>, k: int)
    requires 0 <= k <= |images|
  {
    && |offsets| == k
    && forall j :: 0 <= j < k ==>
         offsets[j] == (SumWidths(images[..j]), CenterOffset(maxHeight, images[j].height))
  }

  lemma {:induction false} CenteredOffsetsStep(images: seq<Image>, maxHeight: int, offsets: seq<(int, int)>, k: int,
                                               offsets': seq<(int, int)>)
    requires 0 <= k < |images| && CenteredOffsets(images, maxHeight, offsets, k)
    requires offsets' == offsets + [(SumWidths(images[..k]), CenterOffset(maxHeight, images[k].height))]
    ensures CenteredOffsets(images, maxHeight, offsets', k + 1)
  {
    assert forall j :: 0 <= j < k ==> offsets'[j] == offsets[j];
  }

  /** The offsets computed by the loop of concat_images_horizontally_centered
      make a centred row. */
  lemma {:induction false} CenteredRowIntro(images: seq<Image>, maxHeight: int, offsets: seq<(int, int)>)
    requires images != [] && maxHeight == MaxHeight(images)
    requires CenteredOffsets(images, maxHeight, offsets, |images|)
    ensures CenteredRow(images, Layout(SumWidths(images), maxHeight, offsets))
  {
    forall j, k | 0 <= j < k < |images|
      ensures offsets[j].0 + images[j].width <= offsets[k].0
    {
      SumWidthsNoOverlap(images, j, k);
    }
    forall k | 0 <= k < |images|
      ensures 0 <= offsets[k].1 && offsets[k].1 + images[k].height <= maxHeight
    {
      CenterOffsetFits(maxHeight, images[k].height);
    }
    SumWidthsNoOverlap(images, |images| - 1, |images|);
    assert images[..|images|] == images;
  }

  /** concat_images_horizontally_centered. Unpacking the sizes of no images
      raises, modelled as None. */
  method ConcatImagesHorizontallyCentered(images: seq<Image>) returns (layout: Option<Layout>)
    ensures layout.None? <==> images == []
    ensures layout.Some? ==> CenteredRow(images, layout.value)
  {
    if images == [] {
      return None;
    }
    var totalWidth := SumWidths(images);
    var maxHeight := MaxHeight(images);
    var offsets: seq<(int, int)> := [];
    var xOffset := 0;
    for k := 0 to |images|
      invariant xOffset == SumWidths(images[..k])
      invariant CenteredOffsets(images, maxHeight, offsets, k)
    {
      var yOffset := CenterOffset(maxHeight, images[k].height);
      ghost var before := offsets;
      offsets := offsets + [(xOffset, yOffset)];
      CenteredOffsetsStep(images, maxHeight, before, k, offsets);
      SumWidthsPrefix(images, k);
      xOffset := xOffset + images[k].width;
    }
    CenteredRowIntro(images, maxHeight, offsets);
    layout := Some(Layout(totalWidth, maxHeight, offsets));
  }

  /** The top edge that centres an image of height `h` on a canvas of height
      `canvas`: Python's `(canvas - h) // 2`, which equals Dafny's division
      here because the spare height is never negative. */
  function CenterOffset(canvas: int, h: int): int
  {
    (canvas - h) / 2
  }

  /** An image no taller than the canvas, placed at its centring offset,
      lies inside the canvas, with the spare rows split as evenly as floor
      division allows. */
  lemma {:induction false} CenterOffsetFits(canvas: int, h: int)
    requires 0 <= h <= canvas
    ensures 0 <= CenterOffset(canvas, h) && CenterOffset(canvas, h) + h <= canvas
    ensures canvas - h - 1 <= 2 * CenterOffset(canvas, h) <= canvas - h
  {
  }

  /** is_wide_image over `image.size`: true exactly when width > ratio * height.
      A zero height raises ZeroDivisionError, modelled as None. */
  function IsWideImage(width: nat, height: nat, thresholdRatio: real): (r: Option<bool>)
    ensures r.None? <==> height == 0
    ensures r.Some? ==> (r.value <==> width as real > thresholdRatio * height as real)
  {
    if height == 0 then None
    else
      var ratio := width as real / height as real;
      assert ratio * height as real == width as real;
      Some(ratio > thresholdRatio)
  }
}
