/** The interval logic of crawler/preprocess.py: the wide-image and
    height tests, grouping of white-row indices into runs
    (find_split_points), turning runs into offset crop ranges
    (adjust_split_points), the white-band scan and crop emission of
    split_image_by_white_rows, the per-row white/dark classifier of
    image_preprocess and the texts/images routing of save_segments.

    A `Span` is a pair of row indices. Split points from find_split_points
    are closed ranges of white rows; white bands and crop ranges in
    split_image_by_white_rows, and the ranges from adjust_split_points, are
    used as half-open ranges [lo, hi) because `img.crop` excludes its bottom
    edge. */
module Preprocess {
  import opened Common
  import opened Raster
  import Utils

  datatype Span = Span(lo: int, hi: int)

  // ---------------------------------------------------------------------
  // is_wide_image and is_image_height_enough
  // ---------------------------------------------------------------------

  /** Default ratio of is_wide_image. */
  const WideRatio: real := 3.0

  /** is_wide_image: `image.width / image.height > threshold_ratio` with true
      division; a zero height raises ZeroDivisionError, modelled as None. */
  function IsWideImage(image: Image, thresholdRatio: real): (r: Option<bool>)
    ensures r.None? <==> image.height == 0
    ensures r.Some? ==> (r.value <==> image.width as real > thresholdRatio * image.height as real)
  {
    if image.height == 0 then None
    else
      var ratio := image.width as real / image.height as real;
      assert ratio * image.height as real == image.width as real;
      Some(ratio > thresholdRatio)
  }

  /** The two copies of is_wide_image (here and in crawler/utils.py) decide alike. */
  lemma {:induction false} WideImageAgrees(image: Image, thresholdRatio: real)
    ensures IsWideImage(image, thresholdRatio) == Utils.IsWideImage(image.width, image.height, thresholdRatio)
  {
  }

  /** is_image_height_enough: false exactly when the height is below the threshold. */
  function IsImageHeightEnough(image: Image, thresholdHeight: int): (r: bool)
    ensures !r <==> image.height < thresholdHeight
  {
    if image.height < thresholdHeight then false else true
  }

  // ---------------------------------------------------------------------
  // find_split_points
  // ---------------------------------------------------------------------

  /** The maximal runs of consecutive integers in `w`, as closed spans, in
      order: each element continues the current run when it is its
      predecessor plus one and starts a new run otherwise. */
  function Runs(w: seq<int>): (r: seq<Span>)
    ensures |r| <= |w|
    ensures w == [] <==> r == []
    ensures w != [] ==> r[0].lo == w[0] && Last(r).hi == Last(w)
    ensures forall k :: 0 <= k < |r| ==> r[k].lo <= r[k].hi
    decreases |w|
  {
    if |w| == 0 then []
    else if |w| == 1 then [Span(w[0], w[0])]
    else
      var r := Runs(Init(w));
      assert Init(w)[|w| - 2] == w[|w| - 2];
      if w[|w| - 1] == w[|w| - 2] + 1 then Init(r) + [Span(Last(r).lo, w[|w| - 1])]
      else r + [Span(w[|w| - 1], w[|w| - 1])]
  }

  /** The integers lo, lo+1, ..., hi of a closed span. */
  function Expand(s: Span): (e: seq<int>)
    ensures s.lo <= s.hi ==> |e| == s.hi - s.lo + 1
  {
    if s.lo <= s.hi then seq(s.hi - s.lo + 1, k => s.lo + k) else []
  }

  function Flatten(rs: seq<Span>): seq<int>
  {
    if rs == [] then [] else Flatten(Init(rs)) + Expand(Last(rs))
  }

  lemma {:induction false} ExpandExtend(lo: int, hi: int)
    requires lo <= hi
    ensures Expand(Span(lo, hi + 1)) == Expand(Span(lo, hi)) + [hi + 1]
  {
  }

  lemma {:induction false} FlattenSnoc(rs: seq<Span>, x: Span)
    ensures Flatten(rs + [x]) == Flatten(rs) + Expand(x)
  {
    assert Init(rs + [x]) == rs;
  }

  /** Growing the last span by one more integer appends that integer. */
  lemma {:induction false} FlattenGrowLast(rs: seq<Span>, v: int)
    requires rs != [] && Last(rs).lo <= Last(rs).hi
    requires v == Last(rs).hi + 1
    ensures Flatten(Init(rs) + [Span(Last(rs).lo, v)]) == Flatten(rs) + [v]
  {
    assert rs == Init(rs) + [Last(rs)];
    FlattenSnoc(Init(rs), Last(rs));
    ExpandExtend(Last(rs).lo, Last(rs).hi);
    FlattenSnoc(Init(rs), Span(Last(rs).lo, v));
  }

  /** Runs(w) unfolded once. */
  lemma {:induction false} RunsUnfold(w: seq<int>)
    requires |w| >= 2
    ensures Runs(w) ==
              if Last(w) == w[|w| - 2] + 1 then Init(Runs(Init(w))) + [Span(Last(Runs(Init(w))).lo, Last(w))]
              else Runs(Init(w)) + [Span(Last(w), Last(w))]
  {
  }

  /** The runs partition `w`: written out one after another they give `w` back. */
  lemma {:induction false} RunsFlatten(w: seq<int>)
    ensures Flatten(Runs(w)) == w
    decreases |w|
  {
    if |w| == 1 {
      assert Expand(Span(w[0], w[0])) == [w[0]];
    } else if |w| >= 2 {
      var r := Runs(Init(w));
      RunsFlatten(Init(w));
      assert Init(w)[|w| - 2] == w[|w| - 2];
      InitLast(w);
      RunsUnfold(w);
      if Last(w) == w[|w| - 2] + 1 {
        FlattenGrowLast(r, Last(w));
      } else {
        assert Expand(Span(Last(w), Last(w))) == [Last(w)];
        FlattenSnoc(r, Span(Last(w), Last(w)));
      }
    }
  }

  /** Runs are maximal: no run starts right after the previous one ends. */
  lemma {:induction false} RunsSeparated(w: seq<int>)
    ensures forall k :: 0 <= k < |Runs(w)| - 1 ==> Runs(w)[k + 1].lo != Runs(w)[k].hi + 1
    decreases |w|
  {
    if |w| >= 2 {
      var r := Runs(Init(w));
      RunsSeparated(Init(w));
      assert Init(w)[|w| - 2] == w[|w| - 2];
      if w[|w| - 1] == w[|w| - 2] + 1 {
        var r' := Init(r) + [Span(Last(r).lo, w[|w| - 1])];
        assert Runs(w) == r';
        forall k | 0 <= k < |r'| - 1
          ensures r'[k + 1].lo != r'[k].hi + 1
        {
          assert r'[k] == r[k];
          assert r'[k + 1].lo == r[k + 1].lo;
        }
      } else {
        var r' := r + [Span(w[|w| - 1], w[|w| - 1])];
        assert Runs(w) == r';
        forall k | 0 <= k < |r'| - 1
          ensures r'[k + 1].lo != r'[k].hi + 1
        {
          assert r'[k] == r[k];
          if k < |r| - 1 {
            assert r'[k + 1] == r[k + 1];
          }
        }
      }
    }
  }

  /** One more index extends the last run or opens a new one. */
  lemma {:induction false} RunsStep(w: seq<int>, i: int)
    requires 1 <= i < |w|
    ensures Runs(w[..i + 1]) ==
              if w[i] == w[i - 1] + 1 then Init(Runs(w[..i])) + [Span(Last(Runs(w[..i])).lo, w[i])]
              else Runs(w[..i]) + [Span(w[i], w[i])]
  {
    var v := w[..i + 1];
    assert Init(v) == w[..i];
    assert v[i] == w[i] && v[i - 1] == w[i - 1];
  }

  /** The interior runs find_split_points keeps: counted height
      `hi - lo` (one less than the run length) above the threshold. */
  predicate Tall(s: Span, thresholdHeight: int)
  {
    s.hi - s.lo > thresholdHeight
  }

  function TallRuns(rs: seq<Span>, thresholdHeight: int): (r: seq<Span>)
    ensures |r| <= |rs|
  {
    if rs == [] then []
    else TallRuns(Init(rs), thresholdHeight) + (if Tall(Last(rs), thresholdHeight) then [Last(rs)] else [])
  }

  /** The split points of find_split_points: every tall interior run, then
      the last run whatever its height. */
  function SplitPointsOf(whiteRows: seq<int>, thresholdHeight: int): (r: seq<Span>)
  {
    if whiteRows == [] then []
    else TallRuns(Init(Runs(whiteRows)), thresholdHeight) + [Last(Runs(whiteRows))]
  }

  /** TallRuns keeps exactly the tall runs. */
  lemma {:induction false} TallRunsMembers(rs: seq<Span>, thresholdHeight: int, x: Span)
    ensures x in TallRuns(rs, thresholdHeight) <==> x in rs && Tall(x, thresholdHeight)
    decreases |rs|
  {
    if rs != [] {
      TallRunsMembers(Init(rs), thresholdHeight, x);
      assert rs == Init(rs) + [Last(rs)];
    }
  }

  /** A split point is a tall interior run or the last run, and each of those is one. */
  lemma {:induction false} SplitPointsMembers(whiteRows: seq<int>, thresholdHeight: int, x: Span)
    requires whiteRows != []
    ensures x in SplitPointsOf(whiteRows, thresholdHeight) <==>
              (x in Init(Runs(whiteRows)) && Tall(x, thresholdHeight)) || x == Last(Runs(whiteRows))
  {
    TallRunsMembers(Init(Runs(whiteRows)), thresholdHeight, x);
  }

  /** The state of find_split_points after indices [0, i): the tall closed
      runs so far, and the open last run as its start and counted height. */
  ghost predicate SplitScan(w: seq<int>, thresholdHeight: int, i: int, splitPoints: seq<Span>,
                            currentStart: int, whiteHeight: int)
  {
    && 1 <= i <= |w|
    && Runs(w[..i]) != []
    && splitPoints == TallRuns(Init(Runs(w[..i])), thresholdHeight)
    && currentStart == Last(Runs(w[..i])).lo
    && whiteHeight == Last(Runs(w[..i])).hi - currentStart
    && Last(Runs(w[..i])).hi == w[i - 1]
  }

  /** An index that does not continue the open run closes it. */
  lemma {:induction false} SplitScanNewRun(w: seq<int>, thresholdHeight: int, i: int, splitPoints: seq<Span>,
                        currentStart: int, whiteHeight: int)
    requires SplitScan(w, thresholdHeight, i, splitPoints, currentStart, whiteHeight)
    requires i < |w| && w[i] != w[i - 1] + 1
    ensures SplitScan(w, thresholdHeight, i + 1,
                      if whiteHeight > thresholdHeight then splitPoints + [Span(currentStart, w[i - 1])] else splitPoints,
                      w[i], 0)
  {
    var r := Runs(w[..i]);
    RunsStep(w, i);
    var r' := r + [Span(w[i], w[i])];
    assert Init(r') == r;
    assert r == Init(r) + [Last(r)];
  }

  /** An index that continues the open run lengthens it. */
  lemma {:induction false} SplitScanGrow(w: seq<int>, thresholdHeight: int, i: int, splitPoints: seq<Span>,
                      currentStart: int, whiteHeight: int)
    requires SplitScan(w, thresholdHeight, i, splitPoints, currentStart, whiteHeight)
    requires i < |w| && w[i] == w[i - 1] + 1
    ensures SplitScan(w, thresholdHeight, i + 1, splitPoints, currentStart, whiteHeight + 1)
  {
    var r := Runs(w[..i]);
    RunsStep(w, i);
    var r' := Init(r) + [Span(Last(r).lo, w[i])];
    assert Init(r') == Init(r);
  }

  /** find_split_points. */
  method FindSplitPoints(whiteRows: seq<int>, thresholdHeight: int) returns (splitPoints: seq<Span>)
    ensures whiteRows == [] ==> splitPoints == []
    ensures whiteRows != [] ==> splitPoints != [] && Last(splitPoints).hi == Last(whiteRows)
    ensures splitPoints == SplitPointsOf(whiteRows, thresholdHeight)
  {
    splitPoints := [];
    if |whiteRows| > 0 {
      var currentStart := whiteRows[0];
      var whiteHeight := 0;
      assert whiteRows[..1] == [whiteRows[0]];
      for i := 1 to |whiteRows|
        invariant SplitScan(whiteRows, thresholdHeight, i, splitPoints, currentStart, whiteHeight)
      {
        if whiteRows[i] != whiteRows[i - 1] + 1 {
          SplitScanNewRun(whiteRows, thresholdHeight, i, splitPoints, currentStart, whiteHeight);
          if whiteHeight > thresholdHeight {
            splitPoints := splitPoints + [Span(currentStart, whiteRows[i - 1])];
          }
          currentStart := whiteRows[i];
          whiteHeight := 0;
        } else {
          SplitScanGrow(whiteRows, thresholdHeight, i, splitPoints, currentStart, whiteHeight);
          whiteHeight := whiteHeight + 1;
        }
      }
      assert whiteRows[..|whiteRows|] == whiteRows;
      splitPoints := splitPoints + [Span(currentStart, whiteRows[|whiteRows| - 1])];
    }
  }

  // ---------------------------------------------------------------------
  // adjust_split_points
  // ---------------------------------------------------------------------

  /** adjust_split_points: no points give nothing; one point gives the range
      below it (and the range above it unless it starts at row 0); n >= 2
      points give the n-1 ranges between consecutive points, each widened by
      `offset` on both sides. */
  function AdjustSplitPoints(splitPoints: seq<Span>, imageHeight: int, offset: int): (r: seq<Span>)
    ensures splitPoints == [] ==> r == []
    ensures |splitPoints| == 1 && splitPoints[0].lo == 0 ==> |r| == 1
    ensures |splitPoints| == 1 && splitPoints[0].lo != 0 ==> |r| == 2
    ensures |splitPoints| >= 2 ==> |r| == |splitPoints| - 1
  {
    if splitPoints == [] then []
    else if |splitPoints| == 1 then
      var s := splitPoints[0];
      if s.lo == 0 then [Span(s.hi - offset, imageHeight)]
      else [Span(0, s.lo + offset), Span(s.hi - offset, imageHeight)]
    else GapRanges(splitPoints, offset)
  }

  /** The ranges between consecutive points, each widened by `offset`. */
  function GapRanges(sp: seq<Span>, offset: int): (r: seq<Span>)
    requires |sp| >= 1
    ensures |r| == |sp| - 1
    ensures forall i :: 0 <= i < |r| ==> r[i] == Span(sp[i].hi - offset, sp[i + 1].lo + offset)
  {
    seq(|sp| - 1, i requires 0 <= i < |sp| - 1 => Span(sp[i].hi - offset, sp[i + 1].lo + offset))
  }

  /** Some half-open range of `r` contains row `y`. */
  ghost predicate RangesCover(r: seq<Span>, y: int)
  {
    exists k :: 0 <= k < |r| && r[k].lo <= y < r[k].hi
  }

  /** Closed spans in strictly increasing, disjoint order. */
  ghost predicate SortedPoints(sp: seq<Span>)
  {
    && (forall k :: 0 <= k < |sp| ==> sp[k].lo <= sp[k].hi)
    && (forall j, k :: 0 <= j < k < |sp| ==> sp[j].hi < sp[k].lo)
  }

  predicate InPoint(s: Span, y: int)
  {
    s.lo <= y <= s.hi
  }

  /** A row outside every point and between the first and the last point
      lies in the gap between two consecutive points. */
  lemma {:induction false} FindGap(sp: seq<Span>, y: int)
    requires |sp| >= 2 && SortedPoints(sp)
    requires sp[0].hi < y < Last(sp).lo
    requires forall k :: 0 <= k < |sp| ==> !InPoint(sp[k], y)
    ensures exists i :: 0 <= i < |sp| - 1 && sp[i].hi < y < sp[i + 1].lo
    decreases |sp|
  {
    if y >= sp[1].lo {
      assert !InPoint(sp[1], y);
      assert |sp| > 2;
      var tail := sp[1..];
      assert forall k :: 0 <= k < |tail| ==> tail[k] == sp[k + 1];
      FindGap(tail, y);
      var i :| 0 <= i < |tail| - 1 && tail[i].hi < y < tail[i + 1].lo;
      assert sp[i + 1].hi < y < sp[i + 2].lo;
    }
  }

  /** With a non-negative offset the adjusted ranges, read as half-open crop
      ranges, cover every row outside the points that lies below a single
      point and inside the image, or between the first and the last of
      several points. */
  lemma {:induction false} AdjustCovers(splitPoints: seq<Span>, imageHeight: int, offset: int, y: int)
    requires splitPoints != [] && SortedPoints(splitPoints) && offset >= 0
    requires forall k :: 0 <= k < |splitPoints| ==> !InPoint(splitPoints[k], y)
    requires |splitPoints| == 1 ==> 0 <= y < imageHeight
    requires |splitPoints| >= 2 ==> splitPoints[0].hi < y < Last(splitPoints).lo
    ensures RangesCover(AdjustSplitPoints(splitPoints, imageHeight, offset), y)
  {
    if |splitPoints| == 1 {
      assert splitPoints == [splitPoints[0]];
      SingleCovers(splitPoints[0], imageHeight, offset, y);
    } else {
      GapCovers(splitPoints, offset, y);
    }
  }

  lemma {:induction false} SingleCovers(s: Span, imageHeight: int, offset: int, y: int)
    requires s.lo <= s.hi && offset >= 0 && !InPoint(s, y) && 0 <= y < imageHeight
    ensures RangesCover(AdjustSplitPoints([s], imageHeight, offset), y)
  {
    var r := AdjustSplitPoints([s], imageHeight, offset);
    if y > s.hi {
      assert r[|r| - 1].lo <= y < r[|r| - 1].hi;
    } else {
      assert r[0].lo <= y < r[0].hi;
    }
  }

  lemma {:induction false} GapCovers(sp: seq<Span>, offset: int, y: int)
    requires |sp| >= 2 && SortedPoints(sp) && offset >= 0
    requires forall k :: 0 <= k < |sp| ==> !InPoint(sp[k], y)
    requires sp[0].hi < y < Last(sp).lo
    ensures RangesCover(GapRanges(sp, offset), y)
  {
    FindGap(sp, y);
    var i :| 0 <= i < |sp| - 1 && sp[i].hi < y < sp[i + 1].lo;
    GapRangeCovers(sp, offset, y, i);
  }

  lemma {:induction false} GapRangeCovers(sp: seq<Span>, offset: int, y: int, i: int)
    requires 0 <= i < |sp| - 1 && sp[i].hi < y < sp[i + 1].lo && offset >= 0
    ensures RangesCover(GapRanges(sp, offset), y)
  {
    var r := GapRanges(sp, offset);
    assert r[i] == Span(sp[i].hi - offset, sp[i + 1].lo + offset);
  }

  /** With two or more points nothing above the first point or below the
      last survives, even when it precedes the first or follows the last
      point by more than the offset. */
  lemma {:induction false} AdjustInsideOuterPoints(splitPoints: seq<Span>, imageHeight: int, offset: int, k: int)
    requires |splitPoints| >= 2 && SortedPoints(splitPoints)
    requires 0 <= k < |AdjustSplitPoints(splitPoints, imageHeight, offset)|
    ensures splitPoints[0].hi - offset <= AdjustSplitPoints(splitPoints, imageHeight, offset)[k].lo
    ensures AdjustSplitPoints(splitPoints, imageHeight, offset)[k].hi <= Last(splitPoints).lo + offset
  {
    var r := AdjustSplitPoints(splitPoints, imageHeight, offset);
    assert r == GapRanges(splitPoints, offset);
    assert r[k] == Span(splitPoints[k].hi - offset, splitPoints[k + 1].lo + offset);
  }

  // ---------------------------------------------------------------------
  // split_image_by_white_rows
  // ---------------------------------------------------------------------

  /** Rows [s, e) are white and the band cannot grow: the row above it (if
      any) and row e (unless e is the image height) are not white. */
  ghost predicate MaximalWhiteBand(white: seq<bool>, height: int, s: int, e: int)
  {
    && height <= |white|
    && 0 <= s < e <= height
    && (forall y :: s <= y < e ==> white[y])
    && (s == 0 || !white[s - 1])
    && (e == height || !white[e])
  }

  /** A band split_image_by_white_rows records. */
  ghost predicate RecordedBand(white: seq<bool>, height: int, minWhiteBand: int, b: Span)
  {
    MaximalWhiteBand(white, height, b.lo, b.hi) && b.hi - b.lo >= minWhiteBand
  }

  /** The bands recorded so far, ending above row y: each a long enough
      maximal white band, in increasing order, and every such band that ends
      above row y among them. */
  ghost predicate BandsBefore(white: seq<bool>, height: int, minWhiteBand: int, bands: seq<Span>, y: int)
  {
    && (forall k :: 0 <= k < |bands| ==> RecordedBand(white, height, minWhiteBand, bands[k]) && bands[k].hi < y)
    && (forall j, k :: 0 <= j < k < |bands| ==> bands[j].hi < bands[k].lo)
    && (forall s, e {:trigger MaximalWhiteBand(white, height, s, e)} :: e < y && MaximalWhiteBand(white, height, s, e) && e - s >= minWhiteBand ==> Span(s, e) in bands)
  }

  /** The state of the band scan after rows [0, y); an open band started at `startIdx`. */
  ghost predicate BandScan(white: seq<bool>, height: int, minWhiteBand: int, bands: seq<Span>,
                           y: int, inWhite: bool, startIdx: int)
  {
    && 0 <= y <= height <= |white|
    && (inWhite <==> (y > 0 && white[y - 1]))
    && (inWhite ==> 0 <= startIdx < y && (forall k :: startIdx <= k < y ==> white[k]) && (startIdx == 0 || !white[startIdx - 1]))
    && BandsBefore(white, height, minWhiteBand, bands, y)
  }

  lemma {:induction false} AppendBandOrdered(bands: seq<Span>, b: Span)
    requires forall j, k :: 0 <= j < k < |bands| ==> bands[j].hi < bands[k].lo
    requires forall k :: 0 <= k < |bands| ==> bands[k].hi < b.lo
    ensures forall j, k :: 0 <= j < k < |bands + [b]| ==> (bands + [b])[j].hi < (bands + [b])[k].lo
  {
  }

  /** Closing the open band at row e (a non-white row or the bottom edge)
      records it when it is long enough. */
  lemma {:induction false} CloseBand(white: seq<bool>, height: int, minWhiteBand: int, bands: seq<Span>,
                                     e: int, startIdx: int, bands': seq<Span>)
    requires BandScan(white, height, minWhiteBand, bands, e, true, startIdx)
    requires e == height || !white[e]
    requires bands' == if e - startIdx >= minWhiteBand then bands + [Span(startIdx, e)] else bands
    ensures BandsBefore(white, height, minWhiteBand, bands', e + 1)
  {
    assert MaximalWhiteBand(white, height, startIdx, e);
    forall k | 0 <= k < |bands|
      ensures bands[k].hi < startIdx
    {
      assert RecordedBand(white, height, minWhiteBand, bands[k]);
    }
    if e - startIdx >= minWhiteBand {
      CloseBandRecord(white, height, minWhiteBand, bands, e, startIdx);
    } else {
      CloseBandDrop(white, height, minWhiteBand, bands, e, startIdx);
    }
  }

  /** A long enough band is appended after the bands above it. */
  lemma {:induction false} CloseBandRecord(white: seq<bool>, height: int, minWhiteBand: int, bands: seq<Span>,
                                           e: int, startIdx: int)
    requires BandsBefore(white, height, minWhiteBand, bands, e)
    requires MaximalWhiteBand(white, height, startIdx, e) && e - startIdx >= minWhiteBand
    requires forall k :: 0 <= k < |bands| ==> bands[k].hi < startIdx
    ensures BandsBefore(white, height, minWhiteBand, bands + [Span(startIdx, e)], e + 1)
  {
    var b := Span(startIdx, e);
    var bands' := bands + [b];
    assert forall k :: 0 <= k < |bands| ==> bands'[k] == bands[k];
    assert bands'[|bands|] == b;
    AppendBandOrdered(bands, b);
    forall s, e' | e' < e + 1 && MaximalWhiteBand(white, height, s, e') && e' - s >= minWhiteBand
      ensures Span(s, e') in bands'
    {
      if e' == e {
        assert s == startIdx;
      } else {
        assert Span(s, e') in bands;
      }
    }
  }

  /** A band shorter than minWhiteBand is dropped. */
  lemma {:induction false} CloseBandDrop(white: seq<bool>, height: int, minWhiteBand: int, bands: seq<Span>,
                                         e: int, startIdx: int)
    requires BandsBefore(white, height, minWhiteBand, bands, e)
    requires MaximalWhiteBand(white, height, startIdx, e) && e - startIdx < minWhiteBand
    ensures BandsBefore(white, height, minWhiteBand, bands, e + 1)
  {
    forall s, e' | e' < e + 1 && MaximalWhiteBand(white, height, s, e') && e' - s >= minWhiteBand
      ensures Span(s, e') in bands
    {
      assert e' < e;
    }
  }

  /** Scanning a white row. */
  lemma {:induction false} ScanWhiteRow(white: seq<bool>, height: int, minWhiteBand: int, bands: seq<Span>,
                     y: int, inWhite: bool, startIdx: int, startIdx': int)
    requires BandScan(white, height, minWhiteBand, bands, y, inWhite, startIdx)
    requires y < height && white[y]
    requires startIdx' == if inWhite then startIdx else y
    ensures BandScan(white, height, minWhiteBand, bands, y + 1, true, startIdx')
  {
  }

  /** Scanning a non-white row closes the open band, if any, and records it
      when it is long enough. */
  lemma {:induction false} ScanDarkRow(white: seq<bool>, height: int, minWhiteBand: int, bands: seq<Span>,
                    y: int, inWhite: bool, startIdx: int, bands': seq<Span>)
    requires BandScan(white, height, minWhiteBand, bands, y, inWhite, startIdx)
    requires y < height && !white[y]
    requires bands' == if inWhite && y - startIdx >= minWhiteBand then bands + [Span(startIdx, y)] else bands
    ensures BandScan(white, height, minWhiteBand, bands', y + 1, false, startIdx)
  {
    if inWhite {
      CloseBand(white, height, minWhiteBand, bands, y, startIdx, bands');
    }
  }

  /** The bands split_image_by_white_rows records: exactly the long enough
      maximal white bands, in increasing order. */
  ghost predicate BandsFound(white: seq<bool>, height: int, minWhiteBand: int, bands: seq<Span>)
  {
    && (forall k :: 0 <= k < |bands| ==> RecordedBand(white, height, minWhiteBand, bands[k]))
    && (forall j, k :: 0 <= j < k < |bands| ==> bands[j].hi < bands[k].lo)
    && (forall s, e {:trigger MaximalWhiteBand(white, height, s, e)} :: MaximalWhiteBand(white, height, s, e) && e - s >= minWhiteBand ==> Span(s, e) in bands)
  }

  /** One step of the band scan at row y, from (bands, inWhite, startIdx)
      to (bands', inWhite', startIdx'): a white row opens a band unless one
      is open; a non-white row closes the open band, recording it when it
      is long enough. */
  ghost predicate ScanTransition(white: seq<bool>, minWhiteBand: int, y: int,
                                 bands: seq<Span>, inWhite: bool, startIdx: int,
                                 bands': seq<Span>, inWhite': bool, startIdx': int)
    requires 0 <= y < |white|
  {
    if white[y] then
      bands' == bands && inWhite' && startIdx' == (if inWhite then startIdx else y)
    else
      && !inWhite' && startIdx' == startIdx
      && bands' == (if inWhite && y - startIdx >= minWhiteBand then bands + [Span(startIdx, y)] else bands)
  }

  lemma {:induction false} ScanRow(white: seq<bool>, height: int, minWhiteBand: int, bands: seq<Span>,
                                   y: int, inWhite: bool, startIdx: int,
                                   bands': seq<Span>, inWhite': bool, startIdx': int)
    requires BandScan(white, height, minWhiteBand, bands, y, inWhite, startIdx) && y < height
    requires ScanTransition(white, minWhiteBand, y, bands, inWhite, startIdx, bands', inWhite', startIdx')
    ensures BandScan(white, height, minWhiteBand, bands', y + 1, inWhite', startIdx')
  {
    if white[y] {
      ScanWhiteRow(white, height, minWhiteBand, bands, y, inWhite, startIdx, startIdx');
    } else {
      ScanDarkRow(white, height, minWhiteBand, bands, y, inWhite, startIdx, bands');
    }
  }

  /** Closing a band that runs to the bottom of the image completes the list. */
  lemma {:induction false} ScanFinish(white: seq<bool>, height: int, minWhiteBand: int, bands: seq<Span>,
                   inWhite: bool, startIdx: int, bands': seq<Span>)
    requires BandScan(white, height, minWhiteBand, bands, height, inWhite, startIdx)
    requires bands' == if inWhite && height - startIdx >= minWhiteBand then bands + [Span(startIdx, height)] else bands
    ensures BandsFound(white, height, minWhiteBand, bands')
  {
    if inWhite {
      CloseBand(white, height, minWhiteBand, bands, height, startIdx, bands');
    }
  }

  /** Where the previous band ended before band k (0 before the first). */
  function PrevEnd(bands: seq<Span>, k: int): int
    requires 0 <= k <= |bands|
  {
    if k == 0 then 0 else bands[k - 1].hi
  }

  /** The crop range proposed above band k. */
  function Candidate(height: int, bands: seq<Span>, k: int, offset: int): Span
    requires 0 <= k < |bands|
  {
    Span(Max(PrevEnd(bands, k) - offset, 0), Min(bands[k].lo + offset, height))
  }

  function CandidatePrefix(height: int, bands: seq<Span>, k: int, offset: int): (r: seq<Span>)
    requires 0 <= k <= |bands|
    ensures |r| == k
  {
    seq(k, j requires 0 <= j < k => Candidate(height, bands, j, offset))
  }

  /** The range proposed below the last band, if that band ends above the bottom. */
  function TailCandidate(height: int, prevEnd: int, offset: int): seq<Span>
  {
    if prevEnd < height then [Span(Max(prevEnd - offset, 0), height)] else []
  }

  /** Every crop range split_image_by_white_rows tries, in order. */
  function Candidates(height: int, bands: seq<Span>, offset: int): seq<Span>
  {
    CandidatePrefix(height, bands, |bands|, offset) + TailCandidate(height, PrevEnd(bands, |bands|), offset)
  }

  /** A crop is made only for a non-empty range of at least `minImageHeight` rows. */
  predicate LongEnough(c: Span, minImageHeight: int)
  {
    c.lo < c.hi && c.hi - c.lo >= minImageHeight
  }

  function KeepLong(cs: seq<Span>, minImageHeight: int): (r: seq<Span>)
    ensures |r| <= |cs|
  {
    if cs == [] then []
    else KeepLong(Init(cs), minImageHeight) + (if LongEnough(Last(cs), minImageHeight) then [Last(cs)] else [])
  }

  lemma {:induction false} KeepLongAppend(cs: seq<Span>, c: Span, minImageHeight: int)
    ensures KeepLong(cs + [c], minImageHeight) ==
              KeepLong(cs, minImageHeight) + (if LongEnough(c, minImageHeight) then [c] else [])
  {
    assert Init(cs + [c]) == cs;
  }

  /** KeepLong keeps exactly the long enough candidates. */
  lemma {:induction false} KeepLongMembers(cs: seq<Span>, minImageHeight: int, c: Span)
    ensures c in KeepLong(cs, minImageHeight) <==> c in cs && LongEnough(c, minImageHeight)
    decreases |cs|
  {
    if cs != [] {
      KeepLongMembers(Init(cs), minImageHeight, c);
      assert cs == Init(cs) + [Last(cs)];
    }
  }

  /** The bands, as found by the scan: sorted, inside the image. */
  ghost predicate SortedBands(height: int, bands: seq<Span>)
  {
    && (forall k :: 0 <= k < |bands| ==> 0 <= bands[k].lo < bands[k].hi <= height)
    && (forall j, k :: 0 <= j < k < |bands| ==> bands[j].hi < bands[k].lo)
  }

  /** With a non-negative offset the candidates cover every row of the image
      outside the bands, from candidate k onwards when the row lies below
      the end of band k-1. */
  lemma {:induction false} CandidatesCoverFrom(height: int, bands: seq<Span>, offset: int, y: int, k: int)
    requires SortedBands(height, bands) && offset >= 0
    requires 0 <= y < height
    requires forall j :: 0 <= j < |bands| ==> !(bands[j].lo <= y < bands[j].hi)
    requires 0 <= k <= |bands| && PrevEnd(bands, k) <= y
    ensures exists c :: c in Candidates(height, bands, offset) && c.lo <= y < c.hi
    decreases |bands| - k
  {
    var cs := Candidates(height, bands, offset);
    if k == |bands| {
      var t := Span(Max(PrevEnd(bands, k) - offset, 0), height);
      assert cs[|bands|] == t;
      assert t in cs && t.lo <= y < t.hi;
    } else if y < bands[k].lo {
      var c := Candidate(height, bands, k, offset);
      assert cs[k] == c;
      assert c in cs && c.lo <= y < c.hi;
    } else {
      CandidatesCoverFrom(height, bands, offset, y, k + 1);
    }
  }

  /** With sorted bands and a non-negative offset, every row of the image
      outside the bands lies in some candidate range. */
  lemma {:induction false} CandidatesCover(height: int, bands: seq<Span>, offset: int, y: int)
    requires SortedBands(height, bands) && offset >= 0
    requires 0 <= y < height
    requires forall j :: 0 <= j < |bands| ==> !(bands[j].lo <= y < bands[j].hi)
    ensures exists c :: c in Candidates(height, bands, offset) && c.lo <= y < c.hi
  {
    CandidatesCoverFrom(height, bands, offset, y, 0);
  }

  /** Row ranges that run top to bottom: both their starts and their ends
      never decrease. */
  ghost predicate InRowOrder(cs: seq<Span>)
  {
    forall j, k :: 0 <= j < k < |cs| ==> cs[j].lo <= cs[k].lo && cs[j].hi <= cs[k].hi
  }

  /** The previous band's end never decreases from one band to the next. */
  lemma {:induction false} PrevEndMonotone(height: int, bands: seq<Span>, j: int, k: int)
    requires SortedBands(height, bands) && 0 <= j <= k <= |bands|
    ensures PrevEnd(bands, j) <= PrevEnd(bands, k)
  {
    if 0 < j < k {
      assert bands[j - 1].hi < bands[k - 1].lo;
    }
  }

  /** The candidates are tried top to bottom, the range below the last band last. */
  lemma {:induction false} CandidatesInRowOrder(height: int, bands: seq<Span>, offset: int)
    requires SortedBands(height, bands)
    ensures InRowOrder(Candidates(height, bands, offset))
  {
    var cs := Candidates(height, bands, offset);
    var n := |bands|;
    forall j, k | 0 <= j < k < |cs|
      ensures cs[j].lo <= cs[k].lo && cs[j].hi <= cs[k].hi
    {
      assert cs[j] == Candidate(height, bands, j, offset);
      PrevEndMonotone(height, bands, j, k);
      if k < n {
        assert cs[k] == Candidate(height, bands, k, offset);
        assert bands[j].lo < bands[k].lo;
      } else {
        assert cs[k] == Span(Max(PrevEnd(bands, n) - offset, 0), height);
      }
    }
  }

  /** Dropping the short ranges keeps the row order. */
  lemma {:induction false} KeepLongInRowOrder(cs: seq<Span>, minImageHeight: int)
    requires InRowOrder(cs)
    ensures InRowOrder(KeepLong(cs, minImageHeight))
    decreases |cs|
  {
    if cs != [] {
      var init := Init(cs);
      assert forall j :: 0 <= j < |init| ==> init[j] == cs[j];
      KeepLongInRowOrder(init, minImageHeight);
      var kept := KeepLong(init, minImageHeight);
      if LongEnough(Last(cs), minImageHeight) {
        forall c | c in kept
          ensures c.lo <= Last(cs).lo && c.hi <= Last(cs).hi
        {
          KeepLongMembers(init, minImageHeight, c);
        }
        InRowOrderSnoc(kept, Last(cs));
      }
    }
  }

  lemma {:induction false} InRowOrderSnoc(cs: seq<Span>, c: Span)
    requires InRowOrder(cs)
    requires forall d :: d in cs ==> d.lo <= c.lo && d.hi <= c.hi
    ensures InRowOrder(cs + [c])
  {
    var all := cs + [c];
    forall j, k | 0 <= j < k < |all|
      ensures all[j].lo <= all[k].lo && all[j].hi <= all[k].hi
    {
      assert all[j] == cs[j];
      if k < |cs| {
        assert all[k] == cs[k];
      } else {
        assert cs[j] in cs;
      }
    }
  }

  /** The crops of split_image_by_white_rows come out top to bottom. */
  lemma {:induction false} CropsInRowOrder(height: int, bands: seq<Span>, offset: int, minImageHeight: int)
    requires SortedBands(height, bands)
    ensures InRowOrder(KeepLong(Candidates(height, bands, offset), minImageHeight))
  {
    CandidatesInRowOrder(height, bands, offset);
    KeepLongInRowOrder(Candidates(height, bands, offset), minImageHeight);
  }

  /** Trying candidate k keeps it exactly when it is long enough. */
  lemma {:induction false} KeepLongStep(height: int, bands: seq<Span>, k: int, offset: int, minImageHeight: int)
    requires 0 <= k < |bands|
    ensures KeepLong(CandidatePrefix(height, bands, k + 1, offset), minImageHeight) ==
              KeepLong(CandidatePrefix(height, bands, k, offset), minImageHeight) +
              (if LongEnough(Candidate(height, bands, k, offset), minImageHeight) then [Candidate(height, bands, k, offset)] else [])
  {
    var c := Candidate(height, bands, k, offset);
    assert CandidatePrefix(height, bands, k + 1, offset) == CandidatePrefix(height, bands, k, offset) + [c];
    KeepLongAppend(CandidatePrefix(height, bands, k, offset), c, minImageHeight);
  }

  /** The crops made so far: one per kept range, each a non-empty crop of at
      least `minImageHeight` rows inside the image. */
  ghost predicate CropsSoFar(img: Image, spans: seq<Span>, crops: seq<Image>, minImageHeight: int)
  {
    && |img.rows| == img.height
    && |crops| == |spans|
    && forall j :: 0 <= j < |spans| ==>
         && 0 <= spans[j].lo < spans[j].hi <= img.height
         && spans[j].hi - spans[j].lo >= minImageHeight
         && crops[j] == Crop(img, spans[j].lo, spans[j].hi)
  }

  lemma {:induction false} CropStep(img: Image, spans: seq<Span>, crops: seq<Image>, minImageHeight: int, c: Span)
    requires CropsSoFar(img, spans, crops, minImageHeight)
    requires 0 <= c.lo && c.hi <= img.height && LongEnough(c, minImageHeight)
    ensures CropsSoFar(img, spans + [c], crops + [Crop(img, c.lo, c.hi)], minImageHeight)
  {
  }

  /** The first loop of split_image_by_white_rows: the white bands of at
      least `minWhiteBand` rows, including one that runs to the bottom edge. */
  method FindWhiteBands(white: seq<bool>, height: int, minWhiteBand: int) returns (bands: seq<Span>)
    requires 0 <= height <= |white|
    ensures BandsFound(white, height, minWhiteBand, bands)
  {
    bands := [];
    var inWhite := false;
    var startIdx := 0;
    var y := 0;
    while y < height
      invariant BandScan(white, height, minWhiteBand, bands, y, inWhite, startIdx)
    {
      ghost var bands0, inWhite0, start0 := bands, inWhite, startIdx;
      if white[y] {
        if !inWhite {
          startIdx := y;
          inWhite := true;
        }
      } else {
        if inWhite {
          var endIdx := y;
          if endIdx - startIdx >= minWhiteBand {
            bands := bands + [Span(startIdx, endIdx)];
          }
          inWhite := false;
        }
      }
      ScanRow(white, height, minWhiteBand, bands0, y, inWhite0, start0, bands, inWhite, startIdx);
      y := y + 1;
    }
    ghost var scanned := bands;
    if inWhite {
      var endIdx := height;
      if endIdx - startIdx >= minWhiteBand {
        bands := bands + [Span(startIdx, endIdx)];
      }
    }
    ScanFinish(white, height, minWhiteBand, scanned, inWhite, startIdx, bands);
  }

  /** The second part of split_image_by_white_rows: the crops between the
      bands and below the last one, kept when long enough, in order. */
  method CropBetweenBands(img: Image, bands: seq<Span>, offset: int, minImageHeight: int)
    returns (crops: seq<Image>, ghost spans: seq<Span>)
    requires |img.rows| == img.height
    ensures spans == KeepLong(Candidates(img.height, bands, offset), minImageHeight)
    ensures CropsSoFar(img, spans, crops, minImageHeight)
    ensures forall k :: 0 <= k < |crops| ==> crops[k].width == img.width && crops[k].height >= minImageHeight
  {
    var height := img.height;
    crops := [];
    spans := [];
    var prevEnd := 0;
    for k := 0 to |bands|
      invariant prevEnd == PrevEnd(bands, k)
      invariant spans == KeepLong(CandidatePrefix(height, bands, k, offset), minImageHeight)
      invariant CropsSoFar(img, spans, crops, minImageHeight)
    {
      var start, end := bands[k].lo, bands[k].hi;
      var croppedStart := Max(prevEnd - offset, 0);
      var croppedEnd := Min(start + offset, height);
      ghost var spans0, crops0 := spans, crops;
      if croppedStart < croppedEnd && croppedEnd - croppedStart >= minImageHeight {
        crops := crops + [Crop(img, croppedStart, croppedEnd)];
        spans := spans + [Span(croppedStart, croppedEnd)];
      }
      CropLoopStep(img, bands, k, offset, minImageHeight, spans0, crops0, croppedStart, croppedEnd, spans, crops);
      prevEnd := end;
    }
    ghost var spans0, crops0 := spans, crops;
    ghost var tailStart := Max(prevEnd - offset, 0);
    if prevEnd < height {
      var croppedStart := Max(prevEnd - offset, 0);
      var croppedEnd := height;
      if croppedStart < croppedEnd && croppedEnd - croppedStart >= minImageHeight {
        crops := crops + [Crop(img, croppedStart, croppedEnd)];
        spans := spans + [Span(croppedStart, croppedEnd)];
      }
    }
    CropTailStep(img, bands, offset, minImageHeight, spans0, crops0, tailStart, spans, crops);
  }

  /** One pass of the loop over the bands: candidate k is cropped exactly
      when it is long enough. */
  lemma {:induction false} CropLoopStep(img: Image, bands: seq<Span>, k: int, offset: int, minImageHeight: int,
                                        spans: seq<Span>, crops: seq<Image>, lo: int, hi: int,
                                        spans': seq<Span>, crops': seq<Image>)
    requires 0 <= k < |bands| && |img.rows| == img.height
    requires spans == KeepLong(CandidatePrefix(img.height, bands, k, offset), minImageHeight)
    requires CropsSoFar(img, spans, crops, minImageHeight)
    requires lo == Max(PrevEnd(bands, k) - offset, 0) && hi == Min(bands[k].lo + offset, img.height)
    requires if lo < hi && hi - lo >= minImageHeight then spans' == spans + [Span(lo, hi)] && crops' == crops + [Crop(img, lo, hi)]
             else spans' == spans && crops' == crops
    ensures spans' == KeepLong(CandidatePrefix(img.height, bands, k + 1, offset), minImageHeight)
    ensures CropsSoFar(img, spans', crops', minImageHeight)
  {
    var c := Candidate(img.height, bands, k, offset);
    assert c == Span(lo, hi);
    KeepLongStep(img.height, bands, k, offset, minImageHeight);
    if LongEnough(c, minImageHeight) {
      CropStep(img, spans, crops, minImageHeight, c);
    }
  }

  /** The range below the last band is cropped exactly when it exists and
      is long enough; then every candidate has been tried. */
  lemma {:induction false} CropTailStep(img: Image, bands: seq<Span>, offset: int, minImageHeight: int,
                                        spans: seq<Span>, crops: seq<Image>, lo: int,
                                        spans': seq<Span>, crops': seq<Image>)
    requires |img.rows| == img.height
    requires spans == KeepLong(CandidatePrefix(img.height, bands, |bands|, offset), minImageHeight)
    requires CropsSoFar(img, spans, crops, minImageHeight)
    requires lo == Max(PrevEnd(bands, |bands|) - offset, 0)
    requires if PrevEnd(bands, |bands|) < img.height && lo < img.height && img.height - lo >= minImageHeight
             then spans' == spans + [Span(lo, img.height)] && crops' == crops + [Crop(img, lo, img.height)]
             else spans' == spans && crops' == crops
    ensures spans' == KeepLong(Candidates(img.height, bands, offset), minImageHeight)
    ensures CropsSoFar(img, spans', crops', minImageHeight)
  {
    var prefix := CandidatePrefix(img.height, bands, |bands|, offset);
    var prevEnd := PrevEnd(bands, |bands|);
    if prevEnd < img.height {
      var c := Span(lo, img.height);
      KeepLongAppend(prefix, c, minImageHeight);
      if LongEnough(c, minImageHeight) {
        CropStep(img, spans, crops, minImageHeight, c);
      }
    } else {
      assert prefix + TailCandidate(img.height, prevEnd, offset) == prefix;
    }
  }

  /** split_image_by_white_rows: the crops are the candidate ranges around
      the recorded white bands that are long enough, in order. `spans` are
      their row ranges and `bands` the recorded bands, both ghost: the source
      returns only the cropped images. */
  method SplitImageByWhiteRows(img: Image, white: seq<bool>, minWhiteBand: int, offset: int, minImageHeight: int)
    returns (crops: seq<Image>, ghost spans: seq<Span>, ghost bands: seq<Span>)
    requires |img.rows| == img.height && img.height <= |white|
    ensures forall k :: 0 <= k < |bands| ==> RecordedBand(white, img.height, minWhiteBand, bands[k])
    ensures forall j, k :: 0 <= j < k < |bands| ==> bands[j].hi < bands[k].lo
    ensures forall s, e {:trigger MaximalWhiteBand(white, img.height, s, e)} ::
              MaximalWhiteBand(white, img.height, s, e) && e - s >= minWhiteBand ==> Span(s, e) in bands
    ensures spans == KeepLong(Candidates(img.height, bands, offset), minImageHeight)
    ensures CropsSoFar(img, spans, crops, minImageHeight)
    ensures InRowOrder(spans)
    ensures forall k :: 0 <= k < |crops| ==> crops[k].height > 0 && IsImageHeightEnough(crops[k], minImageHeight)
  {
    var found := FindWhiteBands(white, img.height, minWhiteBand);
    bands := found;
    crops, spans := CropBetweenBands(img, found, offset, minImageHeight);
    BandsFoundSorted(white, img.height, minWhiteBand, found);
    CropsInRowOrder(img.height, found, offset, minImageHeight);
  }

  /** The recorded bands are sorted and inside the image. */
  lemma {:induction false} BandsFoundSorted(white: seq<bool>, height: int, minWhiteBand: int, bands: seq<Span>)
    requires BandsFound(white, height, minWhiteBand, bands)
    ensures SortedBands(height, bands)
  {
    forall k | 0 <= k < |bands|
      ensures 0 <= bands[k].lo < bands[k].hi <= height
    {
      assert RecordedBand(white, height, minWhiteBand, bands[k]);
    }
  }

  // ---------------------------------------------------------------------
  // image_preprocess: the row classifier, and save_segments
  // ---------------------------------------------------------------------

  /** Constants of image_preprocess. */
  const MeanThreshold: int := 220
  const DarkThreshold: int := 200
  const DarkThresholdCount: int := 5
  /** image_preprocess passes min_white_band=40 and keeps the defaults
      offset=10 and min_image_height=15 of split_image_by_white_rows. */
  const DetailMinWhiteBand: int := 40
  const DetailOffset: int := 10
  const DetailMinImageHeight: int := 15

  function ChannelSum(p: Pixel): int
  {
    p.r as int + p.g as int + p.b as int
  }

  function RowSum(row: seq<Pixel>): int
  {
    if row == [] then 0 else RowSum(Init(row)) + ChannelSum(Last(row))
  }

  /** A dark pixel in integer form: channel sum below three times the threshold. */
  predicate IsDark(p: Pixel, darkThreshold: int)
  {
    ChannelSum(p) < 3 * darkThreshold
  }

  function DarkCount(row: seq<Pixel>, darkThreshold: int): nat
  {
    if row == [] then 0 else DarkCount(Init(row), darkThreshold) + (if IsDark(Last(row), darkThreshold) then 1 else 0)
  }

  /** numpy's per-pixel mean over the three channels. */
  ghost function PixelMean(p: Pixel): real
  {
    ChannelSum(p) as real / 3.0
  }

  /** numpy's mean of a row over its width and its three channels. */
  ghost function RowMean(row: seq<Pixel>): real
    requires |row| > 0
  {
    RowSum(row) as real / (3 * |row|) as real
  }

  /** The pixels numpy counts as dark: channel mean below the threshold. */
  ghost function DarkPixels(row: seq<Pixel>, darkThreshold: int): set<int>
  {
    set j | 0 <= j < |row| && PixelMean(row[j]) < darkThreshold as real
  }

  /** A mean is above a threshold exactly when the sum is above threshold times count. */
  lemma {:induction false} MeanAbove(sum: int, n: int, t: int)
    requires n > 0
    ensures sum as real / n as real > t as real <==> sum > t * n
  {
    var q := sum as real / n as real;
    assert q * n as real == sum as real;
    if q > t as real {
      assert q * n as real > t as real * n as real;
    } else {
      assert q * n as real <= t as real * n as real;
    }
  }

  lemma {:induction false} DarkAgrees(p: Pixel, darkThreshold: int)
    ensures IsDark(p, darkThreshold) <==> PixelMean(p) < darkThreshold as real
  {
  }

  /** The integer count of dark pixels is the size of numpy's dark-pixel set. */
  lemma {:induction false} DarkCountIsCardinality(row: seq<Pixel>, darkThreshold: int)
    ensures DarkCount(row, darkThreshold) == |DarkPixels(row, darkThreshold)|
    decreases |row|
  {
    if row != [] {
      var init := Init(row);
      var n := |row| - 1;
      DarkCountIsCardinality(init, darkThreshold);
      DarkAgrees(Last(row), darkThreshold);
      var before := DarkPixels(init, darkThreshold);
      assert forall j :: 0 <= j < n ==> init[j] == row[j];
      if IsDark(Last(row), darkThreshold) {
        assert DarkPixels(row, darkThreshold) == before + {n};
      } else {
        assert DarkPixels(row, darkThreshold) == before;
      }
    }
  }

  /** The final row signal of image_preprocess: a row is white exactly when
      its mean is above `meanThreshold` and at most `darkThresholdCount` of
      its pixels have a mean below `darkThreshold`. A row of width 0 has a
      NaN mean, which compares false, so it is never white. */
  function IsWhiteRow(row: seq<Pixel>, meanThreshold: int, darkThreshold: int, darkThresholdCount: int): (w: bool)
    ensures w <==> && |row| > 0
                   && RowMean(row) > meanThreshold as real
                   && |DarkPixels(row, darkThreshold)| <= darkThresholdCount
  {
    DarkCountIsCardinality(row, darkThreshold);
    if |row| == 0 then false
    else
      MeanAbove(RowSum(row), 3 * |row|, meanThreshold);
      var white := RowSum(row) > meanThreshold * (3 * |row|);
      var dark := DarkCount(row, darkThreshold) > darkThresholdCount;
      !dark && white
  }

  /** The `final` array of image_preprocess, one entry per row. */
  function WhiteRowSignal(img: Image): (w: seq<bool>)
    ensures |w| == |img.rows|
    ensures forall y :: 0 <= y < |w| ==>
              (w[y] <==> && |img.rows[y]| > 0
                         && RowMean(img.rows[y]) > MeanThreshold as real
                         && |DarkPixels(img.rows[y], DarkThreshold)| <= DarkThresholdCount)
  {
    seq(|img.rows|, y requires 0 <= y < |img.rows| => IsWhiteRow(img.rows[y], MeanThreshold, DarkThreshold, DarkThresholdCount))
  }

  /** The two folders save_segments writes to. */
  datatype Folder = Texts | Images

  /** save_segments: wide segments go to texts/, the others to images/. A
      segment of height 0 makes is_wide_image raise, modelled as None. */
  method RouteSegments(segments: seq<Image>) returns (folders: Option<seq<Folder>>)
    ensures folders.None? <==> exists k :: 0 <= k < |segments| && segments[k].height == 0
    ensures folders.Some? ==>
              && |folders.value| == |segments|
              && forall k :: 0 <= k < |segments| ==>
                   (folders.value[k] == Texts <==> segments[k].width as real > WideRatio * segments[k].height as real)
  {
    var routed: seq<Folder> := [];
    for i := 0 to |segments|
      invariant |routed| == i
      invariant forall k :: 0 <= k < i ==> segments[k].height != 0
      invariant forall k :: 0 <= k < i ==>
                  (routed[k] == Texts <==> segments[k].width as real > WideRatio * segments[k].height as real)
    {
      var wide := IsWideImage(segments[i], WideRatio);
      if wide.None? {
        return None;
      }
      routed := routed + [if wide.value then Texts else Images];
    }
    folders := Some(routed);
  }

  /** The cropping branch of image_preprocess for one downloaded image:
      classify the rows, split with the detail-page settings and route each
      segment. Every segment is a crop of at least 15 rows, so routing never
      divides by zero. */
  method SegmentDetailImage(img: Image)
    returns (segments: seq<Image>, folders: seq<Folder>, ghost spans: seq<Span>, ghost bands: seq<Span>)
    requires |img.rows| == img.height
    ensures BandsFound(WhiteRowSignal(img), img.height, DetailMinWhiteBand, bands)
    ensures spans == KeepLong(Candidates(img.height, bands, DetailOffset), DetailMinImageHeight)
    ensures CropsSoFar(img, spans, segments, DetailMinImageHeight)
    ensures InRowOrder(spans)
    ensures |folders| == |segments|
    ensures forall k :: 0 <= k < |segments| ==>
              && segments[k].width == img.width
              && segments[k].height >= DetailMinImageHeight
              && (folders[k] == Texts <==> segments[k].width as real > WideRatio * segments[k].height as real)
  {
    var white := WhiteRowSignal(img);
    segments, spans, bands := SplitImageByWhiteRows(img, white, DetailMinWhiteBand, DetailOffset, DetailMinImageHeight);
    var routed := RouteSegments(segments);
    folders := routed.value;
  }
}
