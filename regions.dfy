/** The content-region finder and consolidator of the image splitter
    (test/image_split_function_test.py).

    A row signal holds one boolean per image row, `true` for a blank
    (white) row. A content region is a closed interval [start, end] of rows.

    Note on the caller: `split_image` crops each returned region with
    `(start, end)` as PIL's exclusive bottom bound, so the last row of every
    region is not part of the saved crop. The functions below are modelled as
    written, with inclusive regions; the caller's crop is not. */
module ContentRegions {
  import opened Common

  /** A closed interval [start, end] of image rows. */
  datatype Region = Region(start: int, end: int)

  function Height(r: Region): int
  {
    r.end - r.start + 1
  }

  predicate Contains(r: Region, y: int)
  {
    r.start <= y <= r.end
  }

  /** Row y lies in some region of rs. */
  ghost predicate Covered(rs: seq<Region>, y: int)
  {
    exists k :: 0 <= k < |rs| && Contains(rs[k], y)
  }

  /** Every region is non-empty and inside [0, height-1]; the regions are
      strictly increasing and pairwise disjoint. */
  ghost predicate WellFormed(rs: seq<Region>, height: int)
  {
    && (forall k :: 0 <= k < |rs| ==> 0 <= rs[k].start <= rs[k].end < height)
    && (forall j, k :: 0 <= j < k < |rs| ==> rs[j].end < rs[k].start)
  }

  // ---------------------------------------------------------------------
  // find_content_regions
  // ---------------------------------------------------------------------

  /** Every region ends before row i. */
  ghost predicate EndsBefore(regions: seq<Region>, i: int)
  {
    forall k :: 0 <= k < |regions| ==> regions[k].end < i
  }

  /** Every row of every region is a content (non-white) row. */
  ghost predicate AllContent(white: seq<bool>, regions: seq<Region>)
    requires WellFormed(regions, |white|)
  {
    forall k, y :: 0 <= k < |regions| && Contains(regions[k], y) ==> !white[y]
  }

  /** No region can be extended upwards or downwards: the neighbouring rows
      are white or outside the image. */
  ghost predicate Maximal(white: seq<bool>, regions: seq<Region>)
    requires WellFormed(regions, |white|)
  {
    && (forall k :: 0 <= k < |regions| ==> regions[k].start == 0 || white[regions[k].start - 1])
    && (forall k :: 0 <= k < |regions| ==> regions[k].end == |white| - 1 || white[regions[k].end + 1])
  }

  /** Every content row above row i lies in a region. */
  ghost predicate CoversPrefix(white: seq<bool>, regions: seq<Region>, i: int)
    requires 0 <= i <= |white|
  {
    forall y :: 0 <= y < i && !white[y] ==> Covered(regions, y)
  }

  /** What the scan of FindContentRegions knows after looking at rows [0, i). */
  ghost predicate ScanInvariant(white: seq<bool>, regions: seq<Region>, i: int)
  {
    && 0 <= i <= |white|
    && WellFormed(regions, |white|)
    && EndsBefore(regions, i)
    && AllContent(white, regions)
    && Maximal(white, regions)
    && (0 < i < |white| ==> white[i - 1] || white[i])
    && CoversPrefix(white, regions, i)
  }

  lemma {:induction false} ScanSkipWhite(white: seq<bool>, regions: seq<Region>, i: int)
    requires ScanInvariant(white, regions, i) && i < |white| && white[i]
    ensures ScanInvariant(white, regions, i + 1)
  {
  }

  lemma {:induction false} AllContentSnoc(white: seq<bool>, regions: seq<Region>, r: Region)
    requires WellFormed(regions, |white|) && WellFormed(regions + [r], |white|)
    requires AllContent(white, regions)
    requires 0 <= r.start <= r.end < |white|
    requires forall y :: r.start <= y <= r.end ==> !white[y]
    ensures AllContent(white, regions + [r])
  {
    var rs := regions + [r];
    forall k, y | 0 <= k < |rs| && Contains(rs[k], y)
      ensures !white[y]
    {
      if k < |regions| {
        assert rs[k] == regions[k];
      }
    }
  }

  lemma {:induction false} MaximalSnoc(white: seq<bool>, regions: seq<Region>, r: Region)
    requires WellFormed(regions, |white|) && WellFormed(regions + [r], |white|)
    requires Maximal(white, regions)
    requires 0 <= r.start <= r.end < |white|
    requires r.start == 0 || white[r.start - 1]
    requires r.end == |white| - 1 || white[r.end + 1]
    ensures Maximal(white, regions + [r])
  {
    var rs := regions + [r];
    assert forall k :: 0 <= k < |regions| ==> rs[k] == regions[k];
    assert rs[|regions|] == r;
  }

  lemma {:induction false} CoversSnoc(white: seq<bool>, regions: seq<Region>, start: int, i: int)
    requires 0 <= start < i <= |white|
    requires CoversPrefix(white, regions, start)
    ensures CoversPrefix(white, regions + [Region(start, i - 1)], i)
  {
    var rs := regions + [Region(start, i - 1)];
    forall y | 0 <= y < i && !white[y]
      ensures Covered(rs, y)
    {
      if y < start {
        var k :| 0 <= k < |regions| && Contains(regions[k], y);
        assert rs[k] == regions[k];
      } else {
        assert Contains(rs[|rs| - 1], y);
      }
    }
  }

  lemma {:induction false} ScanAddRegion(white: seq<bool>, regions: seq<Region>, start: int, i: int)
    requires ScanInvariant(white, regions, start) && start < i <= |white|
    requires !white[start]
    requires forall y :: start <= y < i ==> !white[y]
    requires i == |white| || white[i]
    ensures ScanInvariant(white, regions + [Region(start, i - 1)], i)
  {
    var r := Region(start, i - 1);
    WellFormedSnoc(regions, r, |white|);
    var rs := regions + [r];
    assert forall k :: 0 <= k < |regions| ==> rs[k] == regions[k];
    assert rs[|regions|] == r;
    assert EndsBefore(rs, i);
    AllContentSnoc(white, regions, r);
    assert start == 0 || white[start - 1];
    MaximalSnoc(white, regions, r);
    CoversSnoc(white, regions, start, i);
  }

  /** The maximal runs of non-white rows, top to bottom. */
  method FindContentRegions(white: seq<bool>) returns (regions: seq<Region>)
    ensures WellFormed(regions, |white|)
    ensures forall k, y :: 0 <= k < |regions| && Contains(regions[k], y) ==> !white[y]
    ensures forall k :: 0 <= k < |regions| ==> regions[k].start == 0 || white[regions[k].start - 1]
    ensures forall k :: 0 <= k < |regions| ==> regions[k].end == |white| - 1 || white[regions[k].end + 1]
    ensures forall y :: 0 <= y < |white| && !white[y] ==> Covered(regions, y)
    ensures (forall y :: 0 <= y < |white| ==> white[y]) ==> regions == []
  {
    var height := |white|;
    regions := [];
    var i := 0;
    while i < height
      invariant ScanInvariant(white, regions, i)
    {
      if !white[i] {
        var start := i;
        while i < height && !white[i]
          invariant start <= i <= height
          invariant forall y :: start <= y < i ==> !white[y]
        {
          i := i + 1;
        }
        ScanAddRegion(white, regions, start, i);
        regions := regions + [Region(start, i - 1)];
      } else {
        ScanSkipWhite(white, regions, i);
        i := i + 1;
      }
    }
    if regions != [] {
      assert Contains(regions[0], regions[0].start);
      assert 0 <= regions[0].start < |white| && !white[regions[0].start];
    }
  }

  // ---------------------------------------------------------------------
  // process_content_regions, as three specification functions
  // ---------------------------------------------------------------------

  /** Step 1 (noise filter): the regions at least minHeight rows tall, in order. */
  function KeepTall(rs: seq<Region>, minHeight: int): (r: seq<Region>)
    ensures |r| <= |rs|
  {
    if rs == [] then []
    else KeepTall(rs[..|rs| - 1], minHeight)
         + (if Height(rs[|rs| - 1]) >= minHeight then [rs[|rs| - 1]] else [])
  }

  lemma {:induction false} KeepTallPrefix(rs: seq<Region>, i: int, minHeight: int)
    requires 0 <= i < |rs|
    ensures KeepTall(rs[..i + 1], minHeight)
            == KeepTall(rs[..i], minHeight) + (if Height(rs[i]) >= minHeight then [rs[i]] else [])
  {
    assert rs[..i + 1][..i] == rs[..i];
  }

  /** Step 2 (gap merge): walk `rest` with `current` as the open region; a next
      region whose white gap to `current` is below minWhiteGap extends it. */
  function MergeFrom(current: Region, rest: seq<Region>, minWhiteGap: int): (r: seq<Region>)
    ensures 1 <= |r| <= 1 + |rest|
    ensures r[0].start == current.start
    decreases |rest|
  {
    if rest == [] then [current]
    else if Gap(current, rest[0]) < minWhiteGap then
      MergeFrom(Region(current.start, rest[0].end), rest[1..], minWhiteGap)
    else
      [current] + MergeFrom(rest[0], rest[1..], minWhiteGap)
  }

  /** Step 3 (padding) for one region, clamped to [0, height-1]. */
  function PadRegion(r: Region, height: int, padding: int): Region
  {
    Region(Max(0, r.start - padding), Min(height - 1, r.end + padding))
  }

  function Pad(rs: seq<Region>, height: int, padding: int): (r: seq<Region>)
    ensures |r| == |rs|
  {
    seq(|rs|, k requires 0 <= k < |rs| => PadRegion(rs[k], height, padding))
  }

  /** The whole consolidation, with the whole-image fallback. */
  function Process(regions: seq<Region>, imageHeight: int, minContentHeight: int,
                   minWhiteGap: int, padding: int): seq<Region>
  {
    if regions == [] then [Region(0, imageHeight - 1)]
    else
      var valid := KeepTall(regions, minContentHeight);
      if valid == [] then [Region(0, imageHeight - 1)]
      else Pad(MergeFrom(valid[0], valid[1..], minWhiteGap), imageHeight, padding)
  }

  /** The noise-filter loop of process_content_regions. */
  method FilterNoise(contentRegions: seq<Region>, minContentHeight: int) returns (valid: seq<Region>)
    ensures valid == KeepTall(contentRegions, minContentHeight)
  {
    valid := [];
    for i := 0 to |contentRegions|
      invariant valid == KeepTall(contentRegions[..i], minContentHeight)
    {
      var r := contentRegions[i];
      KeepTallPrefix(contentRegions, i, minContentHeight);
      if r.end - r.start + 1 >= minContentHeight {
        valid := valid + [r];
      }
    }
    assert contentRegions[..|contentRegions|] == contentRegions;
  }

  /** The gap-merge loop of process_content_regions over a non-empty list. */
  method MergeClose(valid: seq<Region>, minWhiteGap: int) returns (merged: seq<Region>)
    requires valid != []
    ensures merged == MergeFrom(valid[0], valid[1..], minWhiteGap)
  {
    merged := [];
    var currentStart, currentEnd := valid[0].start, valid[0].end;
    for i := 1 to |valid|
      invariant merged + MergeFrom(Region(currentStart, currentEnd), valid[i..], minWhiteGap)
                == MergeFrom(valid[0], valid[1..], minWhiteGap)
    {
      var next := valid[i];
      assert valid[i..][1..] == valid[i + 1..];
      var whiteGap := next.start - currentEnd - 1;
      if whiteGap < minWhiteGap {
        currentEnd := next.end;
      } else {
        merged := merged + [Region(currentStart, currentEnd)];
        currentStart, currentEnd := next.start, next.end;
      }
    }
    assert valid[|valid|..] == [];
    merged := merged + [Region(currentStart, currentEnd)];
  }

  /** The padding loop of process_content_regions. */
  method PadAll(merged: seq<Region>, imageHeight: int, padding: int) returns (splitRegions: seq<Region>)
    ensures splitRegions == Pad(merged, imageHeight, padding)
  {
    splitRegions := [];
    for i := 0 to |merged|
      invariant |splitRegions| == i
      invariant forall k :: 0 <= k < i ==> splitRegions[k] == PadRegion(merged[k], imageHeight, padding)
    {
      var paddedStart := Max(0, merged[i].start - padding);
      var paddedEnd := Min(imageHeight - 1, merged[i].end + padding);
      splitRegions := splitRegions + [Region(paddedStart, paddedEnd)];
    }
  }

  /** process_content_regions: noise filter, gap merge and padding, with the
      whole-image fallback. */
  method ProcessContentRegions(contentRegions: seq<Region>, imageHeight: int,
                               minContentHeight: int, minWhiteGap: int, padding: int)
    returns (splitRegions: seq<Region>)
    ensures splitRegions == Process(contentRegions, imageHeight, minContentHeight, minWhiteGap, padding)
    ensures 1 <= |splitRegions| <= Max(1, |contentRegions|)
    ensures forall k :: 0 <= k < |splitRegions| ==>
              0 <= splitRegions[k].start && splitRegions[k].end <= imageHeight - 1
    ensures KeepTall(contentRegions, minContentHeight) == [] ==> splitRegions == [Region(0, imageHeight - 1)]
  {
    if |contentRegions| == 0 {
      return [Region(0, imageHeight - 1)];
    }
    var valid := FilterNoise(contentRegions, minContentHeight);
    if |valid| == 0 {
      return [Region(0, imageHeight - 1)];
    }
    var merged := MergeClose(valid, minWhiteGap);
    splitRegions := PadAll(merged, imageHeight, padding);
    PadProperties(merged, imageHeight, padding);
  }

  // ---------------------------------------------------------------------
  // Properties of the consolidation steps
  // ---------------------------------------------------------------------

  /** The noise filter keeps exactly the tall regions. */
  lemma {:induction false} KeepTallMembers(rs: seq<Region>, minHeight: int, x: Region)
    ensures x in KeepTall(rs, minHeight) <==> x in rs && Height(x) >= minHeight
  {
    if rs != [] {
      KeepTallMembers(rs[..|rs| - 1], minHeight, x);
      assert rs == rs[..|rs| - 1] + [rs[|rs| - 1]];
    }
  }

  /** The noise filter keeps the input order: a well-formed list stays well-formed. */
  lemma {:induction false} KeepTallWellFormed(rs: seq<Region>, height: int, minHeight: int)
    requires WellFormed(rs, height)
    ensures WellFormed(KeepTall(rs, minHeight), height)
  {
    if rs != [] {
      var init, last := rs[..|rs| - 1], rs[|rs| - 1];
      WellFormedInit(rs, height);
      KeepTallWellFormed(init, height, minHeight);
      var kept := KeepTall(init, minHeight);
      forall j | 0 <= j < |kept|
        ensures kept[j].end < last.start
      {
        KeepTallMembers(init, minHeight, kept[j]);
        var i :| 0 <= i < |init| && init[i] == kept[j];
        assert rs[i] == kept[j];
      }
      if Height(last) >= minHeight {
        WellFormedSnoc(kept, last, height);
      }
    }
  }

  lemma {:induction false} WellFormedInit(rs: seq<Region>, height: int)
    requires WellFormed(rs, height) && rs != []
    ensures WellFormed(rs[..|rs| - 1], height)
  {
    var t := rs[..|rs| - 1];
    assert forall k :: 0 <= k < |t| ==> t[k] == rs[k];
  }

  /** A region below every region of a well-formed list can be appended to it. */
  lemma {:induction false} WellFormedSnoc(rs: seq<Region>, r: Region, height: int)
    requires WellFormed(rs, height) && 0 <= r.start <= r.end < height
    requires forall j :: 0 <= j < |rs| ==> rs[j].end < r.start
    ensures WellFormed(rs + [r], height)
  {
    var all := rs + [r];
    assert forall k :: 0 <= k < |rs| ==> all[k] == rs[k];
    assert all[|rs|] == r;
  }

  /** Consecutive regions of rs are separated by at least gap white rows. */
  ghost predicate GapsAtLeast(rs: seq<Region>, gap: int)
  {
    forall k :: 0 <= k < |rs| - 1 ==> rs[k + 1].start - rs[k].end - 1 >= gap
  }

  /** After merging, consecutive regions are separated by at least minWhiteGap white rows. */
  lemma {:induction false} MergeGaps(current: Region, rest: seq<Region>, minWhiteGap: int)
    ensures GapsAtLeast(MergeFrom(current, rest, minWhiteGap), minWhiteGap)
    decreases |rest|
  {
    if rest != [] {
      if rest[0].start - current.end - 1 < minWhiteGap {
        var c := Region(current.start, rest[0].end);
        assert MergeFrom(current, rest, minWhiteGap) == MergeFrom(c, rest[1..], minWhiteGap);
        MergeGaps(c, rest[1..], minWhiteGap);
      } else {
        var tail := MergeFrom(rest[0], rest[1..], minWhiteGap);
        var m := [current] + tail;
        assert MergeFrom(current, rest, minWhiteGap) == m;
        MergeGaps(rest[0], rest[1..], minWhiteGap);
        forall k | 0 <= k < |m| - 1
          ensures m[k + 1].start - m[k].end - 1 >= minWhiteGap
        {
          if k > 0 {
            var j := k - 1;
            assert GapsAtLeast(tail, minWhiteGap);
            assert tail[j + 1].start - tail[j].end - 1 >= minWhiteGap;
            assert m[k] == tail[j] && m[k + 1] == tail[j + 1];
          } else {
            assert m[0] == current && m[1] == tail[0] && tail[0].start == rest[0].start;
          }
        }
      }
    }
  }

  /** The white gap between two regions, in rows. */
  function Gap(upper: Region, lower: Region): int
  {
    lower.start - upper.end - 1
  }

  /** The number of consecutive pairs of rs whose white gap is at least gap. */
  function WideGaps(rs: seq<Region>, gap: int): nat
    decreases |rs|
  {
    if |rs| < 2 then 0
    else (if Gap(rs[0], rs[1]) >= gap then 1 else 0) + WideGaps(rs[1..], gap)
  }

  /** WideGaps looks at the first region only through its end. */
  lemma {:induction false} WideGapsSameEnd(a: Region, b: Region, rs: seq<Region>, gap: int)
    requires a.end == b.end
    ensures WideGaps([a] + rs, gap) == WideGaps([b] + rs, gap)
  {
    if rs != [] {
      assert ([a] + rs)[1..] == rs == ([b] + rs)[1..];
      assert ([a] + rs)[1] == rs[0] == ([b] + rs)[1];
    }
  }

  /** The merge splits exactly at the wide gaps: it yields one region more
      than there are gaps of at least minWhiteGap between consecutive input
      regions. */
  lemma {:induction false} MergeCount(current: Region, rest: seq<Region>, minWhiteGap: int)
    ensures |MergeFrom(current, rest, minWhiteGap)| == 1 + WideGaps([current] + rest, minWhiteGap)
    decreases |rest|
  {
    if rest != [] {
      var all := [current] + rest;
      assert all[0] == current && all[1] == rest[0] && all[1..] == [rest[0]] + rest[1..];
      if Gap(current, rest[0]) < minWhiteGap {
        var c := Region(current.start, rest[0].end);
        MergeCount(c, rest[1..], minWhiteGap);
        WideGapsSameEnd(c, rest[0], rest[1..], minWhiteGap);
      } else {
        MergeCount(rest[0], rest[1..], minWhiteGap);
      }
    }
  }

  /** A wide gap stays a boundary: when input regions i and i+1 are at least
      minWhiteGap rows apart, some merged region ends where region i ends and
      the next merged region starts where region i+1 starts. */
  lemma {:induction false} MergeKeepsBoundary(current: Region, rest: seq<Region>, minWhiteGap: int, i: int)
    returns (k: int)
    requires 0 <= i < |rest|
    requires Gap(([current] + rest)[i], ([current] + rest)[i + 1]) >= minWhiteGap
    ensures 0 <= k < |MergeFrom(current, rest, minWhiteGap)| - 1
    ensures MergeFrom(current, rest, minWhiteGap)[k].end == ([current] + rest)[i].end
    ensures MergeFrom(current, rest, minWhiteGap)[k + 1].start == ([current] + rest)[i + 1].start
    decreases |rest|
  {
    var all := [current] + rest;
    assert all[0] == current && all[1] == rest[0];
    if Gap(current, rest[0]) < minWhiteGap {
      var c := Region(current.start, rest[0].end);
      var all' := [c] + rest[1..];
      assert all'[i - 1].end == all[i].end && all'[i] == all[i + 1];
      k := MergeKeepsBoundary(c, rest[1..], minWhiteGap, i - 1);
    } else if i == 0 {
      k := 0;
    } else {
      var tail := MergeFrom(rest[0], rest[1..], minWhiteGap);
      assert ([rest[0]] + rest[1..]) == rest;
      assert rest[i - 1] == all[i] && rest[i] == all[i + 1];
      var j := MergeKeepsBoundary(rest[0], rest[1..], minWhiteGap, i - 1);
      assert ([current] + tail)[j + 1] == tail[j] && ([current] + tail)[j + 2] == tail[j + 1];
      k := j + 1;
    }
  }

  lemma {:induction false} WellFormedTail(rs: seq<Region>, height: int)
    requires WellFormed(rs, height) && rs != []
    ensures WellFormed(rs[1..], height)
  {
    var t := rs[1..];
    forall j, k | 0 <= j < k < |t|
      ensures t[j].end < t[k].start
    {
      assert t[j] == rs[j + 1] && t[k] == rs[k + 1];
    }
  }

  /** A region above the first of a well-formed list can be put in front of it. */
  lemma {:induction false} WellFormedCons(r: Region, rs: seq<Region>, height: int)
    requires 0 <= r.start <= r.end < height
    requires WellFormed(rs, height) && rs != [] && r.end < rs[0].start
    ensures WellFormed([r] + rs, height)
  {
    var all := [r] + rs;
    forall j, k | 0 <= j < k < |all|
      ensures all[j].end < all[k].start
    {
      assert all[k] == rs[k - 1];
      if j > 0 {
        assert all[j] == rs[j - 1];
      } else if k > 1 {
        assert rs[0].end < rs[k - 1].start;
      }
    }
  }

  /** Extending the open region to the end of the next one keeps the list well-formed. */
  lemma {:induction false} WellFormedAbsorb(current: Region, rest: seq<Region>, height: int)
    requires WellFormed([current] + rest, height) && rest != []
    ensures WellFormed([Region(current.start, rest[0].end)] + rest[1..], height)
  {
    var all := [current] + rest;
    var all' := [Region(current.start, rest[0].end)] + rest[1..];
    assert all[0] == current && all[1] == rest[0];
    forall k | 0 <= k < |all'|
      ensures 0 <= all'[k].start <= all'[k].end < height
    {
      if k > 0 {
        assert all'[k] == all[k + 1];
      }
    }
    forall j, k | 0 <= j < k < |all'|
      ensures all'[j].end < all'[k].start
    {
      assert all'[k] == all[k + 1];
      if j > 0 {
        assert all'[j] == all[j + 1];
      }
    }
  }

  /** Merging a well-formed list gives a well-formed list. */
  lemma {:induction false} MergeWellFormed(current: Region, rest: seq<Region>, minWhiteGap: int, height: int)
    requires WellFormed([current] + rest, height)
    ensures WellFormed(MergeFrom(current, rest, minWhiteGap), height)
    decreases |rest|
  {
    var all := [current] + rest;
    if rest == [] {
      assert all[0] == current;
    } else if rest[0].start - current.end - 1 < minWhiteGap {
      WellFormedAbsorb(current, rest, height);
      MergeWellFormed(Region(current.start, rest[0].end), rest[1..], minWhiteGap, height);
    } else {
      WellFormedTail(all, height);
      assert all[1..] == [rest[0]] + rest[1..];
      MergeWellFormed(rest[0], rest[1..], minWhiteGap, height);
      var tail := MergeFrom(rest[0], rest[1..], minWhiteGap);
      assert all[0] == current && all[1] == rest[0];
      WellFormedCons(current, tail, height);
    }
  }

  /** The last merged region ends where the last input region ends. */
  lemma {:induction false} MergeLastEnd(current: Region, rest: seq<Region>, minWhiteGap: int)
    ensures Last(MergeFrom(current, rest, minWhiteGap)).end == Last([current] + rest).end
    decreases |rest|
  {
    if rest == [] {
    } else if rest[0].start - current.end - 1 < minWhiteGap {
      var c := Region(current.start, rest[0].end);
      MergeLastEnd(c, rest[1..], minWhiteGap);
      assert Last([c] + rest[1..]).end == Last([current] + rest).end;
    } else {
      MergeLastEnd(rest[0], rest[1..], minWhiteGap);
      var tail := MergeFrom(rest[0], rest[1..], minWhiteGap);
      assert Last([current] + tail) == Last(tail);
      assert Last([rest[0]] + rest[1..]) == Last([current] + rest);
    }
  }

  /** When the open region absorbs the next one, a row of any region of
      [current] + rest lies in some region of the shortened list. */
  lemma {:induction false} AbsorbIndex(current: Region, rest: seq<Region>, height: int, k: int, y: int) returns (k': int)
    requires WellFormed([current] + rest, height) && rest != []
    requires 0 <= k <= |rest| && Contains(([current] + rest)[k], y)
    ensures 0 <= k' <= |rest| - 1
    ensures Contains(([Region(current.start, rest[0].end)] + rest[1..])[k'], y)
  {
    var all := [current] + rest;
    var all' := [Region(current.start, rest[0].end)] + rest[1..];
    assert all[0] == current && all[1] == rest[0];
    if k <= 1 {
      k' := 0;
      assert all[0].end < all[1].start;
    } else {
      k' := k - 1;
      assert all'[k'] == all[k];
    }
  }

  lemma {:induction false} ConsCovered(r: Region, rs: seq<Region>, y: int)
    requires Covered(rs, y)
    ensures Covered([r] + rs, y)
  {
    var i :| 0 <= i < |rs| && Contains(rs[i], y);
    assert ([r] + rs)[i + 1] == rs[i];
  }

  /** Merging drops no row: a row of any input region lies in some merged region. */
  lemma {:induction false} MergeCovers(current: Region, rest: seq<Region>, minWhiteGap: int,
                                       height: int, k: int, y: int)
    requires WellFormed([current] + rest, height)
    requires 0 <= k <= |rest| && Contains(([current] + rest)[k], y)
    ensures Covered(MergeFrom(current, rest, minWhiteGap), y)
    decreases |rest|
  {
    if rest == [] {
      assert [current] + rest == [current];
      assert Contains(MergeFrom(current, rest, minWhiteGap)[0], y);
    } else if rest[0].start - current.end - 1 < minWhiteGap {
      var c := Region(current.start, rest[0].end);
      WellFormedAbsorb(current, rest, height);
      var k' := AbsorbIndex(current, rest, height, k, y);
      MergeCovers(c, rest[1..], minWhiteGap, height, k', y);
    } else if k == 0 {
      assert ([current] + rest)[0] == current;
      assert Contains(MergeFrom(current, rest, minWhiteGap)[0], y);
    } else {
      var all := [current] + rest;
      WellFormedTail(all, height);
      assert all[1..] == [rest[0]] + rest[1..];
      assert all[1..][k - 1] == all[k];
      MergeCovers(rest[0], rest[1..], minWhiteGap, height, k - 1, y);
      ConsCovered(current, MergeFrom(rest[0], rest[1..], minWhiteGap), y);
    }
  }

  /** Padding stays inside the image, and with a non-negative padding on a
      well-formed list it only widens each region and keeps the top-to-bottom order. */
  lemma {:induction false} PadProperties(rs: seq<Region>, height: int, padding: int)
    ensures var p := Pad(rs, height, padding);
            forall k :: 0 <= k < |p| ==> 0 <= p[k].start && p[k].end <= height - 1
    ensures WellFormed(rs, height) && padding >= 0 ==>
            var p := Pad(rs, height, padding);
            && (forall k :: 0 <= k < |p| ==>
                  p[k].start <= rs[k].start && rs[k].end <= p[k].end && p[k].start <= p[k].end)
            && (forall j, k :: 0 <= j < k < |p| ==> p[j].start <= p[k].start && p[j].end <= p[k].end)
  {
  }

  /** The consolidation of a well-formed region list (what FindContentRegions
      returns) gives non-empty intervals inside the image whose starts and ends
      run top to bottom. */
  lemma {:induction false} ProcessOrdered(regions: seq<Region>, imageHeight: int, minContentHeight: int,
                       minWhiteGap: int, padding: int)
    requires WellFormed(regions, imageHeight)
    requires padding >= 0 && imageHeight >= 1
    ensures var out := Process(regions, imageHeight, minContentHeight, minWhiteGap, padding);
            && (forall k :: 0 <= k < |out| ==> 0 <= out[k].start <= out[k].end <= imageHeight - 1)
            && (forall j, k :: 0 <= j < k < |out| ==> out[j].start <= out[k].start && out[j].end <= out[k].end)
  {
    var valid := KeepTall(regions, minContentHeight);
    if regions != [] && valid != [] {
      KeepTallWellFormed(regions, imageHeight, minContentHeight);
      assert valid == [valid[0]] + valid[1..];
      MergeWellFormed(valid[0], valid[1..], minWhiteGap, imageHeight);
      PadProperties(MergeFrom(valid[0], valid[1..], minWhiteGap), imageHeight, padding);
    }
  }

  /** Consolidation drops no content: with a non-negative padding, every row of
      a region that passes the noise filter lies in some output region. */
  lemma {:induction false} ProcessCovers(regions: seq<Region>, imageHeight: int, minContentHeight: int,
                      minWhiteGap: int, padding: int, x: Region, y: int)
    requires WellFormed(regions, imageHeight)
    requires padding >= 0
    requires x in regions && Height(x) >= minContentHeight && Contains(x, y)
    ensures Covered(Process(regions, imageHeight, minContentHeight, minWhiteGap, padding), y)
  {
    var valid := KeepTall(regions, minContentHeight);
    KeepTallMembers(regions, minContentHeight, x);
    KeepTallWellFormed(regions, imageHeight, minContentHeight);
    var k :| 0 <= k < |valid| && valid[k] == x;
    assert valid == [valid[0]] + valid[1..];
    MergeCovers(valid[0], valid[1..], minWhiteGap, imageHeight, k, y);
    var merged := MergeFrom(valid[0], valid[1..], minWhiteGap);
    assert 0 <= y < imageHeight;
    PadCovers(merged, imageHeight, padding, y);
  }

  /** Padding with a non-negative amount keeps every covered row inside the image covered. */
  lemma {:induction false} PadCovers(rs: seq<Region>, height: int, padding: int, y: int)
    requires padding >= 0 && 0 <= y < height && Covered(rs, y)
    ensures Covered(Pad(rs, height, padding), y)
  {
    var i :| 0 <= i < |rs| && Contains(rs[i], y);
    assert Contains(Pad(rs, height, padding)[i], y);
  }

  /** The merge never produces more regions than survived the noise filter,
      yields one region per wide gap plus one, and consecutive merged regions
      keep at least minWhiteGap white rows between them. */
  lemma {:induction false} ProcessMergeShape(regions: seq<Region>, imageHeight: int, minContentHeight: int,
                          minWhiteGap: int, padding: int)
    requires KeepTall(regions, minContentHeight) != []
    ensures var valid := KeepTall(regions, minContentHeight);
            var merged := MergeFrom(valid[0], valid[1..], minWhiteGap);
            && |merged| <= |valid|
            && |merged| == 1 + WideGaps(valid, minWhiteGap)
            && GapsAtLeast(merged, minWhiteGap)
            && Process(regions, imageHeight, minContentHeight, minWhiteGap, padding)
               == Pad(merged, imageHeight, padding)
  {
    var valid := KeepTall(regions, minContentHeight);
    MergeGaps(valid[0], valid[1..], minWhiteGap);
    MergeCount(valid[0], valid[1..], minWhiteGap);
    assert [valid[0]] + valid[1..] == valid;
  }
}
