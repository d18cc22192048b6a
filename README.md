# musinsa-crawling: image splitting, canvas geometry and product records

This project models the computational core of the musinsa-crawling
crawler. The crawler scrapes product pages, cuts the long detail-page
images into segments along white bands, and builds the product records
and MongoDB documents it stores. The model covers the following parts:

- **Content-region finder and consolidator** (`test/image_split_function_test.py`).
  `find_content_regions` turns a per-row "is white" signal into maximal closed
  runs of content rows. `process_content_regions` drops noise regions, merges
  neighbours separated by a narrow white gap, pads each region inside the
  image, and falls back to the whole image when nothing survives (module
  `ContentRegions`).
- **Split points and crop intervals** (`crawler/preprocess.py`): module `Preprocess`. It covers:
  - `find_split_points` (runs of consecutive white-row indices);
  - `adjust_split_points`;
  - `split_image_by_white_rows`: a scan for white bands, then crops between them;
  - the integer-exact per-row white/dark classifier of `image_preprocess`;
  - `is_wide_image`, `is_image_height_enough`, and the text/image routing of `save_segments`.
  Images are width, height and rows of RGB pixels (module `Raster`). A crop
  is an interval of rows.
- **Canvas geometry of the concatenation helpers** (`crawler/utils.py`). This
  gives the canvas size and every paste offset, plus `is_wide_image` (module `Utils`).
- **The product document builder** (`crawler/model/product_schema.py`):
  `create_product_document` (module `ProductSchema`).
- **The DOM-independent helpers of `crawler/crawler.py`** (module `Crawler`). They are:
  - in-place `fill_default_value` / `fill_value` on a product record (a class);
  - the record built by `get_one_product_info` from what its two page sections yield;
  - the review-count bracket stripping;
  - the `success_status` aggregations;
  - the review-text limit and the month-label join;
  - the size-label token trimming.
  HTML elements are passed in as values.

The loops of the source are methods with loop invariants. Each method is
proved equal to a specification function, or to the property the source
promises, and the lemmas state what those functions guarantee. Python
semantics are modelled as follows:
- true division `/` is `real`;
- a division by zero is `None`;
- `//` applies only to non-negative operands, where it is Dafny's `/`;
- `dict.get` returns a stored value even when that value is `None`;
- `str.split()` and `str.strip()` use the whitespace set of `str.isspace`.

## Model

| member | source | states |
|---|---|---|
| ContentRegions.FindContentRegions | test/image_split_function_test.py:9-27 | Every region satisfies start <= end and lies in the image. Regions are strictly increasing and disjoint. Every row of a region is non-white. Each region is maximal: the row before it and the row after it are white or outside the image. Every non-white row lies in some region. An all-white signal gives no region. |
| ContentRegions.ProcessContentRegions | test/image_split_function_test.py:29-85 | The three loops compute Process: noise filter, gap merge, padding. The output is non-empty and has at most max(1, number of inputs) regions. Every output lies within [0, height-1]. When no region passes the filter, including the empty input, the output is exactly [(0, height-1)]. |
| ContentRegions.FilterNoise | test/image_split_function_test.py:50-53 | The noise-filter loop keeps exactly the regions KeepTall keeps, in order. |
| ContentRegions.MergeClose | test/image_split_function_test.py:58-77 | The merge loop, started from the first surviving region, computes exactly MergeFrom. |
| ContentRegions.PadAll | test/image_split_function_test.py:79-85 | The padding loop pads every merged region, in order, as Pad does. |
| ContentRegions.KeepTallMembers | test/image_split_function_test.py:50-53 | A region survives the noise filter exactly when it is an input region with end-start+1 >= min_content_height. |
| ContentRegions.KeepTallWellFormed | test/image_split_function_test.py:50-53 | Filtering keeps the regions in their original increasing, disjoint order. |
| ContentRegions.MergeGaps | test/image_split_function_test.py:59-77 | After merging, consecutive regions are separated by next_start - current_end - 1 >= min_white_gap white rows. |
| ContentRegions.MergeWellFormed | test/image_split_function_test.py:59-77 | Merging an ordered, disjoint list keeps it ordered and disjoint. |
| ContentRegions.MergeLastEnd | test/image_split_function_test.py:69-77 | The last merged region ends where the last input region ends. |
| ContentRegions.MergeCovers | test/image_split_function_test.py:59-77 | Merging drops no row: a row of any input region lies in some merged region. |
| ContentRegions.PadProperties | test/image_split_function_test.py:80-85 | Every padded region lies within [0, height-1]. For an ordered list and non-negative padding, padded_start <= start, end <= padded_end and padded_start <= padded_end. Starts and ends keep their order. |
| ContentRegions.ProcessOrdered | test/image_split_function_test.py:29-85 | Consolidating what the finder returns gives non-empty intervals inside the image, ordered from top to bottom. |
| ContentRegions.PadCovers | test/image_split_function_test.py:79-85 | A non-negative padding keeps every covered row of the image covered. |
| ContentRegions.ProcessCovers | test/image_split_function_test.py:29-85 | Every row of a region that passes the noise filter is covered by some output region. |
| ContentRegions.ProcessMergeShape | test/image_split_function_test.py:55-85 | When some region survives the filter, the merged list has at most as many regions as survived: exactly one more than the gaps of at least min_white_gap between surviving regions. Its own gaps are at least min_white_gap. The output is the padding of that merged list, one region per merged region. |
| ContentRegions.MergeCount | test/image_split_function_test.py:58-77 | The merge yields exactly 1 + (number of consecutive input pairs whose white gap is at least min_white_gap) regions. So merging splits at every wide gap and nowhere else. |
| ContentRegions.MergeKeepsBoundary | test/image_split_function_test.py:58-77 | When input regions i and i+1 are at least min_white_gap rows apart, some merged region ends at region i's end and the next one starts at region i+1's start. Two 100-row blocks with a 50-row gap stay two segments. |
| Raster.Crop | crawler/preprocess.py:240 | A crop of rows [top, bottom) keeps the width, has height bottom - top, and copies those rows unchanged. |
| Utils.ConcatImagesVertically | crawler/utils.py:35-49 | An empty list has no canvas, as max() of nothing raises. Otherwise the canvas width is the maximum width, at least every width and equal to one of them. The canvas height is the sum of the heights. Image k is pasted at (0, sum of heights 0..k-1). Consecutive images tile with no overlap, and the last one ends at the canvas height. |
| Utils.ConcatImagesHorizontallyCentered | crawler/utils.py:9-33 | An empty list has no canvas. Otherwise the layout is a CenteredRow: the canvas width is the sum of the widths and its height is the maximum height. Image k is pasted at (sum of widths 0..k-1, (max_height - h)//2). It fits vertically: 0 <= y and y + h <= max_height. Images do not overlap horizontally, and the last one ends at the canvas width. |
| Utils.CenterOffsetFits | crawler/utils.py:29 | For an image no taller than the canvas, the offset is the floor half of the free space, and the image fits. |
| Utils.CenteredRowIntro | crawler/utils.py:25-31 | Offsets (sum of widths 0..k-1, centring offset of image k) for every image make a centred row: inside the canvas, no horizontal overlap, the last image ending at the canvas width. |
| Utils.SumWidthsNoOverlap | crawler/utils.py:25-31 | For j < k, image j ends no further right than image k starts. |
| Utils.SumHeightsMonotone | crawler/utils.py:44-47 | The running y offset never decreases along the list. |
| Utils.SumWidthsMonotone | crawler/utils.py:25-31 | The running x offset never decreases along the list. |
| Utils.MaxWidth | crawler/utils.py:36-39 | The maximum width is at least every width and equal to one of them. |
| Utils.MaxHeight | crawler/utils.py:13-19 | The maximum height is at least every height and equal to one of them. |
| Utils.IsWideImage | crawler/utils.py:62-64 | A zero height raises ZeroDivisionError, modelled as None. Otherwise the image is wide exactly when width > threshold_ratio * height. |
| Preprocess.IsWideImage | crawler/preprocess.py:16-17 | A zero height raises ZeroDivisionError, modelled as None. Otherwise the image is wide exactly when width > threshold_ratio * height. |
| Preprocess.WideImageAgrees | crawler/preprocess.py:16-17 | The preprocess and utils copies of is_wide_image decide alike on every image and ratio. |
| Preprocess.IsImageHeightEnough | crawler/preprocess.py:117-121 | The result is false exactly when height < threshold_height. |
| Preprocess.FindSplitPoints | crawler/preprocess.py:124-148 | An empty index list gives []. A non-empty one gives a non-empty list whose last tuple ends at white_rows[-1]. The loop computes SplitPointsOf. |
| Preprocess.RunsFlatten | crawler/preprocess.py:139-146 | The runs the loop groups partition the index list: concatenating the runs gives back white_rows. |
| Preprocess.RunsSeparated | crawler/preprocess.py:140 | A run is closed only where the next index is not the previous one + 1. |
| Preprocess.SplitPointsMembers | crawler/preprocess.py:139-147 | A tuple is a split point exactly when it is the final run, or an earlier run whose counted height (length - 1) exceeds threshold_height. |
| Preprocess.TallRunsMembers | crawler/preprocess.py:141-142 | An interior run is emitted exactly when hi - lo > threshold_height. |
| Preprocess.AdjustSplitPoints | crawler/preprocess.py:162-173 | The output length per case: empty input gives []; one point starting at 0 gives one interval; one point elsewhere gives two; n >= 2 points give n-1. |
| Preprocess.GapRanges | crawler/preprocess.py:171-173 | There is one range per pair of consecutive points: from the end of point i minus the offset to the start of point i+1 plus the offset. |
| Preprocess.AdjustCovers | crawler/preprocess.py:162-173 | For sorted points and a non-negative offset, a row outside every point is inside some half-open output range. For a single point this holds for every row of the image; for several points, for every row between the first point's end and the last point's start. |
| Preprocess.AdjustInsideOuterPoints | crawler/preprocess.py:171-173 | With n >= 2 sorted points, every output range lies within [first end - offset, last start + offset]. |
| Preprocess.FindWhiteBands | crawler/preprocess.py:206-229 | The bands satisfy BandsFound. Every recorded band is a maximal white run (start_idx, end_idx) with end_idx - start_idx >= min_white_band. This includes a band that runs to the bottom, whose end is the height. Bands are strictly increasing and disjoint. Every maximal white run long enough is recorded. |
| Preprocess.CropBetweenBands | crawler/preprocess.py:232-253 | The crops are taken exactly at the candidate ranges [max(prev_end-offset,0), min(start+offset,h)) and the tail range, keeping those with start < end and a length of at least min_image_height. Each crop is that row interval of the image, full width and at least min_image_height rows tall. |
| Preprocess.SplitImageByWhiteRows | crawler/preprocess.py:187-253 | Combines the band and crop guarantees. The crop ranges run top to bottom. Every crop has a positive height and passes is_image_height_enough(min_image_height). |
| Preprocess.CropsInRowOrder | crawler/preprocess.py:232-253 | For sorted bands, the kept crop ranges have non-decreasing starts and ends, and the range below the last band comes last. |
| Preprocess.CandidatesInRowOrder | crawler/preprocess.py:232-251 | For sorted bands, every candidate range starts and ends no higher than the one before it. |
| Preprocess.KeepLongInRowOrder | crawler/preprocess.py:239-241 | Skipping the short ranges keeps the top-to-bottom order of the rest. |
| Preprocess.KeepLongMembers | crawler/preprocess.py:239 | A candidate range is kept exactly when start < end and end - start >= min_image_height. |
| Preprocess.CandidatesCover | crawler/preprocess.py:234-251 | For ordered bands and a non-negative offset, every row of the image outside all bands lies in some candidate range. |
| Preprocess.MeanAbove | crawler/preprocess.py:285 | The real-valued "mean > t" test equals the integer test sum > t * n. |
| Preprocess.DarkAgrees | crawler/preprocess.py:286 | A pixel is dark, with channel sum < 3 * dark_threshold, exactly when its channel mean is below dark_threshold. |
| Preprocess.DarkCountIsCardinality | crawler/preprocess.py:286 | The integer dark-pixel count equals the size of the set of dark pixel positions. |
| Preprocess.IsWhiteRow | crawler/preprocess.py:285-287 | A row is white exactly when it is non-empty, its real channel mean exceeds mean_threshold, and at most dark_threshold_count of its pixels have a channel mean below dark_threshold. |
| Preprocess.WhiteRowSignal | crawler/preprocess.py:278-287 | There is one flag per row, equal to the white-row classification with thresholds 220, 200 and 5. |
| Preprocess.RouteSegments | crawler/preprocess.py:175-182 | A segment of height 0 raises, modelled as None. Otherwise segment k goes to texts exactly when width > 3.0 * height and to images otherwise. |
| Preprocess.SegmentDetailImage | crawler/preprocess.py:285-293 | The bands are exactly the maximal white bands of at least 40 rows of the row signal of `img`. The segments are the crops of `img` at the kept candidate ranges with offset 10 and min_image_height 15, top to bottom. Each segment goes to exactly one folder, texts exactly when wide. |
| ProductSchema.CreateProductDocument | crawler/model/product_schema.py:5-70 | _id and product_id are both the argument. Each copied field is the stored value or its documented default. detail_crawling is stamped with success_status (default "") and current_time. All six later stages are not_started with no date. last_updated is set to current_time. |
| ProductSchema.DocumentReadsOnlyResultKeys | crawler/model/product_schema.py:27-38 | The document depends on result_data only through the eight keys it reads. |
| Common.Get | crawler/model/product_schema.py:27-38 | dict.get returns the stored value when the key is present, even a stored None, and the default otherwise. |
| Crawler.ProductRecord.FillDefaultValue | crawler/crawler.py:197-199 | Every listed column becomes crawling_status. Every other key keeps its value, and no key is removed. |
| Crawler.ProductRecord.FillValue | crawler/crawler.py:201-203 | Each keyword is stored under its name, and every other key keeps its value. |
| Crawler.ProductRecord.ReadImageSection | crawler/crawler.py:209-223 | The image attributes are added to the record; when they could not be read, the seven image columns become "failed" and so does the image section. |
| Crawler.ProductRecord.ReadDetailSection | crawler/crawler.py:225-256 | The detail texts and then the caller's keywords are added, and success_status comes from both section statuses; when the section could not be read, the four detail columns, the detail section and success_status become "failed". |
| Crawler.FilledWithFailed | crawler/crawler.py:197-199 | What fill_default_value does, key by key, is an update of the record by the listed columns mapped to "failed". |
| Crawler.GetOneProductInfo | crawler/crawler.py:206-257 | Filling the record step by step yields exactly the ProductInfo map. |
| Crawler.ProductInfoStatus | crawler/crawler.py:207-256 | crawling_status holds both section statuses. success_status is "success" exactly when both sections succeeded. |
| Crawler.ProductInfoKeys | crawler/crawler.py:206-257 | The record's keys are both status keys, every image column, every detail column, and the caller's keywords when the detail section succeeded. |
| Crawler.ProductInfoImageColumns | crawler/crawler.py:218-224 | An image column holds its attribute, or "failed" when the image section raised, unless a caller keyword overwrote it. |
| Crawler.ProductInfoDetailColumns | crawler/crawler.py:243-256 | A detail section failure sets the four detail columns to "failed". Otherwise each column holds its text, or the caller keyword of that name. |
| Crawler.ProductInfoParams | crawler/crawler.py:244 | After a successful detail section, every caller keyword except success_status is stored unchanged. |
| Crawler.ReviewCount | crawler/crawler.py:241 | The result is present exactly when the text is present and longer than 2. It is then the text without its first and last characters. |
| Crawler.AllSuccess | crawler/crawler.py:247 | all(i == "success") holds exactly when every status is "success". |
| Crawler.DetailSuccessStatus | crawler/crawler.py:642 | The overall status is "success" exactly when every section status is "success" or "not_exist", and "failed" otherwise. |
| Crawler.AllSuccessIsAcceptable | crawler/crawler.py:247-250 | Statuses that are all "success" also pass the detail-page aggregation. |
| Crawler.FailedPassesNeither | crawler/crawler.py:247-250 | A "failed" status fails both the product aggregation and the detail-page aggregation. |
| Crawler.TokensCons | crawler/crawler.py:561 | A token followed by whitespace or by nothing is split off as the first token. |
| Crawler.TokensOfJoin | crawler/crawler.py:560-565 | Splitting a single-space join of tokens gives back those tokens. |
| Crawler.TokensEmpty | crawler/crawler.py:561-562 | str.split() gives no token exactly when the text is all whitespace. |
| Crawler.SizeLabel | crawler/crawler.py:559-565 | All-whitespace text adds nothing. Otherwise a text of two or more tokens drops its last token, and a single token is kept. |
| Crawler.SizeLabelTokens | crawler/crawler.py:559-565 | A label is absent exactly when the text is all whitespace. Otherwise the label splits back into the text's tokens without the last one, or into its single token. |
| Crawler.Strip | crawler/crawler.py:559 | The result is a slice s[i..j] with no whitespace at either end, and everything cut off before i and after j is whitespace. A text without whitespace at its ends comes back unchanged. |
| Crawler.CollectSizeLabels | crawler/crawler.py:586-592 | The loop appends exactly the size labels of the button texts, in order. |
| Crawler.MonthLabelText | crawler/crawler.py:429-435 | A month-label review is the single-space join of the stripped first two spans, or of fewer spans when fewer exist. |
| Crawler.CollectReviewTexts | crawler/crawler.py:413-439 | Only the first min(num_reviews, len(review_items)) items are processed. The texts are those items' review texts in order, so there are at most that many. |

## Left out

- Browser automation, the HTML parser and every DOM scraper (`Crawler`, `crawl_product_list`, the `get_product_*` functions), except the helpers above. The elements they read are parameters (`ImageSection`, `DetailSection`, `ReviewItem`, button texts).
- Network fetch of images, JPEG saving, `move_files`, `make_dir`, CSV loading and saving. These are I/O.
- The print calls of the source. They are console output.
- Crawler.GetOneProductInfo: requires that the caller's keywords do not include `crawling_status`. The source would replace its nested status dictionary and then write into the caller's value; the model keeps that dictionary as two fields of the record.
- Crawler.GetOneProductInfo: the order of dictionary keys is not modelled; maps are unordered.
- Crawler.CollectReviewTexts: whether the review list exists (`not_exist` versus `success`) is decided from the DOM and is left out. Only the text extraction from the items is modelled, and so is the limit.
- Crawler.SizeLabel: returns one label at a time. The colour branch and the one-colour branch share it, and the surrounding dropdown waits are DOM work.
- Utils.ConcatImagesVertically: models the canvas size and paste offsets, not pixel contents, the background colour or PIL's clipping of pastes.
- Utils.ConcatImagesHorizontallyCentered: the same; pixels are not pasted.
- Preprocess.WhiteRowSignal: treats every pixel as three 8-bit channels. An alpha channel, which the source's channel mean would include, is not modelled.
- Preprocess.SegmentDetailImage: the per-image file counter and the file names of `save_segments` are left out. Only which folder each segment goes to is modelled.
- `image_preprocess`'s loop over URLs and its `is_crop`/`is_save` switches. They only sequence I/O around the modelled pipeline.
- ProductSchema.CreateProductDocument: the document is a record with one field per key rather than a dictionary. `current_time` is an integer timestamp.
- `split_image` in `test/image_split_function_test.py` is not modelled, since it does file I/O. At line 162 it crops `(start, end)` with an exclusive end, while the regions are inclusive, so each segment loses its last row. This is noted in the `ContentRegions` module and not corrected there.
- `merge_segmented_images`, `get_white_rows` and `image_preprocess_new` are imported by the tests but defined in no file of the repository, so they are not modelled.
- The log-difference white detector in `crawler/visualize/utils.py`, and the number parsing of likes and counts. These use floating point.
