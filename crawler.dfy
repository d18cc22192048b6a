/** The DOM-independent helpers of crawler/crawler.py: in-place filling of
    a product dictionary, the product-list record built from the outcome of
    its two page sections, the review-count bracket stripping, the
    success-status aggregations, the review-text limit and the size-label
    trimming. What the browser and the HTML parser return is passed in as
    values. */
module Crawler {
  import opened Common

  // ---------------------------------------------------------------------
  // fill_default_value and fill_value
  // ---------------------------------------------------------------------

  /** `product_data` of get_one_product_info. Its nested `crawling_status`
      dictionary always has the same two keys, so it is held as two fields. */
  class ProductRecord {
    var data: map<string, Value>
    var imageSection: string
    var detailSection: string

    constructor ()
      ensures data == map[] && imageSection == "success" && detailSection == "success"
    {
      data := map[];
      imageSection := "success";
      detailSection := "success";
    }

    /** fill_default_value: every listed column is set to `crawlingStatus`;
        every other key keeps its value. */
    method FillDefaultValue(columns: seq<string>, crawlingStatus: string)
      modifies this
      ensures data.Keys == old(data).Keys + (set c | c in columns)
      ensures forall c :: c in columns ==> data[c] == Str(crawlingStatus)
      ensures forall k :: k in old(data) && k !in columns ==> data[k] == old(data)[k]
      ensures imageSection == old(imageSection) && detailSection == old(detailSection)
    {
      for i := 0 to |columns|
        invariant data.Keys == old(data).Keys + (set c | c in columns[..i])
        invariant forall c :: c in columns[..i] ==> data[c] == Str(crawlingStatus)
        invariant forall k :: k in old(data) && k !in columns[..i] ==> data[k] == old(data)[k]
        invariant imageSection == old(imageSection) && detailSection == old(detailSection)
      {
        assert columns[..i + 1] == columns[..i] + [columns[i]];
        data := data[columns[i] := Str(crawlingStatus)];
      }
      assert columns[..|columns|] == columns;
    }

    /** fill_value: each keyword is stored under its name; every other key
        keeps its value. */
    method FillValue(kwargs: map<string, Value>)
      modifies this
      ensures data == old(data) + kwargs
      ensures imageSection == old(imageSection) && detailSection == old(detailSection)
    {
      var remaining := kwargs.Keys;
      while remaining != {}
        invariant remaining <= kwargs.Keys
        invariant data == old(data) + (map k | k in kwargs.Keys - remaining :: kwargs[k])
        invariant imageSection == old(imageSection) && detailSection == old(detailSection)
        decreases remaining
      {
        var key :| key in remaining;
        data := data[key := kwargs[key]];
        remaining := remaining - {key};
      }
      assert (map k | k in kwargs.Keys - remaining :: kwargs[k]) == kwargs;
    }

    /** The first try block of get_one_product_info: the image attributes
        are stored, or, when reading them raised, the image columns are
        marked "failed" and so is the image section. */
    method ReadImageSection(image: Option<ImageSection>)
      modifies this
      ensures data == old(data) + ImageRecord(image)
      ensures imageSection == (if image.Some? then old(imageSection) else "failed")
      ensures detailSection == old(detailSection)
    {
      if image.Some? {
        FillValue(ImageKwargs(image.value));
      } else {
        ghost var before := data;
        FillDefaultValue(ImageColumns, "failed");
        imageSection := "failed";
        FilledWithFailed(before, data, ImageColumns);
      }
    }

    /** The second try block: the detail texts and then the caller's
        keywords are stored, the detail section marked successful and the
        success status set from both section statuses; when reading raised,
        the detail columns, the detail section and the success status are
        marked "failed". */
    method ReadDetailSection(detail: Option<DetailSection>, params: map<string, Value>)
      modifies this
      ensures data == DetailRecord(old(data), old(imageSection), detail, params)
      ensures detailSection == SectionStatus(detail)
      ensures imageSection == old(imageSection)
    {
      if detail.Some? {
        FillValue(DetailKwargs(detail.value));
        FillValue(params);
        detailSection := "success";
        var status := if AllSuccess([imageSection, detailSection]) then "success" else "failed";
        data := data["success_status" := Str(status)];
      } else {
        ghost var before := data;
        FillDefaultValue(DetailColumns, "failed");
        detailSection := "failed";
        FilledWithFailed(before, data, DetailColumns);
        data := data["success_status" := Str("failed")];
      }
    }
  }

  // ---------------------------------------------------------------------
  // success_status
  // ---------------------------------------------------------------------

  /** `all(i == "success" for i in statuses)`. */
  function AllSuccess(statuses: seq<string>): (b: bool)
    ensures b <==> forall i :: 0 <= i < |statuses| ==> statuses[i] == "success"
  {
    if statuses == [] then true
    else statuses[0] == "success" && AllSuccess(statuses[1..])
  }

  /** A section status that counts as done in get_product_detail_info. */
  predicate Acceptable(status: string)
  {
    status == "success" || status == "not_exist"
  }

  /** `all(status in ("success", "not_exist") for status in statuses)`. */
  function AllAcceptable(statuses: seq<string>): (b: bool)
    ensures b <==> forall i :: 0 <= i < |statuses| ==> Acceptable(statuses[i])
  {
    if statuses == [] then true
    else Acceptable(statuses[0]) && AllAcceptable(statuses[1..])
  }

  /** The overall status of get_product_detail_info over its section statuses. */
  function DetailSuccessStatus(statuses: seq<string>): (s: string)
    ensures s == "success" || s == "failed"
    ensures s == "success" <==> forall i :: 0 <= i < |statuses| ==> statuses[i] == "success" || statuses[i] == "not_exist"
  {
    if AllAcceptable(statuses) then "success" else "failed"
  }

  /** A product with every section crawled also passes the detail-page aggregation. */
  lemma {:induction false} AllSuccessIsAcceptable(statuses: seq<string>)
    requires AllSuccess(statuses)
    ensures AllAcceptable(statuses)
    decreases |statuses|
  {
    if statuses != [] {
      AllSuccessIsAcceptable(statuses[1..]);
    }
  }

  /** A product with a failed section passes neither aggregation. */
  lemma {:induction false} FailedPassesNeither(statuses: seq<string>, i: int)
    requires 0 <= i < |statuses| && statuses[i] == "failed"
    ensures !AllSuccess(statuses) && !AllAcceptable(statuses)
  {
    assert !Acceptable(statuses[i]);
  }

  // ---------------------------------------------------------------------
  // The review count
  // ---------------------------------------------------------------------

  /** `review_count[1:-1] if review_count and len(review_count) > 2 else None`:
      the count without the brackets around it; a missing, empty or too
      short text gives None. */
  function ReviewCount(raw: Option<string>): (r: Option<string>)
    ensures r.Some? <==> raw.Some? && |raw.value| > 2
    ensures r.Some? ==> |r.value| == |raw.value| - 2 && raw.value == [raw.value[0]] + r.value + [raw.value[|raw.value| - 1]]
  {
    if raw.Some? && |raw.value| > 2 then Some(raw.value[1..|raw.value| - 1]) else None
  }

  // ---------------------------------------------------------------------
  // get_one_product_info
  // ---------------------------------------------------------------------

  const ImageColumns: seq<string> :=
    ["product_id", "product_href", "product_price", "product_original_price",
     "product_discount_price", "product_discount_rate", "product_brand_name"]

  const DetailColumns: seq<string> := ["product_name", "num_likes", "avg_rating", "review_count"]

  /** The attributes read from the image section; `.get` gives a string or None. */
  datatype ImageSection = ImageSection(
    itemId: Value, href: Value, price: Value, originalPrice: Value,
    discount: Value, discountRate: Value, brandId: Value)

  /** The texts read from the detail section; a missing element gives None. */
  datatype DetailSection = DetailSection(
    productName: Value, numLikes: Value, avgRating: Value, reviewCount: Option<string>)

  function ImageKwargs(s: ImageSection): map<string, Value>
  {
    map["product_id" := s.itemId, "product_href" := s.href, "product_price" := s.price,
        "product_original_price" := s.originalPrice, "product_discount_price" := s.discount,
        "product_discount_rate" := s.discountRate, "product_brand_name" := s.brandId]
  }

  function OptionalText(t: Option<string>): Value
  {
    if t.Some? then Str(t.value) else Null
  }

  function DetailKwargs(d: DetailSection): map<string, Value>
  {
    map["product_name" := d.productName, "num_likes" := d.numLikes, "avg_rating" := d.avgRating,
        "review_count" := OptionalText(ReviewCount(d.reviewCount))]
  }

  function CrawlingStatusValue(imageSection: string, detailSection: string): Value
  {
    Dict(map["image_section" := Str(imageSection), "detail_section" := Str(detailSection)])
  }

  /** Every listed column set to "failed". */
  function FailedColumns(columns: seq<string>): map<string, Value>
  {
    map c | c in columns :: Str("failed")
  }

  /** What FillDefaultValue promises, pointwise, is an update by FailedColumns. */
  lemma {:induction false} FilledWithFailed(before: map<string, Value>, after: map<string, Value>, columns: seq<string>)
    requires after.Keys == before.Keys + (set c | c in columns)
    requires forall c :: c in columns ==> after[c] == Str("failed")
    requires forall k :: k in before && k !in columns ==> after[k] == before[k]
    ensures after == before + FailedColumns(columns)
  {
  }

  function SectionStatus<T>(section: Option<T>): string
  {
    if section.Some? then "success" else "failed"
  }

  /** The image columns, as the image section leaves them. */
  function ImageRecord(image: Option<ImageSection>): map<string, Value>
  {
    if image.Some? then ImageKwargs(image.value) else FailedColumns(ImageColumns)
  }

  /** The record after the detail section, which records the success
      status, given the record and the image-section status before it. */
  function DetailRecord(before: map<string, Value>, imageStatus: string,
                        detail: Option<DetailSection>, params: map<string, Value>): map<string, Value>
  {
    if detail.Some? then
      (before + DetailKwargs(detail.value) + params)["success_status" :=
        Str(if AllSuccess([imageStatus, "success"]) then "success" else "failed")]
    else
      (before + FailedColumns(DetailColumns))["success_status" := Str("failed")]
  }

  /** The record after both sections, before the crawling status is stored. */
  function SectionsRecord(image: Option<ImageSection>, detail: Option<DetailSection>, params: map<string, Value>): map<string, Value>
  {
    DetailRecord(ImageRecord(image), SectionStatus(image), detail, params)
  }

  /** The dictionary get_one_product_info returns, section by section. */
  function ProductInfo(image: Option<ImageSection>, detail: Option<DetailSection>, params: map<string, Value>): map<string, Value>
  {
    SectionsRecord(image, detail, params)["crawling_status" := CrawlingStatusValue(SectionStatus(image), SectionStatus(detail))]
  }

  /** The image columns, the detail columns and the two status keys are distinct. */
  lemma {:induction false} ColumnsDistinct()
    ensures forall c :: c in ImageColumns ==> c !in DetailColumns && c != "success_status" && c != "crawling_status"
    ensures forall c :: c in DetailColumns ==> c != "success_status" && c != "crawling_status"
  {
  }

  /** The record holds both section statuses, and the product succeeds
      exactly when both sections did. */
  lemma {:induction false} ProductInfoStatus(image: Option<ImageSection>, detail: Option<DetailSection>, params: map<string, Value>)
    ensures var data := ProductInfo(image, detail, params);
            && data["crawling_status"] == CrawlingStatusValue(SectionStatus(image), SectionStatus(detail))
            && data["success_status"] == Str(if image.Some? && detail.Some? then "success" else "failed")
  {
  }

  /** The keys of the record: both statuses, every image and detail column,
      and the caller's keywords when the detail section succeeded. */
  lemma {:induction false} ProductInfoKeys(image: Option<ImageSection>, detail: Option<DetailSection>, params: map<string, Value>)
    ensures ProductInfo(image, detail, params).Keys ==
              {"crawling_status", "success_status"} + (set c | c in ImageColumns) +
              (set c | c in DetailColumns) + (if detail.Some? then params.Keys else {})
  {
    var afterImage := if image.Some? then ImageKwargs(image.value) else FailedColumns(ImageColumns);
    assert afterImage.Keys == set c | c in ImageColumns;
    if detail.Some? {
      assert DetailKwargs(detail.value).Keys == set c | c in DetailColumns;
    }
  }

  /** An image column holds its attribute, or "failed" when the image
      section raised, unless a keyword of the caller overwrote it. */
  lemma {:induction false} ProductInfoImageColumns(image: Option<ImageSection>, detail: Option<DetailSection>, params: map<string, Value>, c: string)
    requires c in ImageColumns && !(detail.Some? && c in params)
    ensures ProductInfo(image, detail, params)[c] == (if image.Some? then ImageKwargs(image.value)[c] else Str("failed"))
  {
    ColumnsDistinct();
    if detail.Some? {
      assert c !in DetailKwargs(detail.value);
    }
  }

  /** A failed detail section marks all four detail columns "failed";
      otherwise they hold the texts read, unless a keyword overwrote them. */
  lemma {:induction false} ProductInfoDetailColumns(image: Option<ImageSection>, detail: Option<DetailSection>, params: map<string, Value>, c: string)
    requires c in DetailColumns
    ensures ProductInfo(image, detail, params)[c] ==
              (if detail.None? then Str("failed") else if c in params then params[c] else DetailKwargs(detail.value)[c])
  {
    ColumnsDistinct();
  }

  /** After a successful detail section every keyword of the caller is
      stored, except that the final success status replaces "success_status". */
  lemma {:induction false} ProductInfoParams(image: Option<ImageSection>, detail: Option<DetailSection>, params: map<string, Value>, k: string)
    requires "crawling_status" !in params
    requires detail.Some? && k in params && k != "success_status"
    ensures ProductInfo(image, detail, params)[k] == params[k]
  {
  }

  /** get_one_product_info. `image` and `detail` are what each section's
      reads produced, None when a read raised. */
  method GetOneProductInfo(image: Option<ImageSection>, detail: Option<DetailSection>, params: map<string, Value>)
    returns (productData: map<string, Value>)
    requires "crawling_status" !in params
    ensures productData == ProductInfo(image, detail, params)
  {
    var record := new ProductRecord();
    record.ReadImageSection(image);
    assert record.data == ImageRecord(image);
    record.ReadDetailSection(detail, params);
    productData := record.data["crawling_status" := CrawlingStatusValue(record.imageSection, record.detailSection)];
  }

  // ---------------------------------------------------------------------
  // Whitespace, str.strip, str.split and str.join
  // ---------------------------------------------------------------------

  /** The characters Python's `str.isspace` accepts. */
  predicate IsSpace(c: char)
  {
    || c == ' ' || ('\t' <= c <= '\r') || ('\U{1c}' <= c <= '\U{1f}')
    || c == '\U{85}' || c == '\U{a0}' || c == '\U{1680}' || ('\U{2000}' <= c <= '\U{200a}')
    || c == '\U{2028}' || c == '\U{2029}' || c == '\U{202f}' || c == '\U{205f}' || c == '\U{3000}'
  }

  /** A piece `str.split()` returns: non-empty, without whitespace. */
  predicate IsToken(t: string)
  {
    |t| > 0 && forall i :: 0 <= i < |t| ==> !IsSpace(t[i])
  }

  /** The longest prefix of `s` without whitespace. */
  function Word(s: string): (w: string)
    ensures |w| <= |s| && w == s[..|w|]
    ensures forall i :: 0 <= i < |w| ==> !IsSpace(w[i])
    ensures |w| == |s| || IsSpace(s[|w|])
  {
    if s == [] || IsSpace(s[0]) then [] else [s[0]] + Word(s[1..])
  }

  /** `s.split()`: the maximal runs of non-whitespace characters, in order. */
  function Tokens(s: string): (ts: seq<string>)
    ensures forall k :: 0 <= k < |ts| ==> IsToken(ts[k])
    decreases |s|
  {
    if s == [] then []
    else if IsSpace(s[0]) then Tokens(s[1..])
    else
      var w := Word(s);
      [w] + Tokens(s[|w|..])
  }

  /** `sep.join(ts)`. */
  function Join(sep: string, ts: seq<string>): string
  {
    if ts == [] then [] else if |ts| == 1 then ts[0] else ts[0] + sep + Join(sep, ts[1..])
  }

  /** `s.strip()`: s without its leading and trailing whitespace. The result
      is a slice s[i..j] whose ends are not whitespace and where everything
      cut off on either side is whitespace; a text already without
      whitespace at its ends comes back unchanged. */
  function Strip(s: string): (r: string)
    ensures |r| <= |s|
    ensures r == [] || (!IsSpace(r[0]) && !IsSpace(r[|r| - 1]))
    ensures exists i, j :: && 0 <= i <= j <= |s| && r == s[i..j]
                           && (forall k :: 0 <= k < i ==> IsSpace(s[k]))
                           && (forall k :: j <= k < |s| ==> IsSpace(s[k]))
    ensures s == [] || (!IsSpace(s[0]) && !IsSpace(s[|s| - 1])) ==> r == s
  {
    var i := LeadingSpace(s);
    var t := s[i..];
    var r := TrimEnd(t);
    TrimmedSlice(s, i, t, r);
    r
  }

  /** The number of whitespace characters `lstrip()` drops from the front of s. */
  function LeadingSpace(s: string): (n: nat)
    ensures n <= |s|
    ensures forall k :: 0 <= k < n ==> IsSpace(s[k])
    ensures n == |s| || !IsSpace(s[n])
    decreases |s|
  {
    if s != [] && IsSpace(s[0]) then
      var n := LeadingSpace(s[1..]);
      assert forall k :: 1 <= k < n + 1 ==> s[k] == s[1..][k - 1];
      n + 1
    else 0
  }

  /** Cutting whitespace off the end of the suffix s[i..] leaves the slice
      s[i..i + |r|], with only whitespace after it. */
  lemma {:induction false} TrimmedSlice(s: string, i: int, t: string, r: string)
    requires 0 <= i <= |s| && t == s[i..]
    requires |r| <= |t| && r == t[..|r|] && (forall k :: |r| <= k < |t| ==> IsSpace(t[k]))
    ensures r == s[i..i + |r|]
    ensures forall k :: i + |r| <= k < |s| ==> IsSpace(s[k])
  {
    forall k | i + |r| <= k < |s|
      ensures IsSpace(s[k])
    {
      assert s[k] == t[k - i];
    }
  }

  /** `rstrip()`: drops the trailing whitespace. */
  function TrimEnd(s: string): (r: string)
    ensures |r| <= |s|
    ensures r == [] || !IsSpace(r[|r| - 1])
    ensures r == s[..|r|]
    ensures forall k :: |r| <= k < |s| ==> IsSpace(s[k])
    ensures s == [] || !IsSpace(s[|s| - 1]) ==> r == s
    ensures s != [] && !IsSpace(s[0]) ==> r != [] && r[0] == s[0]
    decreases |s|
  {
    if s != [] && IsSpace(s[|s| - 1]) then
      var r := TrimEnd(s[..|s| - 1]);
      assert forall k :: |r| <= k < |s| - 1 ==> s[k] == s[..|s| - 1][k];
      r
    else s
  }

  /** A whitespace-free token ends its own word. */
  lemma {:induction false} WordOfToken(t: string, rest: string)
    requires IsToken(t)
    requires rest == [] || IsSpace(rest[0])
    ensures Word(t + rest) == t
    decreases |t|
  {
    var s := t + rest;
    assert s[0] == t[0] && !IsSpace(s[0]);
    assert s[1..] == t[1..] + rest;
    if |t| > 1 {
      WordOfToken(t[1..], rest);
    } else {
      assert t[1..] == [];
    }
    assert [t[0]] + t[1..] == t;
  }

  /** A token followed by whitespace or nothing is split off as the first token. */
  lemma {:induction false} TokensCons(t: string, rest: string)
    requires IsToken(t)
    requires rest == [] || IsSpace(rest[0])
    ensures Tokens(t + rest) == [t] + Tokens(rest)
  {
    var s := t + rest;
    WordOfToken(t, rest);
    assert s[0] == t[0];
    assert s[|t|..] == rest;
  }

  /** A leading space is skipped. */
  lemma {:induction false} TokensSkipSpace(s: string)
    ensures Tokens(" " + s) == Tokens(s)
  {
    assert (" " + s)[1..] == s;
  }

  /** Splitting a space-joined list of tokens gives the tokens back. */
  lemma {:induction false} TokensOfJoin(ts: seq<string>)
    requires forall k :: 0 <= k < |ts| ==> IsToken(ts[k])
    ensures Tokens(Join(" ", ts)) == ts
    decreases |ts|
  {
    if |ts| == 1 {
      TokensCons(ts[0], []);
      assert ts[0] + [] == ts[0];
    } else if |ts| >= 2 {
      var t := ts[0];
      var tail := Join(" ", ts[1..]);
      assert Join(" ", ts) == t + (" " + tail);
      TokensCons(t, " " + tail);
      TokensSkipSpace(tail);
      TokensOfJoin(ts[1..]);
      assert ts == [t] + ts[1..];
    }
  }

  /** A text splits into no tokens exactly when it is all whitespace. */
  lemma {:induction false} TokensEmpty(s: string)
    ensures Tokens(s) == [] <==> forall i :: 0 <= i < |s| ==> IsSpace(s[i])
    decreases |s|
  {
    if s != [] && IsSpace(s[0]) {
      TokensEmpty(s[1..]);
      assert forall i :: 1 <= i < |s| ==> s[i] == s[1..][i - 1];
    }
  }

  // ---------------------------------------------------------------------
  // Size labels
  // ---------------------------------------------------------------------

  /** The label kept for one size button: its tokens without the last one
      when it has two or more, the single token as it is, nothing for a
      blank text. */
  function SizeLabel(text: string): (r: Option<string>)
    ensures r.None? <==> Tokens(text) == []
  {
    var ts := Tokens(text);
    if ts == [] then None
    else if |ts| >= 2 then Some(Join(" ", ts[..|ts| - 1]))
    else Some(Join(" ", ts))
  }

  /** A label is made of the button's tokens, the last one dropped when
      there are at least two; a blank button gives no label. */
  lemma {:induction false} SizeLabelTokens(text: string)
    ensures SizeLabel(text).None? <==> forall i :: 0 <= i < |text| ==> IsSpace(text[i])
    ensures SizeLabel(text).Some? ==>
              var ts := Tokens(text);
              Tokens(SizeLabel(text).value) == if |ts| >= 2 then ts[..|ts| - 1] else ts
  {
    TokensEmpty(text);
    var ts := Tokens(text);
    SizeLabelOfTokens(text, ts);
    if |ts| >= 2 {
      var init := ts[..|ts| - 1];
      assert forall k :: 0 <= k < |init| ==> init[k] == ts[k];
      TokensOfJoin(init);
    } else if |ts| == 1 {
      TokensOfJoin(ts);
    }
  }

  /** The labels of a run of size buttons, in order, skipping blank ones. */
  function SizeLabels(texts: seq<string>): (r: seq<string>)
    ensures |r| <= |texts|
  {
    if texts == [] then []
    else
      var found := SizeLabel(Strip(Last(texts)));
      SizeLabels(Init(texts)) + (if found.Some? then [found.value] else [])
  }

  /** SizeLabel in terms of the tokens of its text. */
  lemma {:induction false} SizeLabelOfTokens(text: string, ts: seq<string>)
    requires ts == Tokens(text)
    ensures ts == [] ==> SizeLabel(text) == None
    ensures |ts| >= 2 ==> SizeLabel(text) == Some(Join(" ", ts[..|ts| - 1]))
    ensures |ts| == 1 ==> SizeLabel(text) == Some(Join(" ", ts))
  {
  }

  lemma {:induction false} SizeLabelsSnoc(texts: seq<string>, i: int)
    requires 0 <= i < |texts|
    ensures SizeLabels(texts[..i + 1]) ==
              SizeLabels(texts[..i]) +
              (if SizeLabel(Strip(texts[i])).Some? then [SizeLabel(Strip(texts[i])).value] else [])
  {
    assert Init(texts[..i + 1]) == texts[..i];
  }

  /** The size loop of get_product_color_size_info over the text of each size button. */
  method CollectSizeLabels(buttonTexts: seq<string>) returns (sizeInfo: seq<string>)
    ensures sizeInfo == SizeLabels(buttonTexts)
  {
    sizeInfo := [];
    for i := 0 to |buttonTexts|
      invariant sizeInfo == SizeLabels(buttonTexts[..i])
    {
      SizeLabelsSnoc(buttonTexts, i);
      var text := Strip(buttonTexts[i]);
      var textSplit := Tokens(text);
      SizeLabelOfTokens(text, textSplit);
      if textSplit != [] {
        if |textSplit| >= 2 {
          sizeInfo := sizeInfo + [Join(" ", textSplit[..|textSplit| - 1])];
        } else {
          sizeInfo := sizeInfo + [Join(" ", textSplit)];
        }
      }
    }
    assert buttonTexts[..|buttonTexts|] == buttonTexts;
  }

  // ---------------------------------------------------------------------
  // Review texts
  // ---------------------------------------------------------------------

  /** What the parser finds in one review item: no text area, or a text
      area with its first span (if any), whether that span is a month label,
      and the texts of its direct child spans. */
  datatype ReviewItem =
    | NoTextArea
    | TextArea(firstSpan: Option<string>, monthLabel: bool, spans: seq<string>)

  /** Each text stripped. */
  function StripAll(ss: seq<string>): (r: seq<string>)
    ensures |r| == |ss| && forall i :: 0 <= i < |ss| ==> r[i] == Strip(ss[i])
  {
    seq(|ss|, i requires 0 <= i < |ss| => Strip(ss[i]))
  }

  lemma {:induction false} StripAllSnoc(ss: seq<string>, i: int)
    requires 0 <= i < |ss|
    ensures StripAll(ss[..i + 1]) == StripAll(ss[..i]) + [Strip(ss[i])]
  {
  }

  /** The text of a month-label review: its first two spans, stripped, joined by a space. */
  method MonthLabelText(spans: seq<string>) returns (text: string)
    ensures text == Join(" ", StripAll(spans[..Min(2, |spans|)]))
  {
    var reviewText: seq<string> := [];
    var spanIdx := 0;
    while spanIdx < |spans|
      invariant 0 <= spanIdx <= 1 && spanIdx <= |spans|
      invariant reviewText == StripAll(spans[..spanIdx])
      decreases |spans| - spanIdx
    {
      StripAllSnoc(spans, spanIdx);
      reviewText := reviewText + [Strip(spans[spanIdx])];
      if spanIdx >= 1 {
        spanIdx := spanIdx + 1;
        break;
      }
      spanIdx := spanIdx + 1;
    }
    assert spanIdx == Min(2, |spans|);
    text := Join(" ", reviewText);
  }

  /** The text a review contributes, if any. */
  function ReviewText(item: ReviewItem): Option<string>
  {
    if item.NoTextArea? || item.firstSpan.None? then None
    else if item.monthLabel then Some(Join(" ", StripAll(item.spans[..Min(2, |item.spans|)])))
    else Some(Strip(item.firstSpan.value))
  }

  /** The texts of a run of review items, in order, skipping those without one. */
  function ReviewTexts(items: seq<ReviewItem>): (r: seq<string>)
    ensures |r| <= |items|
  {
    if items == [] then []
    else
      var t := ReviewText(Last(items));
      ReviewTexts(Init(items)) + (if t.Some? then [t.value] else [])
  }

  /** The review loop of get_product_reviews_text: only the first
      `min(num_reviews, len(review_items))` items are looked at. */
  method CollectReviewTexts(items: seq<ReviewItem>, numReviews: int) returns (reviewTexts: seq<string>)
    ensures reviewTexts == ReviewTexts(items[..Max(0, Min(numReviews, |items|))])
    ensures |reviewTexts| <= Max(0, Min(numReviews, |items|))
  {
    var maxReviewsToCrawl := Min(numReviews, |items|);
    reviewTexts := [];
    var idx := 0;
    while idx < |items|
      invariant 0 <= idx <= Max(0, maxReviewsToCrawl)
      invariant reviewTexts == ReviewTexts(items[..idx])
    {
      if idx >= maxReviewsToCrawl {
        break;
      }
      assert Init(items[..idx + 1]) == items[..idx];
      var review := items[idx];
      if review.TextArea? {
        if review.firstSpan.Some? && review.monthLabel {
          var text := MonthLabelText(review.spans);
          reviewTexts := reviewTexts + [text];
        } else if review.firstSpan.Some? {
          reviewTexts := reviewTexts + [Strip(review.firstSpan.value)];
        }
      }
      idx := idx + 1;
    }
  }
}
