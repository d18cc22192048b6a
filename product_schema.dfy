/** The product document of crawler/model/product_schema.py: identifiers,
    fields copied from the crawl result with their defaults, and the
    initial state of every preprocessing stage. The document dictionary has
    a fixed set of keys, so it is a record with one field per key; the crawl
    result stays an arbitrary dictionary. */
module ProductSchema {
  import opened Common

  /** A `{"status": ..., "date": ...}` entry of `preprocessing_status`. */
  datatype Stage = Stage(status: Value, date: Value)

  /** `preprocessing_status`, one field per stage in document order. */
  datatype PreprocessingStatus = PreprocessingStatus(
    detailCrawling: Stage,
    processingColorInfo: Stage,
    classifyingImage: Stage,
    mergingTextImage: Stage,
    parsingTextInfo: Stage,
    selectingImage: Stage,
    captioningImage: Stage)

  datatype ProductDocument = ProductDocument(
    id: string,
    productId: string,
    categoryMain: Value,
    categorySub: Value,
    productSummaryImages: Value,
    productDetailImages: Value,
    productDetailsText: Value,
    reviewTexts: Value,
    colorSizeInfo: Value,
    preprocessingStatus: PreprocessingStatus,
    lastUpdated: Value)

  /** The keys create_product_document reads from the crawl result. */
  const ResultKeys: set<string> :=
    {"category_main", "category_sub", "product_summary_images", "product_detail_images",
     "product_details_text", "review_texts", "color_size_info", "success_status"}

  const NotStarted: Stage := Stage(Str("not_started"), Null)

  /** The stages after the detail crawl. */
  function LaterStages(p: PreprocessingStatus): seq<Stage>
  {
    [p.processingColorInfo, p.classifyingImage, p.mergingTextImage,
     p.parsingTextInfo, p.selectingImage, p.captioningImage]
  }

  /** create_product_document. */
  function CreateProductDocument(productId: string, resultData: map<string, Value>, currentTime: int): (doc: ProductDocument)
    ensures doc.id == productId && doc.productId == productId
    ensures doc.categoryMain == (if "category_main" in resultData then resultData["category_main"] else Null)
    ensures doc.categorySub == (if "category_sub" in resultData then resultData["category_sub"] else Null)
    ensures doc.productSummaryImages ==
              (if "product_summary_images" in resultData then resultData["product_summary_images"] else List([]))
    ensures doc.productDetailImages ==
              (if "product_detail_images" in resultData then resultData["product_detail_images"] else List([]))
    ensures doc.productDetailsText ==
              (if "product_details_text" in resultData then resultData["product_details_text"] else Str(""))
    ensures doc.reviewTexts == (if "review_texts" in resultData then resultData["review_texts"] else List([]))
    ensures doc.colorSizeInfo == (if "color_size_info" in resultData then resultData["color_size_info"] else Dict(map[]))
    ensures doc.preprocessingStatus.detailCrawling ==
              Stage(if "success_status" in resultData then resultData["success_status"] else Str(""), Time(currentTime))
    ensures forall k :: 0 <= k < |LaterStages(doc.preprocessingStatus)| ==> LaterStages(doc.preprocessingStatus)[k] == NotStarted
    ensures doc.lastUpdated == Time(currentTime)
  {
    ProductDocument(
      id := productId,
      productId := productId,
      categoryMain := Get(resultData, "category_main", Null),
      categorySub := Get(resultData, "category_sub", Null),
      productSummaryImages := Get(resultData, "product_summary_images", List([])),
      productDetailImages := Get(resultData, "product_detail_images", List([])),
      productDetailsText := Get(resultData, "product_details_text", Str("")),
      reviewTexts := Get(resultData, "review_texts", List([])),
      colorSizeInfo := Get(resultData, "color_size_info", Dict(map[])),
      preprocessingStatus := PreprocessingStatus(
        detailCrawling := Stage(Get(resultData, "success_status", Str("")), Time(currentTime)),
        processingColorInfo := NotStarted,
        classifyingImage := NotStarted,
        mergingTextImage := NotStarted,
        parsingTextInfo := NotStarted,
        selectingImage := NotStarted,
        captioningImage := NotStarted),
      lastUpdated := Time(currentTime))
  }

  /** The document depends on the crawl result only through the keys it
      reads: two results that agree there give the same document. */
  lemma {:induction false} DocumentReadsOnlyResultKeys(productId: string, r1: map<string, Value>, r2: map<string, Value>, currentTime: int)
    requires forall key :: key in ResultKeys ==> (key in r1 <==> key in r2)
    requires forall key :: key in ResultKeys && key in r1 ==> r1[key] == r2[key]
    ensures CreateProductDocument(productId, r1, currentTime) == CreateProductDocument(productId, r2, currentTime)
  {
  }
}
