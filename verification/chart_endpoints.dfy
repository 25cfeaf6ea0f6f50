/**
 * The two chart endpoints of the trades API: `POST /trades/{id}/chart` (upload) and
 * `GET /trades/{id}/chart` (download). Each is a pure function from the tables and the
 * request to a response (status codes as in section 15 of RFC 9110) and, for the upload,
 * the next image table.
 */
module ChartEndpoints {
  import opened Common
  import Text
  import ImageCodec
  import ImageStore
  import TradeCrud

  /** The declared content types an upload may carry (after lower-casing). */
  const AllowedContentTypes: set<string> := {"image/png", "image/jpeg", "image/webp"}

  const CacheControl: string := "private, max-age=0"
  const TradeNotFound: string := "Trade not found"
  const UnsupportedImageType: string := "Unsupported image type"
  const NoChartImage: string := "No chart image"

  datatype Header = Header(name: string, value: string)

  /** What the endpoints answer: an `HTTPException`, an empty 204, or a 200 carrying an image. */
  datatype Response =
    | ErrorResponse(status: nat, detail: string)
    | NoContent
    | ImageResponse(content: Bytes, mediaType: string, headers: seq<Header>)
  {
    function StatusCode(): nat {
      match this
      case ErrorResponse(s, _) => s
      case NoContent => 204
      case ImageResponse(_, _, _) => 200
    }
  }

  /** `(file.content_type or "").lower()`: a missing content type becomes the empty string. */
  function NormaliseContentType(contentType: Option<string>): (r: string)
    ensures contentType.None? ==> r == ""
    ensures contentType.Some? ==> r == Text.Lower(contentType.value)
  {
    match contentType
    case None => ""
    case Some(ct) => Text.Lower(ct)
  }

  /**
   * `upload_trade_chart`: ownership first (404), then the content-type allow-list (400), then the
   * codec with its default limits (413 with the codec's message, or 400 "Invalid image"); only a
   * successfully compressed image is saved, under kind `CHART`, with the codec's bytes and mime.
   */
  function UploadTradeChart(
    trades: seq<TradeCrud.Trade>, userId: int, tradeId: string,
    contentType: Option<string>, raw: Bytes,
    pil: ImageCodec.Pil, sha: ImageCodec.Hasher, images: ImageStore.Db)
    : (r: (Response, ImageStore.Db))
    ensures TradeCrud.GetTradeForUser(trades, userId, tradeId).None? ==>
      r == (ErrorResponse(404, TradeNotFound), images)
    ensures TradeCrud.GetTradeForUser(trades, userId, tradeId).Some?
            && NormaliseContentType(contentType) !in AllowedContentTypes ==>
      r == (ErrorResponse(400, UnsupportedImageType), images)
    ensures r.0.ErrorResponse? ==> r.1 == images
    ensures r.0 == ErrorResponse(413, ImageCodec.TooLargeMessage(ImageCodec.MaxUploadBytes)) ==>
      |raw| > ImageCodec.MaxUploadBytes
    ensures r.0.NoContent? <==>
      && TradeCrud.GetTradeForUser(trades, userId, tradeId).Some?
      && NormaliseContentType(contentType) in AllowedContentTypes
      && ImageCodec.CompressWithDefaults(pil, sha, raw).Success?
    ensures r.0.NoContent? ==>
      var c := ImageCodec.CompressWithDefaults(pil, sha, raw).value;
      r.1 == ImageStore.Save(images, sha, tradeId, ImageStore.ChartKind, c.data, c.mime).0
    ensures r.0.StatusCode() in {204, 400, 404, 413}
  {
    if TradeCrud.GetTradeForUser(trades, userId, tradeId).None? then
      (ErrorResponse(404, TradeNotFound), images)
    else if NormaliseContentType(contentType) !in AllowedContentTypes then
      (ErrorResponse(400, UnsupportedImageType), images)
    else
      match ImageCodec.CompressWithDefaults(pil, sha, raw)
      case Failure(ImageTooLarge(message)) => (ErrorResponse(413, message), images)
      case Failure(InvalidImage(_)) => (ErrorResponse(400, ImageCodec.InvalidImageMessage), images)
      case Success(c) =>
        (NoContent, ImageStore.Save(images, sha, tradeId, ImageStore.ChartKind, c.data, c.mime).0)
  }

  /** A trade the caller does not own gets 404 whatever the upload holds: no content check runs first. */
  lemma ForeignTradeIgnoresUpload(
    trades: seq<TradeCrud.Trade>, userId: int, tradeId: string,
    ct1: Option<string>, raw1: Bytes, ct2: Option<string>, raw2: Bytes,
    pil: ImageCodec.Pil, sha: ImageCodec.Hasher, images: ImageStore.Db)
    requires TradeCrud.GetTradeForUser(trades, userId, tradeId).None?
    ensures UploadTradeChart(trades, userId, tradeId, ct1, raw1, pil, sha, images)
         == UploadTradeChart(trades, userId, tradeId, ct2, raw2, pil, sha, images)
  {
  }

  /** The codec's refusals map to 413 and 400 and store nothing. */
  lemma CodecErrorsMapToStatuses(
    trades: seq<TradeCrud.Trade>, userId: int, tradeId: string,
    contentType: Option<string>, raw: Bytes,
    pil: ImageCodec.Pil, sha: ImageCodec.Hasher, images: ImageStore.Db)
    requires TradeCrud.GetTradeForUser(trades, userId, tradeId).Some?
    requires NormaliseContentType(contentType) in AllowedContentTypes
    ensures |raw| > ImageCodec.MaxUploadBytes ==>
      UploadTradeChart(trades, userId, tradeId, contentType, raw, pil, sha, images)
        == (ErrorResponse(413, "Upload too large (>10485760 bytes)"), images)
    ensures |raw| <= ImageCodec.MaxUploadBytes && pil.open(raw).None? ==>
      UploadTradeChart(trades, userId, tradeId, contentType, raw, pil, sha, images)
        == (ErrorResponse(400, "Invalid image"), images)
  {
    if |raw| > ImageCodec.MaxUploadBytes {
      DefaultTooLargeMessage();
    }
  }

  /** The 413 detail under the default limit, spelled out. */
  lemma DefaultTooLargeMessage()
    ensures ImageCodec.TooLargeMessage(ImageCodec.MaxUploadBytes) == "Upload too large (>10485760 bytes)"
  {
    MaxUploadDecimal();
  }

  /** The default limit, 10·1024·1024, in decimal. */
  lemma MaxUploadDecimal()
    ensures Text.IntToString(ImageCodec.MaxUploadBytes) == "10485760"
  {
    assert Text.NatToString(1) == "1";
    assert Text.NatToString(10) == "10";
    assert Text.NatToString(104) == "104";
    assert Text.NatToString(1048) == "1048";
    assert Text.NatToString(10485) == "10485";
    assert Text.NatToString(104857) == "104857";
    assert Text.NatToString(1048576) == "1048576";
    assert Text.NatToString(10485760) == "10485760";
  }

  /** The headers of a chart download: the digest as ETag, the size, and a revalidate-always cache policy. */
  function ChartHeaders(img: ImageStore.StoredImageData): (h: seq<Header>)
    ensures |h| == 3
    ensures h[0] == Header("ETag", img.sha256)
    ensures h[1] == Header("Content-Length", Text.IntToString(img.byteSize))
    ensures h[2] == Header("Cache-Control", CacheControl)
  {
    [Header("ETag", img.sha256),
     Header("Content-Length", Text.IntToString(img.byteSize)),
     Header("Cache-Control", CacheControl)]
  }

  /**
   * `get_trade_chart`: 404 "Trade not found" for a missing or foreign trade, 404 "No chart image"
   * when the store has none, otherwise the stored payload with its mime type and headers.
   */
  function GetTradeChart(trades: seq<TradeCrud.Trade>, userId: int, tradeId: string, images: ImageStore.Db)
    : (r: Response)
    ensures TradeCrud.GetTradeForUser(trades, userId, tradeId).None? ==> r == ErrorResponse(404, TradeNotFound)
    ensures TradeCrud.GetTradeForUser(trades, userId, tradeId).Some?
            && ImageStore.Get(images, tradeId, ImageStore.ChartKind).None? ==>
      r == ErrorResponse(404, NoChartImage)
    ensures r.ImageResponse? <==>
      TradeCrud.GetTradeForUser(trades, userId, tradeId).Some?
      && ImageStore.Get(images, tradeId, ImageStore.ChartKind).Some?
    ensures r.ImageResponse? ==>
      var img := ImageStore.Get(images, tradeId, ImageStore.ChartKind).value;
      r.content == img.data && r.mediaType == img.mime && r.headers == ChartHeaders(img)
  {
    if TradeCrud.GetTradeForUser(trades, userId, tradeId).None? then
      ErrorResponse(404, TradeNotFound)
    else
      match ImageStore.Get(images, tradeId, ImageStore.ChartKind)
      case None => ErrorResponse(404, NoChartImage)
      case Some(img) => ImageResponse(img.data, img.mime, ChartHeaders(img))
  }

  /** Every stored chart is WebP: the only writer of the table is the upload, and the codec only emits WebP. */
  predicate AllWebp(images: ImageStore.Db) {
    forall k | k in images.rows :: images.rows[k].mime == ImageCodec.WebpMime
  }

  /** An upload, successful or not, keeps every stored chart WebP. */
  lemma UploadKeepsAllWebp(
    trades: seq<TradeCrud.Trade>, userId: int, tradeId: string,
    contentType: Option<string>, raw: Bytes,
    pil: ImageCodec.Pil, sha: ImageCodec.Hasher, images: ImageStore.Db)
    requires AllWebp(images)
    ensures AllWebp(UploadTradeChart(trades, userId, tradeId, contentType, raw, pil, sha, images).1)
  {
  }

  /**
   * End to end: after a successful upload the download answers 200 with a WebP body whose
   * digest is the ETag and whose length is the Content-Length, and the trade listing flags
   * the trade as having a chart.
   */
  lemma UploadThenDownload(
    trades: seq<TradeCrud.Trade>, userId: int, tradeId: string,
    contentType: Option<string>, raw: Bytes,
    pil: ImageCodec.Pil, sha: ImageCodec.Hasher, images: ImageStore.Db)
    requires ImageStore.Valid(images, sha) && AllWebp(images)
    requires UploadTradeChart(trades, userId, tradeId, contentType, raw, pil, sha, images).0.NoContent?
    ensures var images' := UploadTradeChart(trades, userId, tradeId, contentType, raw, pil, sha, images).1;
      var resp := GetTradeChart(trades, userId, tradeId, images');
      && resp.ImageResponse?
      && resp.mediaType == ImageCodec.WebpMime
      && resp.headers[0] == Header("ETag", sha(resp.content))
      && resp.headers[1] == Header("Content-Length", Text.IntToString(|resp.content|))
      && TradeCrud.HasChart(images', tradeId)
  {
    var c := ImageCodec.CompressWithDefaults(pil, sha, raw).value;
    var key := ImageStore.Key(tradeId, ImageStore.ChartKind);
    ImageStore.SavePreservesValid(images, sha, tradeId, ImageStore.ChartKind, c.data, c.mime);
    var images' := ImageStore.Save(images, sha, tradeId, ImageStore.ChartKind, c.data, c.mime).0;
    assert ImageStore.RowMatches(sha, images'.rows[key]);
  }
}
