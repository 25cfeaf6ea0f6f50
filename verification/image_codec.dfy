/**
 * The chart-image gate in front of the store (`compress_chart_image` and `sha256_hex`).
 *
 * The image library (open/load, mode conversion, `thumbnail`, WebP encoding) and SHA-256
 * are foreign code. They enter the model as function-valued parameters; what the model
 * assumes of them is written down as the `...Contract` predicates below, and only the
 * lemmas that need an assumption require it.
 */
module ImageCodec {
  import opened Common
  import Text

  /** Default upload ceiling: 10 MiB. */
  const MaxUploadBytes: int := 10 * 1024 * 1024
  /** Default bound on each side of the stored image, in pixels. */
  const MaxDim: int := 1600
  /** Default WebP quality. */
  const WebpQuality: int := 80
  /** The one output format. */
  const WebpMime: string := "image/webp"

  /** `sha256_hex`: the lower-case hex SHA-256 digest (section 6.2 of FIPS 180-4) of a buffer. */
  type Hasher = Bytes -> string

  predicate IsLowerHex(c: char) {
    ('0' <= c <= '9') || ('a' <= c <= 'f')
  }

  /** What `hexdigest()` of SHA-256 always looks like: 64 lower-case hex characters. */
  predicate IsHexDigest(s: string) {
    |s| == 64 && forall i :: 0 <= i < |s| ==> IsLowerHex(s[i])
  }

  /** Assumed of the hash function: every digest is a 64-character hex string. */
  ghost predicate HasherContract(sha: Hasher) {
    forall d :: IsHexDigest(sha(d))
  }

  /** A decoded raster: its colour mode (PIL mode name), its size and its samples. */
  datatype Image = Image(mode: string, width: nat, height: nat, pixels: seq<int>)

  /** The image-library entry points the codec uses. */
  datatype Pil = Pil(
    open: Bytes -> Option<Image>,             // `Image.open` followed by `load`; None when either raises
    convert: (Image, string) -> Image,        // `img.convert(mode)`
    thumbnail: (Image, int, int) -> Image,    // `img.thumbnail((w, h))`, as a function of the old image
    saveWebp: (Image, int) -> Bytes           // `img.save(out, format="WEBP", quality=q, method=6)`
  )

  /** Assumed of `convert`: the result has the requested mode and the same size. */
  ghost predicate ConvertContract(pil: Pil) {
    forall img: Image, mode: string ::
      pil.convert(img, mode).mode == mode
      && pil.convert(img, mode).width == img.width
      && pil.convert(img, mode).height == img.height
  }

  /**
   * Assumed of `thumbnail`: it keeps the mode, never enlarges either side, fits a box of at
   * least one pixel per side, and leaves an image that already fits untouched.
   */
  ghost predicate ThumbnailContract(pil: Pil) {
    forall img: Image, w: int, h: int ::
      pil.thumbnail(img, w, h).mode == img.mode
      && pil.thumbnail(img, w, h).width <= img.width
      && pil.thumbnail(img, w, h).height <= img.height
      && (w >= 1 && h >= 1 ==> pil.thumbnail(img, w, h).width <= w && pil.thumbnail(img, w, h).height <= h)
      && (img.width <= w && img.height <= h ==> pil.thumbnail(img, w, h) == img)
  }

  /** Assumed of the WebP encoder: its output decodes again, at the encoded size. */
  ghost predicate EncodeContract(pil: Pil) {
    forall img: Image, q: int ::
      pil.open(pil.saveWebp(img, q)).Some?
      && pil.open(pil.saveWebp(img, q)).value.width == img.width
      && pil.open(pil.saveWebp(img, q)).value.height == img.height
  }

  /** The two ways the codec refuses an upload (both `ValueError`s in the source). */
  datatype CodecError = ImageTooLarge(message: string) | InvalidImage(message: string)

  /** `(compressed_bytes, mime, sha256_hex)`. */
  datatype Compressed = Compressed(data: Bytes, mime: string, sha256: string)

  function TooLargeMessage(maxUploadBytes: int): string {
    "Upload too large (>" + Text.IntToString(maxUploadBytes) + " bytes)"
  }

  const InvalidImageMessage: string := "Invalid image"

  /** Colour-mode normalisation: `RGB` and `L` are kept, every other mode is converted to `RGB`. */
  function NormaliseMode(pil: Pil, img: Image): (r: Image)
    ensures img.mode == "RGB" || img.mode == "L" ==> r == img
    ensures ConvertContract(pil) ==> (r.mode == "RGB" || r.mode == "L")
    ensures ConvertContract(pil) && img.mode != "L" ==> r.mode == "RGB"
    ensures ConvertContract(pil) ==> r.width == img.width && r.height == img.height
  {
    if img.mode == "RGB" || img.mode == "L" then img else pil.convert(img, "RGB")
  }

  /** The image handed to the encoder: mode-normalised, then shrunk into a `maxDim` square. */
  function Prepare(pil: Pil, img: Image, maxDim: int): (r: Image)
    ensures ConvertContract(pil) && ThumbnailContract(pil) ==>
      r.width <= img.width && r.height <= img.height && (r.mode == "RGB" || r.mode == "L")
    ensures ConvertContract(pil) && ThumbnailContract(pil) && maxDim >= 1 ==>
      r.width <= maxDim && r.height <= maxDim
  {
    pil.thumbnail(NormaliseMode(pil, img), maxDim, maxDim)
  }

  /**
   * `compress_chart_image`: the size gate runs first and needs no decoder; an undecodable
   * buffer is `InvalidImage`; otherwise the normalised, shrunk image is WebP-encoded and
   * returned with its mime type and the digest of the encoded bytes.
   */
  function CompressChartImage(pil: Pil, sha: Hasher, raw: Bytes, maxUploadBytes: int, maxDim: int, webpQuality: int)
    : (r: Result<Compressed, CodecError>)
    ensures r == Failure(ImageTooLarge(TooLargeMessage(maxUploadBytes))) <==> |raw| > maxUploadBytes
    ensures r == Failure(InvalidImage(InvalidImageMessage)) <==> |raw| <= maxUploadBytes && pil.open(raw).None?
    ensures r.Success? <==> |raw| <= maxUploadBytes && pil.open(raw).Some?
    ensures r.Success? ==> r.value.mime == WebpMime && r.value.sha256 == sha(r.value.data)
    ensures r.Success? ==> r.value.data == pil.saveWebp(Prepare(pil, pil.open(raw).value, maxDim), webpQuality)
  {
    if |raw| > maxUploadBytes then
      Failure(ImageTooLarge(TooLargeMessage(maxUploadBytes)))
    else
      match pil.open(raw)
      case None => Failure(InvalidImage(InvalidImageMessage))
      case Some(img) =>
        var compressed := pil.saveWebp(Prepare(pil, img, maxDim), webpQuality);
        Success(Compressed(compressed, WebpMime, sha(compressed)))
  }

  /** `compress_chart_image(raw)` with its default keyword arguments. */
  function CompressWithDefaults(pil: Pil, sha: Hasher, raw: Bytes): (r: Result<Compressed, CodecError>)
    ensures r.Failure? && r.error.ImageTooLarge? <==> |raw| > 10 * 1024 * 1024
  {
    CompressChartImage(pil, sha, raw, MaxUploadBytes, MaxDim, WebpQuality)
  }

  /** An oversize upload is refused before decoding: the verdict does not depend on the image library at all. */
  lemma TooLargeIgnoresDecoder(pil1: Pil, pil2: Pil, sha1: Hasher, sha2: Hasher, raw: Bytes, maxUploadBytes: int, maxDim: int, q: int)
    requires |raw| > maxUploadBytes
    ensures CompressChartImage(pil1, sha1, raw, maxUploadBytes, maxDim, q)
         == CompressChartImage(pil2, sha2, raw, maxUploadBytes, maxDim, q)
  {
  }

  /** The gate is strict: an upload of exactly the ceiling is passed on to the decoder. */
  lemma SizeGateBoundary(pil: Pil, sha: Hasher, raw: Bytes)
    requires |raw| == MaxUploadBytes
    requires pil.open(raw).Some?
    ensures CompressWithDefaults(pil, sha, raw).Success?
  {
  }

  /**
   * Under the assumed library contracts, what is stored decodes to an image no larger than
   * `maxDim` on either side and no larger than the upload on either side.
   */
  lemma OutputFitsBounds(pil: Pil, sha: Hasher, raw: Bytes, maxUploadBytes: int, maxDim: int, q: int)
    requires ConvertContract(pil) && ThumbnailContract(pil) && EncodeContract(pil)
    requires maxDim >= 1
    requires CompressChartImage(pil, sha, raw, maxUploadBytes, maxDim, q).Success?
    ensures var out := CompressChartImage(pil, sha, raw, maxUploadBytes, maxDim, q).value.data;
      && pil.open(out).Some?
      && pil.open(out).value.width <= maxDim && pil.open(out).value.height <= maxDim
      && pil.open(out).value.width <= pil.open(raw).value.width
      && pil.open(out).value.height <= pil.open(raw).value.height
  {
    var img := pil.open(raw).value;
    var p := Prepare(pil, img, maxDim);
    assert pil.open(pil.saveWebp(p, q)).value.width == p.width;
  }

  /** An upload already within bounds in `RGB` or `L` mode is encoded at its own size and mode. */
  lemma SmallImageKeptAsIs(pil: Pil, img: Image, maxDim: int)
    requires ThumbnailContract(pil)
    requires img.mode == "RGB" || img.mode == "L"
    requires img.width <= maxDim && img.height <= maxDim
    ensures Prepare(pil, img, maxDim) == img
  {
  }

  /** Under the hash contract the returned digest is a 64-character hex string. */
  lemma DigestIsHex(pil: Pil, sha: Hasher, raw: Bytes, maxUploadBytes: int, maxDim: int, q: int)
    requires HasherContract(sha)
    requires CompressChartImage(pil, sha, raw, maxUploadBytes, maxDim, q).Success?
    ensures IsHexDigest(CompressChartImage(pil, sha, raw, maxUploadBytes, maxDim, q).value.sha256)
  {
  }
}
