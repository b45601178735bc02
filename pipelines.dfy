/**
 * The item pipelines (kp_crawler/pipelines.py): the photo stage, which
 * downloads, recompresses and base64-encodes the header photo, and the storage
 * stage, which inserts each finished item into the `articles` collection.
 *
 * The HTTP client, the image codec and base64 are oracles.
 */
module Pipelines {
  import opened Wrappers
  import opened Items
  import Spider

  newtype byte = x: int | 0 <= x < 256

  type Bytes = seq<byte>

  /**
   * An identified image, as far as the pipeline looks at it: its PIL mode, its
   * size, and the encoded data, which PIL reads only when the image is
   * converted or saved.
   */
  datatype Image = Image(mode: string, width: nat, height: nat, data: Bytes)

  /**
   * The foreign codecs: PIL's `Image.open` (`None` when it cannot identify the
   * image), PIL's conversion and JPEG encoder at a quality level with
   * `optimize=True` (`None` when they raise `OSError`: a mode the JPEG writer
   * cannot take, such as `LA`, `PA`, `I;16` or `F`, or data that turns out to be
   * truncated once it is read), and `base64.b64encode(...).decode("utf-8")`.
   */
  datatype Codec = Codec(open: Bytes -> Option<Image>, saveJpeg: (Image, int) -> Option<Bytes>, b64encode: Bytes -> string)

  /** What `session.get(url)` and `response.read()` come to. */
  datatype GetOutcome = Response(status: int, body: Bytes) | InvalidUrl | ConnectionFailure

  /** The exceptions a pipeline stage can raise. */
  datatype PipelineError = KeyError(field: string) | InvalidUrlClientError | ClientError | UnidentifiedImageError | OSError

  /** `RESULT_IMAGE_QUALITY` when the crawler settings do not give one. */
  const DefaultImageQuality: int := 35

  /** The mode an image is saved in: alpha and palette images become RGB, any other mode is kept. */
  function JpegMode(mode: string): (r: string)
    ensures r != "RGBA" && r != "P"
    ensures r == mode <==> (mode != "RGBA" && mode != "P")
    ensures r != mode ==> r == "RGB"
  {
    if mode == "RGBA" || mode == "P" then "RGB" else mode
  }

  /** Converting once is enough. */
  lemma JpegModeIdempotent(mode: string)
    ensures JpegMode(JpegMode(mode)) == JpegMode(mode)
  {
  }

  /** `item["header_photo_url"]` is assigned and truthy. */
  predicate HasPhotoUrl(item: ItemDict) {
    item.header_photo_url.Set? && item.header_photo_url.value.Some? && item.header_photo_url.value.value != ""
  }

  class PhotoDownloaderPipeline {
    const resultImageQuality: int

    /** `from_crawler`: the configured quality, or 35. */
    constructor FromCrawler(setting: Option<int>)
      ensures resultImageQuality == (if setting.Some? then setting.value else DefaultImageQuality)
    {
      resultImageQuality := if setting.Some? then setting.value else DefaultImageQuality;
    }

    /**
     * `compress_image`: identify the image, turn RGBA and palette images into
     * RGB, re-encode as JPEG at the configured quality.
     */
    function CompressImage(content: Bytes, codec: Codec): (r: Result<Bytes, PipelineError>)
      ensures codec.open(content) == None <==> r == Failure(UnidentifiedImageError)
      ensures r == Failure(OSError) <==>
                && codec.open(content).Some?
                && var img := codec.open(content).value;
                   codec.saveJpeg(img.(mode := JpegMode(img.mode)), resultImageQuality) == None
      ensures r.Success? ==>
                && codec.open(content).Some?
                && var img := codec.open(content).value;
                   codec.saveJpeg(img.(mode := JpegMode(img.mode)), resultImageQuality) == Some(r.value)
    {
      match codec.open(content)
      case None => Failure(UnidentifiedImageError)
      case Some(img) =>
        match codec.saveJpeg(img.(mode := JpegMode(img.mode)), resultImageQuality)
        case None => Failure(OSError)
        case Some(jpeg) => Success(jpeg)
    }

    /**
     * `_download_photo_to_base64`: a non-200 status gives the empty payload, a
     * 200 response the base64 of the recompressed body; a malformed url, a
     * failed connection, an unidentified image or a failed save raise.
     */
    function DownloadPhotoToBase64(url: string, get: string -> GetOutcome, codec: Codec): (r: Result<string, PipelineError>)
      ensures r == Failure(InvalidUrlClientError) <==> get(url) == InvalidUrl
      ensures get(url) == ConnectionFailure ==> r == Failure(ClientError)
      ensures get(url).Response? && get(url).status != 200 ==> r == Success("")
      ensures get(url).Response? && get(url).status == 200 ==>
                var compressed := CompressImage(get(url).body, codec);
                && (compressed.Success? ==> r == Success(codec.b64encode(compressed.value)))
                && (compressed.Failure? ==> r == Failure(compressed.error))
      ensures r.Success? && r.value != "" ==> get(url).Response? && get(url).status == 200
    {
      match get(url)
      case InvalidUrl => Failure(InvalidUrlClientError)
      case ConnectionFailure => Failure(ClientError)
      case Response(status, body) =>
        if status != 200 then Success("")
        else
          match CompressImage(body, codec)
          case Failure(e) => Failure(e)
          case Success(compressed) => Success(codec.b64encode(compressed))
    }

    /**
     * What `process_item` does to an item's contents: nothing without a truthy
     * photo url; on a malformed url the url is cleared; otherwise the payload
     * is stored. Only the two photo fields ever change.
     */
    function PhotoStage(item: ItemDict, get: string -> GetOutcome, codec: Codec): (r: Result<ItemDict, PipelineError>)
      ensures item.header_photo_url == Unset ==> r == Failure(KeyError("header_photo_url"))
      ensures item.header_photo_url.Set? && !HasPhotoUrl(item) ==> r == Success(item)
      ensures r.Success? ==>
                r.value.(header_photo_url := item.header_photo_url, header_photo_base64 := item.header_photo_base64) == item
      ensures r.Success? && r.value.header_photo_url != item.header_photo_url ==>
                r.value.header_photo_url == Set(None) && r.value.header_photo_base64 == item.header_photo_base64
      ensures HasPhotoUrl(item) ==>
                var url := item.header_photo_url.value.value;
                && (get(url) == InvalidUrl ==> r == Success(item.(header_photo_url := Set(None))))
                && (get(url).Response? && get(url).status != 200 ==> r == Success(item.(header_photo_base64 := Set(""))))
                && (get(url) == ConnectionFailure ==> r == Failure(ClientError))
      ensures HasPhotoUrl(item) ==>
                var photo := DownloadPhotoToBase64(item.header_photo_url.value.value, get, codec);
                && (photo.Success? ==> r == Success(item.(header_photo_base64 := Set(photo.value))))
                && (photo.Failure? && photo.error != InvalidUrlClientError ==> r == Failure(photo.error))
    {
      match item.header_photo_url
      case Unset => Failure(KeyError("header_photo_url"))
      case Set(url) =>
        if url.Some? && url.value != "" then
          match DownloadPhotoToBase64(url.value, get, codec)
          case Failure(InvalidUrlClientError) => Success(item.(header_photo_url := Set(None)))
          case Failure(e) => Failure(e)
          case Success(photo) => Success(item.(header_photo_base64 := Set(photo)))
        else Success(item)
    }

    /** `process_item`: updates the item in place and returns it, or raises. */
    method ProcessItem(item: NewsItem, get: string -> GetOutcome, codec: Codec) returns (r: Result<NewsItem, PipelineError>)
      modifies item
      ensures var stage := PhotoStage(old(item.Value()), get, codec);
              && (stage.Success? ==> r == Success(item) && item.Value() == stage.value)
              && (stage.Failure? ==> r == Failure(stage.error) && item.Value() == old(item.Value()))
    {
      match item.header_photo_url
      case Unset =>
        return Failure(KeyError("header_photo_url"));
      case Set(url) =>
        if url.Some? && url.value != "" {
          var photo := DownloadPhotoToBase64(url.value, get, codec);
          match photo
          case Failure(InvalidUrlClientError) =>
            item.header_photo_url := Set(None);
            return Success(item);
          case Failure(e) =>
            return Failure(e);
          case Success(payload) =>
            item.header_photo_base64 := Set(payload);
            return Success(item);
        }
        return Success(item);
    }
  }

  /**
   * The payload is set and truthy exactly when the photo was fetched with
   * status 200, identified, saved as JPEG and encoded to a non-empty string.
   */
  lemma PayloadShownIff(p: PhotoDownloaderPipeline, item: ItemDict, get: string -> GetOutcome, codec: Codec)
    requires HasPhotoUrl(item) && item.header_photo_base64 == Unset
    ensures var r := p.PhotoStage(item, get, codec);
            var got := get(item.header_photo_url.value.value);
            (r.Success? && r.value.header_photo_base64.Set? && r.value.header_photo_base64.value != "")
            <==>
            (&& got.Response? && got.status == 200 && codec.open(got.body).Some?
             && var img := codec.open(got.body).value;
                var jpeg := codec.saveJpeg(img.(mode := JpegMode(img.mode)), p.resultImageQuality);
                jpeg.Some? && codec.b64encode(jpeg.value) != "")
  {
  }

  /** An article whose detail page has no header image skips the download and passes through unchanged. */
  lemma NoImageNoDownload(p: PhotoDownloaderPipeline, item: ItemDict, page: Spider.DetailPage,
                          get: string -> GetOutcome, codec: Codec)
    requires page.imageSrc == None || page.imageSrc == Some("")
    ensures p.PhotoStage(Spider.Detailed(item, page), get, codec) == Success(Spider.Detailed(item, page))
  {
  }

  class MongoPipeline {
    /** The documents of the `articles` collection, in insertion order. */
    var articles: seq<ItemDict>

    /** The pipeline over a collection that already holds the documents of earlier runs. */
    constructor (existing: seq<ItemDict>)
      ensures articles == existing
    {
      articles := existing;
    }

    /** `process_item`: inserts a copy of the item as one document and returns the item. */
    method ProcessItem(item: NewsItem) returns (r: NewsItem)
      modifies this
      ensures articles == old(articles) + [item.Value()]
      ensures r == item && item.Value() == old(item.Value())
    {
      articles := articles + [item.Value()];
      r := item;
    }
  }
}
