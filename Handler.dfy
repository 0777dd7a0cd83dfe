/** The event handler of the converter (`handler` and the helpers it calls).
    The storage service and the conversion service are collaborators whose
    behaviour is a parameter (`Services`); the object store is a map that
    `put_object` updates, and every call the handler makes to a collaborator
    is recorded, in order, in a trace.

    `Invocation` states, as a function from the store and the calls made so
    far, what one run of the handler does; the class `Lambda` runs it step
    by step and is proved to agree with it. What `Invocation` implies is
    proved in the module `HandlerProperties`. */
module Handler {
  import opened Wrappers
  import Keys
  import Base64
  import opened ConvertApi

  type Bytes = seq<Base64.byte>

  /** Objects by (bucket name, key). */
  type Store = map<(string, string), Bytes>

  const PngBucketName: string := "png-img-test-bucket"
  const GifBucketName: string := "gif-img-test-bucket"
  const StatusOk: int := 200

  /** How the collaborators behave during one invocation.
      - getFails(bucket, key): `s3.get_object` raises for that object
        (access denied, a transient fault) even if it exists;
      - putFails(bucket, key): `s3.put_object` raises for that object;
      - post(target, request): the `Url` of every entry of the `Files` list
        in the conversion service's reply, or None when the POST or the
        parsing of its reply raises;
      - download(url): the body of a GET of the URL, or None when it raises. */
  datatype Services = Services(
    getFails: (string, string) -> bool,
    putFails: (string, string) -> bool,
    post: (Target, Request) -> Option<seq<string>>,
    download: string -> Option<Bytes>)

  /** One call to a collaborator. */
  datatype Effect =
    | StorageGet(bucket: string, key: string)
    | ConversionPost(target: Target, request: Request)
    | HttpGet(url: string)
    | StoragePut(bucket: string, key: string, body: Bytes)

  /** Why a conversion failed: the POST (or the parsing of its reply)
      raised, the reply's `Files` list was empty, or the download raised. */
  datatype ConvertFault = RequestFailed | NoConvertedFile | DownloadFailed

  /** The exceptions that escape the handler: IndexError from `is_jpg` on a
      key without `.`, and any conversion failure. */
  datatype Fault = NoFormatSeparator | ConversionFailed(target: Target, cause: ConvertFault)

  /** What the trigger sees: the returned status, or an exception. */
  datatype Outcome = Returned(statusCode: int) | Raised(fault: Fault)

  // ---------------------------------------------------------------------
  // Specification of each step
  // ---------------------------------------------------------------------

  /** `get_image_base64`: the base64 text of the stored body, or None when
      the object is missing or the storage raises (the exception is
      swallowed). The text decodes back to exactly the stored body. */
  function Fetched(sv: Services, store: Store, bucket: string, key: string): (r: Option<string>)
    ensures r.Some? <==> (bucket, key) in store && !sv.getFails(bucket, key)
    ensures r.Some? ==> r.value == Base64.Encode(store[(bucket, key)])
  {
    if (bucket, key) in store && !sv.getFails(bucket, key) then
      Some(Base64.Encode(store[(bucket, key)]))
    else None
  }

  /** The fetched text decodes back to exactly the stored body: nothing is
      lost between the store and the conversion request. */
  lemma FetchedDecodes(sv: Services, store: Store, bucket: string, key: string)
    requires Fetched(sv, store, bucket, key).Some?
    ensures Base64.Decode(Fetched(sv, store, bucket, key).value) == Some(store[(bucket, key)])
  {
    Base64.DecodeEncode(store[(bucket, key)]);
  }

  /** `put_object`: the store holds the body under (bucket, key) afterwards,
      unless the storage raised, in which case nothing changed (the
      exception is swallowed). Other objects are untouched. */
  function AfterPut(sv: Services, store: Store, bucket: string, key: string, body: Bytes): (s: Store)
    ensures sv.putFails(bucket, key) ==> s == store
    ensures !sv.putFails(bucket, key) ==> (bucket, key) in s && s[(bucket, key)] == body
    ensures s.Keys <= store.Keys + {(bucket, key)}
    ensures forall bk :: bk in store && bk != (bucket, key) ==> bk in s && s[bk] == store[bk]
  {
    if sv.putFails(bucket, key) then store else store[(bucket, key) := body]
  }

  /** The result of one conversion, and the calls made so far once it is
      over. */
  datatype Conversion = Conversion(result: Result<Bytes, ConvertFault>, trace: seq<Effect>)

  /** The second half of `convert_image_to_png` and `convert_image_to_gif`,
      with `get_converted_image_url`, after the calls `trace`: POST the
      request for the target format, take the URL of the first converted
      file, GET it. Nothing is caught: each failure is a fault, and the body
      is returned only when every step succeeded. */
  function Convert(sv: Services, trace: seq<Effect>, target: Target, request: Request): Conversion {
    var posted := trace + [ConversionPost(target, request)];
    match sv.post(target, request)
    case None => Conversion(Err(RequestFailed), posted)
    case Some(urls) =>
      if |urls| == 0 then Conversion(Err(NoConvertedFile), posted)
      else
        var fetched := posted + [HttpGet(urls[0])];
        match sv.download(urls[0])
        case None => Conversion(Err(DownloadFailed), fetched)
        case Some(body) => Conversion(Ok(body), fetched)
  }

  /** The outcome of one invocation, the calls made so far once it is over,
      and the final store. */
  datatype Run = Run(outcome: Outcome, trace: seq<Effect>, store: Store)

  /** `handler` for an event about (bucket, key), after the calls `trace`:
      check the format, derive the base name, fetch, then convert and store.
      A missing `.` in the key raises; a key that is not a JPEG, or a failed
      fetch, ends the run quietly. */
  function Invocation(sv: Services, store: Store, trace: seq<Effect>, bucket: string, key: string): Run {
    if '.' !in key then Run(Raised(NoFormatSeparator), trace, store)
    else if !Keys.IsJpg(key) then Run(Returned(StatusOk), trace, store)
    else
      var name := Keys.GetFileName(key);
      var got := trace + [StorageGet(bucket, key)];
      match Fetched(sv, store, bucket, key)
      case None => Run(Returned(StatusOk), got, store)
      case Some(base64Image) => ConvertAndStore(sv, store, got, name, base64Image)
  }

  /** The part of `handler` after a successful fetch: convert to PNG and put,
      then convert to GIF and put, in this order. A failed conversion raises
      and ends the run; a failed put changes nothing and the run goes on. */
  function ConvertAndStore(sv: Services, store: Store, trace: seq<Effect>, name: string, base64Image: string): Run {
    var png := Convert(sv, trace, Png, PngRequest(base64Image));
    if png.result.Err? then
      Run(Raised(ConversionFailed(Png, png.result.error)), png.trace, store)
    else
      var pngPut := StoragePut(PngBucketName, name + ".png", png.result.value);
      var afterPng := AfterPut(sv, store, PngBucketName, name + ".png", png.result.value);
      var gif := Convert(sv, png.trace + [pngPut], Gif, GifRequest(base64Image));
      if gif.result.Err? then
        Run(Raised(ConversionFailed(Gif, gif.result.error)), gif.trace, afterPng)
      else
        var gifPut := StoragePut(GifBucketName, name + ".gif", gif.result.value);
        Run(Returned(StatusOk), gif.trace + [gifPut],
            AfterPut(sv, afterPng, GifBucketName, name + ".gif", gif.result.value))
  }

  // ---------------------------------------------------------------------
  // The handler, step by step
  // ---------------------------------------------------------------------

  /** The module-level state the handler runs against: the collaborators,
      the object store they expose, and the calls made so far. */
  class Lambda {
    const services: Services
    var store: Store
    var trace: seq<Effect>

    constructor (services: Services, store: Store)
      ensures this.services == services && this.store == store && trace == []
    {
      this.services := services;
      this.store := store;
      trace := [];
    }

    /** `get_image_base64` */
    method GetImageBase64(bucketName: string, key: string) returns (r: Option<string>)
      modifies this
      ensures r == Fetched(services, old(store), bucketName, key)
      ensures store == old(store) && trace == old(trace) + [StorageGet(bucketName, key)]
    {
      trace := trace + [StorageGet(bucketName, key)];
      if (bucketName, key) in store && !services.getFails(bucketName, key) {
        var body := store[(bucketName, key)];
        r := Some(Base64.Encode(body));
      } else {
        r := None;
      }
    }

    /** `put_object` */
    method PutObject(bucketName: string, key: string, body: Bytes)
      modifies this
      ensures store == AfterPut(services, old(store), bucketName, key, body)
      ensures trace == old(trace) + [StoragePut(bucketName, key, body)]
    {
      trace := trace + [StoragePut(bucketName, key, body)];
      if !services.putFails(bucketName, key) {
        store := store[(bucketName, key) := body];
      }
    }

    /** `get_converted_image_url`: the body behind the first converted
        file's URL. */
    method GetConvertedImageUrl(urls: seq<string>) returns (r: Result<Bytes, ConvertFault>)
      modifies this
      ensures store == old(store)
      ensures |urls| == 0 ==> r == Err(NoConvertedFile) && trace == old(trace)
      ensures |urls| > 0 ==> trace == old(trace) + [HttpGet(urls[0])]
      ensures |urls| > 0 ==>
        r == (match services.download(urls[0]) case None => Err(DownloadFailed) case Some(body) => Ok(body))
    {
      if |urls| == 0 {
        r := Err(NoConvertedFile);
        return;
      }
      var downloadUrl := urls[0];
      trace := trace + [HttpGet(downloadUrl)];
      var response := services.download(downloadUrl);
      if response.None? {
        r := Err(DownloadFailed);
      } else {
        r := Ok(response.value);
      }
    }

    /** The POST of a conversion request and the collection of its
        result. */
    method RequestConversion(target: Target, request: Request) returns (r: Result<Bytes, ConvertFault>)
      modifies this
      ensures store == old(store)
      ensures r == Convert(services, old(trace), target, request).result
      ensures trace == Convert(services, old(trace), target, request).trace
    {
      trace := trace + [ConversionPost(target, request)];
      var response := services.post(target, request);
      if response.None? {
        r := Err(RequestFailed);
      } else {
        r := GetConvertedImageUrl(response.value);
      }
    }

    /** `convert_image_to_png` */
    method ConvertImageToPng(base64Input: string) returns (r: Result<Bytes, ConvertFault>)
      modifies this
      ensures store == old(store)
      ensures r == Convert(services, old(trace), Png, PngRequest(base64Input)).result
      ensures trace == Convert(services, old(trace), Png, PngRequest(base64Input)).trace
    {
      var request := PngRequest(base64Input);
      r := RequestConversion(Png, request);
    }

    /** `convert_image_to_gif` */
    method ConvertImageToGif(base64Input: string) returns (r: Result<Bytes, ConvertFault>)
      modifies this
      ensures store == old(store)
      ensures r == Convert(services, old(trace), Gif, GifRequest(base64Input)).result
      ensures trace == Convert(services, old(trace), Gif, GifRequest(base64Input)).trace
    {
      var request := GifRequest(base64Input);
      r := RequestConversion(Gif, request);
    }

    /** `handler`, for an event whose first record names (bucketName, key). */
    method Handle(bucketName: string, key: string) returns (outcome: Outcome)
      modifies this
      ensures outcome == Invocation(services, old(store), old(trace), bucketName, key).outcome
      ensures store == Invocation(services, old(store), old(trace), bucketName, key).store
      ensures trace == Invocation(services, old(store), old(trace), bucketName, key).trace
    {
      if '.' !in key {
        // `key.split('.')[1]` raises IndexError
        return Raised(NoFormatSeparator);
      }
      var isJpeg := Keys.IsJpg(key);
      if isJpeg {
        var fileName := Keys.GetFileName(key);
        var base64Image := GetImageBase64(bucketName, key);
        if base64Image.Some? {
          outcome := ConvertAndStoreImage(fileName, base64Image.value);
          return;
        }
      }
      return Returned(StatusOk);
    }

    /** The body of `handler` once the fetch has returned the base64 text:
        convert to PNG and put, then convert to GIF and put. */
    method ConvertAndStoreImage(fileName: string, base64Image: string) returns (outcome: Outcome)
      modifies this
      ensures outcome == ConvertAndStore(services, old(store), old(trace), fileName, base64Image).outcome
      ensures store == ConvertAndStore(services, old(store), old(trace), fileName, base64Image).store
      ensures trace == ConvertAndStore(services, old(store), old(trace), fileName, base64Image).trace
    {
      var pngBytes := ConvertImageToPng(base64Image);
      if pngBytes.Err? {
        return Raised(ConversionFailed(Png, pngBytes.error));
      }
      PutObject(PngBucketName, fileName + ".png", pngBytes.value);
      var gifBytes := ConvertImageToGif(base64Image);
      if gifBytes.Err? {
        return Raised(ConversionFailed(Gif, gifBytes.error));
      }
      PutObject(GifBucketName, fileName + ".gif", gifBytes.value);
      return Returned(StatusOk);
    }
  }
}
