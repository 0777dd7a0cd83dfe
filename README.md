# AWS image converter, modelled in Dafny

The converter is an AWS Lambda handler, `handler.py`. Uploading an object to
a bucket triggers it. For a JPEG key it does four things in order:
- it fetches the object and encodes its body in base64;
- it asks a remote conversion service to turn the image into a PNG, downloads
  the result and writes it to `png-img-test-bucket` as `<name>.png`;
- it does the same for a GIF, written to `gif-img-test-bucket` as `<name>.gif`;
- it returns `{'statusCode': 200}`.

`<name>` is the part of the key's last `/`-segment before its first `.`.

The model has seven modules:

- `Wrappers`: `Option` and `Result`.
- `Sequences`: small generic facts about sequence concatenation and
  prefixes that the other proofs use.
- `Keys`: Python's `str.split` on one character, with reference definitions
  (`Before`, `After`, `AfterLast`) it is proved against. It also holds the
  positional JPEG check `is_jpg` and the base-name derivation `get_file_name`,
  with their characterizations and concrete keys.
- `Base64`: the encoding of RFC 4648, section 4, as `base64.b64encode`
  produces it. It comes with a strict decoder and the round trip
  `Decode(Encode(s)) == Some(s)`.
- `ConvertApi`: the two conversion requests as data. The PNG request carries
  one `File`/`FileValue`; the GIF request carries `Files`/`FileValues` with one
  element.
- `Handler`: the collaborators as a `Services` value. It holds:
  - which storage gets and puts raise;
  - what the POST to the conversion service replies;
  - what each download returns.

  The object store is a map. Each call to a collaborator is an `Effect`.
  `Invocation` specifies one run of `handler` as a function of the store and
  the calls so far. It gives the outcome (returned status or raised
  exception), the extended call trace and the final store. The class
  `Lambda` holds the store and the trace, runs `handler` step by step, and
  each of its methods is proved to agree with the specification functions.
- `HandlerProperties`: what a run does, derived from `Invocation`. It covers:
  - which calls are made, and in which order;
  - which early exits are possible;
  - what is written where on each way a run can end;
  - that the swallowed `put_object` faults change nothing else;
  - that every request posted carries exactly the stored image.

The model follows the code as written:
- A key without `.` makes `is_jpg` raise `IndexError`, and the handler does
  not catch it. So the run ends in `Raised(NoFormatSeparator)` before any
  call.
- The conversions are not guarded. A failed PNG conversion raises and ends
  the run: nothing is written and the GIF is never requested. A failed GIF
  conversion raises after the PNG has been written.
- Only `get_image_base64` and `put_object` swallow errors. The first
  returns `None`, which ends the run with 200; the second writes nothing,
  and the run goes on.

## Model

| member | source | states |
|---|---|---|
| Keys.Split | handler.py:17 | Python's `split` on one character: there is always at least one piece, and no piece holds the separator |
| Keys.JoinSplit | handler.py:17 | joining the pieces with the separator gives back the string, so nothing is lost by splitting |
| Keys.SplitSingleIff | handler.py:17-18 | the split has a single piece exactly when the separator does not occur, which is when `arr[1]` raises |
| Keys.SplitAfterFirst | handler.py:17-18 | the split is the part before the first separator followed by the split of what comes after it |
| Keys.SplitLast | handler.py:23-24 | the last piece of the split is the part after the last separator |
| Keys.SplitFirst | handler.py:25 | the first piece of the split is the part before the first separator |
| Keys.Before | handler.py:25 | the part before the first occurrence: a prefix without the character, shorter exactly when the character occurs, and followed by it then |
| Keys.After | handler.py:18 | the string is the part before the first occurrence, the character, then this part |
| Keys.AfterLast | handler.py:24 | a suffix without the character, shorter exactly when the character occurs, and preceded by it then |
| Keys.IsJpg | handler.py:16-19 | `is_jpg`: it requires a key holding `.` (a key without one raises, as `Invocation` models); what it accepts is characterized by `Keys.IsJpgIff` and `Keys.IsJpgOfPieces` |
| Keys.IsJpgIff | handler.py:16-19 | a key (which must hold a `.`) is accepted exactly when the text between its first and second `.` is `jpg` |
| Keys.IsJpgOfPieces | handler.py:16-19 | for a key cut into a stem without `.`, one piece and a rest that is empty or starts with `.`: accepted exactly when the piece is `jpg`, case-sensitively |
| Keys.IsJpgAcceptsPath | handler.py:16-19 | `a/b/c.jpg` is accepted |
| Keys.IsJpgAcceptsLaterExtension | handler.py:16-19 | `c.jpg.png` is accepted, because only piece 1 is compared |
| Keys.IsJpgRejectsDotInName | handler.py:16-19 | `my.photo.jpg` is rejected |
| Keys.IsJpgRejectsDotInDirectory | handler.py:16-19 | `d.x/c.jpg` is rejected |
| Keys.IsJpgRejectsUpperCase | handler.py:16-19 | `c.JPG` is rejected |
| Keys.IsJpgRejectsGif | handler.py:16-19 | `photos/sunset.gif` is rejected |
| Keys.IsJpgRejectsOtherExtension | handler.py:16-19 | `name.ext` with neither part holding `.` is rejected whenever `ext` is not `jpg` |
| Keys.GetFileName | handler.py:22-26 | `get_file_name`: total, requiring nothing of the key; characterized by `Keys.GetFileNameIff` |
| Keys.GetFileNameIff | handler.py:22-26 | the base name is the last `/`-segment (the whole key when there is no `/`) up to its first `.`; it holds neither `/` nor `.` and is a prefix of that segment |
| Keys.GetFileNameOfPath | handler.py:22-26 | the base name of `dir/name.ext` is `name` when `name` has no `.` or `/` and `ext` has no `/` |
| Keys.GetFileNameWithoutDirectory | handler.py:22-26 | a key without `/` is one segment: the base name of `name.ext` is `name` |
| Keys.SunsetJpegKey | handler.py:16-26 | `photos/sunset.jpg` is accepted and its base name is `sunset` |
| Keys.KeyIsNoDestination | handler.py:16-26 | an accepted key is neither `<name>.png` nor `<name>.gif` for its own base name, because those have piece 1 `png` or `gif` |
| Base64.IndexToChar | handler.py:37 | every value of six bits maps to a character of the alphabet of RFC 4648, section 4 |
| Base64.CharToIndex | handler.py:37 | a character has a value exactly when it is in the alphabet |
| Base64.CharToIndexOfIndexToChar | handler.py:37 | the alphabet table read backwards inverts it |
| Base64.Encode | handler.py:37-38 | the text has length 4 * ceil(n / 3), uses only the alphabet, and has `=` only in its last two positions |
| Base64.EncodeShortTestVectors | handler.py:37 | the encodings of "", "f", "fo" and "foo" are those of section 10 of RFC 4648 |
| Base64.EncodeTestVectorFoob | handler.py:37 | the encoding of "foob" is "Zm9vYg==", as section 10 of RFC 4648 gives |
| Base64.EncodeTestVectorFooba | handler.py:37 | the encoding of "fooba" is "Zm9vYmE=", as section 10 of RFC 4648 gives |
| Base64.EncodeTestVectorFoobar | handler.py:37 | the encoding of "foobar" is "Zm9vYmFy", as section 10 of RFC 4648 gives |
| Base64.Decode | handler.py:37-38 | a text that decodes has a length that is a multiple of four |
| Base64.DecodeEncode | handler.py:37-38 | decoding the encoding of any bytes gives back exactly those bytes |
| ConvertApi.PngRequest | handler.py:85-99 | the request of `convert_image_to_png`, for any text; characterized by `ConvertApi.PngRequestUploads` |
| ConvertApi.GifRequest | handler.py:61-77 | the request of `convert_image_to_gif`, for any text; characterized by `ConvertApi.GifRequestUploads` |
| ConvertApi.PngRequestUploads | handler.py:85-99 | the PNG request uploads exactly the given text, once, as `my_file.jpg` in a single `File`, with `StoreFile` true and no `Files` list |
| ConvertApi.GifRequestUploads | handler.py:61-77 | the GIF request uploads exactly the given text, once, as `my_file.jpg` in a one-element `Files` list, with `StoreFile` true and no single `File` |
| ConvertApi.RequestsCarryTheSource | handler.py:61-77 | both requests upload exactly the given text with `StoreFile` set, and the two targets never receive the same request |
| ConvertApi.BuildRequestInjective | handler.py:85-99 | equal requests for a target carry equal sources |
| Handler.Fetched | handler.py:29-42 | the fetch yields text exactly when the object exists and the storage does not raise, and the text is the base64 encoding of the stored body |
| Handler.FetchedDecodes | handler.py:36-38 | the fetched text decodes to exactly the stored body |
| Handler.AfterPut | handler.py:45-49 | a put that raises changes nothing; otherwise the object holds the body; no other object changes |
| Handler.Convert | handler.py:52-56 | the POST of a conversion request (handler.py:79 and 101) and `get_converted_image_url`, after any earlier calls; characterized by `HandlerProperties.ConvertCalls`, `ConvertFrame` and `ConvertResultFrame` |
| Handler.Invocation | handler.py:105-123 | `handler` for any store, prior calls, bucket and key; characterized by `HandlerProperties.QuietUnlessJpeg`, `FetchComesFirst`, `OutcomeOfConversions`, `InvocationFrame` and the lemmas on each way a run ends |
| Handler.ConvertAndStore | handler.py:116-121 | the part of `handler` after a successful fetch, for any prior calls, base name and text; characterized by `HandlerProperties.ConvertAndStorePngFailure`, `ConvertAndStoreGifFailure`, `ConvertAndStoreSuccess` and `ConvertAndStoreWrites` |
| HandlerProperties.ConvertResultFrame | handler.py:52-56 | what a conversion returns does not depend on the calls made before it |
| HandlerProperties.ConvertCalls | handler.py:52-56 | a conversion POSTs its request and, when the reply lists a file, GETs the first URL. It succeeds exactly when that GET returns, and its result is the downloaded body. It fails with `RequestFailed` exactly when the POST fails, and with `NoConvertedFile` exactly when the file list is empty |
| HandlerProperties.CallsOfConvert | handler.py:79-80 | a conversion adds one POST of its request and no storage call |
| HandlerProperties.DownloadsOfConvert | handler.py:52-56 | a successful conversion adds one download, of the first converted file, whose body is its result |
| HandlerProperties.ConvertThenPut | handler.py:117-118 | a successful conversion followed by its put adds one POST, one download and one put whose body is the downloaded one |
| HandlerProperties.InvocationFrame | handler.py:105-123 | a run depends on nothing that happened before it: it only appends its own calls |
| HandlerProperties.ReturnsOnlyOk | handler.py:123 | a run that returns returns status 200 |
| HandlerProperties.QuietUnlessJpeg | handler.py:110-112 | a run makes no call exactly when the key has no `.` or is not a JPEG key; then the store is unchanged. It raises `NoFormatSeparator` exactly when the key has no `.`; any other key that is not a JPEG key returns 200 |
| HandlerProperties.FetchComesFirst | handler.py:112-116 | for a JPEG key the first call fetches the triggering object and it is the only fetch; a missing object or a failed fetch ends the run with 200 and no other call |
| HandlerProperties.CallsOfConvertAndStore | handler.py:116-121 | after the fetch no further object is fetched |
| HandlerProperties.ConvertAndStorePngFailure | handler.py:117 | a failed PNG conversion writes nothing and posts only the PNG request |
| HandlerProperties.ConvertAndStoreGifFailure | handler.py:117-120 | a failed GIF conversion leaves exactly one put, to `<name>.png` in the PNG bucket, of the body the PNG conversion returned (the downloaded one), after the two posts in order |
| HandlerProperties.ConvertAndStoreSuccess | handler.py:116-123 | both conversions succeeding give two puts in order, PNG then GIF, each of the body its conversion returned (the one downloaded for it), two posts in order, and status 200 |
| HandlerProperties.PostsOfConvertAndStore | handler.py:117-120 | the requests posted after the fetch are the PNG request, then at most the GIF request |
| HandlerProperties.ConvertAndStorePutFaults | handler.py:45-49 | after the fetch, which puts raise changes neither the outcome nor the calls |
| HandlerProperties.ConvertAndStoreWrites | handler.py:118-121 | after the fetch only the two destination objects can change |
| HandlerProperties.OutcomeOfConversions | handler.py:114-123 | for a JPEG key whose fetch succeeds, the outcome is decided by the two conversions: the PNG fault if the PNG conversion fails, else the GIF fault if the GIF conversion fails, else status 200 |
| HandlerProperties.PngFailureWritesNothing | handler.py:117 | a run that raises on the PNG conversion has changed nothing, made no put, and posted only the PNG request |
| HandlerProperties.GifFailureKeepsPng | handler.py:117-120 | a run that raises on the GIF conversion has fetched the object and written, to `<name>.png` in the PNG bucket and nowhere else, the body the PNG conversion of the fetched text returned (the downloaded one) |
| HandlerProperties.SuccessWritesBoth | handler.py:113-123 | a run that fetched and returned has put the PNG to `<name>.png` in the PNG bucket and then the GIF to `<name>.gif` in the GIF bucket, each with the body its conversion of the fetched text returned (the one downloaded for it), and each put took effect unless it raised |
| HandlerProperties.PostsCarryTheObject | handler.py:114-120 | every posted request uploads, as `my_file.jpg` and with `StoreFile` set, text that decodes to exactly the triggering object's body |
| HandlerProperties.PostedRequestsUpload | handler.py:61-99 | each request of a prefix of the two posts uploads exactly the fetched text |
| HandlerProperties.QuietPosts | handler.py:110-116 | a run that does not get past the fetch posts nothing |
| HandlerProperties.PutFaultsAreContained | handler.py:45-49 | whichever puts raise, the run ends the same way and makes the same calls |
| HandlerProperties.OnlyDestinationsWritten | handler.py:118-121 | a run changes at most `<name>.png` in the PNG bucket and `<name>.gif` in the GIF bucket; every other object, the source included, is unchanged |
| HandlerProperties.SunsetGifIsIgnored | handler.py:110-123 | an upload of `photos/sunset.gif` makes no call, changes nothing, and returns 200 |
| HandlerProperties.KeyWithoutDotRaises | handler.py:16-18 | an upload of `photos/README` raises before any call |
| Handler.Lambda.GetImageBase64 | handler.py:29-42 | returns the fetched text of the specification, records one fetch, and leaves the store alone |
| Handler.Lambda.PutObject | handler.py:45-49 | the new store is the specified store after the put, and one put is recorded |
| Handler.Lambda.GetConvertedImageUrl | handler.py:52-56 | an empty file list is a fault with no call; otherwise one GET of the first URL, whose body, or failure, is the result |
| Handler.Lambda.RequestConversion | handler.py:78-80 | the result and the new trace are those of the specified conversion; the store is unchanged |
| Handler.Lambda.ConvertImageToPng | handler.py:83-102 | the specified conversion of the PNG request |
| Handler.Lambda.ConvertImageToGif | handler.py:59-80 | the specified conversion of the GIF request |
| Handler.Lambda.ConvertAndStoreImage | handler.py:116-121 | the outcome, the new store and the new trace are those of the specified part after the fetch |
| Handler.Lambda.Handle | handler.py:105-123 | the outcome, the new store and the new trace are those of `Invocation` |

## Left out

- The storage client (`s3.get_object`, `s3.put_object`) and the HTTP client are I/O. They are replaced by the `Services` value: the store is a map, and which calls raise and what the service replies are parameters. Each fault is a fixed function of the call's arguments, not a draw at call time.
- The URL of each conversion, with its `Secret` from the `API_KEY` environment variable, is not modelled. A missing `API_KEY` raises a `TypeError` before the POST. The model folds it into a failed POST, which is still recorded as a call.
- `json.dumps` of the request and `json.loads` of the reply are not modelled, and neither is the `Content-Type` header. A reply that does not parse or has no `Files` key raises, and so does a first `Files` entry without a `Url` (KeyError at handler.py:54). The model folds all of these into a failed POST (`post` returning None), because the reply, as the `Url` of every entry, cannot represent an entry without one. The reply is modelled as the list of its files' URLs.
- The `ResponseContentEncoding='base64'` argument of the fetch is not modelled. The body is taken as the stored bytes.
- Parsing the event (`event['Records'][0]['s3']`) is not modelled. `Handle` takes the bucket name and the key directly. A malformed event raises in the source before any call.
- URL-decoding of the key as delivered in S3 events is not modelled. The key is used as given, as the source does.
- `print` of swallowed exceptions is left out: it is logging, with no effect on the outcome.
- Concurrency between invocations is not modelled. One run sees the store alone.
- The returned dictionary `{'statusCode': 200}` is modelled as `Returned(200)`.
- The concrete run of `photos/sunset.jpg` through `Invocation` is not stated as a lemma of its own. It follows from three lemmas: `Keys.SunsetJpegKey` gives the key and its base name, `HandlerProperties.OutcomeOfConversions` gives the returned outcome when both conversions succeed, and `HandlerProperties.SuccessWritesBoth` gives the writes, with the bodies the two conversions returned.
