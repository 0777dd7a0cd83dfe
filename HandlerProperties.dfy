/** What one run of the handler does, as consequences of `Invocation`:
    which calls it makes and in which order, what it writes and where, how
    each collaborator fault ends the run, and that the conversion service
    receives exactly the stored image. */
module HandlerProperties {
  import opened Wrappers
  import Sequences
  import Keys
  import Base64
  import opened ConvertApi
  import opened Handler

  // ---------------------------------------------------------------------
  // The calls of a trace, by kind
  // ---------------------------------------------------------------------

  /** The four kinds of call: `get_object`, the conversion POST, the GET of
      a converted file and `put_object`. */
  datatype Kind = Get | Post | Download | Put

  function KindOf(e: Effect): Kind {
    match e
    case StorageGet(_, _) => Get
    case ConversionPost(_, _) => Post
    case HttpGet(_) => Download
    case StoragePut(_, _, _) => Put
  }

  /** The calls of one kind in a trace, in order. */
  function Calls(trace: seq<Effect>, k: Kind): (calls: seq<Effect>)
    ensures |calls| <= |trace|
    ensures forall i :: 0 <= i < |calls| ==> KindOf(calls[i]) == k
    decreases |trace|
  {
    if |trace| == 0 then []
    else (if KindOf(trace[0]) == k then [trace[0]] else []) + Calls(trace[1..], k)
  }

  lemma {:induction false} CallsConcat(a: seq<Effect>, b: seq<Effect>, k: Kind)
    ensures Calls(a + b, k) == Calls(a, k) + Calls(b, k)
    decreases |a|
  {
    if |a| > 0 {
      Sequences.DropFirst(a, b);
      CallsConcat(a[1..], b, k);
      Sequences.Associative(if KindOf(a[0]) == k then [a[0]] else [], Calls(a[1..], k), Calls(b, k));
    } else {
      assert a + b == b;
    }
  }

  lemma CallsOfOne(e: Effect, k: Kind)
    ensures Calls([e], k) == if KindOf(e) == k then [e] else []
  {
    assert [e][1..] == [];
  }

  /** Appending one call. */
  lemma CallsSnoc(t: seq<Effect>, e: Effect, k: Kind)
    ensures Calls(t + [e], k) == Calls(t, k) + (if KindOf(e) == k then [e] else [])
  {
    CallsConcat(t, [e], k);
    CallsOfOne(e, k);
  }

  // ---------------------------------------------------------------------
  // One conversion
  // ---------------------------------------------------------------------

  /** A conversion only appends to the calls made before it. */
  lemma ConvertFrame(sv: Services, t: seq<Effect>, u: seq<Effect>, target: Target, request: Request)
    ensures Convert(sv, t + u, target, request)
         == Conversion(Convert(sv, u, target, request).result, t + Convert(sv, u, target, request).trace)
  {
    var post := ConversionPost(target, request);
    assert t + u + [post] == t + (u + [post]);
    if sv.post(target, request).Some? && |sv.post(target, request).value| > 0 {
      var get := HttpGet(sv.post(target, request).value[0]);
      assert t + u + [post] + [get] == t + (u + [post] + [get]);
    }
  }

  /** What a conversion returns does not depend on the calls made before
      it. */
  lemma ConvertResultFrame(sv: Services, t: seq<Effect>, target: Target, request: Request)
    ensures Convert(sv, t, target, request).result == Convert(sv, [], target, request).result
  {
    assert t + [] == t;
    ConvertFrame(sv, t, [], target, request);
  }

  /** A conversion adds one POST of its request and no call to the
      storage. */
  lemma CallsOfConvert(sv: Services, t: seq<Effect>, target: Target, request: Request)
    ensures Calls(Convert(sv, t, target, request).trace, Post) == Calls(t, Post) + [ConversionPost(target, request)]
    ensures Calls(Convert(sv, t, target, request).trace, Put) == Calls(t, Put)
    ensures Calls(Convert(sv, t, target, request).trace, Get) == Calls(t, Get)
  {
    CallsOfConvertOfKind(sv, t, target, request, Post);
    CallsOfConvertOfKind(sv, t, target, request, Put);
    CallsOfConvertOfKind(sv, t, target, request, Get);
  }

  /** The calls of one kind other than downloads that a conversion adds. */
  lemma CallsOfConvertOfKind(sv: Services, t: seq<Effect>, target: Target, request: Request, k: Kind)
    requires k != Download
    ensures Calls(Convert(sv, t, target, request).trace, k)
         == Calls(t, k) + (if k == Post then [ConversionPost(target, request)] else [])
  {
    var post := ConversionPost(target, request);
    CallsSnoc(t, post, k);
    if sv.post(target, request).Some? && |sv.post(target, request).value| > 0 {
      var get := HttpGet(sv.post(target, request).value[0]);
      CallsSnoc(t + [post], get, k);
      Sequences.EmptyRight(Calls(t + [post], k));
    }
  }

  /** A conversion adds at most one download; when it succeeds, it adds the
      download of the first converted file, whose body is the result. */
  lemma DownloadsOfConvert(sv: Services, t: seq<Effect>, target: Target, request: Request)
    ensures Calls(t, Download) <= Calls(Convert(sv, t, target, request).trace, Download)
    ensures Convert(sv, t, target, request).result.Ok? ==>
      && sv.post(target, request).Some? && |sv.post(target, request).value| > 0
      && Calls(Convert(sv, t, target, request).trace, Download)
         == Calls(t, Download) + [HttpGet(sv.post(target, request).value[0])]
      && sv.download(sv.post(target, request).value[0]) == Some(Convert(sv, t, target, request).result.value)
  {
    var post := ConversionPost(target, request);
    CallsSnoc(t, post, Download);
    Sequences.EmptyRight(Calls(t, Download));
    if sv.post(target, request).Some? && |sv.post(target, request).value| > 0 {
      CallsSnoc(t + [post], HttpGet(sv.post(target, request).value[0]), Download);
    }
  }

  /** The calls of a conversion: one POST of the request to the service for
      the target format, then, when the reply lists a converted file, one GET
      of the first file's URL. The result is the body of that GET, and the
      conversion fails exactly when one of those calls did. */
  lemma ConvertCalls(sv: Services, target: Target, request: Request)
    ensures var c := Convert(sv, [], target, request);
      && 1 <= |c.trace| <= 2
      && c.trace[0] == ConversionPost(target, request)
      && (|c.trace| == 2 <==> sv.post(target, request).Some? && |sv.post(target, request).value| > 0)
      && (|c.trace| == 2 ==> c.trace[1] == HttpGet(sv.post(target, request).value[0]))
      && (c.result.Ok? <==> |c.trace| == 2 && sv.download(c.trace[1].url).Some?)
      && (c.result.Ok? ==> sv.download(c.trace[1].url) == Some(c.result.value))
      && (c.result == Err(RequestFailed) <==> sv.post(target, request).None?)
      && (c.result == Err(NoConvertedFile) <==> sv.post(target, request) == Some([]))
  {
  }

  // ---------------------------------------------------------------------
  // History independence
  // ---------------------------------------------------------------------

  /** The part after the fetch only appends to the calls made before it. */
  lemma ConvertAndStoreFrame(sv: Services, store: Store, t: seq<Effect>, u: seq<Effect>, name: string, base64Image: string)
    ensures ConvertAndStore(sv, store, t + u, name, base64Image)
         == Run(ConvertAndStore(sv, store, u, name, base64Image).outcome,
                t + ConvertAndStore(sv, store, u, name, base64Image).trace,
                ConvertAndStore(sv, store, u, name, base64Image).store)
  {
    var png := Convert(sv, u, Png, PngRequest(base64Image));
    ConvertFrame(sv, t, u, Png, PngRequest(base64Image));
    if png.result.Ok? {
      var pngPut := StoragePut(PngBucketName, name + ".png", png.result.value);
      var gif := Convert(sv, png.trace + [pngPut], Gif, GifRequest(base64Image));
      assert t + png.trace + [pngPut] == t + (png.trace + [pngPut]);
      ConvertFrame(sv, t, png.trace + [pngPut], Gif, GifRequest(base64Image));
      if gif.result.Ok? {
        var gifPut := StoragePut(GifBucketName, name + ".gif", gif.result.value);
        assert t + gif.trace + [gifPut] == t + (gif.trace + [gifPut]);
      }
    }
  }

  /** What the handler does does not depend on the calls made before it:
      it only appends its own calls to them. */
  lemma InvocationFrame(sv: Services, store: Store, t: seq<Effect>, bucket: string, key: string)
    ensures Invocation(sv, store, t, bucket, key)
         == Run(Invocation(sv, store, [], bucket, key).outcome,
                t + Invocation(sv, store, [], bucket, key).trace,
                Invocation(sv, store, [], bucket, key).store)
  {
    if '.' in key && Keys.IsJpg(key) {
      var get := StorageGet(bucket, key);
      assert [] + [get] == [get];
      var fetched := Fetched(sv, store, bucket, key);
      if fetched.Some? {
        ConvertAndStoreFrame(sv, store, t, [get], Keys.GetFileName(key), fetched.value);
      }
    }
  }

  // ---------------------------------------------------------------------
  // Each way a run can end
  // ---------------------------------------------------------------------

  /** The handler only ever returns status 200. */
  lemma ReturnsOnlyOk(sv: Services, store: Store, t: seq<Effect>, bucket: string, key: string)
    ensures Invocation(sv, store, t, bucket, key).outcome.Returned? ==>
      Invocation(sv, store, t, bucket, key).outcome.statusCode == StatusOk
  {
  }

  /** The handler calls nothing, and so changes nothing, exactly when the
      key is not a JPEG key; a key without `.` raises, and any other key
      that is not a JPEG key returns 200. */
  lemma QuietUnlessJpeg(sv: Services, store: Store, bucket: string, key: string)
    ensures Invocation(sv, store, [], bucket, key).trace == [] <==> '.' !in key || !Keys.IsJpg(key)
    ensures '.' !in key || !Keys.IsJpg(key) ==> Invocation(sv, store, [], bucket, key).store == store
    ensures Invocation(sv, store, [], bucket, key).outcome == Raised(NoFormatSeparator) <==> '.' !in key
    ensures '.' in key && !Keys.IsJpg(key) ==> Invocation(sv, store, [], bucket, key) == Run(Returned(StatusOk), [], store)
  {
    if '.' in key && Keys.IsJpg(key) {
      FetchComesFirst(sv, store, bucket, key);
    }
  }

  /** For a JPEG key the first call fetches the object that triggered the
      event; when the fetch fails (the object is missing or the storage
      raises) the run ends there, quietly. */
  lemma FetchComesFirst(sv: Services, store: Store, bucket: string, key: string)
    requires '.' in key && Keys.IsJpg(key)
    ensures |Invocation(sv, store, [], bucket, key).trace| >= 1
    ensures Invocation(sv, store, [], bucket, key).trace[0] == StorageGet(bucket, key)
    ensures Calls(Invocation(sv, store, [], bucket, key).trace, Get) == [StorageGet(bucket, key)]
    ensures (bucket, key) !in store || sv.getFails(bucket, key) ==>
      Invocation(sv, store, [], bucket, key) == Run(Returned(StatusOk), [StorageGet(bucket, key)], store)
  {
    var get := StorageGet(bucket, key);
    assert [] + [get] == [get];
    CallsOfOne(get, Get);
    var fetched := Fetched(sv, store, bucket, key);
    if fetched.Some? {
      var name := Keys.GetFileName(key);
      ConvertAndStoreExtends(sv, store, [get], name, fetched.value);
      CallsOfConvertAndStore(sv, store, [get], name, fetched.value);
    }
  }

  /** The part after the fetch keeps the calls made before it. */
  lemma ConvertAndStoreExtends(sv: Services, store: Store, t: seq<Effect>, name: string, base64Image: string)
    ensures t <= ConvertAndStore(sv, store, t, name, base64Image).trace
  {
    ConvertAndStoreFrame(sv, store, t, [], name, base64Image);
    assert t + [] == t;
  }

  /** The part after the fetch makes no further `get_object` call. */
  lemma CallsOfConvertAndStore(sv: Services, store: Store, t: seq<Effect>, name: string, base64Image: string)
    ensures Calls(ConvertAndStore(sv, store, t, name, base64Image).trace, Get) == Calls(t, Get)
  {
    var png := Convert(sv, t, Png, PngRequest(base64Image));
    CallsOfConvert(sv, t, Png, PngRequest(base64Image));
    if png.result.Ok? {
      var pngPut := StoragePut(PngBucketName, name + ".png", png.result.value);
      CallsSnoc(png.trace, pngPut, Get);
      var gif := Convert(sv, png.trace + [pngPut], Gif, GifRequest(base64Image));
      CallsOfConvert(sv, png.trace + [pngPut], Gif, GifRequest(base64Image));
      if gif.result.Ok? {
        CallsSnoc(gif.trace, StoragePut(GifBucketName, name + ".gif", gif.result.value), Get);
      }
    }
  }

  // ---------------------------------------------------------------------
  // After the fetch: conversions and writes
  // ---------------------------------------------------------------------

  /** The PNG conversion fails: nothing is written and the GIF conversion
      is never requested. */
  lemma ConvertAndStorePngFailure(sv: Services, store: Store, t: seq<Effect>, name: string, base64Image: string, cause: ConvertFault)
    requires Calls(t, Put) == [] && Calls(t, Post) == []
    requires ConvertAndStore(sv, store, t, name, base64Image).outcome == Raised(ConversionFailed(Png, cause))
    ensures var r := ConvertAndStore(sv, store, t, name, base64Image);
      && r.store == store
      && Calls(r.trace, Put) == []
      && Calls(r.trace, Post) == [ConversionPost(Png, PngRequest(base64Image))]
  {
    CallsOfConvert(sv, t, Png, PngRequest(base64Image));
  }

  /** A successful conversion followed by the write of its result: one POST,
      one download whose body is the one written, and that one write. */
  lemma ConvertThenPut(sv: Services, t: seq<Effect>, target: Target, request: Request, bucket: string, key: string)
    requires Convert(sv, t, target, request).result.Ok?
    ensures var c := Convert(sv, t, target, request);
      var u := c.trace + [StoragePut(bucket, key, c.result.value)];
      && Calls(u, Put) == Calls(t, Put) + [StoragePut(bucket, key, c.result.value)]
      && Calls(u, Post) == Calls(t, Post) + [ConversionPost(target, request)]
      && |Calls(u, Download)| == |Calls(t, Download)| + 1
      && Calls(u, Download)[..|Calls(t, Download)|] == Calls(t, Download)
      && sv.download(Calls(u, Download)[|Calls(t, Download)|].url) == Some(c.result.value)
  {
    var c := Convert(sv, t, target, request);
    CallsOfConvert(sv, t, target, request);
    DownloadsOfConvert(sv, t, target, request);
    var put := StoragePut(bucket, key, c.result.value);
    CallsSnoc(c.trace, put, Put);
    CallsSnoc(c.trace, put, Post);
    CallsSnoc(c.trace, put, Download);
  }

  /** The GIF conversion fails: the PNG, and only it, has been written, with
      the body the PNG conversion returned, which is the body downloaded for
      it. */
  lemma ConvertAndStoreGifFailure(sv: Services, store: Store, t: seq<Effect>, name: string, base64Image: string, cause: ConvertFault)
    requires Calls(t, Put) == [] && Calls(t, Post) == [] && Calls(t, Download) == []
    requires ConvertAndStore(sv, store, t, name, base64Image).outcome == Raised(ConversionFailed(Gif, cause))
    ensures var r := ConvertAndStore(sv, store, t, name, base64Image);
      var puts := Calls(r.trace, Put);
      var downloads := Calls(r.trace, Download);
      && |puts| == 1 && puts[0].bucket == PngBucketName && puts[0].key == name + ".png"
      && Convert(sv, [], Png, PngRequest(base64Image)).result == Ok(puts[0].body)
      && |downloads| >= 1 && sv.download(downloads[0].url) == Some(puts[0].body)
      && Calls(r.trace, Post) == [ConversionPost(Png, PngRequest(base64Image)), ConversionPost(Gif, GifRequest(base64Image))]
      && r.store == AfterPut(sv, store, PngBucketName, name + ".png", puts[0].body)
  {
    var png := Convert(sv, t, Png, PngRequest(base64Image));
    var pngPut := StoragePut(PngBucketName, name + ".png", png.result.value);
    var u := png.trace + [pngPut];
    ConvertThenPut(sv, t, Png, PngRequest(base64Image), PngBucketName, name + ".png");
    assert Calls(u, Put) == [pngPut] by { assert [] + [pngPut] == [pngPut]; }
    assert Calls(u, Post) == [ConversionPost(Png, PngRequest(base64Image))];
    var gif := Convert(sv, u, Gif, GifRequest(base64Image));
    CallsOfConvert(sv, u, Gif, GifRequest(base64Image));
    DownloadsOfConvert(sv, u, Gif, GifRequest(base64Image));
    var r := ConvertAndStore(sv, store, t, name, base64Image);
    assert r.trace == gif.trace;
    assert r.store == AfterPut(sv, store, PngBucketName, name + ".png", png.result.value);
    assert Calls(u, Download)[0] == Calls(gif.trace, Download)[0];
    ConvertResultFrame(sv, t, Png, PngRequest(base64Image));
  }

  /** Both conversions succeed: the PNG is written to the PNG bucket, then
      the GIF to the GIF bucket, both under the base name, each with the
      body its conversion returned, which is the body downloaded for it. */
  lemma ConvertAndStoreSuccess(sv: Services, store: Store, t: seq<Effect>, name: string, base64Image: string)
    requires Calls(t, Put) == [] && Calls(t, Post) == [] && Calls(t, Download) == []
    requires ConvertAndStore(sv, store, t, name, base64Image).outcome.Returned?
    ensures var r := ConvertAndStore(sv, store, t, name, base64Image);
      var puts := Calls(r.trace, Put);
      var downloads := Calls(r.trace, Download);
      && r.outcome == Returned(StatusOk)
      && |puts| == 2
      && puts[0].bucket == PngBucketName && puts[0].key == name + ".png"
      && puts[1].bucket == GifBucketName && puts[1].key == name + ".gif"
      && Convert(sv, [], Png, PngRequest(base64Image)).result == Ok(puts[0].body)
      && Convert(sv, [], Gif, GifRequest(base64Image)).result == Ok(puts[1].body)
      && |downloads| == 2
      && sv.download(downloads[0].url) == Some(puts[0].body)
      && sv.download(downloads[1].url) == Some(puts[1].body)
      && Calls(r.trace, Post) == [ConversionPost(Png, PngRequest(base64Image)), ConversionPost(Gif, GifRequest(base64Image))]
      && r.store == AfterPut(sv, AfterPut(sv, store, PngBucketName, name + ".png", puts[0].body),
                             GifBucketName, name + ".gif", puts[1].body)
  {
    var png := Convert(sv, t, Png, PngRequest(base64Image));
    ConvertThenPut(sv, t, Png, PngRequest(base64Image), PngBucketName, name + ".png");
    var u := png.trace + [StoragePut(PngBucketName, name + ".png", png.result.value)];
    ConvertThenPut(sv, u, Gif, GifRequest(base64Image), GifBucketName, name + ".gif");
    ConvertResultFrame(sv, t, Png, PngRequest(base64Image));
    ConvertResultFrame(sv, u, Gif, GifRequest(base64Image));
  }

  /** The requests posted after the fetch: the PNG request, then, unless
      the PNG conversion failed, the GIF request, both carrying the fetched
      text. */
  lemma PostsOfConvertAndStore(sv: Services, store: Store, t: seq<Effect>, name: string, base64Image: string)
    requires Calls(t, Post) == []
    ensures var posts := Calls(ConvertAndStore(sv, store, t, name, base64Image).trace, Post);
      && 1 <= |posts|
      && posts <= [ConversionPost(Png, PngRequest(base64Image)), ConversionPost(Gif, GifRequest(base64Image))]
  {
    var pngPost, gifPost := ConversionPost(Png, PngRequest(base64Image)), ConversionPost(Gif, GifRequest(base64Image));
    var both := [pngPost, gifPost];
    var posts := Calls(ConvertAndStore(sv, store, t, name, base64Image).trace, Post);
    var png := Convert(sv, t, Png, PngRequest(base64Image));
    CallsOfConvert(sv, t, Png, PngRequest(base64Image));
    if png.result.Err? {
      assert posts == [] + [pngPost];
      PrefixOfTwo(posts, both);
    } else {
      var u := png.trace + [StoragePut(PngBucketName, name + ".png", png.result.value)];
      CallsSnoc(png.trace, u[|u| - 1], Post);
      Sequences.EmptyRight([] + [pngPost]);
      var gif := Convert(sv, u, Gif, GifRequest(base64Image));
      CallsOfConvert(sv, u, Gif, GifRequest(base64Image));
      if gif.result.Err? {
        assert posts == [] + [pngPost] + [gifPost];
      } else {
        CallsSnoc(gif.trace, StoragePut(GifBucketName, name + ".gif", gif.result.value), Post);
        Sequences.EmptyRight([] + [pngPost] + [gifPost]);
        assert posts == [] + [pngPost] + [gifPost];
      }
      PrefixOfTwo(posts, both);
    }
  }

  /** The non-empty prefixes of a two-element sequence. */
  lemma PrefixOfTwo<T>(posts: seq<T>, both: seq<T>)
    requires |both| == 2
    requires posts == [] + [both[0]] || posts == [] + [both[0]] + [both[1]]
    ensures 1 <= |posts| && posts <= both
  {
  }

  /** Faults of `put_object` are swallowed: they change neither the outcome
      nor the calls of the part after the fetch. */
  lemma ConvertAndStorePutFaults(sv: Services, f: (string, string) -> bool, store: Store, t: seq<Effect>, name: string, base64Image: string)
    ensures ConvertAndStore(sv.(putFails := f), store, t, name, base64Image).outcome
         == ConvertAndStore(sv, store, t, name, base64Image).outcome
    ensures ConvertAndStore(sv.(putFails := f), store, t, name, base64Image).trace
         == ConvertAndStore(sv, store, t, name, base64Image).trace
  {
    var sv' := sv.(putFails := f);
    assert Convert(sv', t, Png, PngRequest(base64Image)) == Convert(sv, t, Png, PngRequest(base64Image));
    var png := Convert(sv, t, Png, PngRequest(base64Image));
    if png.result.Ok? {
      var u := png.trace + [StoragePut(PngBucketName, name + ".png", png.result.value)];
      assert Convert(sv', u, Gif, GifRequest(base64Image)) == Convert(sv, u, Gif, GifRequest(base64Image));
    }
  }

  /** The part after the fetch writes only the two destination objects. */
  lemma ConvertAndStoreWrites(sv: Services, store: Store, t: seq<Effect>, name: string, base64Image: string)
    ensures var s := ConvertAndStore(sv, store, t, name, base64Image).store;
      && s.Keys <= store.Keys + {(PngBucketName, name + ".png"), (GifBucketName, name + ".gif")}
      && forall bk :: bk in store && bk != (PngBucketName, name + ".png") && bk != (GifBucketName, name + ".gif") ==>
           bk in s && s[bk] == store[bk]
  {
  }

  // ---------------------------------------------------------------------
  // The whole run
  // ---------------------------------------------------------------------

  /** For a JPEG key whose object was fetched, the run is the part after
      the fetch, with the base name of the key, after the one fetch. */
  lemma InvocationAfterFetch(sv: Services, store: Store, bucket: string, key: string)
    requires '.' in key && Keys.IsJpg(key) && Fetched(sv, store, bucket, key).Some?
    ensures Invocation(sv, store, [], bucket, key)
         == ConvertAndStore(sv, store, [StorageGet(bucket, key)], Keys.GetFileName(key), Fetched(sv, store, bucket, key).value)
    ensures Calls([StorageGet(bucket, key)], Put) == []
    ensures Calls([StorageGet(bucket, key)], Post) == []
    ensures Calls([StorageGet(bucket, key)], Download) == []
  {
    var get := StorageGet(bucket, key);
    assert [] + [get] == [get];
    CallsOfOne(get, Put);
    CallsOfOne(get, Post);
    CallsOfOne(get, Download);
  }

  /** How a run that fetched the object ends is decided by the two
      conversions alone: a failed PNG conversion raises its fault, then a
      failed GIF conversion raises its fault, and otherwise the run returns
      200. */
  lemma OutcomeOfConversions(sv: Services, store: Store, bucket: string, key: string)
    requires '.' in key && Keys.IsJpg(key) && Fetched(sv, store, bucket, key).Some?
    ensures var b := Fetched(sv, store, bucket, key).value;
      var png := Convert(sv, [], Png, PngRequest(b));
      var gif := Convert(sv, [], Gif, GifRequest(b));
      Invocation(sv, store, [], bucket, key).outcome
        == if png.result.Err? then Raised(ConversionFailed(Png, png.result.error))
           else if gif.result.Err? then Raised(ConversionFailed(Gif, gif.result.error))
           else Returned(StatusOk)
  {
    var b := Fetched(sv, store, bucket, key).value;
    var get := StorageGet(bucket, key);
    InvocationAfterFetch(sv, store, bucket, key);
    assert [get] + [] == [get];
    ConvertFrame(sv, [get], [], Png, PngRequest(b));
    var png := Convert(sv, [get], Png, PngRequest(b));
    if png.result.Ok? {
      var u := png.trace + [StoragePut(PngBucketName, Keys.GetFileName(key) + ".png", png.result.value)];
      assert u + [] == u;
      ConvertFrame(sv, u, [], Gif, GifRequest(b));
    }
  }

  /** A run that raises on the PNG conversion has written nothing and has
      not asked for the GIF. */
  lemma PngFailureWritesNothing(sv: Services, store: Store, bucket: string, key: string, cause: ConvertFault)
    requires Invocation(sv, store, [], bucket, key).outcome == Raised(ConversionFailed(Png, cause))
    ensures var r := Invocation(sv, store, [], bucket, key);
      && r.store == store
      && Calls(r.trace, Put) == []
      && |Calls(r.trace, Post)| == 1 && Calls(r.trace, Post)[0].target == Png
  {
    assert '.' in key && Keys.IsJpg(key) && Fetched(sv, store, bucket, key).Some?;
    InvocationAfterFetch(sv, store, bucket, key);
    ConvertAndStorePngFailure(sv, store, [StorageGet(bucket, key)], Keys.GetFileName(key),
                              Fetched(sv, store, bucket, key).value, cause);
  }

  /** A run that raises on the GIF conversion has fetched the object and
      written the PNG, and only it, to the PNG bucket under the base name,
      with the body the PNG conversion of the fetched text returned, which
      is the body downloaded for it. */
  lemma GifFailureKeepsPng(sv: Services, store: Store, bucket: string, key: string, cause: ConvertFault)
    requires Invocation(sv, store, [], bucket, key).outcome == Raised(ConversionFailed(Gif, cause))
    ensures var r := Invocation(sv, store, [], bucket, key);
      var puts := Calls(r.trace, Put);
      var downloads := Calls(r.trace, Download);
      && |puts| == 1
      && puts[0].bucket == PngBucketName && puts[0].key == Keys.GetFileName(key) + ".png"
      && Fetched(sv, store, bucket, key).Some?
      && Convert(sv, [], Png, PngRequest(Fetched(sv, store, bucket, key).value)).result == Ok(puts[0].body)
      && |downloads| >= 1 && sv.download(downloads[0].url) == Some(puts[0].body)
      && r.store == AfterPut(sv, store, PngBucketName, Keys.GetFileName(key) + ".png", puts[0].body)
  {
    assert '.' in key && Keys.IsJpg(key) && Fetched(sv, store, bucket, key).Some?;
    InvocationAfterFetch(sv, store, bucket, key);
    ConvertAndStoreGifFailure(sv, store, [StorageGet(bucket, key)], Keys.GetFileName(key),
                              Fetched(sv, store, bucket, key).value, cause);
  }

  /** A run that fetched the object and returned has written the PNG to the
      PNG bucket and then the GIF to the GIF bucket, both under the base
      name of the key, each with the body its conversion of the fetched text
      returned, which is the body downloaded for it. */
  lemma SuccessWritesBoth(sv: Services, store: Store, bucket: string, key: string)
    requires '.' in key && Keys.IsJpg(key) && Fetched(sv, store, bucket, key).Some?
    requires Invocation(sv, store, [], bucket, key).outcome.Returned?
    ensures var r := Invocation(sv, store, [], bucket, key);
      var name := Keys.GetFileName(key);
      var b := Fetched(sv, store, bucket, key).value;
      var puts := Calls(r.trace, Put);
      var downloads := Calls(r.trace, Download);
      && |puts| == 2
      && puts[0].bucket == PngBucketName && puts[0].key == name + ".png"
      && puts[1].bucket == GifBucketName && puts[1].key == name + ".gif"
      && Convert(sv, [], Png, PngRequest(b)).result == Ok(puts[0].body)
      && Convert(sv, [], Gif, GifRequest(b)).result == Ok(puts[1].body)
      && |downloads| == 2
      && sv.download(downloads[0].url) == Some(puts[0].body)
      && sv.download(downloads[1].url) == Some(puts[1].body)
      && r.store == AfterPut(sv, AfterPut(sv, store, PngBucketName, name + ".png", puts[0].body),
                             GifBucketName, name + ".gif", puts[1].body)
  {
    InvocationAfterFetch(sv, store, bucket, key);
    ConvertAndStoreSuccess(sv, store, [StorageGet(bucket, key)], Keys.GetFileName(key),
                           Fetched(sv, store, bucket, key).value);
  }

  /** Every request the run posts uploads, under `UploadName` and with
      `StoreFile` set, base64 text that decodes to exactly the body of the
      object that triggered the event. */
  lemma PostsCarryTheObject(sv: Services, store: Store, bucket: string, key: string)
    ensures forall e :: e in Calls(Invocation(sv, store, [], bucket, key).trace, Post) ==>
      && (bucket, key) in store
      && |UploadedFiles(e.request.parameters)| == 1
      && UploadedFiles(e.request.parameters)[0].name == UploadName
      && Base64.Decode(UploadedFiles(e.request.parameters)[0].data) == Some(store[(bucket, key)])
      && Flag(e.request.parameters, "StoreFile") == Some(true)
  {
    var r := Invocation(sv, store, [], bucket, key);
    if '.' in key && Keys.IsJpg(key) && Fetched(sv, store, bucket, key).Some? {
      var b := Fetched(sv, store, bucket, key).value;
      InvocationAfterFetch(sv, store, bucket, key);
      PostsOfConvertAndStore(sv, store, [StorageGet(bucket, key)], Keys.GetFileName(key), b);
      FetchedDecodes(sv, store, bucket, key);
      PostedRequestsUpload(Calls(r.trace, Post), b);
    } else {
      QuietPosts(sv, store, bucket, key);
    }
  }

  /** Each of the two requests, hence each request of a prefix of them,
      uploads exactly the given text. */
  lemma PostedRequestsUpload(posts: seq<Effect>, base64Image: string)
    requires posts <= [ConversionPost(Png, PngRequest(base64Image)), ConversionPost(Gif, GifRequest(base64Image))]
    ensures forall e :: e in posts ==>
      && e.ConversionPost?
      && UploadedFiles(e.request.parameters) == [FileValue(UploadName, base64Image)]
      && Flag(e.request.parameters, "StoreFile") == Some(true)
  {
    PngRequestUploads(base64Image);
    GifRequestUploads(base64Image);
    var requests := [ConversionPost(Png, PngRequest(base64Image)), ConversionPost(Gif, GifRequest(base64Image))];
    forall e | e in posts
      ensures e == requests[0] || e == requests[1]
    {
      var i :| 0 <= i < |posts| && posts[i] == e;
      assert posts[i] == requests[i];
    }
  }

  /** A run that does not get past the fetch posts nothing. */
  lemma QuietPosts(sv: Services, store: Store, bucket: string, key: string)
    requires !('.' in key && Keys.IsJpg(key) && Fetched(sv, store, bucket, key).Some?)
    ensures Calls(Invocation(sv, store, [], bucket, key).trace, Post) == []
  {
    var get := StorageGet(bucket, key);
    assert [] + [get] == [get];
    CallsOfOne(get, Post);
  }

  /** Faults of `put_object` are swallowed: whichever writes fail, the run
      ends the same way and makes the same calls. */
  lemma PutFaultsAreContained(sv: Services, f: (string, string) -> bool, store: Store, t: seq<Effect>, bucket: string, key: string)
    ensures Invocation(sv.(putFails := f), store, t, bucket, key).outcome == Invocation(sv, store, t, bucket, key).outcome
    ensures Invocation(sv.(putFails := f), store, t, bucket, key).trace == Invocation(sv, store, t, bucket, key).trace
  {
    assert Fetched(sv.(putFails := f), store, bucket, key) == Fetched(sv, store, bucket, key);
    if '.' in key && Keys.IsJpg(key) && Fetched(sv, store, bucket, key).Some? {
      ConvertAndStorePutFaults(sv, f, store, t + [StorageGet(bucket, key)], Keys.GetFileName(key),
                               Fetched(sv, store, bucket, key).value);
    }
  }

  /** The run writes at most the two destination objects of the key's base
      name; every other object, the source object included, is left as it
      was. */
  lemma OnlyDestinationsWritten(sv: Services, store: Store, t: seq<Effect>, bucket: string, key: string)
    ensures var s := Invocation(sv, store, t, bucket, key).store;
      var name := Keys.GetFileName(key);
      && s.Keys <= store.Keys + {(PngBucketName, name + ".png"), (GifBucketName, name + ".gif")}
      && (forall bk :: bk in store && bk != (PngBucketName, name + ".png") && bk != (GifBucketName, name + ".gif") ==>
           bk in s && s[bk] == store[bk])
      && ((bucket, key) in store ==> (bucket, key) in s && s[(bucket, key)] == store[(bucket, key)])
  {
    if '.' in key && Keys.IsJpg(key) && Fetched(sv, store, bucket, key).Some? {
      Keys.KeyIsNoDestination(key);
      ConvertAndStoreWrites(sv, store, t + [StorageGet(bucket, key)], Keys.GetFileName(key),
                            Fetched(sv, store, bucket, key).value);
    }
  }

  // ---------------------------------------------------------------------
  // Concrete events
  // ---------------------------------------------------------------------

  /** An upload of `photos/sunset.gif` is ignored: no call, no change. */
  lemma SunsetGifIsIgnored(sv: Services, store: Store, bucket: string)
    ensures Invocation(sv, store, [], bucket, "photos/sunset.gif") == Run(Returned(StatusOk), [], store)
  {
    Keys.IsJpgRejectsGif();
  }

  /** An upload whose key holds no `.` makes the handler raise, before any
      call. */
  lemma KeyWithoutDotRaises(sv: Services, store: Store, bucket: string)
    ensures Invocation(sv, store, [], bucket, "photos/README") == Run(Raised(NoFormatSeparator), [], store)
  {
    assert "photos/README"[6] == '/';
  }
}
