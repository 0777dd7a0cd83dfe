/** The JSON requests the handler sends to the remote conversion service,
    as data. The two target formats use different request shapes: the PNG
    request carries the source under a single `File` parameter with one
    `FileValue`; the GIF request carries it under `Files` with a list of
    `FileValues` holding one element. Both also send `StoreFile: True`. */
module ConvertApi {
  import opened Wrappers

  datatype Target = Png | Gif

  /** `{'Name': name, 'Data': data}`: one uploaded file, its data being the
      base64 text of the source image. */
  datatype FileValue = FileValue(name: string, data: string)

  /** One entry of the request's `Parameters` list. */
  datatype Parameter =
    | FileParam(name: string, fileValue: FileValue)          // {'Name': name, 'FileValue': {...}}
    | FilesParam(name: string, fileValues: seq<FileValue>)   // {'Name': name, 'FileValues': [...]}
    | ValueParam(name: string, value: bool)                  // {'Name': name, 'Value': value}

  /** `{'Parameters': [...]}` */
  datatype Request = Request(parameters: seq<Parameter>)

  /** The name under which the source is uploaded, whatever its key. */
  const UploadName: string := "my_file.jpg"

  /** Every file value a request uploads, in order. */
  function UploadedFiles(params: seq<Parameter>): seq<FileValue>
    decreases |params|
  {
    if |params| == 0 then []
    else
      var here := match params[0]
        case FileParam(_, f) => [f]
        case FilesParam(_, fs) => fs
        case ValueParam(_, _) => [];
      here + UploadedFiles(params[1..])
  }

  /** The value of the first `Value` parameter called `name`, if any. */
  function Flag(params: seq<Parameter>, name: string): Option<bool>
    decreases |params|
  {
    if |params| == 0 then None
    else if params[0].ValueParam? && params[0].name == name then Some(params[0].value)
    else Flag(params[1..], name)
  }

  /** The request of `convert_image_to_png`. */
  function PngRequest(base64Input: string): Request {
    Request([FileParam("File", FileValue(UploadName, base64Input)), ValueParam("StoreFile", true)])
  }

  /** The request of `convert_image_to_gif`. */
  function GifRequest(base64Input: string): Request {
    Request([FilesParam("Files", [FileValue(UploadName, base64Input)]), ValueParam("StoreFile", true)])
  }

  /** The PNG request uploads exactly the given base64 text, once, under
      `UploadName`, sets `StoreFile`, and uses no `Files` list. */
  lemma PngRequestUploads(base64Input: string)
    ensures UploadedFiles(PngRequest(base64Input).parameters) == [FileValue(UploadName, base64Input)]
    ensures Flag(PngRequest(base64Input).parameters, "StoreFile") == Some(true)
    ensures forall p :: p in PngRequest(base64Input).parameters ==> !p.FilesParam?
  {
    var params := PngRequest(base64Input).parameters;
    assert UploadedFiles(params[1..]) == [] by { assert params[1..][1..] == []; }
  }

  /** The GIF request uploads exactly the given base64 text, once, under
      `UploadName`, sets `StoreFile`, and uses no single `File`. */
  lemma GifRequestUploads(base64Input: string)
    ensures UploadedFiles(GifRequest(base64Input).parameters) == [FileValue(UploadName, base64Input)]
    ensures Flag(GifRequest(base64Input).parameters, "StoreFile") == Some(true)
    ensures forall p :: p in GifRequest(base64Input).parameters ==> !p.FileParam?
  {
    var params := GifRequest(base64Input).parameters;
    assert UploadedFiles(params[1..]) == [] by { assert params[1..][1..] == []; }
  }

  /** The request built for a target format. */
  function BuildRequest(target: Target, base64Input: string): Request {
    match target
    case Png => PngRequest(base64Input)
    case Gif => GifRequest(base64Input)
  }

  /** Both requests upload exactly the given base64 text, once, under the
      same name, with `StoreFile` set; they differ only in shape, so the
      two targets never receive the same request. */
  lemma RequestsCarryTheSource(base64Input: string)
    ensures forall t :: UploadedFiles(BuildRequest(t, base64Input).parameters) == [FileValue(UploadName, base64Input)]
    ensures forall t :: Flag(BuildRequest(t, base64Input).parameters, "StoreFile") == Some(true)
    ensures BuildRequest(Png, base64Input) != BuildRequest(Gif, base64Input)
  {
    PngRequestUploads(base64Input);
    GifRequestUploads(base64Input);
    var png, gif := PngRequest(base64Input), GifRequest(base64Input);
    assert png.parameters[0].FileParam? && gif.parameters[0].FilesParam?;
  }

  /** Different sources give different requests: the source is recoverable
      from the request. */
  lemma BuildRequestInjective(target: Target, a: string, b: string)
    requires BuildRequest(target, a) == BuildRequest(target, b)
    ensures a == b
  {
    RequestsCarryTheSource(a);
    RequestsCarryTheSource(b);
    assert UploadedFiles(BuildRequest(target, a).parameters)[0].data == a;
    assert UploadedFiles(BuildRequest(target, b).parameters)[0].data == b;
  }
}
