/** `POST /inference` (app.py, `inference`): validate the upload, copy it to a
    fresh temporary file, run the inference pipeline on that file, answer, and
    remove the file on every path out. */
module Handler {
  import opened Wrappers
  import opened Upload

  /** The binary mask the pipeline returns (rows of 0.0/1.0 values). */
  type Mask = seq<seq<real>>

  /** What `infer_image` does with the bytes of a raster: return a mask, or
      raise an exception whose text is given. */
  datatype PipelineResult = Returned(mask: Mask) | Raised(text: string)

  datatype Body = ErrorBody(error: string) | ArrayBody(array: Mask)

  datatype Response = Response(status: int, contentType: string, body: Body)

  /** The content type `jsonify` sets, and the one set by hand for the array. */
  const JsonType: string := "application/json"
  const OctetStream: string := "application/octet-stream"

  /** What the handler answers, given the pipeline as a function of the
      uploaded bytes. */
  function Respond(files: map<string, FilePart>, infer: seq<byte> -> PipelineResult): (r: Response)
    ensures r.status == 400 <==> Validate(files).Rejected?
    ensures r.status == 400 ==>
            r == Response(400, JsonType, ErrorBody(Validate(files).reason.Message()))
    ensures r.status == 200 <==>
            FileField in files && Validate(files).Accepted? && infer(files[FileField].data).Returned?
    ensures r.status == 200 ==>
            r == Response(200, OctetStream, ArrayBody(infer(files[FileField].data).mask))
    ensures r.status == 500 ==>
              FileField in files &&
              r == Response(500, JsonType, ErrorBody(infer(files[FileField].data).text))
    ensures r.status in {200, 400, 500}
  {
    match Validate(files)
    case Rejected(why) => Response(400, JsonType, ErrorBody(why.Message()))
    case Accepted(part) =>
      match infer(part.data)
      case Returned(m) => Response(200, OctetStream, ArrayBody(m))
      case Raised(text) => Response(500, JsonType, ErrorBody(text))
  }

  /** A request without a `file` part gets 400 "No file part". */
  lemma MissingPartResponse(files: map<string, FilePart>, infer: seq<byte> -> PipelineResult)
    requires FileField !in files
    ensures Respond(files, infer) == Response(400, JsonType, ErrorBody("No file part"))
  {
  }

  /** One step in the life of a temporary file. */
  datatype FileEvent = Created(path: nat) | Removed(path: nat)

  /** The temporary directory as the handler sees it: the files `tempfile`
      and `os` manage, named by number, and a ghost record of the creations
      and removals, for stating the cleanup discipline. */
  class FileSystem {
    var files: map<nat, seq<byte>>
    var nextName: nat
    ghost var events: seq<FileEvent>

    /** Every existing file has a name below `nextName`, so that name is fresh. */
    ghost predicate Valid()
      reads this
    {
      forall p :: p in files ==> p < nextName
    }

    constructor ()
      ensures Valid() && files == map[] && events == []
    {
      files := map[];
      nextName := 0;
      events := [];
    }

    /** Creating a temporary file that is not deleted on close (app.py:48):
        a new, empty file under a name no existing file has. */
    method CreateTemp() returns (path: nat)
      requires Valid()
      modifies this
      ensures Valid()
      ensures path !in old(files)
      ensures files == old(files)[path := []]
      ensures events == old(events) + [Created(path)]
    {
      path := nextName;
      files := files[path := []];
      nextName := nextName + 1;
      events := events + [Created(path)];
    }

    /** Saving the upload to the file (app.py:49): it now holds `data`. */
    method Save(path: nat, data: seq<byte>)
      requires Valid() && path in files
      modifies this
      ensures Valid()
      ensures files == old(files)[path := data]
      ensures events == old(events) && nextName == old(nextName)
    {
      files := files[path := data];
    }

    /** Removing the file (app.py:68). */
    method Remove(path: nat)
      requires Valid() && path in files
      modifies this
      ensures Valid()
      ensures files == old(files) - {path}
      ensures events == old(events) + [Removed(path)]
      ensures nextName == old(nextName)
    {
      files := files - {path};
      events := events + [Removed(path)];
    }
  }

  /** The handler. A rejected request leaves the file system alone; an
      accepted one creates one fresh file and removes it again before it
      returns, whether the pipeline returned or raised. */
  method Inference(fs: FileSystem, files: map<string, FilePart>, infer: seq<byte> -> PipelineResult)
    returns (resp: Response, ghost temp: Option<nat>)
    requires fs.Valid()
    modifies fs
    ensures fs.Valid()
    ensures resp == Respond(files, infer)
    ensures fs.files == old(fs.files)
    ensures temp.None? <==> Validate(files).Rejected?
    ensures temp.None? ==> fs.events == old(fs.events)
    ensures temp.Some? ==>
              temp.value !in old(fs.files) &&
              fs.events == old(fs.events) + [Created(temp.value), Removed(temp.value)]
  {
    var verdict := Validate(files);
    if verdict.Rejected? {
      return Response(400, JsonType, ErrorBody(verdict.reason.Message())), None;
    }
    var part := verdict.part;
    var path := fs.CreateTemp();
    fs.Save(path, part.data);
    temp := Some(path);
    // try
    var outcome := infer(fs.files[path]);
    assert outcome == infer(part.data);
    match outcome {
      case Returned(m) =>
        resp := Response(200, OctetStream, ArrayBody(m));
      case Raised(text) =>
        resp := Response(500, JsonType, ErrorBody(text));
    }
    assert resp == Respond(files, infer);
    // finally
    fs.Remove(path);
    assert fs.files == old(fs.files)[path := part.data] - {path};
    assert fs.files == old(fs.files);
  }
}
