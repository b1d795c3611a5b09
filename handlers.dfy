/** The two upload handlers: `form_upload` (multipart) and `put_file` (raw
    body), writing into the uploads directory and answering with the URL. */
module Handlers {
  import opened Wrappers
  import opened Naming
  import opened Store
  import Utf8
  import Routes

  /** The response a handler answers with when it does not fail. */
  datatype Response = Response(status: nat, body: string)

  const OK: nat := 200
  const BAD_REQUEST: nat := 400
  const NO_ATTACHMENT := "At least one attachment is required"
  const TEXT_FIELD := "text"
  const FILE_FIELD := "file"
  const PASTE_FILENAME := "paste.txt"
  const DEFAULT_FILENAME := "file.bin"

  /** One item of a stream: a value, or the error the stream yields instead. */
  datatype Item<+T> = Item(value: T) | StreamError(cause: string)

  type Chunk = seq<Utf8.byte>

  /** A multipart field: its name, the filename of its content disposition,
      and its body as a stream of chunks. */
  datatype Field = Field(name: string, filename: Option<string>, chunks: seq<Item<Chunk>>)

  /** A "file" field without a filename, or with an empty one, carries no
      attachment and is passed over. */
  predicate IsSkipped(f: Field) {
    f.name == FILE_FIELD && f.filename.GetOr("") == ""
  }

  /** The filename an upload is stored and announced under. */
  function UploadFilename(f: Field): string {
    if f.name == TEXT_FIELD then PASTE_FILENAME else f.filename.GetOr(DEFAULT_FILENAME)
  }

  /** Which field of a multipart payload `form_upload` acts on. */
  datatype Pick = Picked(index: nat) | Broken(index: nat, cause: string) | NothingToUpload

  /** The first item at or after `from` that is a stream error or a field
      that is not skipped. */
  function FirstUpload(payload: seq<Item<Field>>, from: nat): (p: Pick)
    requires from <= |payload|
    ensures p.Picked? ==> from <= p.index < |payload| && payload[p.index].Item?
                          && !IsSkipped(payload[p.index].value)
    ensures p.Broken? ==> from <= p.index < |payload| && payload[p.index] == StreamError(p.cause)
    ensures var stop := if p.NothingToUpload? then |payload| else p.index;
      forall j :: from <= j < stop ==> payload[j].Item? && IsSkipped(payload[j].value)
    decreases |payload| - from
  {
    if from == |payload| then NothingToUpload
    else match payload[from]
      case StreamError(cause) => Broken(from, cause)
      case Item(f) => if IsSkipped(f) then FirstUpload(payload, from + 1) else Picked(from)
  }

  /** The bytes a chunk stream delivers before it ends or fails. */
  function Received(chunks: seq<Item<Chunk>>): Chunk {
    if chunks == [] then []
    else match chunks[0]
      case Item(c) => c + Received(chunks[1..])
      case StreamError(_) => []
  }

  /** The error that ends a chunk stream, if one does. */
  function StreamFailure(chunks: seq<Item<Chunk>>): Option<string> {
    if chunks == [] then None
    else match chunks[0]
      case Item(_) => StreamFailure(chunks[1..])
      case StreamError(cause) => Some(cause)
  }

  /** The plain concatenation of a list of chunks. */
  function Concat(cs: seq<Chunk>): Chunk {
    if cs == [] then [] else cs[0] + Concat(cs[1..])
  }

  /** A stream without errors delivers all its chunks, in order. */
  lemma {:induction false} ReceivedWithoutFailure(chunks: seq<Item<Chunk>>)
    requires forall t :: 0 <= t < |chunks| ==> chunks[t].Item?
    ensures StreamFailure(chunks) == None
    ensures Received(chunks) == Concat(seq(|chunks|, t requires 0 <= t < |chunks| => chunks[t].value))
  {
    if chunks != [] {
      ReceivedWithoutFailure(chunks[1..]);
      var all := seq(|chunks|, t requires 0 <= t < |chunks| => chunks[t].value);
      var rest := seq(|chunks| - 1, t requires 0 <= t < |chunks| - 1 => chunks[1..][t].value);
      assert all[1..] == rest;
    }
  }

  /** Reading one more chunk: an item extends what was received, an error
      ends the stream with what was received so far. */
  lemma {:induction false} ReceivedStep(chunks: seq<Item<Chunk>>, j: nat)
    requires j < |chunks|
    requires forall t :: 0 <= t < j ==> chunks[t].Item?
    ensures chunks[j].Item? ==> Received(chunks[..j + 1]) == Received(chunks[..j]) + chunks[j].value
    ensures chunks[j].StreamError? ==> Received(chunks) == Received(chunks[..j])
                                       && StreamFailure(chunks) == Some(chunks[j].cause)
  {
    if j > 0 {
      ReceivedStep(chunks[1..], j - 1);
      assert chunks[..j + 1][1..] == chunks[1..][..j];
      assert chunks[..j][1..] == chunks[1..][..j - 1];
    } else {
      assert chunks[..1] == [chunks[0]];
      assert chunks[..1][1..] == [];
    }
  }

  /** The answer once the file is written: the URL, or why it could not be
      built. */
  function UrlResponse(url: Result<string, HttpError>): Result<Response, HttpError> {
    match url
    case Success(u) => Success(Response(OK, u))
    case Failure(e) => Failure(e)
  }

  /** Writes the chunks of a stream into the freshly created file `name`
      until the stream ends or fails. */
  method WriteChunks(dir: UploadDir, name: string, chunks: seq<Item<Chunk>>, now: int)
    returns (failure: Option<string>)
    requires dir.Valid() && IsEntryName(name)
    modifies dir
    ensures dir.Valid()
    ensures failure == StreamFailure(chunks)
    ensures dir.entries == old(dir.entries)[name := Entry(Received(chunks), now)]
  {
    dir.Create(name, now);
    var j := 0;
    while j < |chunks|
      invariant j <= |chunks|
      invariant forall t :: 0 <= t < j ==> chunks[t].Item?
      invariant dir.Valid()
      invariant dir.entries == old(dir.entries)[name := Entry(Received(chunks[..j]), now)]
    {
      match chunks[j]
      case StreamError(cause) =>
        ReceivedStep(chunks, j);
        return Some(cause);
      case Item(c) =>
        ghost var before := dir.entries;
        dir.Write(name, c, now);
        assert dir.entries == old(dir.entries)[name := Entry(Received(chunks[..j + 1]), now)] by {
          ReceivedStep(chunks, j);
          assert dir.entries == before[name := Entry(Received(chunks[..j]) + c, now)];
        }
        j := j + 1;
    }
    assert chunks[..j] == chunks;
    ReceivedWithoutFailure(chunks);
    failure := None;
  }

  /** `form_upload`. The multipart payload is the sequence of fields it
      yields; `id` is the ID the upload was given, when one was drawn. */
  method FormUpload(dir: UploadDir, payload: seq<Item<Field>>, req: Request, now: int)
    returns (r: Result<Response, HttpError>, ghost id: string)
    requires dir.Valid()
    modifies dir
    ensures dir.Valid()
    ensures match FirstUpload(payload, 0)
      case NothingToUpload =>
        r == Success(Response(BAD_REQUEST, NO_ATTACHMENT)) && dir.entries == old(dir.entries)
      case Broken(_, cause) =>
        r == Failure(Payload(cause)) && dir.entries == old(dir.entries)
      case Picked(k) =>
        var field := payload[k].value;
        var filename := UploadFilename(field);
        && IsFileId(id)
        && dir.entries == old(dir.entries)[StoredName(id, filename) := Entry(Received(field.chunks), now)]
        && r == match StreamFailure(field.chunks)
                case Some(cause) => Failure(Payload(cause))
                case None => UrlResponse(BuildFileUrl(req, id, filename))
  {
    id := "";
    var i := 0;
    while i < |payload|
      invariant i <= |payload|
      invariant FirstUpload(payload, 0) == FirstUpload(payload, i)
      invariant dir.entries == old(dir.entries)
    {
      match payload[i]
      case StreamError(cause) =>
        return Failure(Payload(cause)), id;
      case Item(field) =>
        if IsSkipped(field) {
          i := i + 1;
          continue;
        }
        var filename := UploadFilename(field);
        var fileId := CreateFileId();
        id := fileId;
        LocalPathIsStoredName(fileId, filename);
        var name := EntryOf(BuildLocalPath(fileId, filename)).value;
        var failure := WriteChunks(dir, name, field.chunks, now);
        if failure.Some? {
          return Failure(Payload(failure.value)), id;
        }
        var url := BuildFileUrl(req, fileId, filename);
        return UrlResponse(url), id;
    }
    r := Success(Response(BAD_REQUEST, NO_ATTACHMENT));
  }

  /** Creates the file `name` holding exactly `body`. */
  method WriteBody(dir: UploadDir, name: string, body: Chunk, now: int)
    requires dir.Valid() && IsEntryName(name)
    modifies dir
    ensures dir.Valid()
    ensures dir.entries == old(dir.entries)[name := Entry(body, now)]
  {
    dir.Create(name, now);
    dir.Write(name, body, now);
    assert [] + body == body;
  }

  /** `put_file`: the whole body, already received, under a fresh ID. */
  method PutFile(dir: UploadDir, filename: string, body: Chunk, req: Request, now: int)
    returns (r: Result<Response, HttpError>, ghost id: string)
    requires dir.Valid()
    modifies dir
    ensures dir.Valid()
    ensures IsFileId(id)
    ensures dir.entries == old(dir.entries)[StoredName(id, filename) := Entry(body, now)]
    ensures r == UrlResponse(BuildFileUrl(req, id, filename))
  {
    var fileId := CreateFileId();
    id := fileId;
    LocalPathIsStoredName(fileId, filename);
    var name := EntryOf(BuildLocalPath(fileId, filename)).value;
    WriteBody(dir, name, body, now);
    r := UrlResponse(BuildFileUrl(req, fileId, filename));
  }

  /** The path of a URL the server built, for a request whose Host header
      is readable. */
  function UrlPath(req: Request, url: string): string
    requires GetHostHeader(req).Success?
  {
    var prefix := |"https://"| + |GetHostHeader(req).value|;
    if prefix <= |url| then url[prefix..] else ""
  }

  /** A client that PUTs a file and then follows the returned URL through
      the `/{id}/{filename}` route gets back exactly the bytes it sent,
      whenever the filename's URL form keeps its extension. */
  method PutThenFollow(dir: UploadDir, filename: string, body: Chunk, req: Request, now: int)
    returns (got: Retrieval)
    requires dir.Valid()
    requires GetHostHeader(req).Success?
    requires Routes.UrlNameAgrees(filename)
    modifies dir
    ensures dir.Valid()
    ensures got == Found(body)
  {
    var r, id := PutFile(dir, filename, body, req, now);
    var url := r.value.body;
    var host := GetHostHeader(req).value;
    assert url == "https://" + host + FilePath(id, filename);
    var path := UrlPath(req, url);
    assert path == FilePath(id, filename) by {
      assert url[|"https://"| + |host|..] == FilePath(id, filename);
    }
    Routes.UrlFindsStoredFile(id, filename);
    var idExt := Routes.RequestedIdExt(path).value;
    LocalPathIsStoredName(id, filename);
    got := GetFile(dir.entries, idExt);
  }
}
