/** The pure naming logic of src/main.rs: file IDs, the on-disk path of an
    upload, the URL handed back to the uploader, and the name a retrieval
    request is turned into. */
module Naming {
  import opened Wrappers
  import opened StdPath
  import opened UrlEncoding
  import Utf8

  const UPLOADS_FOLDER := "uploads"
  const FALLBACK_EXTENSION := "bin"
  const FILE_ID_LENGTH := 4
  const HOST_MISSING := "Host header not present"
  const HOST_UNREADABLE := "Failed to parse Host header string: ToStrError { _priv: () }"

  /** The characters `rand::distributions::Alphanumeric` samples from. */
  predicate IsAlphanumeric(c: char) {
    ('A' <= c <= 'Z') || ('a' <= c <= 'z') || ('0' <= c <= '9')
  }

  predicate IsFileId(id: string) {
    |id| == FILE_ID_LENGTH && forall i :: 0 <= i < |id| ==> IsAlphanumeric(id[i])
  }

  /** `create_file_id`: four independent draws from the alphanumeric
      characters; which ones is left open. */
  method CreateFileId() returns (id: string)
    ensures IsFileId(id)
  {
    id := "";
    while |id| < FILE_ID_LENGTH
      invariant |id| <= FILE_ID_LENGTH
      invariant forall i :: 0 <= i < |id| ==> IsAlphanumeric(id[i])
    {
      assert IsAlphanumeric('A');
      var c :| IsAlphanumeric(c);
      id := id + [c];
    }
  }

  lemma FileIdIsPlain(id: string)
    requires IsFileId(id)
    ensures IsPlainName(id)
  {
    assert forall i :: 0 <= i < |id| ==> id[i] != SEPARATOR && id[i] != '.';
  }

  // ---------------------------------------------------------------------
  // Where an upload is stored

  /** The extension `build_local_path` stores under: the filename's
      extension, or "bin" when it has none. */
  function StoredExtension(filename: string): string {
    match Extension(filename)
    case Some(ext) => ext
    case None => FALLBACK_EXTENSION
  }

  /** `build_local_path`: "uploads" joined with the ID, then given the stored
      extension with `with_extension`. */
  function BuildLocalPath(id: string, filename: string): string {
    SetExtension(Join(UPLOADS_FOLDER, id), StoredExtension(filename))
  }

  /** The name an upload is meant to get inside "uploads": the ID, then "."
      and the stored extension unless that is empty. */
  function StoredName(id: string, filename: string): string {
    id + Dotted(StoredExtension(filename))
  }

  /** A name that denotes a file directly inside the uploads directory. */
  predicate IsEntryName(n: string) {
    IsNormalPiece(n) && SEPARATOR !in n
  }

  /** The entry of the uploads directory that `path` denotes, if it denotes
      one. */
  function EntryOf(path: string): (r: Option<string>)
    ensures r.Some? ==> IsEntryName(r.value) && path == UPLOADS_FOLDER + [SEPARATOR] + r.value
  {
    var prefix := UPLOADS_FOLDER + [SEPARATOR];
    if |path| >= |prefix| && path[..|prefix|] == prefix && IsEntryName(path[|prefix|..])
    then Some(path[|prefix|..])
    else None
  }

  lemma EntryOfChild(n: string)
    requires IsEntryName(n)
    ensures EntryOf(UPLOADS_FOLDER + [SEPARATOR] + n) == Some(n)
  {
    var prefix := UPLOADS_FOLDER + [SEPARATOR];
    assert (prefix + n)[..|prefix|] == prefix;
    assert (prefix + n)[|prefix|..] == n;
  }

  lemma DottedInjective(e1: string, e2: string)
    ensures Dotted(e1) == Dotted(e2) <==> e1 == e2
  {
    if e1 != e2 && e1 != "" && e2 != "" {
      assert ("." + e1)[1..] == e1 && ("." + e2)[1..] == e2;
    }
  }

  lemma StoredExtensionIsPlain(filename: string)
    ensures SEPARATOR !in StoredExtension(filename) && '.' !in StoredExtension(filename)
  {
    match Extension(filename)
    case Some(_) => ExtensionIsPlain(filename);
    case None => FallbackIsPlain();
  }

  lemma FallbackIsPlain()
    ensures SEPARATOR !in FALLBACK_EXTENSION && '.' !in FALLBACK_EXTENSION
  {
    assert FALLBACK_EXTENSION == ['b', 'i', 'n'];
  }

  /** A plain name followed by an optional extension without separators is
      an entry name. */
  lemma PlainNameWithExtension(id: string, ext: string)
    requires IsPlainName(id) && SEPARATOR !in ext
    ensures IsEntryName(id + Dotted(ext))
  {
    var n := id + Dotted(ext);
    assert n[0] == id[0];
    assert forall i :: |id| <= i < |n| ==> n[i] == Dotted(ext)[i - |id|];
    assert forall i :: 1 <= i < |Dotted(ext)| ==> Dotted(ext)[i] == ext[i - 1];
  }

  /** For a generated ID the stored path is "uploads/" + StoredName: the
      path is a direct child of "uploads", whatever the filename (its text
      contributes only an extension, which holds no separator and no dot). */
  lemma LocalPathIsStoredName(id: string, filename: string)
    requires IsFileId(id)
    ensures BuildLocalPath(id, filename) == UPLOADS_FOLDER + [SEPARATOR] + StoredName(id, filename)
    ensures IsEntryName(StoredName(id, filename))
    ensures EntryOf(BuildLocalPath(id, filename)) == Some(StoredName(id, filename))
  {
    var dir := UPLOADS_FOLDER + [SEPARATOR];
    var ext := StoredExtension(filename);
    FileIdIsPlain(id);
    assert id[0] != SEPARATOR;
    assert Join(UPLOADS_FOLDER, id) == dir + id;
    assert dir[|dir| - 1] == SEPARATOR;
    SetExtensionOfPlainName(dir, id, ext);
    assert BuildLocalPath(id, filename) == dir + id + Dotted(ext);
    StoredExtensionIsPlain(filename);
    var n := StoredName(id, filename);
    PlainNameWithExtension(id, ext);
    assert dir + id + Dotted(ext) == dir + n;
    EntryOfChild(n);
  }

  /** The stored path depends on the filename only through its stored
      extension: two uploads under one ID land on the same file exactly when
      their stored extensions agree (so "a.bin" and "a" collide). */
  lemma LocalPathCollision(id: string, f1: string, f2: string)
    requires IsFileId(id)
    ensures BuildLocalPath(id, f1) == BuildLocalPath(id, f2) <==> StoredExtension(f1) == StoredExtension(f2)
  {
    LocalPathIsStoredName(id, f1);
    LocalPathIsStoredName(id, f2);
    var e1, e2 := StoredExtension(f1), StoredExtension(f2);
    AppendCancel(UPLOADS_FOLDER + [SEPARATOR], StoredName(id, f1), StoredName(id, f2));
    AppendCancel(id, Dotted(e1), Dotted(e2));
    DottedInjective(e1, e2);
  }

  lemma AppendCancel(p: string, a: string, b: string)
    ensures p + a == p + b <==> a == b
  {
    if p + a == p + b {
      assert a == (p + a)[|p|..];
      assert b == (p + b)[|p|..];
    }
  }

  // ---------------------------------------------------------------------
  // The URL returned to the uploader

  datatype HttpError =
    | BadRequest(message: string)           // `error::ErrorBadRequest`
    | InternalServerError(message: string)  // `error::ErrorInternalServerError`
    | Payload(cause: string)                // an error of the multipart or body stream

  /** The part of an HTTP request the URL builder reads: the raw bytes of
      its Host header, if it has one. */
  datatype Request = Request(host: Option<seq<Utf8.byte>>)

  /** What `HeaderValue::to_str` accepts: tab and visible ASCII. */
  predicate IsVisibleAscii(b: Utf8.byte) {
    b == 9 || 32 <= b < 127
  }

  /** `get_host_header`. */
  function GetHostHeader(req: Request): (r: Result<string, HttpError>)
    ensures req.host.None? <==> r == Failure(BadRequest(HOST_MISSING))
    ensures r.Success? <==> req.host.Some? && forall i :: 0 <= i < |req.host.value| ==> IsVisibleAscii(req.host.value[i])
    ensures r.Success? ==> |r.value| == |req.host.value|
                           && forall i :: 0 <= i < |r.value| ==> r.value[i] as int == req.host.value[i]
    ensures r.Failure? && req.host.Some? ==> r.error == InternalServerError(HOST_UNREADABLE)
  {
    match req.host
    case None => Failure(BadRequest(HOST_MISSING))
    case Some(v) =>
      if forall i :: 0 <= i < |v| ==> IsVisibleAscii(v[i])
      then Success(seq(|v|, i requires 0 <= i < |v| => v[i] as char))
      else Failure(InternalServerError(HOST_UNREADABLE))
  }

  /** The filename as the URL shows it: with ".bin" added when the name has
      no '.' at all. */
  function UrlFilename(filename: string): (u: string)
    ensures |filename| <= |u| && u[..|filename|] == filename
    ensures '.' in u
    ensures '.' in filename <==> u == filename
  {
    if '.' in filename then filename else filename + "." + FALLBACK_EXTENSION
  }

  /** The path part of the URL `build_file_url` builds. */
  function FilePath(id: string, filename: string): string {
    "/" + Encode(id) + "/" + Encode(filename) + (if '.' in filename then "" else "." + FALLBACK_EXTENSION)
  }

  /** `build_file_url`: "https://", the Host header, then the file path. */
  function BuildFileUrl(req: Request, id: string, filename: string): (r: Result<string, HttpError>)
    ensures r.Failure? <==> GetHostHeader(req).Failure?
    ensures r.Failure? ==> r.error == GetHostHeader(req).error
    ensures r.Success? ==> r.value == "https://" + GetHostHeader(req).value + FilePath(id, filename)
  {
    var host :- GetHostHeader(req);
    Success("https://" + host + FilePath(id, filename))
  }

  lemma FileIdIsUnreserved(id: string)
    requires IsFileId(id)
    ensures Encode(id) == id
  {
    EncodeUnreserved(id);
  }

  /** For a generated ID the URL path is "/" + ID + "/" + the encoded URL
      filename; the encoder leaves the ID and the added ".bin" unchanged. */
  lemma FilePathShape(id: string, filename: string)
    requires IsFileId(id)
    ensures FilePath(id, filename) == "/" + id + "/" + Encode(UrlFilename(filename))
  {
    FileIdIsUnreserved(id);
    EncodedUrlFilename(filename);
  }

  /** The encoder leaves the added ".bin" as it is. */
  lemma EncodedUrlFilename(filename: string)
    ensures Encode(UrlFilename(filename)) == Encode(filename) + (if '.' in filename then "" else "." + FALLBACK_EXTENSION)
  {
    if '.' !in filename {
      var bin := "." + FALLBACK_EXTENSION;
      assert filename + "." + FALLBACK_EXTENSION == filename + bin;
      EncodeAppend(filename, bin);
      EncodeUnreserved(bin);
    } else {
      assert Encode(filename) + "" == Encode(filename);
    }
  }

  // ---------------------------------------------------------------------
  // Retrieval names

  /** The name `get_file_with_filename` hands to `get_file`: the ID given the
      extension of the filename segment with `set_extension`, or the ID alone
      when that segment has no extension. */
  function IdExtWithFilename(id: string, filename: string): string {
    match Extension(filename)
    case Some(ext) => SetExtension(id, ext)
    case None => id
  }

  /** `get_file`: the path opened, "uploads" joined with the name. */
  function LocalFile(idExt: string): string {
    Join(UPLOADS_FOLDER, idExt)
  }

  /** For a generated ID only the extension of the filename segment matters:
      the rest of its text is ignored. */
  lemma ReconstructedName(id: string, filename: string)
    requires IsPlainName(id)
    ensures IdExtWithFilename(id, filename) == id + Dotted(Extension(filename).GetOr(""))
  {
    SetExtensionOfPlainName([], id, Extension(filename).GetOr(""));
    assert [] + id == id;
  }

  /** A retrieval by ID and filename segment finds the file an upload of
      `uploaded` stored under that ID exactly when the segment's extension
      (or nothing) equals the stored extension. */
  lemma RetrievalNameMatches(id: string, requested: string, uploaded: string)
    requires IsFileId(id)
    ensures IdExtWithFilename(id, requested) == StoredName(id, uploaded)
        <==> Extension(requested).GetOr("") == StoredExtension(uploaded)
  {
    FileIdIsPlain(id);
    ReconstructedName(id, requested);
    var e1, e2 := Extension(requested).GetOr(""), StoredExtension(uploaded);
    if id + Dotted(e1) == id + Dotted(e2) {
      assert (id + Dotted(e1))[|id|..] == Dotted(e1);
      assert (id + Dotted(e2))[|id|..] == Dotted(e2);
    }
    DottedInjective(e1, e2);
  }

  /** `get_file_without_filename` passes the segment on unchanged, so the
      stored name itself retrieves the file. */
  lemma LocalFileOfStoredName(id: string, filename: string)
    requires IsFileId(id)
    ensures LocalFile(StoredName(id, filename)) == BuildLocalPath(id, filename)
  {
    LocalPathIsStoredName(id, filename);
  }
}
