# tempbin in Dafny

tempbin is a small file-sharing server. A client uploads a file, either as
a multipart form (`POST /upload`) or as a raw body (`PUT /{filename}`). The
server stores the file in the `uploads` directory under a random
four-character ID plus the extension of the filename. It answers with a URL
`https://{host}/{id}/{filename}`. A GET of that URL, or of `/{id_ext}`,
serves the file back. Once a minute a sweep deletes every file whose
modification time is more than a day old.

This project models that logic and proves properties of it:

- `wrappers.dfy`: `Option` and `Result`.
- `utf8.dfy`: UTF-8 encoding and decoding of strings. This is the byte view
  that percent-encoding works on.
- `urlencoding.dfy`: percent-encoding of a string's UTF-8 bytes, as done by
  `urlencoding::encode`. Every byte outside the unreserved set of section 2.3
  of RFC 3986 becomes `%XX` (section 2.1). The file also models the decoding
  the router applies to path segments.
- `stdpath.dfy`: the parts of Rust's `std::path` that the server relies on:
  `file_name`, `extension`, `file_stem`, `set_extension`/`with_extension` and
  `join`, with Unix paths ('/' the only separator).
- `naming.dfy`: `create_file_id`, `build_local_path`, `get_host_header`,
  `build_file_url`, and the name reconstruction of the two GET handlers.
- `routes.dfy`: how a URL path reaches the GET handlers. It also proves when
  the URL handed out after an upload leads back to the stored file.
- `store.dfy`:
  - the uploads directory: a class whose map of entries the handlers update;
  - `File::create`, `write_all`, `remove_file`;
  - `get_file`.
- `handlers.dfy`: `form_upload` (field selection and chunk streaming) and
  `put_file`, as methods over the directory.
- `purge.dfy`: the sweep loop of `purge`, and what repeated sweeps leave.

**The central result is `Routes.UrlFindsStoredFile`.** For a generated ID,
requesting the path of the returned URL opens exactly the stored name if and
only if `UrlNameAgrees(filename)` holds. That predicate means:

- if the filename contains a '.', it has a Rust extension;
- otherwise, it is non-empty and does not end in '/'.

The condition fails for these names:

- a dot-file such as `.bashrc`;
- `..`;
- a name whose only dot is in an earlier component (`a.b/c`);
- the empty name;
- a name ending in '/', such as `notes/`.

For these the URL builder sees a '.' (or, for the empty name and `notes/`,
appends a `.bin` that forms no extension). Meanwhile `build_local_path`
stores the file as `ID.bin`, so the URL asks for a name other than the
stored one. `Routes.UrlMissesStoredFile`,
`Routes.UrlOfDottedNameWithoutExtension` and `Routes.DotFileExample` prove
this. The name asked for may still exist. For a dotted name the URL asks for
the bare ID, and an upload of `notes.` under the same ID is stored as `ID`
itself, so that URL serves the other upload
(`Routes.UrlServesEmptyExtensionUpload`).

A request segment that percent-decodes to `..` is passed to `get_file`
unchanged by the `/{id_ext}` route, and names the parent of `uploads`
(`Store.ParentSegmentLeavesUploads`). A segment written with `%2F` can decode
to an absolute path, which replaces `uploads` when `get_file` joins it
(`Store.AbsoluteSegmentReplacesUploads`). A retrieval whose ID segment is a
plain name never leaves the directory (`Store.RetrievalStaysInUploads`), and
every stored file is served under its own name (`Store.EveryEntryServed`).

Inputs the program gets from its environment are parameters:

- the multipart payload is a sequence of decoded fields whose bodies are
  sequences of chunks;
- the Host header is passed as raw bytes;
- the clock is `now`, in whole seconds;
- a refused deletion is named by the `refused` argument of `Sweep`, and by
  each tick's own set of refused names over a run of sweeps;
- the random ID is a nondeterministic choice.

## Model

| member | source | states |
|---|---|---|
| Naming.CreateFileId | src/main.rs:39-46 | returns exactly 4 characters, each an ASCII letter or digit; which ones is left open |
| Naming.FileIdIsPlain | src/main.rs:40-46 | a generated ID is non-empty and holds no separator and no '.' |
| StdPath.LastIndexOf | src/main.rs:65 | the position of the last occurrence of a character before a bound, or -1; no occurrence lies after it |
| StdPath.NameSpanWithin | src/main.rs:65 | the file name of a path is a non-empty piece that starts the path or follows a separator; it holds no separator and is neither "." nor ".." |
| StdPath.NameSpan | src/main.rs:65 | `Path::file_name`, as a range of the path: NameSpanWithin over the whole path; NameSpanOfLastPiece and NameSpanOfPlainSuffix state where it lies |
| StdPath.DotCut | src/main.rs:65 | the file name is cut at its last '.'; there is no cut when the name has no '.' other than a leading one |
| StdPath.Extension | src/main.rs:65 | `Path::extension`: the text after the file name's cut, none without a file name or a cut; ExtensionIsPlain states what it holds |
| StdPath.StemEnd | src/main.rs:69 | the end of `Path::file_stem`, within the path: the file name's cut, or the end of the file name when there is none |
| StdPath.SetExtension | src/main.rs:162 | `set_extension`: the path cut after its stem, then "." + ext unless ext is empty; unchanged without a file name; SetExtensionOfPlainName states it for generated IDs |
| StdPath.Join | src/main.rs:149 | `Path::join`: an absolute name replaces the base; otherwise it is appended after one separator |
| StdPath.ExtensionIsPlain | src/main.rs:65-69 | an extension never contains a separator or a '.' |
| StdPath.NormalPiece | src/main.rs:65 | a piece longer than two characters, or one not starting with '.', is neither "", "." nor ".." |
| StdPath.NameSpanOfLastPiece | src/main.rs:65 | when the piece after the last separator is a normal name, it is the file name |
| StdPath.NameSpanOfPlainSuffix | src/main.rs:69 | a plain name right after a directory prefix ending in a separator is the path's file name |
| StdPath.SetExtensionOfPlainName | src/main.rs:69 | for such a plain final component, `with_extension(ext)` appends "." + ext, or nothing when ext is empty, and the path has no extension |
| Naming.StoredExtensionIsPlain | src/main.rs:65-68 | the stored extension (the filename's extension, else "bin") holds no separator and no '.' |
| Naming.StoredExtension | src/main.rs:65-68 | the filename's extension, or "bin" when it has none; StoredExtensionIsPlain states what it holds |
| Naming.BuildLocalPath | src/main.rs:64-70 | "uploads" joined with the ID, then `with_extension` of the stored extension; LocalPathIsStoredName gives its closed form |
| Naming.StoredName | src/main.rs:64-70 | the entry an upload lands in: ID + ("." + stored extension unless it is empty); LocalPathIsStoredName ties it to BuildLocalPath |
| Naming.EntryOf | src/main.rs:69 | a path denotes a direct entry of uploads only as "uploads/" + a name that is non-empty, not "." or "..", and without separators |
| Naming.EntryOfChild | src/main.rs:69 | "uploads/" + such a name denotes exactly that entry |
| Naming.DottedInjective | src/main.rs:69 | the suffix `with_extension` adds determines the extension |
| Naming.PlainNameWithExtension | src/main.rs:69 | a plain ID followed by an optional separator-free extension is an entry name |
| Naming.LocalPathIsStoredName | src/main.rs:64-70 | for a generated ID the stored path is "uploads/" + ID + ("." + ext unless ext is empty), with ext the filename's extension or "bin"; it is a direct child of uploads for every filename |
| Naming.LocalPathCollision | src/main.rs:64-70 | two filenames give the same stored path under one ID iff their stored extensions are equal, so a repeated ID overwrites |
| Naming.GetHostHeader | src/main.rs:28-37 | a missing header gives BadRequest "Host header not present"; a header of tab and visible ASCII gives its text unchanged; any other bytes give InternalServerError with the ToStrError message |
| Naming.BuildFileUrl | src/main.rs:49-62 | fails exactly when the Host header does, with its error; otherwise returns "https://" + host + the file path |
| Naming.UrlFilename | src/main.rs:57-58 | the filename as the URL shows it: it starts with the filename, always holds a '.', and equals the filename exactly when that already holds one |
| Naming.FilePath | src/main.rs:54-59 | the URL path: "/", the encoded ID, "/", the encoded filename, and ".bin" when the filename has no '.'; FilePathShape gives its form for generated IDs |
| Naming.FileIdIsUnreserved | src/main.rs:56 | percent-encoding leaves a generated ID unchanged |
| Naming.FilePathShape | src/main.rs:54-59 | the URL path is "/" + ID + "/" + the encoded URL filename, where ".bin" is added when the filename has no '.' |
| Naming.EncodedUrlFilename | src/main.rs:57-58 | encoding the filename with ".bin" added equals encoding the filename, then adding ".bin" |
| Naming.ReconstructedName | src/main.rs:160-163 | `/{id}/{filename}` with a plain ID asks for the ID + ("." + the filename's extension, unless it has none or it is empty); the rest of the filename is ignored |
| Naming.IdExtWithFilename | src/main.rs:160-163 | the ID given the filename segment's extension with `set_extension`, or the ID when the segment has none; ReconstructedName gives its form for plain IDs |
| Naming.LocalFile | src/main.rs:149 | "uploads" joined with the requested name; Store.AbsoluteSegmentReplacesUploads and LocalFileOfStoredName state what it opens |
| Naming.RetrievalNameMatches | src/main.rs:157-163 | that name equals the stored name of an upload under the same ID iff the requested extension (or "") equals the stored extension |
| Naming.LocalFileOfStoredName | src/main.rs:149 | `/{id_ext}` given the stored name opens the stored path |
| Utf8.EncodeChar | src/main.rs:56-57 | a character's UTF-8 form has 1 to 4 bytes; it is one byte iff the character is ASCII; a longer form has a lead byte 0xC2..0xF4 and continuation bytes |
| Utf8.Encode | src/main.rs:56-57 | the UTF-8 bytes of a string, which `urlencoding::encode` reads: each character's EncodeChar form in order; EncodeAppend and DecodeEncode state its properties |
| Utf8.Decode | src/main.rs:155 | reading bytes as UTF-8: None unless they are a sequence of well-formed characters; DecodeEncode states that it inverts Encode |
| Utf8.EncodeAppend | src/main.rs:56-57 | encoding distributes over concatenation |
| Utf8.DecodeFirstOfEncodeChar | src/main.rs:56-57 | decoding the front of a character's encoding gives back the character and its length |
| Utf8.DecodeEncode | src/main.rs:56-57 | decoding the UTF-8 form of any string gives back the string |
| UrlEncoding.HexDigit | src/main.rs:56-57 | a hex digit is a decimal digit or an uppercase letter A-F, so it is unreserved and not '.' |
| UrlEncoding.Encode | src/main.rs:56-57 | `urlencoding::encode` of the string's UTF-8 bytes: the output holds only unreserved characters and '%' |
| UrlEncoding.EncodeBytes | src/main.rs:56-57 | the encoding consists of unreserved characters and '%' only, and is at least as long as the bytes |
| UrlEncoding.PercentDecode | src/main.rs:155 | the bytes of a path segment: each '%' with two hex digits is that byte, every other character its UTF-8 bytes; PercentDecodeEncodeBytes states that it inverts EncodeBytes |
| UrlEncoding.DecodeSegment | src/main.rs:172 | a path segment as `web::Path` hands it to the GET handlers: percent-decoded, then read as UTF-8, None when that fails; DecodeEncode states that it inverts Encode |
| UrlEncoding.EncodeBytesAppend | src/main.rs:56-57 | byte encoding distributes over concatenation |
| UrlEncoding.EncodeAppend | src/main.rs:56-57 | string encoding distributes over concatenation |
| UrlEncoding.EncodeUnreserved | src/main.rs:56-57 | a string of unreserved characters, '.' among them, encodes to itself |
| UrlEncoding.EncodeEmpty | src/main.rs:56-57 | only the empty string encodes to the empty string |
| UrlEncoding.HexRoundTrip | src/main.rs:56-57 | a hex digit is recognised as one and reads back as its value |
| UrlEncoding.PercentDecodeEncodeBytes | src/main.rs:56-57 | percent-decoding an encoding gives back the bytes |
| UrlEncoding.DecodeEncode | src/main.rs:56-57 | decoding a segment made by the encoder gives back the original string |
| Routes.Split | src/main.rs:153-155 | a path splits into at least one segment and no segment contains the separator |
| Routes.SplitPlain | src/main.rs:153-155 | a text without separators is a single segment |
| Routes.SplitAt | src/main.rs:153-155 | a separator after a separator-free text starts a new segment |
| Routes.RequestedIdExt | src/main.rs:153-175 | the name `get_file` receives: for two non-empty segments the decoded ID given the decoded filename's extension, for one non-empty segment that segment decoded, otherwise no handler; RequestedOfFilePath and the Store retrieval lemmas state what it yields |
| Routes.NoDotNoExtension | src/main.rs:65-67 | a filename without '.' has no extension, so it is stored under "bin" |
| Routes.NameSpanOfAddedSuffix | src/main.rs:58 | with a separator-free suffix of at least three characters, such as ".bin", added, the file name runs from after the last separator to the end |
| Routes.ExtensionOfAddedBin | src/main.rs:58 | a dot-free filename with ".bin" added has extension "bin" iff the filename is non-empty and does not end in '/'; otherwise it has none |
| Routes.FilePathSegments | src/main.rs:54-59 | the URL path splits into "", the ID and the encoded URL filename |
| Routes.RequestedOfFilePath | src/main.rs:153-166 | requesting the returned URL path hands `get_file` the ID given the URL filename's extension |
| Routes.EncodedSegment | src/main.rs:171-175 | the encoding of any non-empty text, as the one segment of a path, reaches `/{id_ext}` decoded back to that text |
| Routes.ExtensionAgreement | src/main.rs:58 | the URL filename's extension equals the stored extension iff UrlNameAgrees holds |
| Routes.UrlFindsStoredFile | src/main.rs:49-70 | for a generated ID, the returned URL leads `get_file` to exactly the stored name iff UrlNameAgrees(filename) |
| Routes.UndottedStoredAsBin | src/main.rs:64-70 | a filename without '.' is stored as "uploads/" + ID + ".bin" |
| Routes.UndottedUrlFindsBin | src/main.rs:54-59 | for such a filename, ending in a normal character, the URL path is "/ID/" + encoded filename + ".bin", and it reconstructs ID.bin |
| Routes.DotFileHasNoExtension | src/main.rs:65 | ".bashrc" has no extension |
| Routes.ParentHasNoFileName | src/main.rs:65 | ".." has no file name |
| Routes.EarlierDotHasNoExtension | src/main.rs:65 | "a.b/c" has no extension |
| Routes.UrlMissesStoredFile | src/main.rs:58 | ".bashrc", "..", "a.b/c", "" and "notes/" all fail UrlNameAgrees, so their URLs miss the stored file |
| Routes.UrlOfDottedNameWithoutExtension | src/main.rs:58 | a filename with a '.' but no extension is stored as ID.bin while its URL asks for the bare ID |
| Routes.DotFileExample | src/main.rs:58 | ".bashrc" is stored as ID.bin, and its URL asks for ID |
| Routes.UrlServesEmptyExtensionUpload | src/main.rs:54-70 | for a generated ID, the URL of a dotted filename without extension asks for exactly the stored name of an upload whose extension is empty ("notes."), which differs from its own stored name |
| Store.UploadDir.constructor | src/main.rs:21 | a directory holding only direct entries |
| Store.UploadDir.Create | src/main.rs:107 | `File::create` makes the entry empty, replacing what was there, and changes no other entry |
| Store.UploadDir.Write | src/main.rs:112 | `write_all` appends the bytes to the entry and changes no other entry |
| Store.UploadDir.Remove | src/main.rs:203 | `remove_file` removes the entry unless the system refuses or it is missing; a refused removal changes nothing |
| Store.GetFile | src/main.rs:148-151 | opening "uploads" joined with the name yields exactly the stored bytes when the path is "uploads/" + a present entry; it is not found exactly when the entry is absent; and it is not an entry (carrying the joined path) exactly when the path is not "uploads/" + an entry name |
| Store.GetFileWithFilename | src/main.rs:153-169 | `get_file` of the name rebuilt from the ID and the filename segment; RetrievalStaysInUploads states what it finds |
| Store.GetFileWithoutFilename | src/main.rs:171-175 | `get_file` of the segment unchanged; EveryEntryServed, ParentSegmentLeavesUploads and AbsoluteSegmentReplacesUploads state what it finds |
| Store.RetrievalStaysInUploads | src/main.rs:149 | with a plain ID segment, `/{id}/{filename}` finds ID + ("." + the filename's extension, unless it has none or it is empty) or reports it missing; it never opens anything outside uploads |
| Store.ParentSegmentLeavesUploads | src/main.rs:171-175 | `/{id_ext}` with a segment decoding to ".." opens "uploads/..", which is not an entry |
| Store.AbsoluteSegmentReplacesUploads | src/main.rs:171-175 | a segment that is the encoding of an absolute path decodes to that path, which `join` puts in place of "uploads"; it is not an entry of the directory |
| Store.EveryEntryServed | src/main.rs:171-175 | in a directory of direct entries, every file's encoded name is one segment that decodes back to it, and `/{id_ext}` serves exactly its bytes |
| Handlers.FirstUpload | src/main.rs:77-89 | finds the first field that is not a "file" field with a missing or empty filename, whatever its name, or the first stream error before it; every field passed over is such a skipped field |
| Handlers.IsSkipped | src/main.rs:81-89 | a "file" field whose content disposition has no filename or an empty one |
| Handlers.UploadFilename | src/main.rs:92-100 | "paste.txt" for a "text" field, else the declared filename, else "file.bin"; FormUpload stores and announces under it |
| Handlers.Received | src/main.rs:110-113 | the bytes of the chunks before the stream ends or fails; ReceivedWithoutFailure and ReceivedStep state them |
| Handlers.StreamFailure | src/main.rs:110-113 | the first error of a chunk stream, if any; ReceivedStep states it |
| Handlers.ReceivedWithoutFailure | src/main.rs:110-113 | a chunk stream without errors delivers all its chunks, concatenated in arrival order |
| Handlers.ReceivedStep | src/main.rs:110-113 | one more chunk extends the bytes received; an error ends the stream with the bytes received so far |
| Handlers.WriteChunks | src/main.rs:107-114 | the file is truncated and then holds exactly the bytes the stream delivered before it ended or failed; the failure is reported; no other entry changes |
| Handlers.FormUpload | src/main.rs:72-122 | with no qualifying field: 400 "At least one attachment is required" and nothing written; a broken field stream: that error and nothing written; otherwise exactly one entry changes: the chosen field's file under a fresh ID, named after "paste.txt" for a "text" field, else the declared filename, else "file.bin"; a broken chunk stream gives its error, otherwise the URL or the Host header error |
| Handlers.UrlResponse | src/main.rs:117-118 | `HttpResponse::Ok().body(url)` once the URL is built, or the URL builder's error; FormUpload and PutFile answer with it |
| Handlers.WriteBody | src/main.rs:138-140 | the entry holds exactly the body, replacing what was there; no other entry changes |
| Handlers.PutFile | src/main.rs:124-145 | stores the body as the only change, under a fresh ID and the stored name of the filename, then answers with the URL or the Host header error (the file is written either way) |
| Handlers.PutThenFollow | src/main.rs:124-168 | a PUT followed by a GET of the returned URL's path yields exactly the uploaded bytes whenever UrlNameAgrees holds and the Host header is readable |
| Purge.Sweep | src/main.rs:186-216 | visiting the entries in any order, the sweep leaves exactly the entries that are not expired or whose removal was refused; it reports the removed and the refused names, all of them names of direct entries of uploads |
| Purge.Age | src/main.rs:198-200 | `duration_since`, with a modification time in the future counted as no time; AgeMonotone states it never decreases |
| Purge.Expired | src/main.rs:201 | the age exceeds a day (86400 s) |
| Purge.Swept | src/main.rs:186-213 | the directory after a complete sweep; Sweep computes it and SweptIsRestriction states what it leaves |
| Purge.Removable | src/main.rs:201-211 | the expired names whose removal is not refused; Sweep reports them as deleted |
| Purge.SweptAt | src/main.rs:218-230 | the directory after one sweep per tick of `purge_loop`, in order, each tick with its own clock reading and its own refused removals; SurvivesSweeps, YoungAtLastTickSurvives and LastTickDecides state what it leaves |
| Purge.SweptIsRestriction | src/main.rs:197-201 | a sweep keeps files unchanged, adds none, and removes exactly the expired files whose removal is not refused; a file at most 86400 s old, or with a future modification time, stays |
| Purge.SweepIdempotent | src/main.rs:186-213 | a second sweep at the same time removes nothing more |
| Purge.SurvivesSweeps | src/main.rs:186-213 | over a run of sweeps, a file survives unchanged iff every sweep at which it is expired refuses its removal |
| Purge.SweptAtRemoved | src/main.rs:203 | a removed file stays removed |
| Purge.AgeMonotone | src/main.rs:198-200 | a file's age never decreases as time goes on |
| Purge.YoungAtLastTickSurvives | src/main.rs:198-201 | with sweeps in time order, a file not expired at the last one survives them all unchanged, whatever the refusals |
| Purge.LastTickDecides | src/main.rs:198-203 | with sweeps in time order and a file whose removal every sweep refuses or allows alike, survival is decided by the last sweep alone |

## Left out

- The HTTP server, route registration, the POST and PUT route patterns,
  the `PayloadConfig` size ceiling (`FILE_SIZE_LIMIT`) and the index route
  with its page (src/main.rs:177-182, 232-266). They are framework
  plumbing; how GET paths reach their two handlers is modelled in
  routes.dfy.
- `NamedFile::open_async`'s content-type guessing, streaming and error
  responses. They live in a foreign library, so retrieval is a lookup in the
  directory's map.
- Naming.BuildFileUrl: does not model the `http` crate's authority
  validation in `Uri::builder().build()`. Every readable Host value is
  accepted, so a host the builder would reject still yields a URL here.
- Routes.RequestedIdExt: models the router as splitting the path at '/' and
  then fully percent-decoding each segment, `%2F` included, so a segment can
  decode to a text holding separators. A segment whose bytes are not UTF-8
  makes the model's `DecodeSegment` return None, so no handler runs. Whether
  the framework leaves some reserved escapes encoded, or decodes non-UTF-8
  bytes lossily instead, is not part of this model.
- Naming.EntryOf: compares path text and does not resolve "." or ".."
  pieces as the operating system does. "uploads/./n", which `GET /.%2Fn`
  reaches, names entry n on disk but is `NotAnEntry` here, and so is a path
  through a subdirectory.
- Windows paths. `std::path` on Windows also separates at `\`, which changes
  `Path::extension` and `Path::join`; the model covers Unix paths only.
- The multipart parser. The payload is the sequence of fields it yields,
  each with its name, content-disposition filename and chunks.
- File-system failures of `File::create`, `write_all` and `flush`.
  FormUpload and PutFile model only the success of these calls.
- For `purge`, the model leaves out three failure paths:
  - a failing `read_dir`;
  - a failing `next_entry`, which silently ends the loop;
  - panics of the `metadata()`/`modified()` expectations.
  Sweep covers the common case, where every entry is listed once.
- `remove_file` failures are modelled by an argument, `refused`, for one
  sweep, and by a set of refused names per tick for a run of sweeps; which
  removals the system refuses is left open.
- Purge.Sweep: uses one clock reading for the whole sweep. The source reads
  the clock anew for every entry (src/main.rs:198).
- `purge_loop`'s timer, `tokio::select!` and shutdown
  (src/main.rs:218-230, 241-263). Their point is concurrency. The effect of
  repeated sweeps is stated by `Purge.SweptAt` and its lemmas.
- Races between concurrent uploads, retrievals and sweeps.
- Logging. The names the sweep would log as deleted or failed are returned
  as sets instead.
- The `to_str` failure branches for non-UTF-8 paths (src/main.rs:66,
  164-166). Paths built from strings are always valid UTF-8, so these
  branches are unreachable.
- Randomness. `CreateFileId` chooses each character nondeterministically,
  and its contract only says that the result is a valid ID.
- Modification times are whole seconds. A write sets the entry's time to
  the `now` of the upload.
