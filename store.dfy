/** The uploads directory as the server sees it, and reading from it. */
module Store {
  import opened Wrappers
  import opened StdPath
  import opened Naming
  import opened UrlEncoding
  import Utf8
  import Routes

  /** A file of the uploads directory: its bytes and its modification time
      in whole seconds. */
  datatype Entry = Entry(content: seq<Utf8.byte>, mtime: int)

  type Listing = map<string, Entry>

  /** Every file of the listing lies directly inside the directory. */
  predicate DirectEntries(l: Listing) {
    forall n :: n in l ==> IsEntryName(n)
  }

  /** The "uploads" directory: a flat set of files, by name. */
  class UploadDir {
    var entries: Listing

    ghost predicate Valid()
      reads this
    {
      DirectEntries(entries)
    }

    constructor (initial: Listing)
      requires DirectEntries(initial)
      ensures Valid() && entries == initial
    {
      entries := initial;
    }

    /** `File::create`: makes `name` an empty file, truncating what was
        there before. */
    method Create(name: string, now: int)
      requires Valid() && IsEntryName(name)
      modifies this
      ensures Valid()
      ensures entries == old(entries)[name := Entry([], now)]
    {
      entries := entries[name := Entry([], now)];
    }

    /** `write_all` on a file made by Create: appends `bytes`. */
    method Write(name: string, bytes: seq<Utf8.byte>, now: int)
      requires Valid() && name in entries
      modifies this
      ensures Valid()
      ensures entries == old(entries)[name := Entry(old(entries)[name].content + bytes, now)]
    {
      entries := entries[name := Entry(entries[name].content + bytes, now)];
    }

    /** `tokio::fs::remove_file`. Whether the operating system refuses
        (permissions, a file already gone) is not visible to the model, so it
        is the argument `refused`; a refused removal changes nothing. */
    method Remove(name: string, refused: bool) returns (removed: bool)
      requires Valid()
      modifies this
      ensures Valid()
      ensures removed <==> !refused && name in old(entries)
      ensures entries == if removed then old(entries) - {name} else old(entries)
    {
      removed := !refused && name in entries;
      if removed {
        entries := entries - {name};
      }
    }
  }

  /** What opening a file for a response gives: its bytes, not found, or a
      path that `EntryOf` does not read as "uploads/" + an entry name, which
      the model's directory does not hold. `EntryOf` compares text and does
      not resolve "." or ".." pieces, so "uploads/./n" is such a path. */
  datatype Retrieval = Found(content: seq<Utf8.byte>) | NotFound | NotAnEntry(path: string)

  /** `get_file`: open "uploads" joined with the requested name. */
  function GetFile(entries: Listing, idExt: string): (r: Retrieval)
    ensures r.Found? ==> EntryOf(LocalFile(idExt)).Some? && EntryOf(LocalFile(idExt)).value in entries
                         && entries[EntryOf(LocalFile(idExt)).value].content == r.content
    ensures r.NotFound? <==> EntryOf(LocalFile(idExt)).Some? && EntryOf(LocalFile(idExt)).value !in entries
    ensures EntryOf(LocalFile(idExt)).Some? && EntryOf(LocalFile(idExt)).value in entries
            ==> r == Found(entries[EntryOf(LocalFile(idExt)).value].content)
    ensures r.NotAnEntry? <==> EntryOf(LocalFile(idExt)).None?
    ensures r.NotAnEntry? ==> r.path == LocalFile(idExt)
  {
    var path := LocalFile(idExt);
    match EntryOf(path)
    case None => NotAnEntry(path)
    case Some(n) => if n in entries then Found(entries[n].content) else NotFound
  }

  /** `get_file_with_filename`. */
  function GetFileWithFilename(entries: Listing, id: string, filename: string): Retrieval {
    GetFile(entries, IdExtWithFilename(id, filename))
  }

  /** `get_file_without_filename`. */
  function GetFileWithoutFilename(entries: Listing, idExt: string): Retrieval {
    GetFile(entries, idExt)
  }

  /** A retrieval whose ID segment is a plain name (no separator, no dot)
      never leaves the uploads directory, whatever the filename segment;
      it finds the file under the ID with the segment's extension, or
      reports it missing. */
  lemma RetrievalStaysInUploads(entries: Listing, id: string, filename: string)
    requires IsPlainName(id)
    ensures var n := id + Dotted(Extension(filename).GetOr(""));
      GetFileWithFilename(entries, id, filename) == if n in entries then Found(entries[n].content) else NotFound
  {
    var ext := Extension(filename).GetOr("");
    ReconstructedName(id, filename);
    var n := id + Dotted(ext);
    if Extension(filename).Some? {
      ExtensionIsPlain(filename);
    }
    PlainNameWithExtension(id, ext);
    assert LocalFile(n) == UPLOADS_FOLDER + [SEPARATOR] + n;
    EntryOfChild(n);
  }

  /** A segment that decodes to ".." reaches `get_file` unchanged through
      `/{id_ext}` and names the parent of "uploads". */
  lemma ParentSegmentLeavesUploads(entries: Listing)
    ensures GetFileWithoutFilename(entries, "..") == NotAnEntry("uploads/..")
  {
    assert LocalFile("..") == "uploads/..";
    var prefix := UPLOADS_FOLDER + [SEPARATOR];
    assert "uploads/.."[|prefix|..] == "..";
  }

  /** A request segment that decodes to an absolute path replaces "uploads"
      when `get_file` joins it, so `/{id_ext}` with "%2F" + the rest of a path
      opens that path itself. */
  lemma AbsoluteSegmentReplacesUploads(entries: Listing, path: string)
    requires path != [] && path[0] == SEPARATOR
    ensures Routes.RequestedIdExt([SEPARATOR] + Encode(path)) == Some(path)
    ensures LocalFile(path) == path
    ensures GetFileWithoutFilename(entries, path) == NotAnEntry(path)
  {
    Routes.EncodedSegment(path);
    assert EntryOf(path).None? by {
      assert UPLOADS_FOLDER[0] != SEPARATOR;
    }
  }

  /** In a directory whose files all lie directly inside it, every file is
      served by `/{id_ext}` under its own name: the encoded name is one
      segment that decodes back to it, and `get_file` opens that entry. */
  lemma EveryEntryServed(entries: Listing, n: string)
    requires DirectEntries(entries) && n in entries
    ensures Routes.RequestedIdExt([SEPARATOR] + Encode(n)) == Some(n)
    ensures GetFileWithoutFilename(entries, n) == Found(entries[n].content)
  {
    Routes.EncodedSegment(n);
    assert n[0] != SEPARATOR;
    assert LocalFile(n) == UPLOADS_FOLDER + [SEPARATOR] + n;
    EntryOfChild(n);
  }
}
