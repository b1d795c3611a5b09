/** How a URL path reaches the two GET handlers of src/main.rs, and whether
    the URL handed out after an upload leads back to the stored file. */
module Routes {
  import opened Wrappers
  import opened StdPath
  import opened UrlEncoding
  import opened Naming

  /** The pieces of `s` between occurrences of `sep`. */
  function Split(s: string, sep: char): (segs: seq<string>)
    ensures |segs| >= 1
    ensures forall i :: 0 <= i < |segs| ==> sep !in segs[i]
  {
    if s == [] then [""]
    else
      var rest := Split(s[1..], sep);
      if s[0] == sep then [""] + rest else [[s[0]] + rest[0]] + rest[1..]
  }

  lemma {:induction false} SplitPlain(a: string, sep: char)
    requires sep !in a
    ensures Split(a, sep) == [a]
  {
    if a != [] {
      SplitPlain(a[1..], sep);
      assert [a[0]] + a[1..] == a;
    }
  }

  lemma {:induction false} SplitAt(a: string, b: string, sep: char)
    requires sep !in a
    ensures Split(a + [sep] + b, sep) == [a] + Split(b, sep)
  {
    if a == [] {
      assert a + [sep] + b == [sep] + b;
      assert ([sep] + b)[1..] == b;
    } else {
      assert (a + [sep] + b)[1..] == a[1..] + [sep] + b;
      SplitAt(a[1..], b, sep);
      assert [a[0]] + a[1..] == a;
    }
  }

  /** The name that `get_file` receives for a GET of `urlPath`: for
      "/{id}/{filename}" the ID given the extension of the filename, for
      "/{id_ext}" the segment itself. Segments are percent-decoded; a path
      of any other shape, or whose segments are not UTF-8, reaches neither
      handler. */
  function RequestedIdExt(urlPath: string): Option<string> {
    var segs := Split(urlPath, SEPARATOR);
    if |segs| == 3 && segs[0] == "" && segs[1] != "" && segs[2] != "" then
      match (DecodeSegment(segs[1]), DecodeSegment(segs[2]))
      case (Some(id), Some(filename)) => Some(IdExtWithFilename(id, filename))
      case _ => None
    else if |segs| == 2 && segs[0] == "" && segs[1] != "" then
      DecodeSegment(segs[1])
    else
      None
  }

  /** When the URL filename made by `build_file_url` carries the same
      extension that `build_local_path` stored under: a name with a '.' must
      have an extension, and a name without one must end in a normal
      character so that the added ".bin" becomes its extension. */
  predicate UrlNameAgrees(filename: string) {
    if '.' in filename then Extension(filename).Some? else EndsInName(filename)
  }

  /** A name that is not empty and does not end in a separator. */
  predicate EndsInName(filename: string) {
    filename != "" && filename[|filename| - 1] != SEPARATOR
  }

  lemma NoDotNoExtension(filename: string)
    requires '.' !in filename
    ensures Extension(filename) == None
  {
    match NameSpan(filename)
    case None =>
    case Some((a, b)) =>
      var name := filename[a..b];
      assert forall j :: 0 <= j < |name| ==> name[j] == filename[a + j];
  }

  lemma LastDotOfAddedBin(s: string)
    requires '.' !in s
    ensures LastIndexOf(s + ".bin", '.', |s| + 4) == |s|
  {
    var t := s + ".bin";
    assert t[|s|] == '.' && t[|s| + 1] == 'b' && t[|s| + 2] == 'i' && t[|s| + 3] == 'n';
    assert forall j :: 0 <= j < |s| ==> t[j] == s[j];
  }

  lemma SliceOfAppend(a: string, b: string, k: nat)
    requires k <= |a|
    ensures (a + b)[k..|a + b|] == a[k..] + b
  {
    var l, r := (a + b)[k..|a + b|], a[k..] + b;
    assert |l| == |r|;
    forall j | 0 <= j < |l| ensures l[j] == r[j] {
      if j < |a| - k {
        assert l[j] == a[k + j];
      } else {
        assert l[j] == b[j - (|a| - k)];
      }
    }
  }

  /** Adding a separator-free suffix of at least three characters makes
      the file name run from after the last separator to the end. */
  lemma NameSpanOfAddedSuffix(filename: string, suffix: string)
    requires SEPARATOR !in suffix && |suffix| > 2
    ensures NameSpanWithin(filename + suffix, |filename + suffix|)
         == Some((LastIndexOf(filename, SEPARATOR, |filename|) + 1, |filename| + |suffix|))
  {
    var u := filename + suffix;
    var i := LastIndexOf(filename, SEPARATOR, |filename|);
    LastIndexOfAppend(filename, suffix, SEPARATOR);
    NameSpanOfLongLastPiece(u, i);
  }

  lemma TailOfAddedBin(a: string)
    ensures (a + ".bin")[|a| + 1..|a| + 4] == "bin"
  {
    var u := a + ".bin";
    assert |u[|a| + 1..|a| + 4]| == 3;
    assert u[|a| + 1] == 'b' && u[|a| + 2] == 'i' && u[|a| + 3] == 'n';
  }

  lemma ExtensionWithSpan(p: string, a: nat, b: nat)
    requires NameSpan(p) == Some((a, b))
    ensures DotCut(p[a..b]) == -1 ==> Extension(p) == None
    ensures DotCut(p[a..b]) != -1 ==> Extension(p) == Some(p[a + DotCut(p[a..b]) + 1..b])
  {
  }

  lemma DotCutOfAddedBin(s: string)
    requires '.' !in s
    ensures DotCut(s + ".bin") == if s == "" then -1 else |s|
  {
    LastDotOfAddedBin(s);
  }

  /** The extension of a dot-free name with ".bin" added is "bin", unless
      the name has no final piece of its own (it is empty or ends in a
      separator): the file name is then the dot-file ".bin", which has no
      extension. */
  lemma ExtensionOfAddedBin(filename: string)
    requires '.' !in filename
    ensures EndsInName(filename) ==> Extension(filename + ".bin") == Some("bin")
    ensures !EndsInName(filename) ==> Extension(filename + ".bin") == None
  {
    var u := filename + ".bin";
    var i := LastIndexOf(filename, SEPARATOR, |filename|);
    var s := filename[i + 1..];
    assert NameSpan(u) == Some((i + 1, |u|)) && u[i + 1..|u|] == s + ".bin" && '.' !in s by {
      AddedBinPiece(filename);
    }
    assert s != "" <==> EndsInName(filename) by {
      LastPieceOfName(filename);
    }
    DotCutOfAddedBin(s);
    ExtensionWithSpan(u, i + 1, |u|);
    if s != "" {
      assert i + 1 + |s| == |filename|;
      TailOfAddedBin(filename);
    }
  }

  /** The file name of a dot-free name with ".bin" added is its last piece
      with ".bin" added. */
  lemma AddedBinPiece(filename: string)
    requires '.' !in filename
    ensures var i := LastIndexOf(filename, SEPARATOR, |filename|);
      var u := filename + ".bin";
      && NameSpan(u) == Some((i + 1, |u|))
      && u[i + 1..|u|] == filename[i + 1..] + ".bin"
      && '.' !in filename[i + 1..]
  {
    var i := LastIndexOf(filename, SEPARATOR, |filename|);
    NameSpanOfAddedSuffix(filename, ".bin");
    SliceOfAppend(filename, ".bin", i + 1);
    var s := filename[i + 1..];
    assert forall j :: 0 <= j < |s| ==> s[j] == filename[i + 1 + j];
  }

  /** What follows the last separator is empty exactly when the name is
      empty or ends in a separator. */
  lemma LastPieceOfName(filename: string)
    ensures var i := LastIndexOf(filename, SEPARATOR, |filename|);
      filename[i + 1..] != "" <==> EndsInName(filename)
  {
  }

  /** The URL path splits into the empty piece before the leading '/', the
      ID and the encoded URL filename. */
  lemma FilePathSegments(id: string, filename: string)
    requires IsFileId(id)
    ensures Split(FilePath(id, filename), SEPARATOR) == ["", id, Encode(UrlFilename(filename))]
  {
    var tail := Encode(UrlFilename(filename));
    assert FilePath(id, filename) == [SEPARATOR] + id + [SEPARATOR] + tail by {
      FilePathShape(id, filename);
    }
    assert SEPARATOR !in id by {
      FileIdIsPlain(id);
    }
    assert SEPARATOR !in tail;
    SplitThree(id, tail);
  }

  /** A path of one non-empty segment reaches `/{id_ext}` with that segment
      decoded. */
  lemma OneSegment(seg: string)
    requires SEPARATOR !in seg && seg != ""
    ensures RequestedIdExt([SEPARATOR] + seg) == DecodeSegment(seg)
  {
    assert Split([SEPARATOR] + seg, SEPARATOR) == ["", seg] by {
      assert [SEPARATOR] + seg == [] + [SEPARATOR] + seg;
      SplitAt([], seg, SEPARATOR);
      SplitPlain(seg, SEPARATOR);
    }
  }

  /** The encoding of a non-empty text is such a segment. */
  lemma EncodedSegment(s: string)
    requires s != ""
    ensures RequestedIdExt([SEPARATOR] + Encode(s)) == Some(s)
  {
    EncodeEmpty(s);
    assert SEPARATOR !in Encode(s);
    OneSegment(Encode(s));
    DecodeEncode(s);
  }

  lemma SplitThree(a: string, b: string)
    requires SEPARATOR !in a && SEPARATOR !in b
    ensures Split([SEPARATOR] + a + [SEPARATOR] + b, SEPARATOR) == ["", a, b]
  {
    assert [SEPARATOR] + a + [SEPARATOR] + b == [] + [SEPARATOR] + (a + [SEPARATOR] + b);
    SplitAt([], a + [SEPARATOR] + b, SEPARATOR);
    SplitAt(a, b, SEPARATOR);
    SplitPlain(b, SEPARATOR);
  }

  /** Requesting the path of a returned URL hands `get_file` the ID with
      the extension of the URL filename. */
  lemma RequestedOfFilePath(id: string, filename: string)
    requires IsFileId(id)
    ensures RequestedIdExt(FilePath(id, filename)) == Some(IdExtWithFilename(id, UrlFilename(filename)))
  {
    var u := UrlFilename(filename);
    FilePathSegments(id, filename);
    FileIdIsUnreserved(id);
    DecodeEncode(id);
    DecodeEncode(u);
    assert u != "" by {
      if '.' !in filename {
        assert |u| == |filename| + 4;
      }
    }
    EncodeEmpty(u);
  }

  /** The central consistency property: for a generated ID, requesting the
      path of the URL returned for an upload of `filename` makes `get_file`
      open exactly the name the upload was stored under, if and only if the
      filename satisfies UrlNameAgrees. */
  lemma UrlFindsStoredFile(id: string, filename: string)
    requires IsFileId(id)
    ensures RequestedIdExt(FilePath(id, filename)) == Some(StoredName(id, filename))
        <==> UrlNameAgrees(filename)
  {
    RequestedOfFilePath(id, filename);
    RetrievalNameMatches(id, UrlFilename(filename), filename);
    ExtensionAgreement(filename);
  }

  /** The extension of the URL filename is the stored extension exactly
      when UrlNameAgrees holds. */
  lemma ExtensionAgreement(filename: string)
    ensures Extension(UrlFilename(filename)).GetOr("") == StoredExtension(filename)
        <==> UrlNameAgrees(filename)
  {
    if '.' in filename {
      assert UrlFilename(filename) == filename;
      if Extension(filename).None? {
        assert StoredExtension(filename) == FALLBACK_EXTENSION;
      }
    } else {
      NoDotNoExtension(filename);
      assert UrlFilename(filename) == filename + ".bin";
      ExtensionOfAddedBin(filename);
    }
  }

  /** A filename without '.' is stored as ID.bin. */
  lemma UndottedStoredAsBin(id: string, filename: string)
    requires IsFileId(id)
    requires '.' !in filename
    ensures StoredName(id, filename) == id + Dotted(FALLBACK_EXTENSION)
    ensures BuildLocalPath(id, filename) == UPLOADS_FOLDER + [SEPARATOR] + id + Dotted(FALLBACK_EXTENSION)
  {
    NoDotNoExtension(filename);
    LocalPathIsStoredName(id, filename);
  }

  /** For a filename without '.' (ending in a normal character) the URL
      path is "/ID/" + encoded filename + ".bin", and that path leads back
      to ID.bin. */
  lemma UndottedUrlFindsBin(id: string, filename: string)
    requires IsFileId(id)
    requires '.' !in filename && EndsInName(filename)
    ensures FilePath(id, filename) == [SEPARATOR] + id + [SEPARATOR] + Encode(filename) + Dotted(FALLBACK_EXTENSION)
    ensures RequestedIdExt(FilePath(id, filename)) == Some(id + Dotted(FALLBACK_EXTENSION))
  {
    assert FilePath(id, filename) == [SEPARATOR] + id + [SEPARATOR] + Encode(filename) + Dotted(FALLBACK_EXTENSION) by {
      FileIdIsUnreserved(id);
    }
    assert StoredName(id, filename) == id + Dotted(FALLBACK_EXTENSION) by {
      NoDotNoExtension(filename);
    }
    UrlFindsStoredFile(id, filename);
  }

  lemma DotFileHasNoExtension()
    ensures Extension(".bashrc") == None
  {
    var name := ".bashrc";
    assert LastIndexOf(name, SEPARATOR, |name|) == -1;
    assert name[0..|name|] == name;
    assert NameSpan(name) == Some((0, |name|));
    assert name[0] == '.' && forall j :: 1 <= j < |name| ==> name[j] != '.';
    assert LastIndexOf(name, '.', |name|) == 0;
  }

  lemma ParentHasNoFileName()
    ensures NameSpan("..") == None
  {
    assert LastIndexOf("..", SEPARATOR, 2) == -1;
    assert ".."[0..2] == "..";
  }

  lemma EarlierDotHasNoExtension()
    ensures Extension("a.b/c") == None
  {
    var name := "a.b/c";
    assert LastIndexOf(name, SEPARATOR, |name|) == 3;
    assert name[4..|name|] == "c";
    assert LastIndexOf("c", '.', 1) == -1;
  }

  /** The failing names: a dot-file with no other dot, "..", a dot only in
      an earlier component, the empty name and a name ending in a
      separator. Each is stored as ID.bin while its URL leads elsewhere. */
  lemma UrlMissesStoredFile(filename: string)
    requires filename in [".bashrc", "..", "a.b/c", "", "notes/"]
    ensures !UrlNameAgrees(filename)
  {
    if filename == ".bashrc" {
      DotFileHasNoExtension();
      assert filename[0] == '.';
    } else if filename == ".." {
      ParentHasNoFileName();
      assert filename[0] == '.';
    } else if filename == "a.b/c" {
      EarlierDotHasNoExtension();
      assert filename[1] == '.';
    } else if filename == "notes/" {
      assert filename[5] == SEPARATOR && forall j :: 0 <= j < |filename| ==> filename[j] != '.';
    }
  }

  /** A name with a '.' but no extension gets no ".bin" in its URL, so the
      request asks for the bare ID, while the upload was stored as ID.bin. */
  lemma UrlOfDottedNameWithoutExtension(id: string, filename: string)
    requires IsFileId(id)
    requires '.' in filename && Extension(filename) == None
    ensures StoredName(id, filename) == id + Dotted(FALLBACK_EXTENSION)
    ensures RequestedIdExt(FilePath(id, filename)) == Some(id)
  {
    assert UrlFilename(filename) == filename;
    assert IdExtWithFilename(id, filename) == id;
    RequestedOfFilePath(id, filename);
  }

  /** The dot-file case made concrete: an upload of ".bashrc" is stored as
      ID.bin, yet its URL asks for the bare ID. */
  lemma DotFileExample(id: string)
    requires IsFileId(id)
    ensures StoredName(id, ".bashrc") == id + Dotted(FALLBACK_EXTENSION)
    ensures RequestedIdExt(FilePath(id, ".bashrc")) == Some(id)
  {
    DotFileHasNoExtension();
    assert ".bashrc"[0] == '.';
    UrlOfDottedNameWithoutExtension(id, ".bashrc");
  }

  /** The name such a URL asks for can exist: an upload whose filename has
      an empty extension ("notes.") is stored under the bare ID, so under a
      shared ID the URL of one upload serves the other. */
  lemma UrlServesEmptyExtensionUpload(id: string, dotted: string, empty: string)
    requires IsFileId(id)
    requires '.' in dotted && Extension(dotted) == None
    requires Extension(empty) == Some("")
    ensures RequestedIdExt(FilePath(id, dotted)) == Some(StoredName(id, empty))
    ensures StoredName(id, dotted) != StoredName(id, empty)
  {
    UrlOfDottedNameWithoutExtension(id, dotted);
    assert StoredName(id, empty) == id;
    assert |StoredName(id, dotted)| > |id| by {
      FallbackIsPlain();
    }
  }
}
