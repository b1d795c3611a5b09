/** The parts of Rust's `std::path` (Unix flavour, '/' the only separator)
    that the server relies on: `Path::file_name`, `Path::extension`,
    `Path::file_stem`, `PathBuf::set_extension` / `Path::with_extension` and
    `Path::join`. Paths are strings; no file system is consulted. */
module StdPath {
  import opened Wrappers

  const SEPARATOR := '/'

  /** Index of the last occurrence of `c` among the first `end` characters
      of `s`, or -1 when there is none. */
  function LastIndexOf(s: string, c: char, end: nat): (k: int)
    requires end <= |s|
    ensures -1 <= k < end
    ensures 0 <= k ==> s[k] == c
    ensures forall j :: k < j < end ==> s[j] != c
  {
    if end == 0 then -1
    else if s[end - 1] == c then end - 1
    else LastIndexOf(s, c, end - 1)
  }

  /** Where the final component of the first `end` characters of `p` sits,
      as a half-open range, when that component is a normal name.
      Components are the non-empty pieces between separators; "." pieces are
      skipped (they are normalised away), and a final ".." is not a name, nor
      is anything when only separators and "." remain. */
  function NameSpanWithin(p: string, end: nat): (r: Option<(nat, nat)>)
    requires end <= |p|
    ensures r.Some? ==> var (a, b) := r.value;
      && a < b <= end
      && (a == 0 || p[a - 1] == SEPARATOR)
      && (forall i :: a <= i < b ==> p[i] != SEPARATOR)
      && IsNormalPiece(p[a..b])
    decreases end
  {
    var i := LastIndexOf(p, SEPARATOR, end);
    var piece := p[i + 1..end];
    if piece == [] || IsCurDir(piece) then
      if i < 0 then None else NameSpanWithin(p, i)
    else if IsParentDir(piece) then None
    else Some((i + 1, end))
  }

  /** The piece ".". */
  predicate IsCurDir(piece: string) {
    |piece| == 1 && piece[0] == '.'
  }

  /** The piece "..". */
  predicate IsParentDir(piece: string) {
    |piece| == 2 && piece[0] == '.' && piece[1] == '.'
  }

  /** A piece that is a name: not empty, not "." and not "..". */
  predicate IsNormalPiece(piece: string) {
    piece != [] && !IsCurDir(piece) && !IsParentDir(piece)
  }

  /** `Path::file_name`, as a range of `p`. */
  function NameSpan(p: string): Option<(nat, nat)> {
    NameSpanWithin(p, |p|)
  }

  /** Where `rsplit_file_at_dot` cuts a file name: at its last '.', unless
      there is none or the only one is the leading character, in which case
      -1 (the whole name is the stem and there is no extension). */
  function DotCut(name: string): (k: int)
    ensures k == -1 || 0 < k < |name|
    ensures 0 < k ==> name[k] == '.'
    ensures k == -1 <==> forall j :: 0 < j < |name| ==> name[j] != '.'
    ensures 0 < k ==> forall j :: k < j < |name| ==> name[j] != '.'
  {
    var k := LastIndexOf(name, '.', |name|);
    if k <= 0 then -1 else k
  }

  /** `Path::extension`: the text after the last '.' of the file name; none
      when there is no file name, no '.', or only a leading '.'. */
  function Extension(p: string): Option<string> {
    match NameSpan(p)
    case None => None
    case Some((a, b)) =>
      var k := DotCut(p[a..b]);
      if k == -1 then None else Some(p[a + k + 1..b])
  }

  /** End of `Path::file_stem` within `p`: the file name up to its cut. */
  function StemEnd(p: string): (e: Option<nat>)
    ensures e.Some? ==> e.value <= |p|
  {
    match NameSpan(p)
    case None => None
    case Some((a, b)) =>
      var k := DotCut(p[a..b]);
      Some(if k == -1 then b else a + k)
  }

  /** "." followed by `ext`, or nothing for an empty `ext`. */
  function Dotted(ext: string): string {
    if ext == "" then "" else "." + ext
  }

  /** `PathBuf::set_extension` (and `Path::with_extension`, which applies it
      to a copy): when `p` has a file stem, cut `p` right after it and append
      "." + `ext` unless `ext` is empty; otherwise leave `p` as it is. */
  function SetExtension(p: string, ext: string): string {
    match StemEnd(p)
    case None => p
    case Some(e) => p[..e] + Dotted(ext)
  }

  /** `Path::join`: an absolute `p` replaces `base`; otherwise `p` is
      appended, with a separator unless `base` is empty or already ends in
      one. */
  function Join(base: string, p: string): string {
    if |p| > 0 && p[0] == SEPARATOR then p
    else if base == [] || base[|base| - 1] == SEPARATOR then base + p
    else base + [SEPARATOR] + p
  }

  // ---------------------------------------------------------------------
  // Properties

  /** An extension never holds a separator or a '.'. */
  lemma ExtensionIsPlain(p: string)
    requires Extension(p).Some?
    ensures SEPARATOR !in Extension(p).value && '.' !in Extension(p).value
  {
    var (a, b) := NameSpan(p).value;
    var name := p[a..b];
    var k := DotCut(name);
    var ext := Extension(p).value;
    assert ext == name[k + 1..];
    forall j | 0 <= j < |ext| ensures ext[j] != SEPARATOR && ext[j] != '.' {
      assert ext[j] == name[k + 1 + j];
    }
  }

  lemma LastIndexOfAbsent(s: string, c: char)
    requires c !in s
    ensures LastIndexOf(s, c, |s|) == -1
  {
  }

  lemma LastIndexOfAppend(a: string, b: string, c: char)
    requires c !in b
    ensures LastIndexOf(a + b, c, |a + b|) == LastIndexOf(a, c, |a|)
  {
    assert forall j :: |a| <= j < |a + b| ==> (a + b)[j] == b[j - |a|];
    assert forall j :: 0 <= j < |a| ==> (a + b)[j] == a[j];
  }

  /** A plain name: non-empty, without separators and without dots. */
  predicate IsPlainName(s: string) {
    s != [] && SEPARATOR !in s && '.' !in s
  }

  lemma NormalPiece(piece: string)
    requires |piece| > 2 || (piece != [] && piece[0] != '.')
    ensures IsNormalPiece(piece)
  {
  }

  /** When what follows the last separator is a name, it is the file name. */
  lemma NameSpanOfLastPiece(p: string, end: nat)
    requires end <= |p|
    requires IsNormalPiece(p[LastIndexOf(p, SEPARATOR, end) + 1..end])
    ensures NameSpanWithin(p, end) == Some((LastIndexOf(p, SEPARATOR, end) + 1, end))
  {
  }

  /** A final piece of more than two characters is the file name. */
  lemma NameSpanOfLongLastPiece(p: string, i: int)
    requires i == LastIndexOf(p, SEPARATOR, |p|) && i + 3 < |p|
    ensures NameSpanWithin(p, |p|) == Some((i + 1, |p|))
  {
    var piece := p[i + 1..|p|];
    assert |piece| > 2;
    NormalPiece(piece);
    assert IsNormalPiece(p[LastIndexOf(p, SEPARATOR, |p|) + 1..|p|]);
    NameSpanOfLastPiece(p, |p|);
  }

  /** A plain name right after `dir` is the file name of `dir` + name. */
  lemma NameSpanOfPlainSuffix(dir: string, s: string)
    requires IsPlainName(s)
    requires dir == [] || dir[|dir| - 1] == SEPARATOR
    ensures NameSpan(dir + s) == Some((|dir|, |dir| + |s|))
  {
    var p := dir + s;
    assert LastIndexOf(p, SEPARATOR, |p|) == |dir| - 1 by {
      LastIndexOfAppend(dir, s, SEPARATOR);
    }
    assert p[|dir|..|p|] == s;
    NormalPiece(s);
    NameSpanOfLastPiece(p, |p|);
  }

  /** When the final component starts right after `dir` and is a plain name,
      setting an extension simply appends it (the generated file IDs are
      such names). */
  lemma SetExtensionOfPlainName(dir: string, s: string, ext: string)
    requires IsPlainName(s)
    requires dir == [] || dir[|dir| - 1] == SEPARATOR
    ensures NameSpan(dir + s) == Some((|dir|, |dir| + |s|))
    ensures SetExtension(dir + s, ext) == dir + s + Dotted(ext)
    ensures Extension(dir + s) == None
  {
    var p := dir + s;
    NameSpanOfPlainSuffix(dir, s);
    assert p[|dir|..|dir| + |s|] == s;
    LastIndexOfAbsent(s, '.');
    assert DotCut(s) == -1;
    assert StemEnd(p) == Some(|p|);
    assert p[..|p|] == p;
  }
}
