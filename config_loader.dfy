/**
 * `get_local_downloaded_file_path` and `check_annotation_file_status` of
 * cotton_toolkit/config/loader.py: where a downloaded genome file is
 * expected on disk, and how far its download got. Paths follow POSIX
 * `os.path`; the file system is a parameter giving each existing path's size.
 */
module ConfigLoader {
  import opened Wrappers
  import opened PyText

  /**
   * A genome source entry: its species name and the attributes `getattr`
   * finds (`None` for an attribute set to `None`; a missing key is a
   * missing attribute).
   */
  datatype GenomeInfo = GenomeInfo(speciesName: string, attrs: map<string, Option<string>>)

  datatype FileStatus = NotApplicable | Complete | Incomplete | Missing

  /** `getattr(info, name, None)` */
  function Attr(info: GenomeInfo, name: string): Option<string> {
    if name in info.attrs then info.attrs[name] else None
  }

  /** The characters the species name may not keep: backslash, slash, star, question mark, colon, double quote, angle brackets, bar and space. */
  predicate Forbidden(c: char) {
    c == '\\' || c == '/' || c == '*' || c == '?' || c == ':' || c == '"' || c == '<' || c == '>' || c == '|' || c == ' '
  }

  /** The regular-expression substitution of each forbidden character by `_`, then `.replace(" ", "_")`. */
  function Sanitize(s: string): (r: string)
    ensures |r| == |s|
    ensures forall i :: 0 <= i < |s| ==> r[i] == if Forbidden(s[i]) then '_' else s[i]
  {
    if s == [] then [] else [if Forbidden(s[0]) then '_' else s[0]] + Sanitize(s[1..])
  }

  /** The directory for the genome's version: `version_id` if truthy, else the sanitized species name, else `unknown_genome`. */
  function VersionDir(info: GenomeInfo): (d: string)
    ensures d != ""
  {
    var id := Attr(info, "version_id");
    if id.Some? && id.value != "" then id.value
    else if info.speciesName != "" then Sanitize(info.speciesName)
    else "unknown_genome"
  }

  /** POSIX `os.path.basename`: the text after the last `/`. */
  function Basename(p: string): (r: string)
    ensures '/' !in r
    ensures |r| <= |p| && p[|p| - |r|..] == r
    ensures |r| < |p| ==> p[|p| - |r| - 1] == '/'
    decreases |p|
  {
    if p == [] || p[|p| - 1] == '/' then []
    else
      var r := Basename(p[..|p| - 1]);
      assert p[..|p| - 1][|p| - 1 - |r|..] == p[|p| - 1 - |r|..|p| - 1];
      r + [p[|p| - 1]]
  }

  /** POSIX `os.path.join(a, b)`: an absolute `b` replaces `a`; otherwise one `/` goes between them unless `a` is empty or ends in one. */
  function JoinPath(a: string, b: string): (r: string)
    ensures a != "" || b != "" ==> r != ""
  {
    if StartsWith(b, "/") then b
    else if a == "" || a[|a| - 1] == '/' then a + b
    else a + "/" + b
  }

  /** The expected local path of the genome's `<fileKey>_url` file under `baseDir`, if it has a URL. */
  function LocalPath(baseDir: string, info: GenomeInfo, fileKey: string): Option<string> {
    var url := Attr(info, fileKey + "_url");
    if url.None? || url.value == "" then None
    else Some(JoinPath(JoinPath(baseDir, VersionDir(info)), Basename(url.value)))
  }

  /** The download state of a file, given the size of each path that exists. */
  function Status(baseDir: string, info: GenomeInfo, fileType: string, size: string -> Option<nat>): (s: FileStatus)
    ensures s == NotApplicable <==> LocalPath(baseDir, info, fileType).None?
    ensures s == Complete <==> exists p :: LocalPath(baseDir, info, fileType) == Some(p) && size(p).Some? && size(p).value > 0
    ensures s == Incomplete <==> exists p :: LocalPath(baseDir, info, fileType) == Some(p) && size(p) == Some(0)
    ensures s == Missing <==> exists p :: LocalPath(baseDir, info, fileType) == Some(p) && size(p).None?
  {
    var p := LocalPath(baseDir, info, fileType);
    if p.None? || p.value == "" then NotApplicable
    else if size(p.value).Some? then
      if size(p.value).value > 0 then Complete else Incomplete
    else Missing
  }

  // ----- Properties -----

  /** There is a path exactly when the `<fileKey>_url` attribute exists and is a non-empty text. */
  lemma PathExists(baseDir: string, info: GenomeInfo, fileKey: string)
    ensures LocalPath(baseDir, info, fileKey).Some? <==>
      (fileKey + "_url") in info.attrs && info.attrs[fileKey + "_url"].Some? && info.attrs[fileKey + "_url"].value != ""
  {
  }

  /** `/` never appears in a basename, so joining it keeps it as the last path component. */
  lemma BasenameOfJoin(a: string, f: string)
    requires '/' !in f
    ensures Basename(JoinPath(a, f)) == f
  {
    if a == "" || a[|a| - 1] == '/' {
      BasenameAfterSlash(a, f);
    } else {
      BasenameAfterSlash(a + "/", f);
    }
  }

  lemma BasenameSnoc(p: string, c: char)
    requires c != '/'
    ensures Basename(p + [c]) == Basename(p) + [c]
  {
    assert (p + [c])[..|p|] == p;
  }

  /** Whatever follows the last `/` (or the start) is the basename. */
  lemma {:induction false} BasenameAfterSlash(x: string, f: string)
    requires '/' !in f && (x == [] || x[|x| - 1] == '/')
    ensures Basename(x + f) == f
    decreases |f|
  {
    if f == [] {
      assert x + f == x;
    } else {
      var f', c := f[..|f| - 1], f[|f| - 1];
      assert c in f;
      assert x + f == (x + f') + [c] && f == f' + [c];
      BasenameAfterSlash(x, f');
      BasenameSnoc(x + f', c);
    }
  }

  /**
   * A path is the version directory under the base directory, then the
   * URL's last component; its own last component is that of the URL.
   */
  lemma PathShape(baseDir: string, info: GenomeInfo, fileKey: string)
    requires LocalPath(baseDir, info, fileKey).Some?
    ensures var url := Attr(info, fileKey + "_url").value;
      var p := LocalPath(baseDir, info, fileKey).value;
      p == JoinPath(JoinPath(baseDir, VersionDir(info)), Basename(url))
      && Basename(p) == Basename(url) && p != ""
  {
    var url := Attr(info, fileKey + "_url").value;
    BasenameOfJoin(JoinPath(baseDir, VersionDir(info)), Basename(url));
  }

  /** A directory name made from the species name has the name's length and none of the forbidden characters. */
  lemma SanitizedClean(s: string)
    ensures |Sanitize(s)| == |s|
    ensures forall i :: 0 <= i < |Sanitize(s)| ==> !Forbidden(Sanitize(s)[i])
    ensures forall i :: 0 <= i < |s| && !Forbidden(s[i]) ==> Sanitize(s)[i] == s[i]
  {
  }

  /** Sanitizing twice is sanitizing once. */
  lemma SanitizeIdempotent(s: string)
    ensures Sanitize(Sanitize(s)) == Sanitize(s)
  {
  }

  /** Whenever a path exists it is not empty, so `not_applicable` means exactly that the genome has no such URL. */
  lemma NotApplicableMeansNoUrl(baseDir: string, info: GenomeInfo, fileType: string, size: string -> Option<nat>)
    ensures Status(baseDir, info, fileType, size) == NotApplicable <==>
      (var url := Attr(info, fileType + "_url"); url.None? || url.value == "")
  {
  }
}
