/**
 * lib/basic-storage/index.js: file access relative to the working directory,
 * one sub-directory ("container") per group of files, and the generation of
 * unique file names. Success and failure are reported the way the source's
 * callbacks report them: a boolean for `checkIfExists` and `deleteFile`, the
 * untouched `fs` error for `readFileData` and `writeFileData`.
 */
module BasicStorage {
  import opened Wrappers
  import opened Buffers
  import opened NodeFs
  import NodePath
  import Hex

  /**
   * `getFilePath`: the absolute path of a file, the working directory first,
   * then the container, the file name last.
   */
  function GetFilePath(cwd: string, container: string, fileName: string): (p: string)
    ensures |p| == |cwd| + |container| + |fileName| + 2
    ensures p[..|cwd| + 1] == cwd + "/"
    ensures p[|p| - |fileName| - 1..] == "/" + fileName
  {
    cwd + "/" + container + "/" + fileName
  }

  /** Within one container, different file names never address the same path, and the same name always does. */
  lemma {:induction false} FilePathsDistinct(cwd: string, container: string, a: string, b: string)
    ensures GetFilePath(cwd, container, a) == GetFilePath(cwd, container, b) <==> a == b
  {
    if GetFilePath(cwd, container, a) == GetFilePath(cwd, container, b) {
      var k := |cwd| + |container| + 2;
      assert |a| == |b|;
      assert GetFilePath(cwd, container, a)[k..] == a;
      assert GetFilePath(cwd, container, b)[k..] == b;
    }
  }

  /** A file name without a slash is the last segment of its path, inside the container's directory. */
  lemma FilePathParts(cwd: string, container: string, fileName: string)
    requires '/' !in fileName
    ensures NodePath.LastSegment(GetFilePath(cwd, container, fileName)) == fileName
    ensures ParentDirectory(GetFilePath(cwd, container, fileName)) == Some(cwd + "/" + container)
  {
    var dir := cwd + "/" + container;
    assert GetFilePath(cwd, container, fileName) == dir + "/" + fileName;
    NodePath.LastSlashBeforeName(dir, fileName);
    assert (dir + "/" + fileName)[..|dir|] == dir;
  }

  /** `checkIfExists`: true exactly when `fs.access` reports no error. */
  function CheckIfExists(fs: FileSystem, container: string, fileName: string): (found: bool)
    ensures found <==> GetFilePath(fs.cwd, container, fileName) in fs.files
                       || GetFilePath(fs.cwd, container, fileName) in fs.dirs
  {
    Access(fs, GetFilePath(fs.cwd, container, fileName)).None?
  }

  /** `readFileData`: the file's contents, or the `fs` error about its path. */
  function ReadFileData(fs: FileSystem, container: string, fileName: string): (r: Result<Bytes, IoError>)
    ensures r.Success? <==> GetFilePath(fs.cwd, container, fileName) in fs.files
    ensures r.Success? ==> r.value == fs.files[GetFilePath(fs.cwd, container, fileName)]
    ensures r.Failure? ==> r.error.path == GetFilePath(fs.cwd, container, fileName)
  {
    ReadFile(fs, GetFilePath(fs.cwd, container, fileName))
  }

  /** `writeFileData`: replaces the file's contents, or reports the `fs` error and changes nothing. */
  function WriteFileData(fs: FileSystem, container: string, fileName: string, data: Bytes): (r: (Option<IoError>, FileSystem))
    ensures r.0.None? <==> Writable(fs, GetFilePath(fs.cwd, container, fileName))
    ensures r.0.None? ==> r.1.cwd == fs.cwd && r.1.dirs == fs.dirs
                          && r.1.files == fs.files[GetFilePath(fs.cwd, container, fileName) := data]
    ensures r.0.Some? ==> r.1 == fs && r.0.value.path == GetFilePath(fs.cwd, container, fileName)
  {
    WriteFile(fs, GetFilePath(fs.cwd, container, fileName), data)
  }

  /** `deleteFile`: true exactly when the file existed; the `fs` error itself is dropped. */
  function DeleteFile(fs: FileSystem, container: string, fileName: string): (r: (bool, FileSystem))
    ensures r.0 <==> GetFilePath(fs.cwd, container, fileName) in fs.files
    ensures r.1.cwd == fs.cwd && r.1.dirs == fs.dirs
    ensures r.1.files == fs.files - {GetFilePath(fs.cwd, container, fileName)}
  {
    var (err, fs') := Unlink(fs, GetFilePath(fs.cwd, container, fileName));
    (err.None?, fs')
  }

  /** The shape of a `uuid.v4()` string (section 4.4 of RFC 4122, lower case). */
  predicate IsUuid(u: string) {
    |u| == 36 && forall i :: 0 <= i < 36 ==> UuidCharAt(i, u[i])
  }

  predicate UuidCharAt(i: int, c: char) {
    if i == 8 || i == 13 || i == 18 || i == 23 then c == '-'
    else if i == 14 then c == '4'
    else if i == 19 then c == '8' || c == '9' || c == 'a' || c == 'b'
    else Hex.IsLowerDigit(c)
  }

  lemma UuidHasNoDotOrSlash(u: string)
    requires IsUuid(u)
    ensures '.' !in u && '/' !in u
  {
    forall i | 0 <= i < |u|
      ensures u[i] != '.' && u[i] != '/'
    {
      assert UuidCharAt(i, u[i]);
    }
  }

  /** A uuid followed by an extension has exactly that extension. */
  lemma ExtnameAfterUuid(u: string, e: string)
    requires IsUuid(u)
    requires e == "" || (e[0] == '.' && '.' !in e[1..])
    requires '/' !in e
    ensures NodePath.Extname(u + e) == e
  {
    UuidHasNoDotOrSlash(u);
    NodePath.ExtnameOfStem(u, e);
  }

  /** `genUniqueName`: a fresh uuid followed by the original name's extension. */
  function GenUniqueName(uuid: string, fileName: string): (r: string)
    requires IsUuid(uuid)
    ensures NodePath.Extname(r) == NodePath.Extname(fileName)
    ensures |r| == 36 + |NodePath.Extname(fileName)| && r[..36] == uuid
    ensures '/' !in r
  {
    UuidHasNoDotOrSlash(uuid);
    var e := NodePath.Extname(fileName);
    ExtnameAfterUuid(uuid, e);
    uuid + e
  }
}
