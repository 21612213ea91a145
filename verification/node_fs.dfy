/**
 * The Node `fs` primitives lib/basic-storage/index.js calls (`access`,
 * `readFile`, `writeFile`, `unlink`), over an abstract file system: a set of
 * existing directories and a map from file path to contents. Errors carry the
 * POSIX code, the system call and the path, as Node's error objects do.
 */
module NodeFs {
  import opened Wrappers
  import opened Buffers
  import NodePath

  datatype IoError = IoError(code: string, syscall: string, path: string)

  /** `cwd` is what `process.cwd()` returns. */
  datatype FileSystem = FileSystem(cwd: string, dirs: set<string>, files: map<string, Bytes>)

  /** The directory a path names its entry in; None when the path has no slash. */
  function ParentDirectory(p: string): Option<string> {
    match NodePath.LastIndexOf(p, '/')
    case None => None
    case Some(k) => Some(p[..k])
  }

  /** A path can be created or replaced when it is not a directory and its parent exists. */
  predicate Writable(fs: FileSystem, p: string) {
    p !in fs.dirs && (ParentDirectory(p).None? || ParentDirectory(p).value == "" || ParentDirectory(p).value in fs.dirs)
  }

  /** `fs.access(p, F_OK)`: succeeds for any existing file or directory. */
  function Access(fs: FileSystem, p: string): (err: Option<IoError>)
    ensures err.None? <==> p in fs.files || p in fs.dirs
  {
    if p in fs.files || p in fs.dirs then None else Some(IoError("ENOENT", "access", p))
  }

  /** `fs.readFile(p)`. */
  function ReadFile(fs: FileSystem, p: string): (r: Result<Bytes, IoError>)
    ensures r.Success? <==> p in fs.files
    ensures r.Success? ==> r.value == fs.files[p]
    ensures r.Failure? ==> r.error.path == p
  {
    if p in fs.files then Success(fs.files[p])
    else if p in fs.dirs then Failure(IoError("EISDIR", "read", p))
    else Failure(IoError("ENOENT", "open", p))
  }

  /** `fs.writeFile(p, data)`: creates or truncates the file. */
  function WriteFile(fs: FileSystem, p: string, data: Bytes): (r: (Option<IoError>, FileSystem))
    ensures r.0.None? <==> Writable(fs, p)
    ensures r.0.None? ==> r.1 == fs.(files := fs.files[p := data])
    ensures r.0.Some? ==> r.1 == fs && r.0.value.path == p
  {
    if p in fs.dirs then (Some(IoError("EISDIR", "open", p)), fs)
    else if !Writable(fs, p) then (Some(IoError("ENOENT", "open", p)), fs)
    else (None, fs.(files := fs.files[p := data]))
  }

  /** `fs.unlink(p)`: removes a file; directories and missing paths are errors. */
  function Unlink(fs: FileSystem, p: string): (r: (Option<IoError>, FileSystem))
    ensures r.0.None? <==> p in fs.files
    ensures r.1 == fs.(files := fs.files - {p})
  {
    if p in fs.files then (None, fs.(files := fs.files - {p}))
    else if p in fs.dirs then (Some(IoError("EISDIR", "unlink", p)), fs)
    else (Some(IoError("ENOENT", "unlink", p)), fs)
  }
}
