/**
 * lib/secure-storage/functions.js: encrypt-then-write and read-then-decrypt on
 * top of the basic storage, the upload pipeline that validates a multipart
 * upload before it stores anything, and the download that sends a stored file
 * back decrypted with attachment headers.
 */
module SecureStorage {
  import opened Wrappers
  import opened Buffers
  import opened NodeFs
  import opened BasicStorage
  import opened FormFileParser
  import opened Aes
  import NodePath

  /** The configuration fields the pipeline reads; an absent optional field disables its check. */
  datatype SecureConfig = SecureConfig(
    root: string,
    nameMakeUnique: bool,
    maxFileSize: Option<int>,
    allowedContentTypes: Option<seq<string>>,
    allowedExtensions: Option<seq<string>>,
    byteKey: Bytes)

  /** The `{status}` object an upload is refused with. */
  datatype UploadError = UploadError(status: string)

  const PreconditionFailed := UploadError("412")
  const PayloadTooLarge := UploadError("413")
  const WriteFailed := UploadError("500")

  /** What an accepted upload reports: the descriptor spread out together with the form fields. */
  datatype StoredFile = StoredFile(file: FileDescriptor, fields: map<string, string>)

  // ---------------------------------------------------------------------------
  // Encrypted storage

  /** `secureReadFileData`: the decryption of the stored octets, or the read error unchanged. */
  function SecureReadFileData(fs: FileSystem, container: string, fileName: string, key: Bytes, aes: BlockCipher)
    : (r: Result<Bytes, IoError>)
    ensures r.Success? <==> GetFilePath(fs.cwd, container, fileName) in fs.files
    ensures r.Success? ==> EncryptData(aes, key, r.value) == fs.files[GetFilePath(fs.cwd, container, fileName)]
    ensures r.Failure? ==> r.error == ReadFileData(fs, container, fileName).error
  {
    match ReadFileData(fs, container, fileName)
    case Failure(e) => Failure(e)
    case Success(stored) =>
      EncryptDecrypt(aes, key, stored);
      Success(DecryptData(aes, key, stored))
  }

  /** `secureWriteFileData`: only the encryption of the data reaches the file system. */
  function SecureWriteFileData(fs: FileSystem, container: string, fileName: string, key: Bytes, data: Bytes, aes: BlockCipher)
    : (r: (Option<IoError>, FileSystem))
    ensures r.0.None? <==> Writable(fs, GetFilePath(fs.cwd, container, fileName))
    ensures r.0.None? ==> r.1 == fs.(files := fs.files[GetFilePath(fs.cwd, container, fileName) := EncryptData(aes, key, data)])
    ensures r.0.None? ==> DecryptData(aes, key, r.1.files[GetFilePath(fs.cwd, container, fileName)]) == data
    ensures r.0.Some? ==> r.1 == fs
  {
    DecryptEncrypt(aes, key, data);
    WriteFileData(fs, container, fileName, EncryptData(aes, key, data))
  }

  /** `secureDeleteFileData`: a plain delete (no overwrite before unlinking). */
  function SecureDeleteFileData(fs: FileSystem, container: string, fileName: string): (r: (bool, FileSystem))
    ensures r.0 <==> GetFilePath(fs.cwd, container, fileName) in fs.files
    ensures r.1 == fs.(files := fs.files - {GetFilePath(fs.cwd, container, fileName)})
  {
    DeleteFile(fs, container, fileName)
  }

  /**
   * The abstraction the composition keeps: the file system holds, at every path,
   * the encryption under `key` of that path's plaintext, and nothing else.
   */
  ghost predicate StoresCiphertextOf(fs: FileSystem, plain: map<string, Bytes>, aes: BlockCipher, key: Bytes) {
    && fs.files.Keys == plain.Keys
    && forall p :: p in plain ==> fs.files[p] == EncryptData(aes, key, plain[p])
  }

  /** Reading through the composition yields the plaintext a path stands for. */
  lemma ReadGivesPlaintext(fs: FileSystem, plain: map<string, Bytes>, aes: BlockCipher, key: Bytes, container: string, fileName: string)
    requires StoresCiphertextOf(fs, plain, aes, key)
    ensures var p := GetFilePath(fs.cwd, container, fileName);
            SecureReadFileData(fs, container, fileName, key, aes)
              == if p in plain then Success(plain[p]) else Failure(ReadFileData(fs, container, fileName).error)
  {
    var p := GetFilePath(fs.cwd, container, fileName);
    if p in plain {
      DecryptEncrypt(aes, key, plain[p]);
    }
  }

  /** A write keeps the abstraction, with the path now standing for the written plaintext. */
  lemma WriteKeepsCiphertextOnly(fs: FileSystem, plain: map<string, Bytes>, aes: BlockCipher, key: Bytes,
                                 container: string, fileName: string, data: Bytes)
    requires StoresCiphertextOf(fs, plain, aes, key)
    ensures var (err, fs') := SecureWriteFileData(fs, container, fileName, key, data, aes);
            StoresCiphertextOf(fs', if err.None? then plain[GetFilePath(fs.cwd, container, fileName) := data] else plain, aes, key)
  {
  }

  /** A delete keeps the abstraction, with the path removed. */
  lemma DeleteKeepsCiphertextOnly(fs: FileSystem, plain: map<string, Bytes>, aes: BlockCipher, key: Bytes,
                                  container: string, fileName: string)
    requires StoresCiphertextOf(fs, plain, aes, key)
    ensures StoresCiphertextOf(SecureDeleteFileData(fs, container, fileName).1,
                               plain - {GetFilePath(fs.cwd, container, fileName)}, aes, key)
  {
  }

  /** Write then read with the same key gives the written data back. */
  lemma WriteThenRead(fs: FileSystem, container: string, fileName: string, key: Bytes, data: Bytes, aes: BlockCipher)
    requires SecureWriteFileData(fs, container, fileName, key, data, aes).0.None?
    ensures SecureReadFileData(SecureWriteFileData(fs, container, fileName, key, data, aes).1, container, fileName, key, aes)
            == Success(data)
  {
    var fs' := SecureWriteFileData(fs, container, fileName, key, data, aes).1;
    var r := SecureReadFileData(fs', container, fileName, key, aes);
    DecryptEncrypt(aes, key, data);
    assert r.value == DecryptData(aes, key, EncryptData(aes, key, r.value));
  }

  // ---------------------------------------------------------------------------
  // Upload validation

  /** `maxFileSize && ...`: an absent limit and a limit of 0 are both falsy and disable the check. */
  predicate SizeLimitSet(maxFileSize: Option<int>) {
    maxFileSize.Some? && maxFileSize.value != 0
  }

  /** The checks of an upload, in the order the pipeline runs them. */
  datatype Check = FileCount | ContentType | Extension | FileSize

  const CheckOrder: seq<Check> := [FileCount, ContentType, Extension, FileSize]

  /** Whether one check, on its own, refuses the parsed files. */
  predicate Refuses(cfg: SecureConfig, files: seq<FileDescriptor>, c: Check) {
    match c
    case FileCount => |files| != 1
    case ContentType =>
      |files| == 1 && cfg.allowedContentTypes.Some? && files[0].fileMime !in cfg.allowedContentTypes.value
    case Extension =>
      |files| == 1 && cfg.allowedExtensions.Some?
      && NodePath.ExtensionOf(files[0].fileName) !in cfg.allowedExtensions.value
    case FileSize =>
      |files| == 1 && SizeLimitSet(cfg.maxFileSize) && files[0].fileSize > cfg.maxFileSize.value
  }

  /** The status each check refuses with. */
  function StatusFor(c: Check): UploadError {
    if c == FileSize then PayloadTooLarge else PreconditionFailed
  }

  /** The position of the first check in `checks` that refuses, if any. */
  function FirstRefusal(cfg: SecureConfig, files: seq<FileDescriptor>, checks: seq<Check>): (r: Option<nat>)
    ensures r.Some? ==> r.value < |checks| && Refuses(cfg, files, checks[r.value])
                        && forall j :: 0 <= j < r.value ==> !Refuses(cfg, files, checks[j])
    ensures r.None? ==> forall j :: 0 <= j < |checks| ==> !Refuses(cfg, files, checks[j])
  {
    if |checks| == 0 then None
    else if Refuses(cfg, files, checks[0]) then Some(0)
    else
      match FirstRefusal(cfg, files, checks[1..])
      case None => None
      case Some(k) => Some(k + 1)
  }

  /**
   * The checks `saveAsEncryptedHTTPFile` runs before storing anything: an
   * accepted upload yields its single file, and a refusal is 412 or 413.
   */
  function Validate(cfg: SecureConfig, files: seq<FileDescriptor>): (r: Result<FileDescriptor, UploadError>)
    ensures r.Success? ==> |files| == 1 && r.value == files[0]
    ensures r.Failure? ==> r.error == PreconditionFailed || r.error == PayloadTooLarge
    ensures |files| != 1 ==> r == Failure(PreconditionFailed)
  {
    if |files| != 1 then
      Failure(PreconditionFailed)
    else
      var file := files[0];
      if cfg.allowedContentTypes.Some? && file.fileMime !in cfg.allowedContentTypes.value then
        Failure(PreconditionFailed)
      else if cfg.allowedExtensions.Some? && NodePath.ExtensionOf(file.fileName) !in cfg.allowedExtensions.value then
        Failure(PreconditionFailed)
      else if SizeLimitSet(cfg.maxFileSize) && file.fileSize > cfg.maxFileSize.value then
        Failure(PayloadTooLarge)
      else
        Success(file)
  }

  /**
   * The first failure wins: the upload is refused with the status of the first
   * check, in `CheckOrder`, that refuses it, and accepted exactly when none does.
   */
  lemma ValidateIsFirstRefusal(cfg: SecureConfig, files: seq<FileDescriptor>)
    ensures FirstRefusal(cfg, files, CheckOrder).Some? ==>
              Validate(cfg, files) == Failure(StatusFor(CheckOrder[FirstRefusal(cfg, files, CheckOrder).value]))
    ensures FirstRefusal(cfg, files, CheckOrder).None? <==> Validate(cfg, files).Success?
  {
    assert CheckOrder[0] == FileCount && CheckOrder[1] == ContentType;
    assert CheckOrder[2] == Extension && CheckOrder[3] == FileSize;
  }

  /**
   * Once count, type and extension pass, the upload is refused with 413 exactly
   * when a non-zero limit is set and the size exceeds it: a file exactly at the
   * limit passes, and a limit of 0 or none lets every size through.
   */
  lemma SizeCheck(cfg: SecureConfig, files: seq<FileDescriptor>)
    requires |files| == 1
    requires !Refuses(cfg, files, ContentType) && !Refuses(cfg, files, Extension)
    ensures Validate(cfg, files).Failure? <==> SizeLimitSet(cfg.maxFileSize) && files[0].fileSize > cfg.maxFileSize.value
    ensures Validate(cfg, files).Failure? ==> Validate(cfg, files).error == PayloadTooLarge
  {
  }

  /** A configured but empty list of content types refuses every upload with 412. */
  lemma EmptyTypeListRefusesAll(cfg: SecureConfig, files: seq<FileDescriptor>)
    requires cfg.allowedContentTypes == Some([])
    ensures Validate(cfg, files) == Failure(PreconditionFailed)
  {
  }

  // ---------------------------------------------------------------------------
  // Upload

  /** The upload's renaming step: record the received name, then replace the name by a unique one when configured. */
  function Rename(makeUnique: bool, file: FileDescriptor, uuid: string): (named: FileDescriptor)
    requires IsUuid(uuid)
    ensures named.originalFileName == Some(file.fileName)
    ensures named.fileName == (if makeUnique then GenUniqueName(uuid, file.fileName) else file.fileName)
    ensures named.(fileName := file.fileName, originalFileName := file.originalFileName) == file
    ensures NodePath.Extname(named.fileName) == NodePath.Extname(file.fileName)
  {
    var name := if makeUnique then GenUniqueName(uuid, file.fileName) else file.fileName;
    file.(originalFileName := Some(file.fileName), fileName := name)
  }

  /**
   * The storing step of `saveAsEncryptedHTTPFile`, for a file that passed the
   * checks: it is renamed, its encryption is written, and it is reported with
   * the form fields; a write error is reported as 500 and leaves the file
   * system as it was.
   */
  function StoreAccepted(root: string, makeUnique: bool, key: Bytes, file: FileDescriptor, fields: map<string, string>,
                         fs: FileSystem, uuid: string, aes: BlockCipher)
    : (r: (Result<StoredFile, UploadError>, FileSystem))
    requires IsUuid(uuid)
    ensures var named := Rename(makeUnique, file, uuid);
            var p := GetFilePath(fs.cwd, root, named.fileName);
            && (r.0.Success? <==> Writable(fs, p))
            && (r.0.Success? ==>
                  && r.0.value == StoredFile(named, fields)
                  && r.1 == fs.(files := fs.files[p := EncryptData(aes, key, named.fileData)]))
            && (r.0.Failure? ==> r.0.error == WriteFailed && r.1 == fs)
  {
    var named := Rename(makeUnique, file, uuid);
    var (err, fs') := SecureWriteFileData(fs, root, named.fileName, key, named.fileData, aes);
    if err.Some? then (Failure(WriteFailed), fs') else (Success(StoredFile(named, fields)), fs')
  }

  /**
   * `saveAsEncryptedHTTPFile`, with `uuid` the value `uuid.v4()` would return.
   * A refused upload leaves the file system as it was; an accepted one stores
   * the encryption of the file's data under the (possibly renamed) name.
   */
  function SaveAsEncryptedHTTPFile(cfg: SecureConfig, req: HttpRequest, fs: FileSystem, uuid: string, aes: BlockCipher)
    : (r: (Result<StoredFile, UploadError>, FileSystem))
    requires IsUuid(uuid)
    ensures Validate(cfg, Parse(req)).Failure? ==> r == (Failure(Validate(cfg, Parse(req)).error), fs)
    ensures r.0.Failure? ==> r.1 == fs
    ensures Validate(cfg, Parse(req)).Success? ==>
              var named := Rename(cfg.nameMakeUnique, Parse(req)[0], uuid);
              var p := GetFilePath(fs.cwd, cfg.root, named.fileName);
              && (r.0.Success? <==> Writable(fs, p))
              && (r.0.Success? ==>
                    && r.0.value == StoredFile(named, req.body)
                    && r.1 == fs.(files := fs.files[p := EncryptData(aes, cfg.byteKey, named.fileData)]))
              && (r.0.Failure? ==> r.0.error == WriteFailed)
  {
    match Validate(cfg, Parse(req))
    case Failure(e) => (Failure(e), fs)
    case Success(file) => StoreAccepted(cfg.root, cfg.nameMakeUnique, cfg.byteKey, file, req.body, fs, uuid, aes)
  }

  /** An upload keeps the store holding ciphertext only; only an accepted upload adds a plaintext. */
  lemma UploadKeepsCiphertextOnly(cfg: SecureConfig, req: HttpRequest, fs: FileSystem, uuid: string, aes: BlockCipher,
                                  plain: map<string, Bytes>)
    requires IsUuid(uuid)
    requires StoresCiphertextOf(fs, plain, aes, cfg.byteKey)
    ensures var (res, fs') := SaveAsEncryptedHTTPFile(cfg, req, fs, uuid, aes);
            StoresCiphertextOf(fs', if res.Success?
                                    then plain[GetFilePath(fs.cwd, cfg.root, res.value.file.fileName) := res.value.file.fileData]
                                    else plain, aes, cfg.byteKey)
  {
    var v := Validate(cfg, Parse(req));
    if v.Success? {
      var named := Rename(cfg.nameMakeUnique, v.value, uuid);
      WriteKeepsCiphertextOnly(fs, plain, aes, cfg.byteKey, cfg.root, named.fileName, named.fileData);
    }
  }

  // ---------------------------------------------------------------------------
  // Download

  datatype ResponseBody = ErrorJson(error: IoError) | Binary(data: Bytes)

  /** What the handler puts into the Express response: status, the headers it sets, body. */
  datatype Response = Response(status: nat, headers: map<string, string>, body: ResponseBody)

  /** The header names a run of `res.set` calls mentions. */
  function Names(sets: seq<(string, string)>): (r: set<string>)
    ensures forall j :: 0 <= j < |sets| ==> sets[j].0 in r
    decreases |sets|
  {
    if |sets| == 0 then {} else {sets[0].0} + Names(sets[1..])
  }

  /** A run of `res.set(name, value)` calls, in order; a later call replaces an earlier one. */
  function SetHeaders(headers: map<string, string>, sets: seq<(string, string)>): (r: map<string, string>)
    ensures r.Keys == headers.Keys + Names(sets)
    ensures forall name :: name in headers && name !in Names(sets) ==> r[name] == headers[name]
    decreases |sets|
  {
    if |sets| == 0 then headers else SetHeaders(headers[sets[0].0 := sets[0].1], sets[1..])
  }

  /** The value a header ends with is the one its last `res.set` gave it. */
  lemma {:induction false} LastSetWins(headers: map<string, string>, sets: seq<(string, string)>, i: nat)
    requires i < |sets|
    requires forall j :: i < j < |sets| ==> sets[j].0 != sets[i].0
    ensures SetHeaders(headers, sets)[sets[i].0] == sets[i].1
    decreases |sets|
  {
    if i == 0 {
      NamesMentioned(sets[1..], sets[0].0);
    } else {
      LastSetWins(headers[sets[0].0 := sets[0].1], sets[1..], i - 1);
    }
  }

  lemma {:induction false} NamesWithin(sets: seq<(string, string)>, names: set<string>)
    requires forall j :: 0 <= j < |sets| ==> sets[j].0 in names
    ensures Names(sets) <= names
    decreases |sets|
  {
    if |sets| > 0 {
      NamesWithin(sets[1..], names);
    }
  }

  lemma {:induction false} NamesMentioned(sets: seq<(string, string)>, name: string)
    requires forall j :: 0 <= j < |sets| ==> sets[j].0 != name
    ensures name !in Names(sets)
    decreases |sets|
  {
    if |sets| > 0 {
      NamesMentioned(sets[1..], name);
    }
  }

  /** The five `res.set` calls `streamAsDecryptedHTTPFile` makes on success, in order. */
  function DownloadHeaderSets(fileName: string): seq<(string, string)> {
    [ ("Content-Type", "application/force-download"),
      ("Content-Type", "application/octet-stream"),
      ("Content-Type", "application/download"),
      ("Content-Disposition", "attachment;filename=" + fileName),
      ("Content-Transfer-Encoding", "binary") ]
  }

  /** `readAsDecryptedBytes`: the composition read of a file under the configured root and key. */
  function ReadAsDecryptedBytes(cfg: SecureConfig, fs: FileSystem, fileName: string, aes: BlockCipher): (r: Result<Bytes, IoError>)
    ensures r.Success? <==> GetFilePath(fs.cwd, cfg.root, fileName) in fs.files
    ensures r.Success? ==> EncryptData(aes, cfg.byteKey, r.value) == fs.files[GetFilePath(fs.cwd, cfg.root, fileName)]
    ensures r.Failure? ==> r.error == ReadFileData(fs, cfg.root, fileName).error
  {
    SecureReadFileData(fs, cfg.root, fileName, cfg.byteKey, aes)
  }

  /**
   * The response `streamAsDecryptedHTTPFile` builds from the outcome of a
   * read: status 400 with the error, or the octets as an attachment; of the
   * three Content-Type values the last one stays.
   */
  function DownloadResponse(read: Result<Bytes, IoError>, fileName: string): (res: Response)
    ensures read.Failure? ==> res == Response(400, map[], ErrorJson(read.error))
    ensures read.Success? ==>
              && res.status == 200
              && res.headers == map["Content-Type" := "application/download",
                                    "Content-Disposition" := "attachment;filename=" + fileName,
                                    "Content-Transfer-Encoding" := "binary"]
              && res.body == Binary(read.value)
  {
    match read
    case Failure(err) => Response(400, map[], ErrorJson(err))
    case Success(data) =>
      var sets := DownloadHeaderSets(fileName);
      var headers := SetHeaders(map[], sets);
      LastSetWins(map[], sets, 2);
      LastSetWins(map[], sets, 3);
      LastSetWins(map[], sets, 4);
      NamesWithin(sets, {"Content-Type", "Content-Disposition", "Content-Transfer-Encoding"});
      assert Names(sets) == {"Content-Type", "Content-Disposition", "Content-Transfer-Encoding"} by {
        assert sets[0].0 == "Content-Type" && sets[3].0 == "Content-Disposition";
        assert sets[4].0 == "Content-Transfer-Encoding";
      }
      Response(200, headers, Binary(data))
  }

  /** `streamAsDecryptedHTTPFile`: the download response for a file under the configured root. */
  function StreamAsDecryptedHTTPFile(cfg: SecureConfig, fs: FileSystem, fileName: string, aes: BlockCipher): (res: Response)
    ensures GetFilePath(fs.cwd, cfg.root, fileName) !in fs.files ==>
              res == Response(400, map[], ErrorJson(ReadFileData(fs, cfg.root, fileName).error))
    ensures GetFilePath(fs.cwd, cfg.root, fileName) in fs.files ==>
              && res.status == 200
              && res.headers == map["Content-Type" := "application/download",
                                    "Content-Disposition" := "attachment;filename=" + fileName,
                                    "Content-Transfer-Encoding" := "binary"]
              && res.body.Binary?
              && EncryptData(aes, cfg.byteKey, res.body.data) == fs.files[GetFilePath(fs.cwd, cfg.root, fileName)]
  {
    DownloadResponse(ReadAsDecryptedBytes(cfg, fs, fileName, aes), fileName)
  }

  /** `secureDelete`: deletes a file under the configured root. */
  function SecureDelete(cfg: SecureConfig, fs: FileSystem, fileName: string): (r: (bool, FileSystem))
    ensures r.0 <==> GetFilePath(fs.cwd, cfg.root, fileName) in fs.files
    ensures !CheckIfExists(r.1, cfg.root, fileName) || GetFilePath(fs.cwd, cfg.root, fileName) in fs.dirs
    ensures r.1.files == fs.files - {GetFilePath(fs.cwd, cfg.root, fileName)}
  {
    SecureDeleteFileData(fs, cfg.root, fileName)
  }

  /** An accepted upload reads back, under the name it reports, as the uploaded data. */
  lemma UploadThenRead(cfg: SecureConfig, req: HttpRequest, fs: FileSystem, uuid: string, aes: BlockCipher)
    requires IsUuid(uuid)
    requires SaveAsEncryptedHTTPFile(cfg, req, fs, uuid, aes).0.Success?
    ensures var (res, fs') := SaveAsEncryptedHTTPFile(cfg, req, fs, uuid, aes);
            ReadAsDecryptedBytes(cfg, fs', res.value.file.fileName, aes) == Success(req.files[0].buffer)
  {
    var (res, fs') := SaveAsEncryptedHTTPFile(cfg, req, fs, uuid, aes);
    var file := Parse(req)[0];
    assert SourceFile(file) == req.files[0];
    var named := Rename(cfg.nameMakeUnique, file, uuid);
    assert res.value.file == named;
    var got := ReadAsDecryptedBytes(cfg, fs', named.fileName, aes);
    assert EncryptData(aes, cfg.byteKey, got.value) == EncryptData(aes, cfg.byteKey, file.fileData);
    DecryptEncrypt(aes, cfg.byteKey, got.value);
    DecryptEncrypt(aes, cfg.byteKey, file.fileData);
  }

  /**
   * An accepted upload downloads, under the name it reports, as an attachment
   * of that name whose body is the uploaded data.
   */
  lemma UploadThenDownload(cfg: SecureConfig, req: HttpRequest, fs: FileSystem, uuid: string, aes: BlockCipher)
    requires IsUuid(uuid)
    requires SaveAsEncryptedHTTPFile(cfg, req, fs, uuid, aes).0.Success?
    ensures var (res, fs') := SaveAsEncryptedHTTPFile(cfg, req, fs, uuid, aes);
            var response := StreamAsDecryptedHTTPFile(cfg, fs', res.value.file.fileName, aes);
            && response.status == 200
            && response.body == Binary(req.files[0].buffer)
            && response.headers["Content-Disposition"] == "attachment;filename=" + res.value.file.fileName
  {
    var (res, fs') := SaveAsEncryptedHTTPFile(cfg, req, fs, uuid, aes);
    UploadThenRead(cfg, req, fs, uuid, aes);
    DownloadOfReadable(cfg, fs', res.value.file.fileName, aes, req.files[0].buffer);
  }

  /** A file that reads as `data` downloads with status 200 and body `data`. */
  lemma DownloadOfReadable(cfg: SecureConfig, fs: FileSystem, fileName: string, aes: BlockCipher, data: Bytes)
    requires ReadAsDecryptedBytes(cfg, fs, fileName, aes) == Success(data)
    ensures StreamAsDecryptedHTTPFile(cfg, fs, fileName, aes).status == 200
    ensures StreamAsDecryptedHTTPFile(cfg, fs, fileName, aes).body == Binary(data)
    ensures StreamAsDecryptedHTTPFile(cfg, fs, fileName, aes).headers["Content-Disposition"] == "attachment;filename=" + fileName
  {
    var response := StreamAsDecryptedHTTPFile(cfg, fs, fileName, aes);
    DecryptEncrypt(aes, cfg.byteKey, response.body.data);
    DecryptEncrypt(aes, cfg.byteKey, data);
  }
}
