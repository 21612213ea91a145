/**
 * lib/secure-storage/index.js, the older variant of the pipeline. Its read,
 * write and delete compositions are the same code as in functions.js and are
 * modelled by the members of SecureStorage. What differs: the configuration is
 * read once when the module loads, the key is held as hex text and decoded on
 * every call, the file count and mime checks are one test with no "if
 * configured" guard (so a missing list of content types makes the handler
 * throw), the size check has no truthiness guard, and there is no extension
 * check.
 */
module LegacySecureStorage {
  import opened Wrappers
  import opened Buffers
  import opened NodeFs
  import opened BasicStorage
  import opened FormFileParser
  import opened Aes
  import opened SecureStorage
  import Hex
  import NodePath

  /** The configuration the module reads once, when it is loaded. */
  datatype LegacyConfig = LegacyConfig(
    root: string,
    nameMakeUnique: bool,
    maxFileSize: Option<int>,
    allowedContentTypes: Option<seq<string>>,
    sysKey: string)

  /**
   * How a legacy upload ends without storing anything: refused through the
   * callback with a status, or a TypeError thrown out of the handler (calling
   * `includes` on a missing list), in which case the callback is never called.
   */
  datatype LegacyError = Refused(status: UploadError) | TypeErrorThrown

  /** The configured key text decodes as hex. */
  predicate HasHexKey(cfg: LegacyConfig) {
    Hex.HexToByteArray(cfg.sysKey).Some?
  }

  /**
   * `AES.hexToByteArray(sysKey)`, recomputed by every call that needs the key:
   * one octet per two digits, re-encoding to the key text when that is written
   * in lower case, and a valid 128-bit key when the text has 32 digits.
   */
  function ByteKey(cfg: LegacyConfig): (key: Bytes)
    requires HasHexKey(cfg)
    ensures 2 * |key| == |cfg.sysKey|
    ensures (forall i :: 0 <= i < |cfg.sysKey| ==> Hex.IsLowerDigit(cfg.sysKey[i])) ==> Hex.ByteArrayToHex(key) == cfg.sysKey
    ensures |cfg.sysKey| == 32 ==> IsKey128(Some(key))
  {
    LowerKeyReencodes(cfg.sysKey);
    Hex.HexToByteArray(cfg.sysKey).value
  }

  /** Key text in lower-case hex is exactly the encoding of the octets it decodes to. */
  lemma LowerKeyReencodes(s: string)
    requires Hex.HexToByteArray(s).Some?
    ensures (forall i :: 0 <= i < |s| ==> Hex.IsLowerDigit(s[i])) ==> Hex.ByteArrayToHex(Hex.HexToByteArray(s).value) == s
  {
    if forall i :: 0 <= i < |s| ==> Hex.IsLowerDigit(s[i]) {
      Hex.EncodeDecode(s);
    }
  }

  /**
   * `file.fileSize > maxFileSize`, with no truthiness guard: a comparison with
   * an undefined limit is false, and a limit of 0 refuses every non-empty file.
   * For any other limit it is the size check of functions.js.
   */
  function TooLarge(cfg: LegacyConfig, size: nat): (tooLarge: bool)
    ensures cfg.maxFileSize.None? ==> !tooLarge
    ensures cfg.maxFileSize == Some(0) ==> (tooLarge <==> size > 0)
    ensures cfg.maxFileSize != Some(0) ==>
              (tooLarge <==> SizeLimitSet(cfg.maxFileSize) && size > cfg.maxFileSize.value)
  {
    cfg.maxFileSize.Some? && size > cfg.maxFileSize.value
  }

  /**
   * The combined count and mime test, then the size test. With one file and
   * no list of content types, `includes` is called on a missing list and
   * throws; with any other count the test stops at the count.
   */
  function LegacyValidate(cfg: LegacyConfig, files: seq<FileDescriptor>): (r: Result<FileDescriptor, LegacyError>)
    ensures r.Success? ==> |files| == 1 && r.value == files[0]
    ensures |files| != 1 ==> r == Failure(Refused(PreconditionFailed))
    ensures |files| == 1 && cfg.allowedContentTypes.None? ==> r == Failure(TypeErrorThrown)
    ensures |files| == 1 && cfg.allowedContentTypes.Some? && files[0].fileMime !in cfg.allowedContentTypes.value ==>
              r == Failure(Refused(PreconditionFailed))
    ensures |files| == 1 && cfg.allowedContentTypes.Some? && files[0].fileMime in cfg.allowedContentTypes.value ==>
              r == if TooLarge(cfg, files[0].fileSize) then Failure(Refused(PayloadTooLarge)) else Success(files[0])
  {
    if |files| != 1 then
      Failure(Refused(PreconditionFailed))
    else if cfg.allowedContentTypes.None? then
      Failure(TypeErrorThrown)
    else if files[0].fileMime !in cfg.allowedContentTypes.value then
      Failure(Refused(PreconditionFailed))
    else
      var file := files[0];
      if TooLarge(cfg, file.fileSize) then Failure(Refused(PayloadTooLarge)) else Success(file)
  }

  /** The legacy configuration read as a functions.js configuration: no extension list. */
  function AsSecureConfig(cfg: LegacyConfig): SecureConfig
    requires HasHexKey(cfg)
  {
    SecureConfig(cfg.root, cfg.nameMakeUnique, cfg.maxFileSize, cfg.allowedContentTypes, None, ByteKey(cfg))
  }

  /** A functions.js upload outcome in the legacy error type: every refusal goes through the callback. */
  function AsLegacyOutcome(r: (Result<StoredFile, UploadError>, FileSystem)): (Result<StoredFile, LegacyError>, FileSystem) {
    match r.0
    case Success(stored) => (Success(stored), r.1)
    case Failure(e) => (Failure(Refused(e)), r.1)
  }

  /**
   * The legacy `saveAsEncryptedHTTPFile`: a refused upload (or a thrown one)
   * leaves the file system as it was; an accepted one stores the encryption,
   * under the key the hex text decodes to, of the file's data. The key is
   * decoded only once the checks have passed, so only then must it decode.
   */
  function LegacySaveAsEncryptedHTTPFile(cfg: LegacyConfig, req: HttpRequest, fs: FileSystem, uuid: string, aes: BlockCipher)
    : (r: (Result<StoredFile, LegacyError>, FileSystem))
    requires LegacyValidate(cfg, Parse(req)).Success? ==> HasHexKey(cfg)
    requires IsUuid(uuid)
    ensures LegacyValidate(cfg, Parse(req)).Failure? ==> r == (Failure(LegacyValidate(cfg, Parse(req)).error), fs)
    ensures r.0.Failure? ==> r.1 == fs
    ensures LegacyValidate(cfg, Parse(req)).Success? ==>
              var named := Rename(cfg.nameMakeUnique, Parse(req)[0], uuid);
              var p := GetFilePath(fs.cwd, cfg.root, named.fileName);
              && (r.0.Success? <==> Writable(fs, p))
              && (r.0.Success? ==>
                    && r.0.value == StoredFile(named, req.body)
                    && r.1 == fs.(files := fs.files[p := EncryptData(aes, ByteKey(cfg), named.fileData)]))
              && (r.0.Failure? ==> r.0.error == Refused(WriteFailed))
  {
    match LegacyValidate(cfg, Parse(req))
    case Failure(e) => (Failure(e), fs)
    case Success(file) =>
      var byteKey := Hex.HexToByteArray(cfg.sysKey).value;
      AsLegacyOutcome(StoreAccepted(cfg.root, cfg.nameMakeUnique, byteKey, file, req.body, fs, uuid, aes))
  }

  /**
   * The legacy `readAsDecryptedBytes`: the key is decoded again from the same
   * hex text. A missing file's read error passes through before any
   * decryption, whatever the key text; only a file that exists needs a key
   * that decodes.
   */
  function LegacyReadAsDecryptedBytes(cfg: LegacyConfig, fs: FileSystem, fileName: string, aes: BlockCipher)
    : (r: Result<Bytes, IoError>)
    requires GetFilePath(fs.cwd, cfg.root, fileName) in fs.files ==> HasHexKey(cfg)
    ensures r.Success? <==> GetFilePath(fs.cwd, cfg.root, fileName) in fs.files
    ensures r.Success? ==> EncryptData(aes, ByteKey(cfg), r.value) == fs.files[GetFilePath(fs.cwd, cfg.root, fileName)]
    ensures r.Failure? ==> r.error == ReadFileData(fs, cfg.root, fileName).error
  {
    if HasHexKey(cfg) then
      SecureReadFileData(fs, cfg.root, fileName, ByteKey(cfg), aes)
    else
      Failure(ReadFileData(fs, cfg.root, fileName).error)
  }

  /** The legacy `streamAsDecryptedHTTPFile`: the same response rules as functions.js. */
  function LegacyStreamAsDecryptedHTTPFile(cfg: LegacyConfig, fs: FileSystem, fileName: string, aes: BlockCipher): (res: Response)
    requires GetFilePath(fs.cwd, cfg.root, fileName) in fs.files ==> HasHexKey(cfg)
    ensures GetFilePath(fs.cwd, cfg.root, fileName) !in fs.files ==>
              res == Response(400, map[], ErrorJson(ReadFileData(fs, cfg.root, fileName).error))
    ensures GetFilePath(fs.cwd, cfg.root, fileName) in fs.files ==>
              && res.status == 200
              && res.headers == map["Content-Type" := "application/download",
                                    "Content-Disposition" := "attachment;filename=" + fileName,
                                    "Content-Transfer-Encoding" := "binary"]
              && res.body.Binary?
              && EncryptData(aes, ByteKey(cfg), res.body.data) == fs.files[GetFilePath(fs.cwd, cfg.root, fileName)]
  {
    DownloadResponse(LegacyReadAsDecryptedBytes(cfg, fs, fileName, aes), fileName)
  }

  /** The legacy `secureDelete`. */
  function LegacySecureDelete(cfg: LegacyConfig, fs: FileSystem, fileName: string): (r: (bool, FileSystem))
    ensures r.0 <==> GetFilePath(fs.cwd, cfg.root, fileName) in fs.files
    ensures r.1.files == fs.files - {GetFilePath(fs.cwd, cfg.root, fileName)}
  {
    SecureDeleteFileData(fs, cfg.root, fileName)
  }

  /** Upload and download decode the same hex text, so an accepted upload reads back unchanged. */
  lemma LegacyUploadThenRead(cfg: LegacyConfig, req: HttpRequest, fs: FileSystem, uuid: string, aes: BlockCipher)
    requires LegacyValidate(cfg, Parse(req)).Success? ==> HasHexKey(cfg)
    requires IsUuid(uuid)
    requires LegacySaveAsEncryptedHTTPFile(cfg, req, fs, uuid, aes).0.Success?
    ensures var (res, fs') := LegacySaveAsEncryptedHTTPFile(cfg, req, fs, uuid, aes);
            && GetFilePath(fs'.cwd, cfg.root, res.value.file.fileName) in fs'.files
            && LegacyReadAsDecryptedBytes(cfg, fs', res.value.file.fileName, aes) == Success(req.files[0].buffer)
  {
    var (res, fs') := LegacySaveAsEncryptedHTTPFile(cfg, req, fs, uuid, aes);
    assert LegacyValidate(cfg, Parse(req)).Success?;
    var file := Parse(req)[0];
    assert SourceFile(file) == req.files[0];
    var named := Rename(cfg.nameMakeUnique, file, uuid);
    assert res.value.file == named;
    var got := LegacyReadAsDecryptedBytes(cfg, fs', named.fileName, aes);
    assert EncryptData(aes, ByteKey(cfg), got.value) == EncryptData(aes, ByteKey(cfg), file.fileData);
    DecryptEncrypt(aes, ByteKey(cfg), got.value);
    DecryptEncrypt(aes, ByteKey(cfg), file.fileData);
  }

  /**
   * With a list of content types and a limit other than 0, the two variants
   * decide and store alike, functions.js being given no extension list.
   */
  lemma VariantsAgree(cfg: LegacyConfig, req: HttpRequest, fs: FileSystem, uuid: string, aes: BlockCipher)
    requires HasHexKey(cfg)
    requires IsUuid(uuid)
    requires cfg.allowedContentTypes.Some?
    requires cfg.maxFileSize != Some(0)
    ensures LegacySaveAsEncryptedHTTPFile(cfg, req, fs, uuid, aes)
            == AsLegacyOutcome(SaveAsEncryptedHTTPFile(AsSecureConfig(cfg), req, fs, uuid, aes))
  {
    var files := Parse(req);
    ValidationsAgree(cfg, files);
    match Validate(AsSecureConfig(cfg), files)
    case Failure(e) =>
    case Success(file) =>
      assert LegacyValidate(cfg, files) == Success(file);
  }

  /** The two validations refuse alike, and accept the same file, under the conditions of VariantsAgree. */
  lemma ValidationsAgree(cfg: LegacyConfig, files: seq<FileDescriptor>)
    requires HasHexKey(cfg)
    requires cfg.allowedContentTypes.Some?
    requires cfg.maxFileSize != Some(0)
    ensures Validate(AsSecureConfig(cfg), files).Success? ==> LegacyValidate(cfg, files) == Success(Validate(AsSecureConfig(cfg), files).value)
    ensures Validate(AsSecureConfig(cfg), files).Failure? ==> LegacyValidate(cfg, files) == Failure(Refused(Validate(AsSecureConfig(cfg), files).error))
  {
    if |files| == 1 {
      assert TooLarge(cfg, files[0].fileSize) <==> Refuses(AsSecureConfig(cfg), files, FileSize);
    }
  }

  /**
   * Without a list of content types, a single-file legacy upload throws and
   * stores nothing, while functions.js skips the content-type check and so
   * never refuses it with 412.
   */
  lemma MissingTypeListDiffers(cfg: LegacyConfig, req: HttpRequest, fs: FileSystem, uuid: string, aes: BlockCipher)
    requires HasHexKey(cfg)
    requires IsUuid(uuid)
    requires cfg.allowedContentTypes.None?
    requires |req.files| == 1
    ensures LegacySaveAsEncryptedHTTPFile(cfg, req, fs, uuid, aes) == (Failure(TypeErrorThrown), fs)
    ensures SaveAsEncryptedHTTPFile(AsSecureConfig(cfg), req, fs, uuid, aes).0 != Failure(PreconditionFailed)
  {
  }

  /** A limit of 0 refuses every non-empty legacy upload with 413, while functions.js reads it as "no limit". */
  lemma ZeroLimitDiffers(cfg: LegacyConfig, req: HttpRequest, fs: FileSystem, uuid: string, aes: BlockCipher)
    requires HasHexKey(cfg)
    requires IsUuid(uuid)
    requires cfg.maxFileSize == Some(0)
    requires cfg.allowedContentTypes.Some?
    requires |req.files| == 1 && req.files[0].mimeType in cfg.allowedContentTypes.value && req.files[0].size > 0
    ensures LegacySaveAsEncryptedHTTPFile(cfg, req, fs, uuid, aes) == (Failure(Refused(PayloadTooLarge)), fs)
    ensures SaveAsEncryptedHTTPFile(AsSecureConfig(cfg), req, fs, uuid, aes).0 != Failure(PayloadTooLarge)
  {
    assert SourceFile(Parse(req)[0]) == req.files[0];
  }

  /**
   * The legacy variant has no extension check: a file functions.js refuses for
   * its extension alone is neither refused nor thrown by it.
   */
  lemma LegacyIgnoresExtension(cfg: LegacyConfig, extensions: seq<string>, req: HttpRequest, fs: FileSystem,
                               uuid: string, aes: BlockCipher)
    requires HasHexKey(cfg)
    requires IsUuid(uuid)
    requires |req.files| == 1
    requires cfg.allowedContentTypes.Some? && req.files[0].mimeType in cfg.allowedContentTypes.value
    requires !TooLarge(cfg, req.files[0].size)
    requires NodePath.ExtensionOf(req.files[0].originalName) !in extensions
    ensures SaveAsEncryptedHTTPFile(AsSecureConfig(cfg).(allowedExtensions := Some(extensions)), req, fs, uuid, aes)
            == (Failure(PreconditionFailed), fs)
    ensures LegacySaveAsEncryptedHTTPFile(cfg, req, fs, uuid, aes).0
              !in {Failure(Refused(PreconditionFailed)), Failure(Refused(PayloadTooLarge)), Failure(TypeErrorThrown)}
  {
    assert SourceFile(Parse(req)[0]) == req.files[0];
  }
}
