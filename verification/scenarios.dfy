/**
 * The upload and download cases of test/index.js, stated on the model: the
 * test configuration, the 32-byte test payload, and the outcome each case
 * expects.
 */
module Scenarios {
  import opened Wrappers
  import opened Buffers
  import opened NodeFs
  import opened BasicStorage
  import opened FormFileParser
  import opened Aes
  import opened SecureStorage
  import NodePath

  const TestRoot := "./test/storage/container"
  const UploadFile := "upload.txt"
  const UploadWrongFile := "upload.exe"

  /** `SecureStorage.asMiB(50)`. */
  const FiftyMiB := 50 * 1048576

  /** The configuration the tests run with, for a given key. */
  function TestConfig(key: Bytes): SecureConfig {
    SecureConfig(TestRoot, true, Some(FiftyMiB), Some(["text/plain"]), Some(["txt"]), key)
  }

  /** `new Buffer(TEST_DATA)`: the octets of the (ASCII) test text. */
  const TestBytes: Bytes := [72, 101, 108, 108, 111, 32, 119, 111, 114, 108, 100, 44, 32, 115, 111, 109,
                             101, 32, 100, 97, 116, 97, 32, 116, 111, 32, 119, 114, 105, 116, 101, 33]

  /** A form with one file part carrying the test payload. */
  function UploadRequest(name: string, mime: string): (req: HttpRequest)
    ensures |req.files| == 1 && req.files[0].originalName == name && req.files[0].mimeType == mime
    ensures req.files[0].buffer == TestBytes && req.files[0].size == 32
  {
    HttpRequest([MulterFile(name, "7bit", mime, |TestBytes|, TestBytes)], map[])
  }

  /** What `parse` makes of the test form. */
  function UploadedFile(name: string, mime: string): FileDescriptor {
    FileDescriptor(name, None, "7bit", mime, 32, TestBytes)
  }

  lemma ParseUpload(name: string, mime: string)
    ensures Parse(UploadRequest(name, mime)) == [UploadedFile(name, mime)]
  {
    var files := Parse(UploadRequest(name, mime));
    assert SourceFile(files[0]) == UploadRequest(name, mime).files[0];
  }

  /** The extension of the test's upload name. */
  lemma UploadTxtExtension()
    ensures NodePath.Extname(UploadFile) == ".txt"
    ensures NodePath.ExtensionOf(UploadFile) == "txt"
  {
    assert UploadFile == "upload" + ".txt";
    NodePath.ExtnameOfStem("upload", ".txt");
  }

  /** The extension of the test's refused upload name. */
  lemma UploadExeExtension()
    ensures NodePath.ExtensionOf(UploadWrongFile) == "exe"
  {
    assert UploadWrongFile == "upload" + "." + "exe";
    NodePath.ExtensionOfStem("upload", "exe");
  }

  /** A file system whose only directory is the storage container. */
  predicate OnlyContainer(fs: FileSystem) {
    fs.dirs == {fs.cwd + "/" + TestRoot}
  }

  /** The test configuration, with limit `limit`, refuses a file of another type with 412. */
  lemma TestConfigRefusesMime(key: Bytes, limit: int, file: FileDescriptor)
    requires file.fileMime != "text/plain"
    ensures Validate(TestConfig(key).(maxFileSize := Some(limit)), [file]) == Failure(PreconditionFailed)
  {
  }

  /** ... a text file with another extension with 412. */
  lemma TestConfigRefusesExtension(key: Bytes, limit: int, file: FileDescriptor)
    requires file.fileMime == "text/plain" && NodePath.ExtensionOf(file.fileName) != "txt"
    ensures Validate(TestConfig(key).(maxFileSize := Some(limit)), [file]) == Failure(PreconditionFailed)
  {
  }

  /** ... a text file with extension txt above a non-zero limit with 413. */
  lemma TestConfigRefusesSize(key: Bytes, limit: int, file: FileDescriptor)
    requires file.fileMime == "text/plain" && NodePath.ExtensionOf(file.fileName) == "txt"
    requires limit != 0 && file.fileSize > limit
    ensures Validate(TestConfig(key).(maxFileSize := Some(limit)), [file]) == Failure(PayloadTooLarge)
  {
  }

  /** ... and accepts a text file with extension txt within the limit. */
  lemma TestConfigAccepts(key: Bytes, limit: int, file: FileDescriptor)
    requires file.fileMime == "text/plain" && NodePath.ExtensionOf(file.fileName) == "txt"
    requires file.fileSize <= limit
    ensures Validate(TestConfig(key).(maxFileSize := Some(limit)), [file]) == Success(file)
  {
  }

  /** The descriptor an accepted test upload of `name` reports. */
  function RenamedUpload(name: string, uuid: string): FileDescriptor {
    UploadedFile(name, "text/plain").(fileName := uuid + ".txt", originalFileName := Some(name))
  }

  /** Where the accepted test upload is stored. */
  function StoredPath(fs: FileSystem, uuid: string): string {
    GetFilePath(fs.cwd, TestRoot, uuid + ".txt")
  }

  /** A text upload whose name ends in ".txt" is stored, renamed, as the encryption of its octets. */
  lemma AcceptedTextUpload(key: Bytes, fs: FileSystem, uuid: string, aes: BlockCipher, name: string)
    requires IsUuid(uuid)
    requires OnlyContainer(fs)
    requires NodePath.Extname(name) == ".txt" && NodePath.ExtensionOf(name) == "txt"
    ensures SaveAsEncryptedHTTPFile(TestConfig(key), UploadRequest(name, "text/plain"), fs, uuid, aes)
            == (Success(StoredFile(RenamedUpload(name, uuid), map[])),
                fs.(files := fs.files[StoredPath(fs, uuid) := EncryptData(aes, key, TestBytes)]))
  {
    var file := UploadedFile(name, "text/plain");
    ParseUpload(name, "text/plain");
    TestConfigAccepts(key, FiftyMiB, file);
    assert TestConfig(key) == TestConfig(key).(maxFileSize := Some(FiftyMiB));
    RenameTextUpload(uuid, name);
    ContainerWritable(fs, uuid + ".txt");
  }

  /** With name uniqueness on, the upload is renamed to the uuid followed by ".txt". */
  lemma RenameTextUpload(uuid: string, name: string)
    requires IsUuid(uuid)
    requires NodePath.Extname(name) == ".txt"
    ensures Rename(true, UploadedFile(name, "text/plain"), uuid) == RenamedUpload(name, uuid)
  {
  }

  /** Any slash-free name can be written into the container. */
  lemma ContainerWritable(fs: FileSystem, name: string)
    requires OnlyContainer(fs)
    requires '/' !in name
    ensures Writable(fs, GetFilePath(fs.cwd, TestRoot, name))
  {
    FilePathParts(fs.cwd, TestRoot, name);
    assert |GetFilePath(fs.cwd, TestRoot, name)| > |fs.cwd + "/" + TestRoot|;
  }

  /**
   * The accepted upload case: `upload.txt` sent as plain text is accepted under
   * the uuid followed by the original extension, reports the original name, and
   * stores the encryption of the sent octets.
   */
  lemma UploadTextFile(key: Bytes, fs: FileSystem, uuid: string, aes: BlockCipher)
    requires IsUuid(uuid)
    requires OnlyContainer(fs)
    ensures SaveAsEncryptedHTTPFile(TestConfig(key), UploadRequest(UploadFile, "text/plain"), fs, uuid, aes)
            == (Success(StoredFile(RenamedUpload(UploadFile, uuid), map[])),
                fs.(files := fs.files[StoredPath(fs, uuid) := EncryptData(aes, key, TestBytes)]))
    ensures RenamedUpload(UploadFile, uuid).fileName != UploadFile
  {
    UploadTxtExtension();
    AcceptedTextUpload(key, fs, uuid, aes, UploadFile);
    assert |RenamedUpload(UploadFile, uuid).fileName| == 40;
  }

  /**
   * The download case: after that upload, asking for the reported name gives
   * an attachment of that name whose body is the sent octets.
   */
  lemma DownloadTextFile(key: Bytes, fs: FileSystem, uuid: string, aes: BlockCipher)
    requires IsUuid(uuid)
    ensures var fs' := fs.(files := fs.files[StoredPath(fs, uuid) := EncryptData(aes, key, TestBytes)]);
            StreamAsDecryptedHTTPFile(TestConfig(key), fs', uuid + ".txt", aes)
            == Response(200, map["Content-Type" := "application/download",
                                 "Content-Disposition" := "attachment;filename=" + (uuid + ".txt"),
                                 "Content-Transfer-Encoding" := "binary"], Binary(TestBytes))
  {
    var fs' := fs.(files := fs.files[StoredPath(fs, uuid) := EncryptData(aes, key, TestBytes)]);
    var read := ReadAsDecryptedBytes(TestConfig(key), fs', uuid + ".txt", aes);
    assert read.Success?;
    assert EncryptData(aes, key, read.value) == EncryptData(aes, key, TestBytes);
    DecryptEncrypt(aes, key, read.value);
    DecryptEncrypt(aes, key, TestBytes);
  }

  /** An `.exe` file sent as plain text fails the extension check: 412, nothing stored. */
  lemma UploadWrongExtension(key: Bytes, fs: FileSystem, uuid: string, aes: BlockCipher)
    requires IsUuid(uuid)
    ensures SaveAsEncryptedHTTPFile(TestConfig(key), UploadRequest(UploadWrongFile, "text/plain"), fs, uuid, aes)
            == (Failure(PreconditionFailed), fs)
  {
    var cfg := TestConfig(key);
    var file := UploadedFile(UploadWrongFile, "text/plain");
    ParseUpload(UploadWrongFile, "text/plain");
    UploadExeExtension();
    TestConfigRefusesExtension(key, FiftyMiB, file);
    assert cfg == TestConfig(key).(maxFileSize := Some(FiftyMiB));
  }

  /** A `.txt` file sent as a zip archive fails the content-type check: 412, nothing stored. */
  lemma UploadWrongMime(key: Bytes, fs: FileSystem, uuid: string, aes: BlockCipher)
    requires IsUuid(uuid)
    ensures SaveAsEncryptedHTTPFile(TestConfig(key), UploadRequest(UploadFile, "application/zip"), fs, uuid, aes)
            == (Failure(PreconditionFailed), fs)
  {
    var cfg := TestConfig(key);
    var file := UploadedFile(UploadFile, "application/zip");
    ParseUpload(UploadFile, "application/zip");
    TestConfigRefusesMime(key, FiftyMiB, file);
    assert cfg == TestConfig(key).(maxFileSize := Some(FiftyMiB));
  }

  /** The same text upload with the limit lowered to 10 octets fails the size check: 413, nothing stored. */
  lemma UploadTooLarge(key: Bytes, fs: FileSystem, uuid: string, aes: BlockCipher)
    requires IsUuid(uuid)
    ensures SaveAsEncryptedHTTPFile(TestConfig(key).(maxFileSize := Some(10)), UploadRequest(UploadFile, "text/plain"),
                                    fs, uuid, aes)
            == (Failure(PayloadTooLarge), fs)
  {
    var cfg := TestConfig(key).(maxFileSize := Some(10));
    var file := UploadedFile(UploadFile, "text/plain");
    ParseUpload(UploadFile, "text/plain");
    UploadTxtExtension();
    TestConfigRefusesSize(key, 10, file);
  }
}
