/**
 * lib/form-file-parser/index.js: turns the files multer attached to a request
 * into file descriptors, one per file, in order.
 */
module FormFileParser {
  import opened Wrappers
  import opened Buffers

  /** A file as multer attaches it to `req.files`. */
  datatype MulterFile = MulterFile(originalName: string, encoding: string, mimeType: string, size: nat, buffer: Bytes)

  /** The parts of the request the storage layer reads: the files and the text fields (`req.body`). */
  datatype HttpRequest = HttpRequest(files: seq<MulterFile>, body: map<string, string>)

  /**
   * One file on its way to or from the store. `originalFileName` is absent
   * until the upload pipeline records it.
   */
  datatype FileDescriptor = FileDescriptor(
    fileName: string,
    originalFileName: Option<string>,
    fileEncoding: string,
    fileMime: string,
    fileSize: nat,
    fileData: Bytes)

  /** The multer file a freshly parsed descriptor was built from. */
  function SourceFile(d: FileDescriptor): MulterFile {
    MulterFile(d.fileName, d.fileEncoding, d.fileMime, d.fileSize, d.fileData)
  }

  /** `parse`: one descriptor per attached file, same order, nothing lost and nothing added. */
  function Parse(req: HttpRequest): (r: seq<FileDescriptor>)
    ensures |r| == |req.files|
    ensures forall i :: 0 <= i < |r| ==> SourceFile(r[i]) == req.files[i] && r[i].originalFileName.None?
  {
    seq(|req.files|, i requires 0 <= i < |req.files| =>
      var f := req.files[i];
      FileDescriptor(f.originalName, None, f.encoding, f.mimeType, f.size, f.buffer))
  }
}
