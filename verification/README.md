# loopback-secure-storage in Dafny

A model of the encrypted storage layer of loopback-secure-storage. The layer:

- accepts one multipart upload;
- validates it against a storage configuration (file count, content type, extension, size);
- optionally renames it to a fresh uuid that keeps the extension;
- encrypts its octets with AES in counter mode;
- writes the ciphertext into a container directory.

A download reads the stored octets back, decrypts them and sends them as an attachment.

The modules follow the program's files:

| module | file | what it holds |
|---|---|---|
| `Wrappers`, `Buffers` | wrappers.dfy | `Option`, `Result`; octets as integers in [0, 256) with exclusive or |
| `Hex` | hex.dfy | the Base16 helpers (section 8 of RFC 4648) |
| `Utf8` | utf8.dfy | the text helpers (section 3 of RFC 3629) |
| `Aes` | aes.dfy | `checkKey128`, `genKey128`, counter mode over an abstract block function (section 6.5 of NIST SP 800-38A) |
| `NodePath` | node_path.dfy | Node's POSIX `path.extname` and the parts of it the layer relies on |
| `NodeFs` | node_fs.dfy | an abstract file system: working directory, directories, a map from path to octets |
| `BasicStorage` | basic_storage.dfy | lib/basic-storage/index.js |
| `FormFileParser` | form_file_parser.dfy | lib/form-file-parser/index.js |
| `SecureStorage` | secure_storage.dfy | lib/secure-storage/functions.js |
| `LegacySecureStorage` | legacy_secure_storage.dfy | lib/secure-storage/index.js, the older variant |
| `Scenarios` | scenarios.dfy | the upload and download cases of test/index.js |

Modelling choices:

- **Callbacks become return values.** An operation that reports through a callback returns what the callback would receive. An operation that touches the file system also returns the new file system. Node's `err` object is an `IoError(code, syscall, path)`. A refused upload is `UploadError(status)`, with the exact strings `"412"`, `"413"` and `"500"`.
- **The configuration is a parameter.** In functions.js the optional fields are `Option`s. An absent field skips its check. A size limit of 0 is falsy in JavaScript, so it skips the size check too.
- **The block cipher is a parameter.** `aes: (key, counter) -> 16 octets` stands for the AES block function.
  - `encryptData` and `decryptData` each build a fresh context with the library's default counter 1.
  - So both apply the same octet-wise exclusive or with the same key stream.
  - Round trips follow from `BitXor(BitXor(a, b), b) == a`.
- **Randomness is an input.** The uuid `uuid.v4()` would return is a parameter constrained to the version-4 shape (`IsUuid`). The 16 values of `Math.random()` are a parameter too, each in [0, 1).
- **Octets are integers.** Each is an `int` in [0, 256). Exclusive or is defined arithmetically (`Buffers.BitXor`) rather than on `bv8`.
- **Express responses are records.** A response is a status, the final header map and a body.
  - `res.set` calls are applied in order, so the last of the three Content-Type sets wins.
  - `res.status(400).json({error})` becomes `Response(400, map[], ErrorJson(err))`.

Where this model and the documented behaviour differ:

- **The legacy size check.** With no limit configured, `fileSize > undefined` is false, so nothing is refused (`LegacySecureStorage.TooLarge`). Functions.js instead treats a limit of 0 as "no limit".
- **The legacy content-type check.** The legacy variant calls `includes` on the list of content types without checking that one is configured. With one file and no list, the handler throws a TypeError and never calls back (`LegacySecureStorage.TypeErrorThrown`). Functions.js skips the check instead.
- **Name collisions.** The upload pipeline overwrites an existing file of the same name without a check. `SaveAsEncryptedHTTPFile` keeps that.

The two variants' rule sets are compared by `VariantsAgree`, `MissingTypeListDiffers`, `ZeroLimitDiffers` and `LegacyIgnoresExtension`.

## Model

| member | source | states |
|---|---|---|
| Buffers.XorByte | lib/aes/index.js:42-53 | combining an octet with a key-stream octet stays an octet, and combining the result with the same key octet gives the original back |
| Hex.ByteArrayToHex | lib/aes/index.js:79-81 | the hex text has two characters per octet, all lower-case hex digits |
| Hex.HexToByteArray | lib/aes/index.js:72-74 | decoding succeeds exactly when the text has even length and only hex digits (either case); the result has half as many octets as the text has characters |
| Hex.DecodeEncode | lib/aes/index.js:72-81 | `hexToByteArray(byteArrayToHex(b)) == b` for every octet string |
| Hex.EncodeDecode | lib/aes/index.js:72-81 | re-encoding decoded lower-case hex gives the same text back |
| Utf8.StringToByteArray | lib/aes/index.js:58-60 | a string of n characters encodes in n to 4n octets |
| Utf8.AsciiEncoding | lib/aes/index.js:58-60 | ASCII text encodes as one octet per character, each equal to the character's code |
| Utf8.DecodeFirst | lib/aes/index.js:65-67 | the model's decoding step: a decoded first character uses exactly the number of octets its leading octet announces, all present; the program agrees on one- to three-octet forms only (see "Left out") |
| Utf8.ByteArrayToString | lib/aes/index.js:65-67 | a well-formed octet string decodes to at most as many characters as it has octets |
| Utf8.DecodeEncodedChar | lib/aes/index.js:58-67 | the model's decoder reads back exactly one encoded character, whatever octets follow it; for the program only for characters below U+10000 (see "Left out") |
| Utf8.EncodeDecodedChar | lib/aes/index.js:58-67 | what the model's decoder reads as one character is exactly that character's encoding; for the program only for one- to three-octet forms (see "Left out") |
| Utf8.DecodeEncode | lib/aes/index.js:58-67 | the model's decoder gives back every string of scalar values it encodes; for the program this round trip holds for strings of characters below U+10000 only (see "Left out") |
| Utf8.EncodeDecode | lib/aes/index.js:58-67 | encoding what the model's decoder makes of well-formed octets gives the same octets back; for the program only when no four-octet form occurs (see "Left out") |
| Aes.EncryptData | lib/aes/index.js:42-45 | the ciphertext is exactly as long as the plaintext (no padding) |
| Aes.DecryptData | lib/aes/index.js:50-53 | the plaintext is exactly as long as the ciphertext |
| Aes.DecryptEncrypt | lib/aes/index.js:42-53 | `decryptData(k, encryptData(k, d)) == d` for every key and data |
| Aes.EncryptDecrypt | lib/aes/index.js:42-53 | `encryptData(k, decryptData(k, d)) == d`: every octet string is the ciphertext of something |
| Aes.EncryptPrefix | lib/aes/index.js:42-45 | the ciphertext of a prefix is the prefix of the ciphertext |
| Aes.KeystreamReuse | lib/aes/index.js:42-53 | every call starts from the same counter, so combining two ciphertexts under one key gives the combination of their plaintexts |
| Aes.CheckKey128 | lib/aes/index.js:11-22 | true exactly when the key is present, has 16 entries and every entry is in [0, 256) |
| Aes.GenKey128 | lib/aes/index.js:28-37 | 16 entries, entry i is `floor(r_i * 256)`; the key passes `checkKey128`; `hex` is `byteArrayToHex` of the key and has 32 characters |
| NodePath.Extname | lib/basic-storage/index.js:67-69 | `path.extname` is empty or a dot followed by dot-free text, and never holds a slash |
| NodePath.ExtnameEndsBasename | lib/basic-storage/index.js:67-69 | the extension is the tail of the base name |
| NodePath.ExtnameOfStem | lib/basic-storage/index.js:67-69 | a non-empty stem without dots or slashes followed by an extension has that extension |
| NodePath.NoDotNoExtension | lib/secure-storage/functions.js:55-57 | a name without a dot, such as `a`, has the extension "" |
| NodePath.HiddenNameHasNoExtension | lib/secure-storage/functions.js:55-57 | a name whose only dot leads, such as `.txt`, has the extension "" |
| NodePath.ExtensionOf | lib/secure-storage/functions.js:55 | `extname(name).substr(1)` has no dot or slash, is "" when the extension is, and is otherwise the extension without its dot |
| NodePath.ExtensionOfStem | lib/secure-storage/functions.js:55 | `stem.ext` is compared as `ext` |
| NodeFs.Access | lib/basic-storage/index.js:29-31 | `fs.access` succeeds exactly for existing files and directories |
| NodeFs.ReadFile | lib/basic-storage/index.js:39-41 | `fs.readFile` yields the stored octets exactly when the path is a file, otherwise an error about that path |
| NodeFs.WriteFile | lib/basic-storage/index.js:49-51 | `fs.writeFile` succeeds exactly when the path is writable, replaces only that path's contents, and leaves the file system unchanged on error |
| NodeFs.Unlink | lib/basic-storage/index.js:59-61 | `fs.unlink` succeeds exactly when the path is a file, and removes only that path |
| BasicStorage.GetFilePath | lib/basic-storage/index.js:13-15 | the path is `cwd/`, then the container, then `/` and the file name, with the two separators counted in its length |
| BasicStorage.FilePathsDistinct | lib/basic-storage/index.js:13-15 | within one container, two file names give the same path exactly when they are the same name |
| BasicStorage.FilePathParts | lib/basic-storage/index.js:13-15 | a slash-free file name is the last segment of its path, and the path's parent is `cwd/container` |
| BasicStorage.CheckIfExists | lib/basic-storage/index.js:28-32 | true exactly when the path names an existing file or directory |
| BasicStorage.ReadFileData | lib/basic-storage/index.js:38-42 | the file's octets when it exists, otherwise the `fs` error unchanged |
| BasicStorage.WriteFileData | lib/basic-storage/index.js:48-52 | no error exactly when the path is writable; then only that path changes, to the given octets |
| BasicStorage.DeleteFile | lib/basic-storage/index.js:58-62 | true exactly when the file existed; the error object is not forwarded; only that path disappears |
| BasicStorage.UuidHasNoDotOrSlash | lib/basic-storage/index.js:68 | a version-4 uuid contains no dot and no slash |
| BasicStorage.ExtnameAfterUuid | lib/basic-storage/index.js:67-69 | appending an extension to a uuid gives a name with exactly that extension |
| BasicStorage.GenUniqueName | lib/basic-storage/index.js:67-69 | the unique name starts with the uuid, keeps the original extension, is 36 characters plus that extension, and has no slash |
| FormFileParser.Parse | lib/form-file-parser/index.js:9-20 | one descriptor per uploaded file, in order, each carrying that file's five fields and no original name |
| SecureStorage.SecureReadFileData | lib/secure-storage/functions.js:10-15 | succeeds exactly when the file exists; the result encrypts to the stored octets; a read error passes through unchanged |
| SecureStorage.SecureWriteFileData | lib/secure-storage/functions.js:21-23 | only the encryption of the data is written; it decrypts back to the data; an error leaves the file system unchanged |
| SecureStorage.SecureDeleteFileData | lib/secure-storage/functions.js:29-33 | a plain delete: true exactly when the file existed, and only that path is removed |
| SecureStorage.ReadGivesPlaintext | lib/secure-storage/functions.js:10-15 | on a store that holds only ciphertext, a read returns the plaintext of that path |
| SecureStorage.WriteKeepsCiphertextOnly | lib/secure-storage/functions.js:21-23 | a write keeps the store holding only ciphertext, with the written plaintext added |
| SecureStorage.DeleteKeepsCiphertextOnly | lib/secure-storage/functions.js:29-33 | a delete keeps the store holding only ciphertext, with that path's plaintext dropped |
| SecureStorage.WriteThenRead | lib/secure-storage/functions.js:10-23 | reading back what was written with the same key gives the original data |
| SecureStorage.FirstRefusal | lib/secure-storage/functions.js:43-62 | the reference for the ordered checks: the first check in a list that refuses, and none before it refuses |
| SecureStorage.Validate | lib/secure-storage/functions.js:43-62 | a file count other than 1 is refused with 412; an accepted upload yields its single file; every refusal is 412 or 413 |
| SecureStorage.ValidateIsFirstRefusal | lib/secure-storage/functions.js:43-62 | checks run in the order count, type, extension, size; the first one that refuses decides the status; the upload is accepted exactly when none refuses |
| SecureStorage.SizeCheck | lib/secure-storage/functions.js:60-62 | once the other checks pass, 413 exactly when a non-zero limit is set and exceeded; a file exactly at the limit passes, and a limit of 0 or none lets every size through |
| SecureStorage.EmptyTypeListRefusesAll | lib/secure-storage/functions.js:50-52 | a configured empty list of content types refuses every upload with 412 |
| SecureStorage.Rename | lib/secure-storage/functions.js:65-66 | `originalFileName` is the received name; the name becomes the unique name exactly when `nameMakeUnique`; nothing else changes; the extension is kept |
| SecureStorage.StoreAccepted | lib/secure-storage/functions.js:64-72 | the renamed file is written encrypted and reported with the form fields; a write error is 500 and changes nothing |
| SecureStorage.SaveAsEncryptedHTTPFile | lib/secure-storage/functions.js:37-73 | a refused upload returns its status and leaves the file system unchanged; an accepted one succeeds exactly when the target is writable, stores the encryption of the data under the returned name, and returns the descriptor with the form fields; a failed write is 500 |
| SecureStorage.UploadKeepsCiphertextOnly | lib/secure-storage/functions.js:37-73 | an upload keeps the store holding only ciphertext; only an accepted upload adds a plaintext |
| SecureStorage.Names | lib/secure-storage/functions.js:81-85 | every header name that is set is among the names |
| SecureStorage.SetHeaders | lib/secure-storage/functions.js:81-85 | applying the sets in order gives exactly the old names plus the set ones, and leaves untouched headers as they were |
| SecureStorage.LastSetWins | lib/secure-storage/functions.js:81-83 | a header holds the value of its last set |
| SecureStorage.ReadAsDecryptedBytes | lib/secure-storage/functions.js:91-100 | succeeds exactly when the file exists; the result encrypts to the stored octets; an error passes through |
| SecureStorage.DownloadResponse | lib/secure-storage/functions.js:78-88 | a read error gives 400 with the error as JSON; otherwise 200, Content-Type `application/download`, Content-Disposition `attachment;filename=<name>`, Content-Transfer-Encoding `binary`, and the decrypted octets as body |
| SecureStorage.StreamAsDecryptedHTTPFile | lib/secure-storage/functions.js:75-89 | a missing file gives 400 with the read error; an existing one gives 200 with exactly those three headers and a body that encrypts to the stored octets |
| SecureStorage.SecureDelete | lib/secure-storage/functions.js:102-109 | true exactly when the file existed in the configured root; only that path is removed |
| SecureStorage.UploadThenRead | lib/secure-storage/functions.js:37-100 | an accepted upload reads back, under the name it reports, as the uploaded octets |
| SecureStorage.UploadThenDownload | lib/secure-storage/functions.js:37-89 | an accepted upload downloads, under the name it reports, with status 200, that name in Content-Disposition and the uploaded octets as body |
| SecureStorage.DownloadOfReadable | lib/secure-storage/functions.js:75-89 | a file that reads as some data downloads with status 200 and that data as body |
| LegacySecureStorage.ByteKey | lib/secure-storage/index.js:66 | the upload's key, decoded the same way again by every read (line 97): one octet per two hex digits; for lower-case key text it re-encodes to that text; 32 digits give a valid 128-bit key |
| LegacySecureStorage.TooLarge | lib/secure-storage/index.js:57 | an absent limit refuses nothing; a limit of 0 refuses every non-empty file; any other limit refuses exactly what the functions.js size check refuses |
| LegacySecureStorage.LegacyValidate | lib/secure-storage/index.js:50-59 | a count other than 1 is refused with 412; with one file, a missing list of content types throws, and a type outside the list is refused with 412; then a size above a present limit is refused with 413 |
| LegacySecureStorage.LegacySaveAsEncryptedHTTPFile | lib/secure-storage/index.js:44-73 | a refused or thrown upload leaves the file system unchanged; an accepted one succeeds exactly when the target is writable, and stores the encryption of the data under the key decoded from the hex text; the key text must decode only once the checks pass |
| LegacySecureStorage.LegacyReadAsDecryptedBytes | lib/secure-storage/index.js:91-103 | succeeds exactly when the file exists, and then the result encrypts, under the key decoded again from the hex text, to the stored octets; a missing file's read error passes through whatever the key text |
| LegacySecureStorage.LegacyStreamAsDecryptedHTTPFile | lib/secure-storage/index.js:75-89 | the same 400-on-error and header rules as the newer variant; a missing file gives 400 whatever the key text |
| LegacySecureStorage.LegacySecureDelete | lib/secure-storage/index.js:105-112 | true exactly when the file existed; only that path is removed |
| LegacySecureStorage.LegacyUploadThenRead | lib/secure-storage/index.js:44-103 | upload and read decode the same hex text, so an accepted upload reads back as the uploaded octets |
| LegacySecureStorage.ValidationsAgree | lib/secure-storage/index.js:50-59 | with a list of content types and a limit other than 0, the legacy checks accept the same file as the functions.js checks, and refuse with the same status |
| LegacySecureStorage.VariantsAgree | lib/secure-storage/index.js:44-73 | with a list of content types and a limit other than 0, the legacy upload and the functions.js upload (given no extension list) give the same result and file system |
| LegacySecureStorage.MissingTypeListDiffers | lib/secure-storage/index.js:51 | with one file and no list of content types, the legacy upload throws and stores nothing, while functions.js never refuses it with 412 |
| LegacySecureStorage.ZeroLimitDiffers | lib/secure-storage/index.js:57-59 | a limit of 0 refuses every non-empty legacy upload with 413, while functions.js does not refuse it for size |
| LegacySecureStorage.LegacyIgnoresExtension | lib/secure-storage/index.js:49-59 | a file that functions.js refuses for its extension alone is neither refused with 412 or 413 nor thrown in the legacy variant |
| Scenarios.ParseUpload | lib/form-file-parser/index.js:9-20 | the test form parses to one descriptor with the sent name, type, size and octets |
| Scenarios.UploadTxtExtension | test/index.js:13 | `upload.txt` has the extension `.txt`, compared as `txt` |
| Scenarios.UploadExeExtension | test/index.js:14 | `upload.exe` is compared as `exe` |
| Scenarios.TestConfigRefusesMime | test/index.js:16-27 | the test configuration refuses another content type with 412 |
| Scenarios.TestConfigRefusesExtension | test/index.js:16-27 | the test configuration refuses a text file without extension `txt` with 412 |
| Scenarios.TestConfigRefusesSize | test/index.js:196-213 | with a lowered limit, a larger text file is refused with 413 |
| Scenarios.TestConfigAccepts | test/index.js:16-27 | the test configuration accepts a `txt` text file within the limit |
| Scenarios.AcceptedTextUpload | test/index.js:129-147 | a text upload ending in `.txt` is stored, renamed to the uuid plus `.txt`, as the encryption of its octets |
| Scenarios.UploadTextFile | test/index.js:129-147 | `upload.txt` is accepted under a name other than `upload.txt`, with `originalFileName` `upload.txt` |
| Scenarios.DownloadTextFile | test/index.js:149-162 | the download after that upload carries the three expected headers and the sent octets |
| Scenarios.UploadWrongExtension | test/index.js:164-178 | `upload.exe` is refused with 412 and nothing is stored |
| Scenarios.UploadWrongMime | test/index.js:180-194 | `application/zip` is refused with 412 and nothing is stored |
| Scenarios.UploadTooLarge | test/index.js:196-213 | with the limit lowered to 10 octets, the 32-octet payload is refused with 413 and nothing is stored |

The read, write and delete compositions of lib/secure-storage/index.js:17-40 are the same code as lib/secure-storage/functions.js:10-33. They are modelled by the same `SecureStorage` members.

## Left out

- File system I/O: the real `fs` calls become `NodeFs` over an abstract file system. Write errors other than a missing parent directory or a directory in the way (EACCES, ENOSPC and the like) are not modelled.
- Path normalisation: `NodeFs` keys files and directories by the raw path text. Node resolves `.`, `..` and repeated slashes, so `cwd/c/../x`, `cwd/c/./x` and `cwd//c/x` name the same file as `cwd/x` or `cwd/c/x`; the model treats them as different. The "only that path changes" clauses are about path texts, not files. `Writable` refuses a path through `..` unless that text is itself listed as a directory. The test root `./test/storage/container` already gives paths containing `/./`.
- The throw of `parse` when `req.files` is undefined (lib/form-file-parser/index.js:10-11): `HttpRequest.files` is always a sequence, possibly empty.
- The throw of `res.set` (ERR_INVALID_CHAR) when a header value holds a control character or a character above U+00FF (lib/secure-storage/functions.js:84): file names are copied into Content-Disposition unchecked.
- `getConfig` (lib/basic-storage/index.js:20-22) and the module-load read of the configuration (lib/secure-storage/index.js:11): these read JSON from disk and the environment. The configuration is a parameter instead.
- The AES block function of aes-js and its internal counter increment: the block function is the abstract parameter `aes`. Nothing is claimed about secrecy or about what a wrong key yields.
- aes-js's refusal of keys that are not 16, 24 or 32 octets long: `EncryptData` and `DecryptData` accept any key.
- `Math.random` and `uuid.v4`: both are parameters, constrained to [0, 1) and to the version-4 uuid shape.
- Callback and promise delivery, and the Express, multer and HTTP plumbing: results are returned values, and a response is a record.
- `res.send(new Buffer(data))` is the octets themselves; the JSON encoding of `{error: err}` is the error value itself.
- The package entry point (`init`, `getRandomKey`, `writeFile`/`readFile`/`deleteFile`, `uploadFile`, `downloadFile`, `asKiB`/`asMiB`/`asGiB`) is not part of this model. The tests that drive it appear in `Scenarios` through the pipeline functions it calls.
- The `name` configuration field: it is read but never used.
- The overwrite-before-delete the comment at lib/secure-storage/functions.js:30-31 announces: the code does not do it.
- Hex.HexToByteArray: refuses malformed hex text (odd length, non-digit characters) with `None`. aes-js decodes such text leniently, and that leniency is not modelled.
- Utf8.ByteArrayToString: decodes strictly per section 3 of RFC 3629 and refuses anything else with `None`. Replacement characters and lenient decoding in aes-js are not modelled.
- Utf8.DecodeEncode: the round trip is proved for the model's decoder. aes-js's `utf8.fromBytes` reads every leading octet from 0xE0 up as the start of a three-octet sequence. So characters above U+FFFF do not round-trip in the program: "😀" (F0 9F 98 80) comes back as U+07D8 followed by U+0000. The program's round trip holds only for strings of characters below U+10000.
- Utf8.DecodeFirst: the step takes four octets for a leading octet F0 to F4. aes-js reads every leading octet from 0xE0 up as a three-octet form, so it agrees with this step on one- to three-octet forms only.
- Utf8.DecodeEncodedChar: holds for the model's decoder. In the program it fails for characters above U+FFFF, for the reason given under Utf8.DecodeFirst.
- Utf8.EncodeDecodedChar: holds for the model's decoder. In the program, F0 9F 98 is read as U+07D8, whose encoding is DF 98, so it fails on four-octet forms.
- Utf8.EncodeDecode: holds for the model's decoder. In the program, F0 9F 98 80 decodes to U+07D8 U+0000 and re-encodes to DF 98 00, so it holds only for octet strings without four-octet forms.
- Utf8.StringToByteArray: the model's strings are sequences of Unicode scalar values. A JavaScript string is a sequence of UTF-16 code units and may hold a lone surrogate (U+D800 to U+DFFF unpaired). `encodeURI`, which `toBytes` uses, throws URIError on such a string. That input and that throw are not modelled.
- LegacySecureStorage.LegacySaveAsEncryptedHTTPFile: requires the configured key text to decode as hex (`HasHexKey`) once the upload passes the checks. It does not model the key aes-js's lenient decoder would make of malformed key text.
- LegacySecureStorage.LegacyReadAsDecryptedBytes: requires the key text to decode as hex when the file exists. It does not model what aes-js would decrypt with a key decoded leniently from malformed text. A missing file needs no such key.
- LegacySecureStorage.LegacyStreamAsDecryptedHTTPFile: the same requires as LegacyReadAsDecryptedBytes, for the same reason.
- LegacySecureStorage.TooLarge: models an absent limit as "no limit", as `x > undefined` is false. A JSON `null` limit, which JavaScript compares as 0, is not modelled.
- Aes.CheckKey128: takes a sequence of integers. Non-integer JavaScript numbers and array-like values are not modelled.
