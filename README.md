# BOF archive codec in Dafny

A model of the codec at the heart of the `bof` crate. A BOF archive is an
insertion-ordered list of named byte blobs. `BofArchive::build` serialises the
list. `BofArchive::parse`, reached through `TryFrom<&[u8]>`, validates a buffer
and decodes it back into the list, or returns a `BofError`.

A built buffer is laid out as follows:

- `'B' 'O' 'F'`, the major version 0, the minor version 1 and a reserved 0 byte;
- for each file, in list order: the name bytes, a 0 byte, the contents length
  as 8 little-endian bytes, the contents, and the CRC-32 of the contents as
  4 little-endian bytes;
- the CRC-32 of everything before it, as 4 little-endian bytes.

Files:

- `bytes.dfy` (module `Bytes`): bytes, `u32`, little-endian fixed-width
  integers with both round trips, and a bitwise reference definition of CRC-32
  (reflected polynomial 0xEDB88320, as in IEEE 802.3 clause 3.2.9).
- `error.dfy` (module `Error`): `BofError`, a `Result` type, and the display
  text of each error. Distinct errors are proved to display distinct texts.
- `bof.dfy` (module `Bof`): the format as functions, and the `BofArchive`
  class. `Encoding` is what `build` writes. `DecodingWith` is what `parse`
  returns: its four checks, in order, then the record loop (`DecodeFiles`,
  `ParseFile`, `ParseFields`). `Build` and `Parse` are imperative methods with
  the source's loops. Each is proved equal to its specification function.
- `bof_properties.dfy` (module `BofProperties`): what `build` and `parse`
  promise, proved about those functions. This covers the header, the length,
  the trailer, the order of the checks, the bytes parse never looks at, the
  loop's errors and progress, and the round trip.

Modelling decisions:

- **Checksum as a parameter.** The format functions take the checksum as a
  parameter of type `seq<byte> -> u32`. Every property is proved for any
  checksum function, except `RoundTrip`, `NonAsciiNameBreaksRoundTrip` and
  `CorrectedRoundTrip`, which are the CRC-32 instances of the round trip; none
  depends on how CRC-32 is computed. `Build`,
  `Parse` and `Decoding` pass the reference `Crc32`. `ReadFile` and
  `ReadFields` are the two halves of `parse`'s loop body. They take the
  checksum as an argument, and `Parse` passes `Crc32`.
- **Names are bytes.** A file name is held as the bytes of its UTF-8 text.
  `parse` reads a name by turning each byte into the `char` with that code
  point (Latin-1). It then advances by the UTF-8 length of the resulting
  `String` (bof/src/lib.rs:97-100). This is modelled exactly:
  `Latin1ToUtf8` keeps a byte below 0x80 and turns any other byte into two.
  As a result, only ASCII names round-trip; see "## Findings".
- **The corrected parser.** `NameRule` selects how a scanned name is stored.
  `Latin1Chars` is what the code does, and `Parse` and `Decoding` use it.
  `RawBytes` keeps the bytes as scanned. The properties are proved for both
  rules, with one difference in the round trip (`RoundTripUnder`): under
  `Latin1Chars` it needs ASCII names, and `NonAsciiNameBreaksRoundTrip` shows
  it fails for any other name.
- **The archive is a list.** `add` pushes onto a `Vec` (bof/src/lib.rs:31-42),
  so files keep insertion order and duplicates are kept. There is no operation
  that removes a file.

## Model

| member | source | states |
|---|---|---|
| Bytes.ToLeBytes | bof/src/lib.rs:56 | `to_le_bytes` of a `width`-byte integer gives exactly `width` bytes |
| Bytes.FromLeBytes | bof/src/lib.rs:106 | `from_le_bytes` of `k` bytes is below 256^k |
| Bytes.FromToLeBytes | bof/src/lib.rs:106 | decoding the little-endian bytes of a value that fits in `width` bytes gives the value back (u64 sizes, u32 checksums) |
| Bytes.ToFromLeBytes | bof/src/lib.rs:122 | encoding a decoded byte string gives the same bytes back |
| Error.Decimal | bof/src/error.rs:5 | `{}` of an unsigned integer is a non-empty run of decimal digits, one digit exactly when the value is below 10 |
| Error.DecimalRoundTrip | bof/src/error.rs:5 | the digits displayed for a number denote that number |
| Error.MessageKind | bof/src/error.rs:3-7 | the first letter of the display text tells `VersionTooHigh` from the rest, and the ninth tells `InvalidArchive` from `InvalidChecksum` |
| Error.InvalidArchiveMessages | bof/src/error.rs:3 | two `InvalidArchive` errors with the same text have the same reason |
| Error.VersionMessages | bof/src/error.rs:5 | two `VersionTooHigh` errors with the same text have the same `expected` and `version` |
| Error.MessageIdentifiesError | bof/src/error.rs:2-9 | errors with the same display text are equal, so the text identifies the error |
| Error.Message | bof/src/error.rs:3-7 | definition, no contract: the display text of each variant; its meaning is stated by `Error.MessageIdentifiesError` |
| Bof.Header | bof/src/lib.rs:51-52 | definition, no contract: signature, major version, minor version and the reserved 0 byte; stated by `BofProperties.EncodingLayout` |
| Bof.EncodeFile | bof/src/lib.rs:55-58 | definition, no contract: the record of one file (name, 0, 8-byte size, contents, 4-byte checksum) |
| Bof.EncodeFiles | bof/src/lib.rs:54-59 | definition, no contract: the records of the files in list order; stated by `Bof.EncodeFilesSnoc` and `BofProperties.EncodeFilesLength` |
| Bof.Encoding | bof/src/lib.rs:48-64 | definition, no contract: the whole buffer `build` writes; stated by `BofProperties.EncodingLayout`, `BofProperties.EncodingTrailerMatches` and the round-trip lemmas |
| Bof.TrailerMatches | bof/src/lib.rs:84 | definition, no contract: the last 4 bytes are the little-endian checksum of the rest |
| Bof.DecodeFiles | bof/src/lib.rs:92-130 | definition, no contract: the record loop from an offset while more than 4 bytes remain; stated by `BofProperties.DecodeFilesErrors`, `BofProperties.DecodeFilesConsumes` and `BofProperties.DecodeEncodedFiles` |
| Bof.DecodingWith | bof/src/lib.rs:66-133 | definition, no contract: the four checks in order, then the record loop from offset 6, for a given checksum and name rule; stated by `BofProperties.DecodingChecksInOrder`, `BofProperties.DecodingOkPassedChecks` and `BofProperties.RoundTripUnder` |
| Bof.Decoding | bof/src/lib.rs:66-133 | definition, no contract: `DecodingWith` with CRC-32 and the Latin-1 name rule, what `parse` returns |
| Bof.BofArchive.Files | bof/src/lib.rs:44-46 | definition, no contract: the file list, in order |
| Bof.EncodeFilesSnoc | bof/src/lib.rs:54-59 | appending a file to the list appends exactly its record to the output |
| Bof.BuildStep | bof/src/lib.rs:55-58 | one turn of `build`'s loop turns the output for the first `i` files into the output for the first `i + 1` |
| Bof.TakeWhileNonZero | bof/src/lib.rs:94-96 | the scanned name is no longer than the scan window |
| Bof.TakeWhileNonZeroStops | bof/src/lib.rs:94-96 | the scanned name is a NUL-free prefix of the window, followed there by a 0 byte unless it fills the window |
| Bof.Latin1ToUtf8 | bof/src/lib.rs:97-98 | decoding a name never makes it shorter |
| Bof.Latin1ToUtf8Length | bof/src/lib.rs:97-100 | an ASCII name is kept as is; any other name comes out strictly longer, which moves the size field |
| Bof.ParseFile | bof/src/lib.rs:93-128 | a record read at `offset` ends at least 13 bytes plus its contents after `offset` and within the buffer; it fails only with `InvalidArchive` or `InvalidChecksum` |
| Bof.ParseFields | bof/src/lib.rs:100-128 | a read record keeps the given name and ends 12 bytes plus its contents after the size field, within the buffer; it fails only with `InvalidArchive` or `InvalidChecksum` |
| Bof.BofArchive.constructor | bof/src/lib.rs:36-38 | a new archive has no files |
| Bof.BofArchive.Add | bof/src/lib.rs:40-42 | the file list becomes the old list with `(filename, contents)` appended; earlier files are unchanged and duplicates are kept |
| Bof.BofArchive.Build | bof/src/lib.rs:48-64 | the output is the header, the records of the files in list order, and the checksum of both; it never fails |
| Bof.BofArchive.Parse | bof/src/lib.rs:66-133 | returns exactly the error of the first failed check, or a fresh archive holding the decoded files in order; no partial archive on failure |
| Bof.BofArchive.ReadFile | bof/src/lib.rs:93-100 | one turn of the loop returns the record `ParseFile` reads at `offset` under the Latin-1 name rule |
| Bof.BofArchive.ReadFields | bof/src/lib.rs:100-128 | the size, contents and checksum steps return what `ParseFields` gives, error for error |
| Bof.BofArchive.TryFrom | bof/src/lib.rs:136-142 | the same outcome as `Parse` |
| BofProperties.EncodeFilesLength | bof/src/lib.rs:54-59 | the records of the files take the sum of name length + 1 + 8 + contents length + 4 over the files |
| BofProperties.EncodingLayout | bof/src/lib.rs:52 | a built buffer starts with 66, 79, 70, 0, 1, 0 and is 10 bytes longer than its records |
| BofProperties.EncodingTrailerMatches | bof/src/lib.rs:61 | the last 4 bytes of a built buffer are the checksum of the rest, so it passes parse's archive-wide check |
| BofProperties.EncodingPassesChecks | bof/src/lib.rs:67-89 | a built buffer passes all four checks, so parsing it reads its records from offset 6 |
| BofProperties.DecodingChecksInOrder | bof/src/lib.rs:67-86 | for any checksum and name rule, fewer than 10 bytes, a wrong signature, a major version above 0 (`VersionTooHigh { expected: 0, version: bytes[3] }`) and a checksum mismatch each give their error, the first failing check deciding |
| BofProperties.DecodingOkPassedChecks | bof/src/lib.rs:67-92 | a buffer is accepted only if all four checks pass, and its files are the records read from offset 6 |
| BofProperties.EmptyArchive | bof/src/lib.rs:89-92 | a 10-byte buffer that passes the checks parses to an empty archive |
| BofProperties.ParseFieldsAfterUpdate | bof/src/lib.rs:100-128 | the size, contents and checksum fields are read only at and after the size field |
| BofProperties.ParseFileAfterUpdate | bof/src/lib.rs:93-128 | a record is read only from its offset on: changing an earlier byte does not change it |
| BofProperties.DecodeFilesAfterUpdate | bof/src/lib.rs:92-130 | the record loop reads only bytes at and after its starting offset |
| BofProperties.MinorAndReservedIgnored | bof/src/lib.rs:75-88 | the minor version byte and the reserved byte are never inspected: changing either changes the outcome only through the archive-wide checksum |
| BofProperties.UnterminatedName | bof/src/lib.rs:94-105 | a name with no 0 byte before `len - 3` pushes the size field out of range, giving the size-field `InvalidArchive` |
| BofProperties.DecodeFilesErrors | bof/src/lib.rs:92-130 | the record loop fails only with `InvalidArchive` or `InvalidChecksum` |
| BofProperties.DecodeFilesConsumes | bof/src/lib.rs:92-130 | each record read consumes at least 13 bytes, so a successful loop from `offset` reads at most `(len - offset) / 13` records |
| BofProperties.ParseEncodedFile | bof/src/lib.rs:93-128 | the record `build` writes for a file, followed by at least 4 bytes, reads back as that file and ends where the record ends |
| BofProperties.DecodeEncodedFiles | bof/src/lib.rs:92-130 | the records of a list of files, followed by a 4-byte trailer, read back as the same list |
| BofProperties.RoundTripUnder | bof/src/lib.rs:48-133 | for any checksum, parsing a built buffer gives back the same files, in order and with duplicates, whenever each name survives the name rule |
| BofProperties.RoundTrip | bof/src/lib.rs:48-133 | `parse(build(a)) == Ok(a)` for every archive whose names are ASCII without a 0 byte and whose contents are shorter than 2^64 bytes |
| BofProperties.CorrectedRoundTrip | bof/src/lib.rs:94-100 | with names kept as the bytes scanned, every archive whose names have no 0 byte round-trips |
| BofProperties.NonAsciiNameBreaksRoundTrip | bof/src/lib.rs:97-100 | the parser as written does not give back an archive that has a name with a byte of 0x80 or above |
| BofProperties.NonAsciiRecordsMisread | bof/src/lib.rs:92-130 | the record loop does not read back a list of records that holds a non-ASCII name |
| BofProperties.NonAsciiRecordMisread | bof/src/lib.rs:97-100 | the record of a file with a non-ASCII name reads back, if at all, under a longer name |

## Left out

- The command-line tool (reading and writing files, joining paths, printing a listing, argument declarations): it is I/O glue around `add`, `build` and `try_from`.
- `crc32fast::hash` is a foreign library. The model has a bitwise reference `Crc32`, but nothing proves it equal to the library's table-driven code. No property depends on it: each holds for any checksum function.
- `ArchivedFile::new`, `ArchivedFile::filename`, `ArchivedFile::contents` and `BofArchive::files` are a constructor and plain accessors. They are the `ArchivedFile` datatype's constructor and fields and the class's `files` field, read by `Files()`. There is nothing to state about them beyond what they return.
- Ownership: `build` consumes the archive. `Build` leaves it unchanged, and nothing reads it afterwards.
- Bof.BofArchive.Parse: offsets are unbounded. `file_contents_offset + file_size as usize` can overflow or panic, and `as usize` truncates on 32-bit targets. These cases are not modelled: the range checks are stated as "end ≤ length".
- BofProperties.RoundTrip: it assumes contents shorter than 2^64 bytes, the range of the `u64` length field.
- UTF-8 validity of Rust `String` names: names are byte sequences, apart from the Latin-1 length rule above.

## Findings

| source | as written | input that shows it | evidently intended | confidence | as-written member | corrected member |
|---|---|---|---|---|---|---|
| bof/src/lib.rs:97-100 | each name byte becomes the `char` with that code point. The size field is then looked for `file_name.len() + 1` bytes on, which is the UTF-8 length of that `String`. A byte of 0x80 or above counts twice. | an archive with one file named "é" (UTF-8 bytes 0xC3 0xA9): the name is read back as "Ã©" (4 bytes), and the size field is looked for 2 bytes too far | a name reads back as the bytes written, and the size field follows the NUL that ends it | not executed | BofProperties.NonAsciiNameBreaksRoundTrip | BofProperties.CorrectedRoundTrip |
