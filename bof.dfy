/**
  The BOF archive codec: an archive is a list of named byte blobs; `Build`
  serialises it and `Parse` validates and decodes a buffer.

  Layout of a built buffer:
    'B' 'O' 'F', major version, minor version, reserved byte 0,
    then per file: name bytes, 0, contents length (8 bytes LE), contents, CRC-32 of contents (4 bytes LE),
    then the CRC-32 of everything before it (4 bytes LE).
*/
module Bof {
  import opened Bytes
  import opened Error

  const MAJOR_VERSION: byte := 0
  const MINOR_VERSION: byte := 1

  /** "BOF" in ASCII. */
  const SIGNATURE: seq<byte> := [66, 79, 70]

  /** The reasons `parse` gives with `InvalidArchive`. */
  const TOO_SMALL: string := "file is too small"
  const BAD_SIGNATURE: string := "signature is not BOF"
  const SIZE_EOF: string := "unexpected EOF while parsing file size"
  const CONTENTS_EOF: string := "unexpected EOF while parsing file contents"
  const CHECKSUM_EOF: string := "unexpected EOF while parsing checksum"

  /**
    A checksum over bytes. The archive uses CRC-32 (`Crc32`); the format functions
    take it as a parameter, so what is proved about them holds for any checksum.
  */
  type Checksum = seq<byte> -> u32

  /** One archived file. The name is held as the bytes of its UTF-8 text. */
  datatype ArchivedFile = ArchivedFile(filename: seq<byte>, contents: seq<byte>)

  // ---------------------------------------------------------------------------
  // What `build` writes
  // ---------------------------------------------------------------------------

  /** Signature, major version, minor version and the reserved byte. */
  function Header(): seq<byte>
  {
    SIGNATURE + [MAJOR_VERSION, MINOR_VERSION, 0]
  }

  /** The record of one file. */
  function EncodeFile(checksum: Checksum, f: ArchivedFile): seq<byte>
  {
    f.filename + [0] + ToLeBytes(|f.contents|, 8) + f.contents + ToLeBytes(checksum(f.contents), 4)
  }

  /** The records of `files`, in order. */
  function EncodeFiles(checksum: Checksum, files: seq<ArchivedFile>): seq<byte>
  {
    if files == [] then [] else EncodeFile(checksum, files[0]) + EncodeFiles(checksum, files[1..])
  }

  /** The whole buffer `build` produces for `files`: header, records, then the CRC-32 of both. */
  function Encoding(checksum: Checksum, files: seq<ArchivedFile>): seq<byte>
  {
    var body := Header() + EncodeFiles(checksum, files);
    body + ToLeBytes(checksum(body), 4)
  }

  /** Appending a file appends its record. */
  lemma {:induction false} EncodeFilesSnoc(checksum: Checksum, files: seq<ArchivedFile>, f: ArchivedFile)
    ensures EncodeFiles(checksum, files + [f]) == EncodeFiles(checksum, files) + EncodeFile(checksum, f)
  {
    if files == [] {
      assert files + [f] == [f];
    } else {
      assert (files + [f])[1..] == files[1..] + [f];
      EncodeFilesSnoc(checksum, files[1..], f);
    }
  }

  /** One turn of `Build`'s loop: appending the fields of file `i` extends the output by its record. */
  lemma BuildStep(checksum: Checksum, files: seq<ArchivedFile>, i: nat, done: seq<byte>)
    requires i < |files| && done == Header() + EncodeFiles(checksum, files[..i])
    ensures var f := files[i];
      done + f.filename + [0] + ToLeBytes(|f.contents|, 8) + f.contents + ToLeBytes(checksum(f.contents), 4)
      == Header() + EncodeFiles(checksum, files[..i + 1])
  {
    AppendRecord(checksum, done, files[i]);
    EncodeFilesPrefix(checksum, files, i);
    AppendAssociative(Header(), EncodeFiles(checksum, files[..i]), EncodeFile(checksum, files[i]));
  }

  lemma AppendAssociative<T>(a: seq<T>, b: seq<T>, c: seq<T>)
    ensures a + b + c == a + (b + c)
  {
  }

  lemma AppendRecord(checksum: Checksum, done: seq<byte>, f: ArchivedFile)
    ensures done + f.filename + [0] + ToLeBytes(|f.contents|, 8) + f.contents + ToLeBytes(checksum(f.contents), 4)
         == done + EncodeFile(checksum, f)
  {
  }

  lemma EncodeFilesPrefix(checksum: Checksum, files: seq<ArchivedFile>, i: nat)
    requires i < |files|
    ensures EncodeFiles(checksum, files[..i + 1]) == EncodeFiles(checksum, files[..i]) + EncodeFile(checksum, files[i])
  {
    assert files[..i + 1] == files[..i] + [files[i]];
    EncodeFilesSnoc(checksum, files[..i], files[i]);
  }

  // ---------------------------------------------------------------------------
  // What `parse` reads
  // ---------------------------------------------------------------------------

  /** The bytes of `s` before its first 0 byte (all of `s` when there is none). */
  function TakeWhileNonZero(s: seq<byte>): (r: seq<byte>)
    ensures |r| <= |s|
  {
    s[..NulFrom(s, 0)]
  }

  /** The index of the first 0 byte of `s` at or after `i`, or `|s|`. */
  function NulFrom(s: seq<byte>, i: nat): (k: nat)
    requires i <= |s|
    ensures i <= k <= |s|
    decreases |s| - i
  {
    if i == |s| || s[i] == 0 then i else NulFrom(s, i + 1)
  }

  predicate IsAscii(s: seq<byte>)
  {
    forall i :: 0 <= i < |s| ==> s[i] < 0x80
  }

  predicate NulFree(s: seq<byte>)
  {
    forall i :: 0 <= i < |s| ==> s[i] != 0
  }

  lemma {:induction false} NulFromStops(s: seq<byte>, i: nat)
    requires i <= |s|
    ensures forall j :: i <= j < NulFrom(s, i) ==> s[j] != 0
    ensures NulFrom(s, i) < |s| ==> s[NulFrom(s, i)] == 0
    decreases |s| - i
  {
    if i < |s| && s[i] != 0 {
      NulFromStops(s, i + 1);
    }
  }

  /** The scanned name is a NUL-free prefix of `s`, followed in `s` by a 0 byte unless it is all of `s`. */
  lemma TakeWhileNonZeroStops(s: seq<byte>)
    ensures var r := TakeWhileNonZero(s);
      r == s[..|r|] && NulFree(r) && (|r| < |s| ==> s[|r|] == 0)
  {
    NulFromStops(s, 0);
  }

  /**
    The UTF-8 bytes of the text obtained by reading each byte of `raw` as the
    character with that code point (Latin-1): a byte below 0x80 stays, any other
    becomes two bytes.
  */
  function Latin1ToUtf8(raw: seq<byte>): (utf8: seq<byte>)
    ensures |utf8| >= |raw|
  {
    Latin1ToUtf8From(raw, 0)
  }

  /** The UTF-8 encoding of the character with code point `b`. */
  function Latin1Char(b: byte): (utf8: seq<byte>)
    ensures |utf8| >= 1
  {
    if b < 0x80 then [b] else [0xC0 + b / 64, 0x80 + b % 64]
  }

  function Latin1ToUtf8From(raw: seq<byte>, i: nat): (utf8: seq<byte>)
    requires i <= |raw|
    ensures |utf8| >= |raw| - i
    decreases |raw| - i
  {
    if i == |raw| then []
    else Latin1Char(raw[i]) + Latin1ToUtf8From(raw, i + 1)
  }

  lemma {:induction false} Latin1ToUtf8FromAscii(raw: seq<byte>, i: nat)
    requires i <= |raw| && IsAscii(raw)
    ensures Latin1ToUtf8From(raw, i) == raw[i..]
    decreases |raw| - i
  {
    if i < |raw| {
      Latin1ToUtf8FromAscii(raw, i + 1);
      assert raw[i..] == [raw[i]] + raw[i + 1..];
    }
  }

  lemma {:induction false} Latin1ToUtf8FromGrows(raw: seq<byte>, i: nat, j: nat)
    requires i <= j < |raw| && raw[j] >= 0x80
    ensures |Latin1ToUtf8From(raw, i)| > |raw| - i
    decreases j - i
  {
    if i < j {
      Latin1ToUtf8FromGrows(raw, i + 1, j);
    }
  }

  /** Decoding keeps an ASCII name as it is and lengthens any other. */
  lemma Latin1ToUtf8Length(raw: seq<byte>)
    ensures IsAscii(raw) ==> Latin1ToUtf8(raw) == raw
    ensures !IsAscii(raw) ==> |Latin1ToUtf8(raw)| > |raw|
  {
    if IsAscii(raw) {
      Latin1ToUtf8FromAscii(raw, 0);
    } else {
      var j :| 0 <= j < |raw| && raw[j] >= 0x80;
      Latin1ToUtf8FromGrows(raw, 0, j);
    }
  }

  /**
    How a scanned name becomes the stored file name. `Latin1Chars` is what the
    parser does; `RawBytes` keeps the bytes as they are (the corrected parser).
  */
  datatype NameRule = Latin1Chars | RawBytes

  function DecodeName(rule: NameRule, raw: seq<byte>): seq<byte>
  {
    match rule
    case Latin1Chars => Latin1ToUtf8(raw)
    case RawBytes => raw
  }

  /** A file read from the buffer and the offset just after its record. */
  datatype Entry = Entry(file: ArchivedFile, next: nat)

  /**
    Reads the file record at `offset`. The name is scanned in `bytes[offset .. |bytes| - 3]`;
    the size field starts one byte after the decoded name, whatever its length.
  */
  function ParseFile(checksum: Checksum, rule: NameRule, bytes: seq<byte>, offset: nat): (r: Result<Entry>)
    requires offset + 4 < |bytes|
    ensures r.Ok? ==> offset + 13 + |r.value.file.contents| <= r.value.next <= |bytes|
    ensures r.Err? ==> r.error.InvalidArchive? || r.error == InvalidChecksum
  {
    var fileName := DecodeName(rule, TakeWhileNonZero(bytes[offset..|bytes| - 3]));
    ParseFields(checksum, fileName, bytes, offset + |fileName| + 1)
  }

  /** Reads the size, contents and checksum fields of the file `fileName`, starting at `sizeAt`. */
  function ParseFields(checksum: Checksum, fileName: seq<byte>, bytes: seq<byte>, sizeAt: nat): (r: Result<Entry>)
    ensures r.Ok? ==> r.value.file.filename == fileName && r.value.next == sizeAt + 12 + |r.value.file.contents| <= |bytes|
    ensures r.Err? ==> r.error.InvalidArchive? || r.error == InvalidChecksum
  {
    if sizeAt + 8 > |bytes| then Err(InvalidArchive(SIZE_EOF))
    else
      var size := FromLeBytes(bytes[sizeAt..sizeAt + 8]);
      var contentsAt := sizeAt + 8;
      if contentsAt + size > |bytes| then Err(InvalidArchive(CONTENTS_EOF))
      else
        var checksumAt := contentsAt + size;
        if checksumAt + 4 > |bytes| then Err(InvalidArchive(CHECKSUM_EOF))
        else if FromLeBytes(bytes[checksumAt..checksumAt + 4]) != checksum(bytes[contentsAt..checksumAt]) then
          Err(InvalidChecksum)
        else Ok(Entry(ArchivedFile(fileName, bytes[contentsAt..checksumAt]), checksumAt + 4))
  }

  /** `files` followed by the outcome `r`, or the error of `r`. */
  function Prepend(files: seq<ArchivedFile>, r: Result<seq<ArchivedFile>>): Result<seq<ArchivedFile>>
  {
    match r
    case Ok(rest) => Ok(files + rest)
    case Err(e) => Err(e)
  }

  lemma PrependNothing(r: Result<seq<ArchivedFile>>)
    ensures Prepend([], r) == r
    ensures r.Ok? ==> Prepend(r.value, Ok([])) == r
  {
    if r.Ok? {
      assert [] + r.value == r.value + [] == r.value;
    }
  }

  lemma PrependTwice(a: seq<ArchivedFile>, b: seq<ArchivedFile>, r: Result<seq<ArchivedFile>>)
    ensures Prepend(a, Prepend(b, r)) == Prepend(a + b, r)
  {
    if r.Ok? {
      assert a + (b + r.value) == (a + b) + r.value;
    }
  }

  /** Reads file records from `offset` while more than 4 bytes remain. */
  function DecodeFiles(checksum: Checksum, rule: NameRule, bytes: seq<byte>, offset: nat): Result<seq<ArchivedFile>>
    requires offset <= |bytes|
    decreases |bytes| - offset
  {
    if |bytes| - offset <= 4 then Ok([])
    else
      match ParseFile(checksum, rule, bytes, offset)
      case Err(e) => Err(e)
      case Ok(entry) => Prepend([entry.file], DecodeFiles(checksum, rule, bytes, entry.next))
  }

  /** The last 4 bytes are the little-endian CRC-32 of all the others. */
  predicate TrailerMatches(checksum: Checksum, bytes: seq<byte>)
    requires |bytes| >= 4
  {
    ToLeBytes(checksum(bytes[..|bytes| - 4]), 4) == bytes[|bytes| - 4..]
  }

  /** The checks of `parse`, in order, then the file records from offset 6. */
  function DecodingWith(checksum: Checksum, rule: NameRule, bytes: seq<byte>): Result<seq<ArchivedFile>>
  {
    if |bytes| < 10 then Err(InvalidArchive(TOO_SMALL))
    else if bytes[..3] != SIGNATURE then Err(InvalidArchive(BAD_SIGNATURE))
    else if bytes[3] > MAJOR_VERSION then Err(VersionTooHigh(MAJOR_VERSION, bytes[3]))
    else if !TrailerMatches(checksum, bytes) then Err(InvalidChecksum)
    else DecodeFiles(checksum, rule, bytes, 6)
  }

  /** What `parse` returns for `bytes`. */
  function Decoding(bytes: seq<byte>): Result<seq<ArchivedFile>>
  {
    DecodingWith(Crc32, Latin1Chars, bytes)
  }

  // ---------------------------------------------------------------------------
  // The archive object
  // ---------------------------------------------------------------------------

  /** An archive: its files in the order they were added, duplicates included. */
  class BofArchive {
    var files: seq<ArchivedFile>

    /** An empty archive. */
    constructor ()
      ensures files == []
    {
      files := [];
    }

    /** Appends one file; the files already there are unchanged. */
    method Add(filename: seq<byte>, contents: seq<byte>)
      modifies this
      ensures files == old(files) + [ArchivedFile(filename, contents)]
    {
      files := files + [ArchivedFile(filename, contents)];
    }

    /** The files, in order. */
    function Files(): seq<ArchivedFile>
      reads this
    {
      files
    }

    /** Serialises the archive. Never fails. */
    method Build() returns (output: seq<byte>)
      ensures output == Encoding(Crc32, files)
    {
      output := [66, 79, 70, MAJOR_VERSION, MINOR_VERSION, 0];
      assert files[..0] == [];
      for i := 0 to |files|
        invariant output == Header() + EncodeFiles(Crc32, files[..i])
      {
        var file := files[i];
        ghost var done := output;
        output := output + file.filename + [0];
        output := output + ToLeBytes(|file.contents|, 8);
        output := output + file.contents;
        output := output + ToLeBytes(Crc32(file.contents), 4);
        BuildStep(Crc32, files, i, done);
      }
      assert files[..|files|] == files;
      output := output + ToLeBytes(Crc32(output), 4);
    }

    /** Validates and decodes `bytes`; on failure no archive is returned. */
    static method Parse(bytes: seq<byte>) returns (r: Result<BofArchive>)
      ensures Decoding(bytes).Err? ==> r == Err(Decoding(bytes).error)
      ensures Decoding(bytes).Ok? ==> r.Ok? && fresh(r.value) && r.value.files == Decoding(bytes).value
    {
      if |bytes| < 10 {
        return Err(InvalidArchive(TOO_SMALL));
      }
      if bytes[..3] != SIGNATURE {
        return Err(InvalidArchive(BAD_SIGNATURE));
      }
      var major := bytes[3];
      if major > MAJOR_VERSION {
        return Err(VersionTooHigh(MAJOR_VERSION, major));
      }
      if ToLeBytes(Crc32(bytes[..|bytes| - 4]), 4) != bytes[|bytes| - 4..] {
        return Err(InvalidChecksum);
      }

      var offset := 6;
      var archive := new BofArchive();
      PrependNothing(DecodeFiles(Crc32, Latin1Chars, bytes, 6));
      while |bytes[offset..]| > 4
        invariant 6 <= offset <= |bytes|
        invariant fresh(archive)
        invariant DecodeFiles(Crc32, Latin1Chars, bytes, 6) == Prepend(archive.files, DecodeFiles(Crc32, Latin1Chars, bytes, offset))
        decreases |bytes| - offset
      {
        var entry := ReadFile(Crc32, bytes, offset);
        if entry.Err? {
          return Err(entry.error);
        }
        PrependTwice(archive.files, [entry.value.file], DecodeFiles(Crc32, Latin1Chars, bytes, entry.value.next));
        offset := entry.value.next;
        archive.Add(entry.value.file.filename, entry.value.file.contents);
      }
      PrependNothing(Ok(archive.files));
      return Ok(archive);
    }

    /** One turn of `Parse`'s loop: reads the file record at `offset`, checking its contents with `hash` (CRC-32 in `Parse`). */
    static method ReadFile(hash: Checksum, bytes: seq<byte>, offset: nat) returns (r: Result<Entry>)
      requires offset + 4 < |bytes|
      ensures r == ParseFile(hash, Latin1Chars, bytes, offset)
    {
      var fileName := Latin1ToUtf8(TakeWhileNonZero(bytes[offset..|bytes| - 3]));
      r := ReadFields(hash, fileName, bytes, offset + |fileName| + 1);
    }

    /** The rest of the loop body, once the name is read. */
    static method ReadFields(hash: Checksum, fileName: seq<byte>, bytes: seq<byte>, fileSizeOffset: nat) returns (r: Result<Entry>)
      ensures r == ParseFields(hash, fileName, bytes, fileSizeOffset)
    {
      if fileSizeOffset + 8 > |bytes| {
        return Err(InvalidArchive(SIZE_EOF));
      }
      var fileSize := FromLeBytes(bytes[fileSizeOffset..fileSizeOffset + 8]);
      var fileContentsOffset := fileSizeOffset + 8;
      if fileContentsOffset + fileSize > |bytes| {
        return Err(InvalidArchive(CONTENTS_EOF));
      }
      var fileContents := bytes[fileContentsOffset..fileContentsOffset + fileSize];
      var checksumOffset := fileContentsOffset + fileSize;
      if checksumOffset + 4 > |bytes| {
        return Err(InvalidArchive(CHECKSUM_EOF));
      }
      var checksum := FromLeBytes(bytes[checksumOffset..checksumOffset + 4]);
      if checksum != hash(fileContents) {
        return Err(InvalidChecksum);
      }
      return Ok(Entry(ArchivedFile(fileName, fileContents), checksumOffset + 4));
    }

    /** `BofArchive::try_from(bytes)`: the same as `Parse`. */
    static method TryFrom(bytes: seq<byte>) returns (r: Result<BofArchive>)
      ensures Decoding(bytes).Err? ==> r == Err(Decoding(bytes).error)
      ensures Decoding(bytes).Ok? ==> r.Ok? && fresh(r.value) && r.value.files == Decoding(bytes).value
    {
      r := Parse(bytes);
    }
  }
}
