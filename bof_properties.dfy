/**
  What `build` and `parse` promise, stated over the functions that specify them.
  Every lemma holds for any checksum function; `build` and `parse` use CRC-32.
*/
module BofProperties {
  import opened Bytes
  import opened Error
  import opened Bof

  // ---------------------------------------------------------------------------
  // Build
  // ---------------------------------------------------------------------------

  /** The size of the records of `files`: name, NUL, 8-byte size, contents and 4-byte checksum each. */
  function RecordsSize(files: seq<ArchivedFile>): nat
  {
    if files == [] then 0
    else |files[0].filename| + 1 + 8 + |files[0].contents| + 4 + RecordsSize(files[1..])
  }

  lemma {:induction false} EncodeFilesLength(checksum: Checksum, files: seq<ArchivedFile>)
    ensures |EncodeFiles(checksum, files)| == RecordsSize(files)
  {
    if files != [] {
      EncodeFilesLength(checksum, files[1..]);
    }
  }

  /** A built buffer starts with "BOF", major 0, minor 1 and a zero reserved byte, and is 10 bytes plus its records long. */
  lemma EncodingLayout(checksum: Checksum, files: seq<ArchivedFile>)
    ensures Encoding(checksum, files)[..6] == [66, 79, 70, 0, 1, 0]
    ensures |Encoding(checksum, files)| == 10 + RecordsSize(files)
  {
    EncodeFilesLength(checksum, files);
  }

  /** The last 4 bytes of a built buffer are the checksum of the rest, so it passes parse's archive-wide check. */
  lemma EncodingTrailerMatches(checksum: Checksum, files: seq<ArchivedFile>)
    ensures |Encoding(checksum, files)| >= 10 && TrailerMatches(checksum, Encoding(checksum, files))
  {
    var body := Header() + EncodeFiles(checksum, files);
    assert Encoding(checksum, files)[..|body|] == body;
  }

  // ---------------------------------------------------------------------------
  // Parse: the checks before any record is read
  // ---------------------------------------------------------------------------

  /** The four checks fail in this order, the first failure deciding the error. */
  lemma DecodingChecksInOrder(checksum: Checksum, rule: NameRule, bytes: seq<byte>)
    ensures |bytes| < 10 ==> DecodingWith(checksum, rule, bytes) == Err(InvalidArchive(TOO_SMALL))
    ensures |bytes| >= 10 && bytes[..3] != SIGNATURE ==>
              DecodingWith(checksum, rule, bytes) == Err(InvalidArchive(BAD_SIGNATURE))
    ensures |bytes| >= 10 && bytes[..3] == SIGNATURE && bytes[3] > 0 ==>
              DecodingWith(checksum, rule, bytes) == Err(VersionTooHigh(0, bytes[3]))
    ensures |bytes| >= 10 && bytes[..3] == SIGNATURE && bytes[3] == 0 && !TrailerMatches(checksum, bytes) ==>
              DecodingWith(checksum, rule, bytes) == Err(InvalidChecksum)
  {
  }

  /** A buffer is accepted only if all four checks pass; only then are records read, from offset 6. */
  lemma DecodingOkPassedChecks(checksum: Checksum, rule: NameRule, bytes: seq<byte>)
    requires DecodingWith(checksum, rule, bytes).Ok?
    ensures |bytes| >= 10 && bytes[..3] == SIGNATURE && bytes[3] == MAJOR_VERSION && TrailerMatches(checksum, bytes)
    ensures DecodingWith(checksum, rule, bytes) == DecodeFiles(checksum, rule, bytes, 6)
  {
  }

  /** A 10-byte buffer that passes the checks holds no file. */
  lemma EmptyArchive(checksum: Checksum, rule: NameRule, bytes: seq<byte>)
    requires |bytes| == 10 && bytes[..3] == SIGNATURE && bytes[3] == 0 && TrailerMatches(checksum, bytes)
    ensures DecodingWith(checksum, rule, bytes) == Ok([])
  {
  }

  /** Changing a byte before `offset` changes no slice that starts at or after it. */
  lemma SliceAfterUpdate(bytes: seq<byte>, k: nat, v: byte, i: nat, j: nat)
    requires k < i <= j <= |bytes|
    ensures bytes[k := v][i..j] == bytes[i..j]
  {
  }

  lemma ParseFieldsAfterUpdate(checksum: Checksum, name: seq<byte>, bytes: seq<byte>, k: nat, v: byte, sizeAt: nat)
    requires k < sizeAt && k < |bytes|
    ensures ParseFields(checksum, name, bytes[k := v], sizeAt) == ParseFields(checksum, name, bytes, sizeAt)
  {
    if sizeAt + 8 <= |bytes| {
      SliceAfterUpdate(bytes, k, v, sizeAt, sizeAt + 8);
      var checksumAt := sizeAt + 8 + FromLeBytes(bytes[sizeAt..sizeAt + 8]);
      if checksumAt + 4 <= |bytes| {
        SliceAfterUpdate(bytes, k, v, sizeAt + 8, checksumAt);
        SliceAfterUpdate(bytes, k, v, checksumAt, checksumAt + 4);
      }
    }
  }

  /** A record is read from `offset` on: a byte before it does not matter. */
  lemma ParseFileAfterUpdate(checksum: Checksum, rule: NameRule, bytes: seq<byte>, k: nat, v: byte, offset: nat)
    requires k < offset && offset + 4 < |bytes|
    ensures ParseFile(checksum, rule, bytes[k := v], offset) == ParseFile(checksum, rule, bytes, offset)
  {
    var name := DecodeName(rule, TakeWhileNonZero(bytes[offset..|bytes| - 3]));
    NameAfterUpdate(rule, bytes, k, v, offset);
    ParseFieldsAfterUpdate(checksum, name, bytes, k, v, offset + |name| + 1);
    ParseFileByFields(checksum, rule, bytes[k := v], bytes, offset, name);
  }

  lemma NameAfterUpdate(rule: NameRule, bytes: seq<byte>, k: nat, v: byte, offset: nat)
    requires k < offset && offset + 4 < |bytes|
    ensures DecodeName(rule, TakeWhileNonZero(bytes[k := v][offset..|bytes| - 3]))
         == DecodeName(rule, TakeWhileNonZero(bytes[offset..|bytes| - 3]))
  {
    SliceAfterUpdate(bytes, k, v, offset, |bytes| - 3);
  }

  lemma ParseFileByFields(checksum: Checksum, rule: NameRule, a: seq<byte>, b: seq<byte>, offset: nat, name: seq<byte>)
    requires offset + 4 < |a| == |b|
    requires DecodeName(rule, TakeWhileNonZero(a[offset..|a| - 3])) == name
    requires DecodeName(rule, TakeWhileNonZero(b[offset..|b| - 3])) == name
    requires ParseFields(checksum, name, a, offset + |name| + 1) == ParseFields(checksum, name, b, offset + |name| + 1)
    ensures ParseFile(checksum, rule, a, offset) == ParseFile(checksum, rule, b, offset)
  {
  }

  /** Records are read only at and after `offset`. */
  lemma {:induction false} DecodeFilesAfterUpdate(checksum: Checksum, rule: NameRule, bytes: seq<byte>, k: nat, v: byte, offset: nat)
    requires k < offset <= |bytes|
    ensures DecodeFiles(checksum, rule, bytes[k := v], offset) == DecodeFiles(checksum, rule, bytes, offset)
    decreases |bytes| - offset
  {
    if |bytes| - offset > 4 {
      ParseFileAfterUpdate(checksum, rule, bytes, k, v, offset);
      var r := ParseFile(checksum, rule, bytes, offset);
      if r.Ok? {
        DecodeFilesAfterUpdate(checksum, rule, bytes, k, v, r.value.next);
      }
    }
  }

  /**
    The minor version (byte 4) and the reserved byte (byte 5) are never inspected:
    changing either changes the outcome only through the archive-wide checksum that covers it.
  */
  lemma MinorAndReservedIgnored(checksum: Checksum, rule: NameRule, bytes: seq<byte>, k: nat, v: byte)
    requires |bytes| >= 10 && (k == 4 || k == 5)
    requires TrailerMatches(checksum, bytes[k := v]) == TrailerMatches(checksum, bytes)
    ensures DecodingWith(checksum, rule, bytes[k := v]) == DecodingWith(checksum, rule, bytes)
  {
    var b := bytes[k := v];
    assert b[..3] == bytes[..3] && b[3] == bytes[3];
    DecodeFilesAfterUpdate(checksum, rule, bytes, k, v, 6);
  }

  // ---------------------------------------------------------------------------
  // Parse: the record loop
  // ---------------------------------------------------------------------------

  lemma {:induction false} NulFromRunsOut(s: seq<byte>, i: nat)
    requires i <= |s| && forall j :: i <= j < |s| ==> s[j] != 0
    ensures NulFrom(s, i) == |s|
    decreases |s| - i
  {
    if i < |s| {
      NulFromRunsOut(s, i + 1);
    }
  }

  /** A name with no NUL before `|bytes| - 3` pushes the size field past the end: a size-field error. */
  lemma UnterminatedName(checksum: Checksum, rule: NameRule, bytes: seq<byte>, offset: nat)
    requires offset + 4 < |bytes|
    requires forall i :: offset <= i < |bytes| - 3 ==> bytes[i] != 0
    ensures ParseFile(checksum, rule, bytes, offset) == Err(InvalidArchive(SIZE_EOF))
  {
    var window := bytes[offset..|bytes| - 3];
    NulFromRunsOut(window, 0);
    assert |DecodeName(rule, TakeWhileNonZero(window))| >= |window|;
  }

  /** The record loop fails only with `InvalidArchive` or `InvalidChecksum`, never `VersionTooHigh`. */
  lemma {:induction false} DecodeFilesErrors(checksum: Checksum, rule: NameRule, bytes: seq<byte>, offset: nat)
    requires offset <= |bytes|
    ensures DecodeFiles(checksum, rule, bytes, offset).Err? ==>
              DecodeFiles(checksum, rule, bytes, offset).error.InvalidArchive? ||
              DecodeFiles(checksum, rule, bytes, offset).error == InvalidChecksum
    decreases |bytes| - offset
  {
    if |bytes| - offset > 4 {
      var r := ParseFile(checksum, rule, bytes, offset);
      if r.Ok? {
        DecodeFilesErrors(checksum, rule, bytes, r.value.next);
      }
    }
  }

  /** Each record read takes at least 13 bytes, so the loop stops after at most (length - offset) / 13 records. */
  lemma {:induction false} DecodeFilesConsumes(checksum: Checksum, rule: NameRule, bytes: seq<byte>, offset: nat)
    requires offset <= |bytes|
    ensures DecodeFiles(checksum, rule, bytes, offset).Ok? ==>
              13 * |DecodeFiles(checksum, rule, bytes, offset).value| <= |bytes| - offset
    decreases |bytes| - offset
  {
    if |bytes| - offset > 4 {
      var r := ParseFile(checksum, rule, bytes, offset);
      if r.Ok? {
        DecodeFilesConsumes(checksum, rule, bytes, r.value.next);
      }
    }
  }

  // ---------------------------------------------------------------------------
  // Round trip
  // ---------------------------------------------------------------------------

  /** A file `build` writes and `parse`, under `rule`, reads back unchanged. */
  predicate Encodable(rule: NameRule, f: ArchivedFile)
  {
    && NulFree(f.filename)
    && (rule == Latin1Chars ==> IsAscii(f.filename))
    && |f.contents| < Pow256(8)
  }

  lemma {:induction false} NulFromFinds(s: seq<byte>, i: nat, k: nat)
    requires i <= k < |s| && s[k] == 0 && forall j :: i <= j < k ==> s[j] != 0
    ensures NulFrom(s, i) == k
    decreases k - i
  {
    if i < k {
      NulFromFinds(s, i + 1, k);
    }
  }

  /** The record of `f` lies in `bytes` at `o`: name, NUL, 8-byte size, contents, 4-byte checksum. */
  predicate RecordAt(checksum: Checksum, bytes: seq<byte>, o: nat, f: ArchivedFile)
  {
    var sizeAt := o + |f.filename| + 1;
    var c := f.contents;
    && sizeAt + 12 + |c| <= |bytes|
    && bytes[o..o + |f.filename|] == f.filename && bytes[o + |f.filename|] == 0
    && bytes[sizeAt..sizeAt + 8] == ToLeBytes(|c|, 8)
    && bytes[sizeAt + 8..sizeAt + 8 + |c|] == c
    && bytes[sizeAt + 8 + |c|..sizeAt + 12 + |c|] == ToLeBytes(checksum(c), 4)
  }

  /** The record `EncodeFile` writes after `prefix` lies at `|prefix|` and is 13 bytes longer than its name and contents. */
  lemma RecordLayout(checksum: Checksum, prefix: seq<byte>, f: ArchivedFile, rest: seq<byte>)
    ensures |prefix + EncodeFile(checksum, f)| == |prefix| + |f.filename| + 13 + |f.contents|
    ensures |prefix + EncodeFile(checksum, f) + rest| == |prefix + EncodeFile(checksum, f)| + |rest|
    ensures RecordAt(checksum, prefix + EncodeFile(checksum, f) + rest, |prefix|, f)
  {
    var c := f.contents;
    assert prefix + EncodeFile(checksum, f) + rest
        == prefix + f.filename + [0] + ToLeBytes(|c|, 8) + c + ToLeBytes(checksum(c), 4) + rest;
  }

  /** A NUL-free name followed by a NUL, at least 4 bytes before the end, is scanned exactly. */
  lemma ScanTerminatedName(bytes: seq<byte>, o: nat, name: seq<byte>)
    requires NulFree(name) && o + |name| + 3 < |bytes|
    requires bytes[o..o + |name|] == name && bytes[o + |name|] == 0
    ensures TakeWhileNonZero(bytes[o..|bytes| - 3]) == name
  {
    var window := bytes[o..|bytes| - 3];
    assert window[..|name|] == name;
    assert window[|name|] == 0;
    NulFromFinds(window, 0, |name|);
  }

  /** Once the name is known, the record is read by its fields, starting one byte after the name. */
  lemma ParseFileByName(checksum: Checksum, rule: NameRule, bytes: seq<byte>, o: nat, name: seq<byte>)
    requires o + 4 < |bytes|
    requires DecodeName(rule, TakeWhileNonZero(bytes[o..|bytes| - 3])) == name
    ensures ParseFile(checksum, rule, bytes, o) == ParseFields(checksum, name, bytes, o + |name| + 1)
  {
  }

  /** Fields holding a size, those many content bytes and their checksum read back as the file. */
  lemma ParseEncodedFields(checksum: Checksum, name: seq<byte>, c: seq<byte>, bytes: seq<byte>, sizeAt: nat)
    requires sizeAt + 12 + |c| <= |bytes|
    requires FromLeBytes(bytes[sizeAt..sizeAt + 8]) == |c|
    requires bytes[sizeAt + 8..sizeAt + 8 + |c|] == c
    requires FromLeBytes(bytes[sizeAt + 8 + |c|..sizeAt + 12 + |c|]) == checksum(c)
    ensures ParseFields(checksum, name, bytes, sizeAt) == Ok(Entry(ArchivedFile(name, c), sizeAt + 12 + |c|))
  {
  }

  lemma ReadBack(s: seq<byte>, n: nat, width: nat)
    requires s == ToLeBytes(n, width) && n < Pow256(width)
    ensures FromLeBytes(s) == n
  {
    FromToLeBytes(n, width);
  }

  /** The fields of a record in place read back as its file. */
  lemma ParseFieldsAt(checksum: Checksum, bytes: seq<byte>, o: nat, f: ArchivedFile, sizeAt: nat, next: nat)
    requires RecordAt(checksum, bytes, o, f) && |f.contents| < Pow256(8)
    requires sizeAt == o + |f.filename| + 1 && next == sizeAt + 12 + |f.contents|
    ensures ParseFields(checksum, f.filename, bytes, sizeAt) == Ok(Entry(f, next))
  {
    var c := f.contents;
    Pow256Widths();
    ReadBack(bytes[sizeAt..sizeAt + 8], |c|, 8);
    ReadBack(bytes[sizeAt + 8 + |c|..sizeAt + 12 + |c|], checksum(c), 4);
    ParseEncodedFields(checksum, f.filename, c, bytes, sizeAt);
  }

  /** The name of a record in place is read back under either rule, as long as the parser's rule gets an ASCII name. */
  lemma NameAt(rule: NameRule, bytes: seq<byte>, o: nat, name: seq<byte>)
    requires NulFree(name) && (rule == Latin1Chars ==> IsAscii(name))
    requires o + |name| + 3 < |bytes| && bytes[o..o + |name|] == name && bytes[o + |name|] == 0
    ensures DecodeName(rule, TakeWhileNonZero(bytes[o..|bytes| - 3])) == name
  {
    ScanTerminatedName(bytes, o, name);
    if rule == Latin1Chars {
      Latin1ToUtf8Length(name);
    }
  }

  /** A record in place, with at least 4 bytes after it, reads back as its file. */
  lemma ParseRecordAt(checksum: Checksum, rule: NameRule, bytes: seq<byte>, o: nat, f: ArchivedFile, next: nat)
    requires Encodable(rule, f) && RecordAt(checksum, bytes, o, f)
    requires next == o + |f.filename| + 13 + |f.contents| && next + 4 <= |bytes|
    ensures o + 4 < |bytes|
    ensures ParseFile(checksum, rule, bytes, o) == Ok(Entry(f, next))
  {
    NameAt(rule, bytes, o, f.filename);
    ParseFileByName(checksum, rule, bytes, o, f.filename);
    ParseFieldsAt(checksum, bytes, o, f, o + |f.filename| + 1, next);
  }

  /** Reading the record of `f`, written after `prefix` and followed by at least 4 bytes, gives back `f`. */
  lemma ParseEncodedFile(checksum: Checksum, rule: NameRule, prefix: seq<byte>, f: ArchivedFile, rest: seq<byte>)
    requires Encodable(rule, f) && |rest| >= 4
    ensures |prefix| + 4 < |prefix + EncodeFile(checksum, f) + rest|
    ensures ParseFile(checksum, rule, prefix + EncodeFile(checksum, f) + rest, |prefix|)
         == Ok(Entry(f, |prefix + EncodeFile(checksum, f)|))
  {
    RecordLayout(checksum, prefix, f, rest);
    ParseRecordAt(checksum, rule, prefix + EncodeFile(checksum, f) + rest, |prefix|, f, |prefix + EncodeFile(checksum, f)|);
  }

  /** The records of `files` after `prefix` are the record of the first file, then those of the others. */
  lemma EncodeFilesRegroup(checksum: Checksum, prefix: seq<byte>, files: seq<ArchivedFile>, trailer: seq<byte>)
    requires files != []
    ensures prefix + EncodeFiles(checksum, files) + trailer
         == prefix + EncodeFile(checksum, files[0]) + (EncodeFiles(checksum, files[1..]) + trailer)
    ensures prefix + EncodeFiles(checksum, files) + trailer
         == prefix + EncodeFile(checksum, files[0]) + EncodeFiles(checksum, files[1..]) + trailer
  {
    var a, b, c := EncodeFile(checksum, files[0]), EncodeFiles(checksum, files[1..]), trailer;
    assert prefix + (a + b) + c == prefix + a + (b + c) == prefix + a + b + c;
  }

  /** After a record read at `offset`, the rest is read from where that record ends. */
  lemma DecodeFilesStep(checksum: Checksum, rule: NameRule, bytes: seq<byte>, offset: nat, e: Entry)
    requires offset + 4 < |bytes| && ParseFile(checksum, rule, bytes, offset) == Ok(e)
    ensures DecodeFiles(checksum, rule, bytes, offset) == Prepend([e.file], DecodeFiles(checksum, rule, bytes, e.next))
  {
  }

  /** Records read from `offset`, if read at all, start with the record at `offset`. */
  lemma DecodeFilesHead(checksum: Checksum, rule: NameRule, bytes: seq<byte>, offset: nat)
    requires offset + 4 < |bytes|
    ensures var d := DecodeFiles(checksum, rule, bytes, offset);
      var r := ParseFile(checksum, rule, bytes, offset);
      d.Ok? ==> r.Ok? && |d.value| > 0 && d.value[0] == r.value.file
  {
    var d := DecodeFiles(checksum, rule, bytes, offset);
    var r := ParseFile(checksum, rule, bytes, offset);
    if r.Ok? && d.Ok? {
      DecodeFilesStep(checksum, rule, bytes, offset, r.value);
      PrependOne(r.value.file, DecodeFiles(checksum, rule, bytes, r.value.next), d.value);
    }
  }

  /** A list of files read as `a` followed by the outcome `r` starts with `a`, and `r` holds the others. */
  lemma PrependOne(a: ArchivedFile, r: Result<seq<ArchivedFile>>, files: seq<ArchivedFile>)
    ensures Prepend([a], r) == Ok(files) <==> |files| > 0 && files[0] == a && r == Ok(files[1..])
  {
    if r.Ok? && |files| > 0 && files[0] == a && r.value == files[1..] {
      assert [a] + files[1..] == files;
    }
  }

  /** Reading the records of `files`, written after `prefix` and followed by a 4-byte trailer, gives back `files`. */
  lemma {:induction false} DecodeEncodedFiles(checksum: Checksum, rule: NameRule, prefix: seq<byte>, files: seq<ArchivedFile>, trailer: seq<byte>)
    requires |trailer| == 4
    requires forall i :: 0 <= i < |files| ==> Encodable(rule, files[i])
    ensures DecodeFiles(checksum, rule, prefix + EncodeFiles(checksum, files) + trailer, |prefix|) == Ok(files)
    decreases |files|
  {
    if files != [] {
      var bytes := prefix + EncodeFiles(checksum, files) + trailer;
      var f := files[0];
      var prefix' := prefix + EncodeFile(checksum, f);
      EncodeFilesRegroup(checksum, prefix, files, trailer);
      ParseEncodedFile(checksum, rule, prefix, f, EncodeFiles(checksum, files[1..]) + trailer);
      DecodeFilesStep(checksum, rule, bytes, |prefix|, Entry(f, |prefix'|));
      DecodeEncodedFiles(checksum, rule, prefix', files[1..], trailer);
      PrependOne(f, Ok(files[1..]), files);
    }
  }

  /** A built buffer passes the four checks, so parsing it reads its records from offset 6. */
  lemma EncodingPassesChecks(checksum: Checksum, rule: NameRule, files: seq<ArchivedFile>)
    ensures |Encoding(checksum, files)| >= 10
    ensures DecodingWith(checksum, rule, Encoding(checksum, files)) == DecodeFiles(checksum, rule, Encoding(checksum, files), 6)
  {
    EncodingTrailerMatches(checksum, files);
    var bytes := Encoding(checksum, files);
    assert bytes[..3] == SIGNATURE && bytes[3] == 0;
  }

  lemma RoundTripUnder(checksum: Checksum, rule: NameRule, files: seq<ArchivedFile>)
    requires forall i :: 0 <= i < |files| ==> Encodable(rule, files[i])
    ensures DecodingWith(checksum, rule, Encoding(checksum, files)) == Ok(files)
  {
    EncodingPassesChecks(checksum, rule, files);
    var body := Header() + EncodeFiles(checksum, files);
    DecodeEncodedFiles(checksum, rule, Header(), files, ToLeBytes(checksum(body), 4));
  }

  /** Parsing what `build` wrote gives back the same files in the same order, duplicates included, when every name is ASCII without NUL. */
  lemma RoundTrip(files: seq<ArchivedFile>)
    requires forall i :: 0 <= i < |files| ==> Encodable(Latin1Chars, files[i])
    ensures Decoding(Encoding(Crc32, files)) == Ok(files)
  {
    RoundTripUnder(Crc32, Latin1Chars, files);
  }

  /** With names kept as the bytes read, any NUL-free names round-trip. */
  lemma CorrectedRoundTrip(files: seq<ArchivedFile>)
    requires forall i :: 0 <= i < |files| ==> Encodable(RawBytes, files[i])
    ensures DecodingWith(Crc32, RawBytes, Encoding(Crc32, files)) == Ok(files)
  {
    RoundTripUnder(Crc32, RawBytes, files);
  }

  /**
    A name with a byte of 0x80 or above does not survive: the parser stores each such
    byte as two, and moves on from the longer name.
  */
  lemma NonAsciiNameBreaksRoundTrip(files: seq<ArchivedFile>)
    requires forall i :: 0 <= i < |files| ==> Encodable(RawBytes, files[i])
    requires exists i :: 0 <= i < |files| && !IsAscii(files[i].filename)
    ensures Decoding(Encoding(Crc32, files)) != Ok(files)
  {
    EncodingPassesChecks(Crc32, Latin1Chars, files);
    var body := Header() + EncodeFiles(Crc32, files);
    NonAsciiRecordsMisread(Crc32, Header(), files, ToLeBytes(Crc32(body), 4));
  }

  lemma {:induction false} NonAsciiRecordsMisread(checksum: Checksum, prefix: seq<byte>, files: seq<ArchivedFile>, trailer: seq<byte>)
    requires |trailer| == 4
    requires forall i :: 0 <= i < |files| ==> Encodable(RawBytes, files[i])
    requires exists i :: 0 <= i < |files| && !IsAscii(files[i].filename)
    ensures DecodeFiles(checksum, Latin1Chars, prefix + EncodeFiles(checksum, files) + trailer, |prefix|) != Ok(files)
    decreases |files|
  {
    if IsAscii(files[0].filename) {
      var i :| 0 <= i < |files| && !IsAscii(files[i].filename);
      assert files[1..][i - 1] == files[i];
      NonAsciiRecordsMisread(checksum, prefix + EncodeFile(checksum, files[0]), files[1..], trailer);
      AsciiHeadRead(checksum, prefix, files, trailer);
    } else {
      NonAsciiHeadMisread(checksum, prefix, files, trailer);
    }
  }

  /** A first file with an ASCII name is read back, so the outcome is decided by the records after it. */
  lemma AsciiHeadRead(checksum: Checksum, prefix: seq<byte>, files: seq<ArchivedFile>, trailer: seq<byte>)
    requires |trailer| == 4 && files != [] && Encodable(RawBytes, files[0]) && IsAscii(files[0].filename)
    requires var prefix' := prefix + EncodeFile(checksum, files[0]);
      DecodeFiles(checksum, Latin1Chars, prefix' + EncodeFiles(checksum, files[1..]) + trailer, |prefix'|) != Ok(files[1..])
    ensures DecodeFiles(checksum, Latin1Chars, prefix + EncodeFiles(checksum, files) + trailer, |prefix|) != Ok(files)
  {
    var bytes := prefix + EncodeFiles(checksum, files) + trailer;
    var f := files[0];
    var prefix' := prefix + EncodeFile(checksum, f);
    EncodeFilesRegroup(checksum, prefix, files, trailer);
    ParseEncodedFile(checksum, Latin1Chars, prefix, f, EncodeFiles(checksum, files[1..]) + trailer);
    DecodeFilesStep(checksum, Latin1Chars, bytes, |prefix|, Entry(f, |prefix'|));
    PrependOne(f, DecodeFiles(checksum, Latin1Chars, bytes, |prefix'|), files);
  }

  /** A first file with a non-ASCII name is not read back as itself. */
  lemma NonAsciiHeadMisread(checksum: Checksum, prefix: seq<byte>, files: seq<ArchivedFile>, trailer: seq<byte>)
    requires |trailer| == 4 && files != [] && Encodable(RawBytes, files[0]) && !IsAscii(files[0].filename)
    ensures DecodeFiles(checksum, Latin1Chars, prefix + EncodeFiles(checksum, files) + trailer, |prefix|) != Ok(files)
  {
    var bytes := prefix + EncodeFiles(checksum, files) + trailer;
    var f := files[0];
    EncodeFilesRegroup(checksum, prefix, files, trailer);
    RecordLayout(checksum, prefix, f, EncodeFiles(checksum, files[1..]) + trailer);
    NonAsciiRecordsStartMisread(checksum, bytes, |prefix|, files);
  }

  /** Records read from a record of a file whose name is not ASCII do not start with that file. */
  lemma NonAsciiRecordsStartMisread(checksum: Checksum, bytes: seq<byte>, o: nat, files: seq<ArchivedFile>)
    requires files != [] && Encodable(RawBytes, files[0]) && !IsAscii(files[0].filename)
    requires RecordAt(checksum, bytes, o, files[0])
    requires o + |files[0].filename| + 17 + |files[0].contents| <= |bytes|
    ensures DecodeFiles(checksum, Latin1Chars, bytes, o) != Ok(files)
  {
    NonAsciiRecordMisread(checksum, bytes, o, files[0]);
    DecodeFilesHead(checksum, Latin1Chars, bytes, o);
  }

  /** The record of a file whose name is not ASCII reads back, if at all, under a longer name. */
  lemma NonAsciiRecordMisread(checksum: Checksum, bytes: seq<byte>, o: nat, f: ArchivedFile)
    requires Encodable(RawBytes, f) && !IsAscii(f.filename) && RecordAt(checksum, bytes, o, f)
    requires o + |f.filename| + 17 + |f.contents| <= |bytes|
    ensures o + 4 < |bytes|
    ensures var r := ParseFile(checksum, Latin1Chars, bytes, o);
      r.Ok? ==> |r.value.file.filename| > |f.filename|
  {
    ScanTerminatedName(bytes, o, f.filename);
    Latin1ToUtf8Length(f.filename);
    ParseFileByName(checksum, Latin1Chars, bytes, o, Latin1ToUtf8(f.filename));
  }
}
