/** InfiniZip: the archive code that drives an EndianBinaryReader over an
    archive stream. Its methods are proved against the functions of module
    ZipFormat. The class holds the one piece of state the code keeps between
    calls, LastCentralDirOffset. */
module Archives {
  import opened Results
  import opened ByteOrder
  import opened ReaderSpec
  import opened ZipFormat
  import opened IO

  /** Entries in front of a repetition's result. */
  function PrependEntries(es: seq<Entry>, r: Result<(seq<Entry>, nat)>): Result<(seq<Entry>, nat)> {
    match r
    case Ok((rest, end)) => Ok((es + rest, end))
    case Err(e) => Err(e)
  }

  /** One step of a repetition: its first entry in front of the rest. */
  lemma RepeatStep(step: Step, pos: nat, k: int, e: Entry, next: nat)
    requires k > 0 && step(pos) == Ok((e, next))
    ensures Repeat(step, pos, k) == PrependEntries([e], Repeat(step, next, k - 1))
  {
  }

  /** Entries prepended in two steps are prepended once. */
  lemma PrependTwice(a: seq<Entry>, b: seq<Entry>, r: Result<(seq<Entry>, nat)>)
    ensures PrependEntries(a, PrependEntries(b, r)) == PrependEntries(a + b, r)
  {
    if r.Ok? {
      assert a + (b + r.value.0) == a + b + r.value.0;
    }
  }

  /** Files in front of an extraction's result. */
  function PrependFiles(files: seq<Extracted>, x: Extraction): Extraction {
    Extraction(files + x.files, x.failure)
  }

  /** The offset a parse leaves in LastCentralDirOffset: the one it read from
      the end record, or the previous one when there is no end record. */
  function OffsetAfterParse(data: seq<byte>, previous: int): int {
    match FindEocd(data)
    case Some(e) => LocatorAt(data, e).centralDirOffset
    case None => previous
  }

  class InfiniZip {
    /** LastCentralDirOffset: the directory offset read by the latest parse.
        A static property in the source; here a field of one object. */
    var lastCentralDirOffset: int

    constructor ()
      ensures lastCentralDirOffset == 0
    {
      lastCentralDirOffset := 0;
    }

    /** ParseCentralDirectory: scan backwards for the end record, read the
        record count and the directory offset, then read that many records. */
    method ParseCentralDirectory(stream: Stream, host: Endianness) returns (r: Result<seq<Entry>>)
      modifies this, stream
      ensures r == ParseDirectory(stream.data)
      ensures r.Ok? ==> stream.position == ParseDirectoryAt(stream.data).value.1
      ensures lastCentralDirOffset == OffsetAfterParse(stream.data, old(lastCentralDirOffset))
    {
      var reader := new EndianBinaryReader(stream, LittleEndian, host);
      var eocdPosition := FindEndRecord(reader);
      if eocdPosition < 0 {
        return Err(EocdNotFound);
      }
      var locator := ReadLocator(reader, eocdPosition);
      lastCentralDirOffset := locator.centralDirOffset;
      var sought := stream.Seek(locator.centralDirOffset, Begin);
      if sought.Fail? {
        return Err(sought.error);
      }
      r := ReadRecords(reader, locator.totalRecords, RecordStep(stream.data));
    }

    /** The backward scan for the end record: the last position, counting
        from Length - 22 down to 0, whose four bytes are its signature, or -1. */
    method FindEndRecord(reader: EndianBinaryReader) returns (eocdPosition: int)
      requires reader.Valid() && reader.endianness == LittleEndian
      modifies reader.baseStream
      ensures match FindEocd(reader.baseStream.data)
        case Some(e) => eocdPosition == e
        case None => eocdPosition == -1
    {
      var stream := reader.baseStream;
      ghost var data := stream.data;
      eocdPosition := -1;
      var i: int := |stream.data| - EocdSize;
      while i >= 0
        invariant i + EocdSize <= |data|
        invariant ScanBack(data, i) == FindEocd(data)
        invariant eocdPosition == -1
        invariant reader.Valid() && reader.endianness == LittleEndian
        decreases i + 1
      {
        var _ := stream.Seek(i, Begin);
        var v := reader.Read(Int32);
        if v == Ok(EocdSignature) {
          eocdPosition := i;
          break;
        }
        i := i - 1;
      }
    }

    /** The end record's fields: signature, three skipped 16-bit fields, the
        record count, a skipped 32-bit field and the directory offset. */
    method ReadLocator(reader: EndianBinaryReader, eocd: nat) returns (locator: Locator)
      requires reader.Valid() && reader.endianness == LittleEndian
      requires eocd + EocdSize <= |reader.baseStream.data|
      modifies reader.baseStream
      ensures locator == LocatorAt(reader.baseStream.data, eocd)
      ensures reader.baseStream.position == eocd + 20
    {
      ghost var data := reader.baseStream.data;
      var _ := reader.baseStream.Seek(eocd, Begin);
      var _ := reader.Read(Int32);
      ValuesSucceed(data, eocd + 4, Int16, 3, LittleEndian);
      var _ := reader.ReadArray(Int16s, 3);
      locator := ReadLocatorFields(reader, eocd);
    }

    /** The record count at eocd + 10, the directory size (read and ignored)
        and the directory offset at eocd + 16. */
    method ReadLocatorFields(reader: EndianBinaryReader, ghost eocd: nat) returns (locator: Locator)
      requires reader.Valid() && reader.endianness == LittleEndian
      requires eocd + EocdSize <= |reader.baseStream.data| && reader.baseStream.position == eocd + 10
      modifies reader.baseStream
      ensures locator == LocatorAt(reader.baseStream.data, eocd)
      ensures reader.baseStream.position == eocd + 20
    {
      var totalCentralDirRecords := reader.Read(Int16);
      var _ := reader.Read(Int32);
      var centralDirOffset := reader.Read(Int32);
      locator := Locator(totalCentralDirRecords.value, centralDirOffset.value);
    }

    /** The record loop: `total` successive records from the current position.
        The record parser is passed as `step`, which parses as ParseRecord does. */
    method ReadRecords(reader: EndianBinaryReader, total: int, ghost step: Step) returns (r: Result<seq<Entry>>)
      requires reader.Valid() && reader.endianness == LittleEndian
      requires forall p {:trigger ParseRecord(reader.baseStream.data, p)} :: step(p) == ParseRecord(reader.baseStream.data, p)
      modifies reader`builder, reader.baseStream
      ensures var spec := Repeat(step, old(reader.baseStream.position), total);
        (spec.Ok? ==> r == Ok(spec.value.0) && reader.baseStream.position == spec.value.1) &&
        (spec.Err? ==> r == Err(spec.error))
    {
      var stream := reader.baseStream;
      ghost var data, start := stream.data, stream.position;
      var entries: seq<Entry> := [];
      var k := 0;
      assert forall es: seq<Entry> :: [] + es == es;
      while k < total
        invariant 0 <= k && (k <= total || k == 0)
        invariant reader.Valid() && reader.endianness == LittleEndian
        invariant Repeat(step, start, total) == PrependEntries(entries, Repeat(step, stream.position, total - k))
      {
        ghost var before := stream.position;
        var entry := ReadEntryStep(reader, step);
        if entry.Err? {
          return Err(entry.error);
        }
        RepeatStep(step, before, total - k, entry.value, stream.position);
        PrependTwice(entries, [entry.value], Repeat(step, stream.position, total - k - 1));
        entries := entries + [entry.value];
        k := k + 1;
      }
      assert entries + [] == entries;
      r := Ok(entries);
    }

    /** ReadEntry, stated through `step`. */
    method ReadEntryStep(reader: EndianBinaryReader, ghost step: Step) returns (r: Result<Entry>)
      requires reader.Valid() && reader.endianness == LittleEndian
      requires forall p {:trigger ParseRecord(reader.baseStream.data, p)} :: step(p) == ParseRecord(reader.baseStream.data, p)
      modifies reader`builder, reader.baseStream
      ensures var spec := step(old(reader.baseStream.position));
        (spec.Ok? ==> r == Ok(spec.value.0) && reader.baseStream.position == spec.value.1) &&
        (spec.Err? ==> r == Err(spec.error))
    {
      ghost var data, pos := reader.baseStream.data, reader.baseStream.position;
      r := ReadEntry(reader);
      assert step(pos) == ParseRecord(data, pos);
    }

    /** The fixed 46-byte part of a central directory record. */
    method ReadHeader(reader: EndianBinaryReader) returns (r: Result<Header>)
      requires reader.Valid() && reader.endianness == LittleEndian
      modifies reader.baseStream
      ensures r == HeaderAt(reader.baseStream.data, old(reader.baseStream.position))
      ensures r.Ok? ==> reader.baseStream.position == old(reader.baseStream.position) + CentralHeaderSize
    {
      ghost var data, pos := reader.baseStream.data, reader.baseStream.position;
      var signature := reader.Read(Int32);
      if signature.Err? {
        return Err(signature.error);
      }
      if signature.value != CentralDirSignature {
        return Err(InvalidEntrySignature(signature.value));
      }
      ValuesSucceed(data, pos + 4, Int16, 6, LittleEndian);
      var versions := reader.ReadArray(Int16s, 6);
      if versions.Err? {
        return Err(versions.error);
      }
      r := ReadHeaderFields(reader);
    }

    /** The header fields after the signature and the six skipped 16-bit
        fields, read from q = start + 16 to start + 46. */
    method ReadHeaderFields(reader: EndianBinaryReader) returns (r: Result<Header>)
      requires reader.Valid() && reader.endianness == LittleEndian
      modifies reader.baseStream
      ensures var data, q := reader.baseStream.data, old(reader.baseStream.position);
        if q + CentralHeaderSize - 16 <= |data| then
          r == Ok(Header(U32(data, q + 4), U32(data, q + 8), I16(data, q + 12),
                         I16(data, q + 14), I16(data, q + 16), U32(data, q + 26))) &&
          reader.baseStream.position == q + CentralHeaderSize - 16
        else r == Err(EndOfStream)
    {
      ghost var data, q := reader.baseStream.data, reader.baseStream.position;
      var sizes := ReadSizes(reader);
      if sizes.Err? {
        return Err(sizes.error);
      }
      var (compressedSize, uncompressedSize) := sizes.value;
      var lengths := ReadLengths(reader);
      if lengths.Err? {
        return Err(lengths.error);
      }
      var (fileNameLength, extraFieldLength, fileCommentLength) := lengths.value;
      var localHeaderOffset := ReadOffset(reader);
      if localHeaderOffset.Err? {
        return Err(localHeaderOffset.error);
      }
      r := Ok(Header(compressedSize, uncompressedSize, fileNameLength,
                     extraFieldLength, fileCommentLength, localHeaderOffset.value));
    }

    /** The disk number and internal attributes (skipped), the external
        attributes (read and ignored) and the local header offset. */
    method ReadOffset(reader: EndianBinaryReader) returns (r: Result<nat>)
      requires reader.Valid() && reader.endianness == LittleEndian
      modifies reader.baseStream
      ensures var data, q := reader.baseStream.data, old(reader.baseStream.position);
        if q + 12 <= |data| then r == Ok(U32(data, q + 8)) && reader.baseStream.position == q + 12
        else r == Err(EndOfStream)
    {
      ghost var data, q := reader.baseStream.data, reader.baseStream.position;
      ValuesSucceed(data, q, Int16, 2, LittleEndian);
      var attributes := reader.ReadArray(Int16s, 2);
      if attributes.Err? {
        return Err(attributes.error);
      }
      var externalAttributes := reader.Read(Int32);
      if externalAttributes.Err? {
        return Err(externalAttributes.error);
      }
      var localHeaderOffset := reader.Read(UInt32);
      if localHeaderOffset.Err? {
        return Err(localHeaderOffset.error);
      }
      r := Ok(localHeaderOffset.value);
    }

    /** The file name, extra field and comment lengths, signed 16-bit each. */
    method ReadLengths(reader: EndianBinaryReader) returns (r: Result<(int, int, int)>)
      requires reader.Valid() && reader.endianness == LittleEndian
      modifies reader.baseStream
      ensures var data, q := reader.baseStream.data, old(reader.baseStream.position);
        if q + 6 <= |data| then
          r == Ok((I16(data, q), I16(data, q + 2), I16(data, q + 4))) && reader.baseStream.position == q + 6
        else r == Err(EndOfStream)
    {
      var fileNameLength := reader.Read(Int16);
      if fileNameLength.Err? {
        return Err(fileNameLength.error);
      }
      var extraFieldLength := reader.Read(Int16);
      if extraFieldLength.Err? {
        return Err(extraFieldLength.error);
      }
      var fileCommentLength := reader.Read(Int16);
      if fileCommentLength.Err? {
        return Err(fileCommentLength.error);
      }
      r := Ok((fileNameLength.value, extraFieldLength.value, fileCommentLength.value));
    }

    /** The CRC-32 (read and ignored), the compressed size and the uncompressed size. */
    method ReadSizes(reader: EndianBinaryReader) returns (r: Result<(nat, nat)>)
      requires reader.Valid() && reader.endianness == LittleEndian
      modifies reader.baseStream
      ensures var data, q := reader.baseStream.data, old(reader.baseStream.position);
        if q + 12 <= |data| then
          r == Ok((U32(data, q + 4), U32(data, q + 8))) && reader.baseStream.position == q + 12
        else r == Err(EndOfStream)
    {
      var crc32 := reader.Read(UInt32);
      if crc32.Err? {
        return Err(crc32.error);
      }
      var compressedSize := reader.Read(UInt32);
      if compressedSize.Err? {
        return Err(compressedSize.error);
      }
      var uncompressedSize := reader.Read(UInt32);
      if uncompressedSize.Err? {
        return Err(uncompressedSize.error);
      }
      r := Ok((compressedSize.value, uncompressedSize.value));
    }

    /** The loop over the extra sub-fields up to `end`, keeping the last hash. */
    method ReadExtraFields(reader: EndianBinaryReader, end: nat) returns (r: Result<Option<seq<byte>>>)
      requires reader.Valid() && reader.endianness == LittleEndian
      modifies reader.baseStream
      ensures var spec := ExtraFields(reader.baseStream.data, old(reader.baseStream.position), end, None);
        (spec.Ok? ==> r == Ok(spec.value.0) && reader.baseStream.position == spec.value.1) &&
        (spec.Err? ==> r == Err(spec.error))
    {
      var stream := reader.baseStream;
      ghost var data, start := stream.data, stream.position;
      var md5Hash: Option<seq<byte>> := None;
      while stream.position < end
        invariant reader.Valid() && reader.endianness == LittleEndian
        invariant ExtraFields(data, start, end, None) == ExtraFields(data, stream.position, end, md5Hash)
        decreases end - stream.position
      {
        var field := ReadExtraField(reader, md5Hash);
        if field.Err? {
          return Err(field.error);
        }
        md5Hash := field.value;
      }
      r := Ok(md5Hash);
    }

    /** The loop body: one sub-field, keeping the hash if it is the hash sub-field. */
    method ReadExtraField(reader: EndianBinaryReader, md5Hash: Option<seq<byte>>) returns (r: Result<Option<seq<byte>>>)
      requires reader.Valid() && reader.endianness == LittleEndian
      modifies reader.baseStream
      ensures var spec := ExtraField(reader.baseStream.data, old(reader.baseStream.position), md5Hash);
        (spec.Ok? ==> r == Ok(spec.value.0) && reader.baseStream.position == spec.value.1) &&
        (spec.Err? ==> r == Err(spec.error))
    {
      var fieldID := reader.Read(UInt16);
      if fieldID.Err? {
        return Err(fieldID.error);
      }
      var fieldSize := reader.Read(UInt16);
      if fieldSize.Err? {
        return Err(fieldSize.error);
      }
      if fieldID.value == HashFieldId && fieldSize.value == HashFieldSize {
        var padding := reader.ReadBytes(3);
        if padding.Err? {
          return Err(padding.error);
        }
        var hash := reader.ReadBytes(16);
        if hash.Err? {
          return Err(hash.error);
        }
        return Ok(Some(hash.value));
      } else {
        var skipped := reader.ReadBytes(fieldSize.value);
        if skipped.Err? {
          return Err(skipped.error);
        }
        return Ok(md5Hash);
      }
    }

    /** One central directory record: header, name, extra sub-fields, comment. */
    method ReadEntry(reader: EndianBinaryReader) returns (r: Result<Entry>)
      requires reader.Valid() && reader.endianness == LittleEndian
      modifies reader`builder, reader.baseStream
      ensures var spec := ParseRecord(reader.baseStream.data, old(reader.baseStream.position));
        (spec.Ok? ==> r == Ok(spec.value.0) && reader.baseStream.position == spec.value.1) &&
        (spec.Err? ==> r == Err(spec.error))
    {
      var stream := reader.baseStream;
      ghost var data, pos := stream.data, stream.position;
      var header := ReadHeader(reader);
      if header.Err? {
        return Err(header.error);
      }
      var h := header.value;
      var fileName := reader.ReadString(FixedLength, h.fileNameLength);
      if fileName.Err? {
        return Err(fileName.error);
      }
      var md5Hash: Option<seq<byte>> := None;
      if h.extraFieldLength > 0 {
        var extraFieldStart := stream.position;
        var extraFieldEnd := extraFieldStart + h.extraFieldLength;
        var fields := ReadExtraFields(reader, extraFieldEnd);
        if fields.Err? {
          return Err(fields.error);
        }
        md5Hash := fields.value;
      }
      if h.fileCommentLength > 0 {
        var comment := reader.ReadBytes(h.fileCommentLength);
        if comment.Err? {
          return Err(comment.error);
        }
      }
      r := Ok(Entry(fileName.value, h.localHeaderOffset, h.compressedSize, h.uncompressedSize, md5Hash));
    }

    /** ExtractZip: parse the directory, then extract each entry in list order;
        the first failure stops the extraction. Writing the files is left to
        the caller, which receives them in order. */
    method ExtractZip(stream: Stream, host: Endianness, zlib: Codec, deflate: Codec) returns (x: Extraction)
      modifies this, stream
      ensures x == ExtractArchive(stream.data, zlib, deflate)
      ensures lastCentralDirOffset == OffsetAfterParse(stream.data, old(lastCentralDirOffset))
    {
      var reader := new EndianBinaryReader(stream, LittleEndian, host);
      var entries := ParseCentralDirectory(stream, host);
      if entries.Err? {
        return Extraction([], Some(entries.error));
      }
      x := ExtractEntriesAt(reader, entries.value, zlib, deflate);
    }

    /** The extraction loop: entries in list order, stopping at the first failure. */
    method ExtractEntriesAt(reader: EndianBinaryReader, es: seq<Entry>, zlib: Codec, deflate: Codec)
      returns (x: Extraction)
      requires reader.Valid() && reader.endianness == LittleEndian
      modifies reader.baseStream
      ensures x == ExtractEntries(reader.baseStream.data, es, zlib, deflate)
    {
      x := ExtractLoop(reader, es, zlib, deflate, EntryExtractor(reader.baseStream.data, zlib, deflate));
    }

    /** The foreach loop, against an extractor that agrees with ExtractEntry. */
    method ExtractLoop(reader: EndianBinaryReader, es: seq<Entry>, zlib: Codec, deflate: Codec,
                       ghost extract: Extractor) returns (x: Extraction)
      requires reader.Valid() && reader.endianness == LittleEndian
      requires forall e {:trigger ExtractEntry(reader.baseStream.data, e, zlib, deflate)} ::
        extract(e) == ExtractEntry(reader.baseStream.data, e, zlib, deflate)
      modifies reader.baseStream
      ensures x == ExtractAll(extract, es)
    {
      ghost var data := reader.baseStream.data;
      var files: seq<Extracted> := [];
      assert es[0..] == es;
      for index := 0 to |es|
        invariant reader.Valid() && reader.endianness == LittleEndian
        invariant ExtractAll(extract, es) == PrependFiles(files, ExtractAll(extract, es[index..]))
      {
        var entry := es[index];
        var contents := ExtractEntryAt(reader, entry, zlib, deflate);
        assert extract(entry) == ExtractEntry(data, entry, zlib, deflate);
        ghost var tail := es[index..];
        assert tail[0] == entry && tail[1..] == es[index + 1..];
        if contents.Err? {
          assert ExtractAll(extract, tail) == Extraction([], Some(contents.error));
          assert files + [] == files;
          return Extraction(files, Some(contents.error));
        }
        ghost var rest := ExtractAll(extract, es[index + 1..]);
        assert ExtractAll(extract, tail) ==
               Extraction([Extracted(entry.fileName, contents.value)] + rest.files, rest.failure);
        assert files + ([Extracted(entry.fileName, contents.value)] + rest.files) ==
               files + [Extracted(entry.fileName, contents.value)] + rest.files;
        files := files + [Extracted(entry.fileName, contents.value)];
      }
      assert ExtractAll(extract, es[|es|..]) == Extraction([], None);
      assert files + [] == files;
      x := Extraction(files, None);
    }

    /** The body of the extraction loop for one entry: read its payload, then
        try zlib and raw deflate, each output accepted only with the declared
        uncompressed size. */
    method ExtractEntryAt(reader: EndianBinaryReader, entry: Entry, zlib: Codec, deflate: Codec)
      returns (r: Result<seq<byte>>)
      requires reader.Valid() && reader.endianness == LittleEndian
      modifies reader.baseStream
      ensures r == ExtractEntry(reader.baseStream.data, entry, zlib, deflate)
    {
      var compressedData := ReadPayload(reader, entry);
      if compressedData.Err? {
        return Err(compressedData.error);
      }
      var decompressed := zlib(compressedData.value);
      if decompressed.Some? && |decompressed.value| != entry.uncompressedSize {
        decompressed := None;
      }
      if decompressed.None? {
        decompressed := deflate(compressedData.value);
        if decompressed.Some? && |decompressed.value| != entry.uncompressedSize {
          decompressed := None;
        }
      }
      if decompressed.None? {
        return Err(DecompressFailed(entry.fileName));
      }
      r := Ok(decompressed.value);
    }

    /** Seek to the entry's local header, skip its signature, 22 bytes and its
        own name and extra field, then read CompressedSize bytes. */
    method ReadPayload(reader: EndianBinaryReader, entry: Entry) returns (r: Result<seq<byte>>)
      requires reader.Valid() && reader.endianness == LittleEndian
      modifies reader.baseStream
      ensures r == PayloadAt(reader.baseStream.data, entry)
    {
      var skip := ReadLocalHeader(reader, entry.localHeaderOffset);
      if skip.Err? {
        return Err(skip.error);
      }
      var names := reader.ReadBytes(skip.value);
      if names.Err? {
        return Err(names.error);
      }
      r := reader.ReadBytes(UIntToInt(entry.compressedSize));
    }

    /** The seek to the local file header and its 30 bytes: the signature
        (read, never checked), 22 skipped bytes and the two lengths that
        are skipped before the payload. */
    method ReadLocalHeader(reader: EndianBinaryReader, lho: nat) returns (r: Result<int>)
      requires reader.Valid() && reader.endianness == LittleEndian
      modifies reader.baseStream
      ensures var data := reader.baseStream.data;
        if lho + LocalHeaderSize <= |data| then
          r == Ok(I16(data, lho + 26) + I16(data, lho + 28)) && reader.baseStream.position == lho + LocalHeaderSize
        else r == Err(EndOfStream)
    {
      var _ := reader.baseStream.Seek(lho, Begin);
      var localHeaderSig := reader.Read(UInt32);
      if localHeaderSig.Err? {
        return Err(localHeaderSig.error);
      }
      var skipped := reader.ReadBytes(22);
      if skipped.Err? {
        return Err(skipped.error);
      }
      var fileNameLength := reader.Read(Int16);
      if fileNameLength.Err? {
        return Err(fileNameLength.error);
      }
      var extraFieldLength := reader.Read(Int16);
      if extraFieldLength.Err? {
        return Err(extraFieldLength.error);
      }
      r := Ok(fileNameLength.value + extraFieldLength.value);
    }
  }
}
