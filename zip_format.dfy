/** The InfiniZip archive dialect as functions of the archive bytes: where the
    end-of-central-directory record is (APPNOTE.TXT section 4.3.16), what each
    central directory file header yields (section 4.3.12, with the vendor's
    extra field 0x464B inside the extensible data of section 4.5), where each
    payload lies behind its local file header (section 4.3.7), and which codec
    output is accepted. Archives.InfiniZip is proved against these. */
module ZipFormat {
  import opened Results
  import opened ByteOrder
  import opened ReaderSpec

  const EocdSignature: int := 0x06054b50
  const CentralDirSignature: int := 0x02014b50
  /** Fixed sizes of the end record, the central header and the local header. */
  const EocdSize: nat := 22
  const CentralHeaderSize: nat := 46
  const LocalHeaderSize: nat := 30
  /** The vendor's extra sub-field carrying a 16-byte hash after 3 bytes. */
  const HashFieldId: nat := 0x464B
  const HashFieldSize: nat := 19

  /** InfiniZip.Entry; a missing MD5Hash (null) is None. */
  datatype Entry = Entry(fileName: string, localHeaderOffset: nat, compressedSize: nat,
                         uncompressedSize: nat, md5Hash: Option<seq<byte>>)

  // Little-endian fields, as the archive code's LittleEndian reader reads them.

  function U16(data: seq<byte>, pos: nat): nat
    requires pos + 2 <= |data|
  {
    LE(data[pos..pos + 2])
  }

  function I16(data: seq<byte>, pos: nat): int
    requires pos + 2 <= |data|
  {
    ToSigned(U16(data, pos), 2)
  }

  function U32(data: seq<byte>, pos: nat): nat
    requires pos + 4 <= |data|
  {
    LE(data[pos..pos + 4])
  }

  function I32(data: seq<byte>, pos: nat): int
    requires pos + 4 <= |data|
  {
    ToSigned(U32(data, pos), 4)
  }

  // ------------------------------------------------- end of central directory

  predicate IsEocdAt(data: seq<byte>, i: nat)
    requires i + 4 <= |data|
  {
    I32(data, i) == EocdSignature
  }

  /** The backward scan from candidate i down to 0. */
  function ScanBack(data: seq<byte>, i: int): (r: Option<nat>)
    requires i + EocdSize <= |data|
    ensures r.Some? ==> r.value <= i
    decreases i + 1
  {
    if i < 0 then None
    else if IsEocdAt(data, i) then Some(i)
    else ScanBack(data, i - 1)
  }

  /** The end record: the scan starts at Length - 22. */
  function FindEocd(data: seq<byte>): (r: Option<nat>)
    ensures r.Some? ==> r.value + EocdSize <= |data|
  {
    ScanBack(data, |data| - EocdSize)
  }

  lemma {:induction false} ScanBackFinds(data: seq<byte>, i: int)
    requires i + EocdSize <= |data|
    ensures ScanBack(data, i).Some? ==>
      var e := ScanBack(data, i).value;
      e <= i && IsEocdAt(data, e) && forall j: nat :: e < j <= i ==> !IsEocdAt(data, j)
    ensures ScanBack(data, i).None? <==> forall j: nat :: j <= i ==> !IsEocdAt(data, j)
    decreases i + 1
  {
    if i >= 0 && !IsEocdAt(data, i) {
      ScanBackFinds(data, i - 1);
    }
  }

  /** The scan selects the highest position whose four little-endian bytes are
      the end-record signature, among the positions that leave 22 bytes; it
      finds none exactly when there is no such position, in particular when
      the archive is shorter than 22 bytes. */
  lemma FindEocdHighest(data: seq<byte>)
    ensures FindEocd(data).Some? ==>
      var e := FindEocd(data).value;
      e + EocdSize <= |data| && IsEocdAt(data, e) &&
      forall j: nat :: e < j && j + EocdSize <= |data| ==> !IsEocdAt(data, j)
    ensures FindEocd(data).None? <==> forall j: nat :: j + EocdSize <= |data| ==> !IsEocdAt(data, j)
    ensures |data| < EocdSize ==> FindEocd(data) == None
  {
    ScanBackFinds(data, |data| - EocdSize);
  }

  /** The locator fields: the signed 16-bit record count at +10 and the
      signed 32-bit directory offset at +16. */
  datatype Locator = Locator(totalRecords: int, centralDirOffset: int)

  function LocatorAt(data: seq<byte>, eocd: nat): Locator
    requires eocd + EocdSize <= |data|
  {
    Locator(I16(data, eocd + 10), I32(data, eocd + 16))
  }

  // ------------------------------------------------- central directory records

  /** The fixed 46-byte part of a central directory file header. */
  datatype Header = Header(compressedSize: nat, uncompressedSize: nat, fileNameLength: int,
                           extraFieldLength: int, fileCommentLength: int, localHeaderOffset: nat)

  function HeaderAt(data: seq<byte>, pos: nat): Result<Header> {
    if pos + 4 > |data| then Err(EndOfStream)
    else if I32(data, pos) != CentralDirSignature then Err(InvalidEntrySignature(I32(data, pos)))
    else if pos + CentralHeaderSize > |data| then Err(EndOfStream)
    else Ok(Header(U32(data, pos + 20), U32(data, pos + 24), I16(data, pos + 28),
                   I16(data, pos + 30), I16(data, pos + 32), U32(data, pos + 42)))
  }

  predicate IsHashField(data: seq<byte>, q: nat) {
    q + 4 <= |data| && U16(data, q) == HashFieldId && U16(data, q + 2) == HashFieldSize
  }

  /** One extra sub-field at pos: a 16-bit id, a 16-bit size and `size`
      bytes. The hash sub-field's payload is 3 skipped bytes and the 16-byte
      hash, which replaces `hash`. */
  function ExtraField(data: seq<byte>, pos: nat, hash: Option<seq<byte>>): (r: Result<(Option<seq<byte>>, nat)>)
    ensures r.Ok? ==> pos + 4 <= |data| && r.value.1 == pos + 4 + U16(data, pos + 2) && r.value.1 <= |data|
  {
    if pos + 4 > |data| then Err(EndOfStream)
    else if IsHashField(data, pos) then
      if pos + 4 + HashFieldSize > |data| then Err(EndOfStream)
      else Ok((Some(data[pos + 7..pos + 23]), pos + 4 + HashFieldSize))
    else
      var size := U16(data, pos + 2);
      match BytesAt(data, pos + 4, size)
      case Err(e) => Err(e)
      case Ok(_) => Ok((hash, pos + 4 + size))
  }

  /** The walk over the extra sub-fields from pos while pos < end. */
  function ExtraFields(data: seq<byte>, pos: nat, end: nat, hash: Option<seq<byte>>): Result<(Option<seq<byte>>, nat)>
    decreases end - pos
  {
    if pos >= end then Ok((hash, pos))
    else match ExtraField(data, pos, hash)
      case Err(e) => Err(e)
      case Ok((h, next)) => ExtraFields(data, next, end, h)
  }

  /** The name, the extra sub-fields and the comment after a header at pos. */
  function RecordBody(data: seq<byte>, pos: nat, h: Header): Result<(Entry, nat)> {
    match StringAt(data, pos + CentralHeaderSize, FixedLength, h.fileNameLength, LittleEndian)
    case Err(e) => Err(e)
    case Ok((name, afterName)) =>
      var extra := if h.extraFieldLength > 0 then ExtraFields(data, afterName, afterName + h.extraFieldLength, None)
                   else Ok((None, afterName));
      match extra
      case Err(e) => Err(e)
      case Ok((hash, afterExtra)) =>
        var commentLength: nat := if h.fileCommentLength > 0 then h.fileCommentLength else 0;
        match BytesAt(data, afterExtra, commentLength)
        case Err(e) => Err(e)
        case Ok(_) =>
          Ok((Entry(name, h.localHeaderOffset, h.compressedSize, h.uncompressedSize, hash),
              afterExtra + commentLength))
  }

  /** One central directory record at pos: its entry and where the next one starts. */
  function ParseRecord(data: seq<byte>, pos: nat): Result<(Entry, nat)> {
    match HeaderAt(data, pos)
    case Err(e) => Err(e)
    case Ok(h) => RecordBody(data, pos, h)
  }

  /** A record parser: one record at a position, and where the next starts. */
  type Step = nat -> Result<(Entry, nat)>

  /** k successive applications of step from pos, stopping at the first error. */
  function Repeat(step: Step, pos: nat, k: int): Result<(seq<Entry>, nat)>
    decreases k
  {
    if k <= 0 then Ok(([], pos))
    else match step(pos)
      case Err(e) => Err(e)
      case Ok((e, next)) =>
        match Repeat(step, next, k - 1)
        case Err(err) => Err(err)
        case Ok((es, end)) => Ok(([e] + es, end))
  }

  /** ParseRecord over the archive `data`, as a step. */
  function RecordStep(data: seq<byte>): Step {
    p => ParseRecord(data, p)
  }

  /** The first k records from pos, in directory order. */
  function Records(data: seq<byte>, pos: nat, k: int): Result<(seq<Entry>, nat)> {
    Repeat(RecordStep(data), pos, k)
  }

  /** ParseCentralDirectory: the entries and the position after the last record. */
  function ParseDirectoryAt(data: seq<byte>): Result<(seq<Entry>, nat)> {
    match FindEocd(data)
    case None => Err(EocdNotFound)
    case Some(eocd) =>
      var loc := LocatorAt(data, eocd);
      if loc.centralDirOffset < 0 then Err(NegativeSeek)
      else Records(data, loc.centralDirOffset, loc.totalRecords)
  }

  function ParseDirectory(data: seq<byte>): Result<seq<Entry>> {
    match ParseDirectoryAt(data)
    case Ok((es, _)) => Ok(es)
    case Err(e) => Err(e)
  }

  /** Every record starts with the central directory signature; a record that
      starts with anything else is refused with that value. */
  lemma RecordSignature(data: seq<byte>, pos: nat)
    ensures ParseRecord(data, pos).Ok? ==> pos + CentralHeaderSize <= |data| && I32(data, pos) == CentralDirSignature
    ensures pos + 4 <= |data| && I32(data, pos) != CentralDirSignature ==>
      ParseRecord(data, pos) == Err(InvalidEntrySignature(I32(data, pos)))
  {
  }

  /** A repetition that succeeds yields max(0, k) entries. */
  lemma {:induction false} RepeatCount(step: Step, pos: nat, k: int)
    requires Repeat(step, pos, k).Ok?
    ensures |Repeat(step, pos, k).value.0| == if k > 0 then k else 0
    decreases k
  {
    if k > 0 {
      RepeatCount(step, step(pos).value.1, k - 1);
    }
  }

  /** Repetitions compose in order: the first j entries are read first, and
      the rest are read from where they end. */
  lemma {:induction false} RepeatSplit(step: Step, pos: nat, k: int, j: nat)
    requires Repeat(step, pos, k).Ok? && j <= k
    ensures var (es, end) := Repeat(step, pos, k).value;
      j <= |es| &&
      exists q: nat :: Repeat(step, pos, j) == Ok((es[..j], q)) && Repeat(step, q, k - j) == Ok((es[j..], end))
    decreases j
  {
    RepeatCount(step, pos, k);
    var (es, end) := Repeat(step, pos, k).value;
    if j == 0 {
      assert es[..0] == [] && es[0..] == es;
      assert Repeat(step, pos, 0) == Ok((es[..0], pos));
    } else {
      var (e, next) := step(pos).value;
      var rest := Repeat(step, next, k - 1).value.0;
      assert es == [e] + rest;
      RepeatSplit(step, next, k - 1, j - 1);
      var q: nat :| Repeat(step, next, j - 1) == Ok((rest[..j - 1], q)) &&
                    Repeat(step, q, k - 1 - (j - 1)) == Ok((rest[j - 1..], end));
      assert es[..j] == [e] + rest[..j - 1];
      assert es[j..] == rest[j - 1..];
      assert Repeat(step, pos, j) == Ok((es[..j], q));
    }
  }

  /** A repetition whose remainder fails after j successful steps fails with
      the same error. */
  lemma {:induction false} RepeatFailure(step: Step, pos: nat, k: int, j: nat, q: nat, err: Error)
    requires j < k && Repeat(step, pos, j).Ok? && Repeat(step, pos, j).value.1 == q
    requires Repeat(step, q, k - j) == Err(err)
    ensures Repeat(step, pos, k) == Err(err)
    decreases j
  {
    if j > 0 {
      RepeatFailure(step, step(pos).value.1, k - 1, j - 1, q, err);
    }
  }

  /** The first record that fails, after j good ones, makes the whole directory
      fail with its error: no list is returned. */
  lemma RecordFailureFails(data: seq<byte>, pos: nat, k: int, j: nat, err: Error)
    requires j < k && Records(data, pos, j).Ok?
    requires ParseRecord(data, Records(data, pos, j).value.1) == Err(err)
    ensures Records(data, pos, k) == Err(err)
  {
    var step := RecordStep(data);
    var q := Records(data, pos, j).value.1;
    assert step(q) == Err(err);
    assert Repeat(step, q, k - j) == Err(err);
    RepeatFailure(step, pos, k, j, q, err);
  }

  /** The directory has as many entries as the end record's signed count, or
      none when that count is not positive. */
  lemma DirectoryCount(data: seq<byte>)
    requires ParseDirectory(data).Ok?
    ensures FindEocd(data).Some?
    ensures var loc := LocatorAt(data, FindEocd(data).value);
      loc.centralDirOffset >= 0 &&
      |ParseDirectory(data).value| == if loc.totalRecords > 0 then loc.totalRecords else 0
  {
    FindEocdHighest(data);
    var loc := LocatorAt(data, FindEocd(data).value);
    RepeatCount(RecordStep(data), loc.centralDirOffset, loc.totalRecords);
  }

  // ---------------------------------------------------------- extra sub-fields

  /** The sub-fields tile [pos, end) exactly: their 4 + size spans end at end. */
  predicate Tiles(data: seq<byte>, pos: nat, end: nat)
    decreases end - pos
  {
    pos == end ||
    (pos < end && pos + 4 <= |data| && Tiles(data, pos + 4 + U16(data, pos + 2), end))
  }

  /** The walk stops at or after end, and exactly at end iff the sub-fields tile
      the region; every sub-field moves the cursor by 4 + its size (the hash
      sub-field by 4 + 19). */
  lemma {:induction false} ExtraFieldsEnd(data: seq<byte>, pos: nat, end: nat, hash: Option<seq<byte>>)
    requires ExtraFields(data, pos, end, hash).Ok?
    ensures var stop := ExtraFields(data, pos, end, hash).value.1;
      stop >= end || stop == pos
    ensures pos <= end ==> ExtraFields(data, pos, end, hash).value.1 >= end
    ensures ExtraFields(data, pos, end, hash).value.1 == end <==> Tiles(data, pos, end)
    decreases end - pos
  {
    if pos < end {
      var (h, next) := ExtraField(data, pos, hash).value;
      ExtraFieldsEnd(data, next, end, h);
    }
  }

  /** The starts of the sub-fields the walk visits. */
  function FieldStarts(data: seq<byte>, pos: nat, end: nat): seq<nat>
    decreases end - pos
  {
    if pos >= end || pos + 4 > |data| then []
    else [pos] + FieldStarts(data, pos + 4 + U16(data, pos + 2), end)
  }

  function HashAt(data: seq<byte>, q: nat): seq<byte>
    requires q + 23 <= |data|
  {
    data[q + 7..q + 23]
  }

  /** The first sub-field start is pos, and the others are those of the walk
      from where the first sub-field ends. */
  lemma FieldStartsStep(data: seq<byte>, pos: nat, end: nat, hash: Option<seq<byte>>)
    requires pos < end && ExtraField(data, pos, hash).Ok?
    ensures var next := ExtraField(data, pos, hash).value.1;
      FieldStarts(data, pos, end) == [pos] + FieldStarts(data, next, end)
  {
  }

  /** The hash is kept when no visited sub-field is the hash sub-field. */
  lemma {:induction false} ExtraFieldsKeepHash(data: seq<byte>, pos: nat, end: nat, hash: Option<seq<byte>>)
    requires ExtraFields(data, pos, end, hash).Ok?
    requires var starts := FieldStarts(data, pos, end);
      forall k :: 0 <= k < |starts| ==> !IsHashField(data, starts[k])
    ensures ExtraFields(data, pos, end, hash).value.0 == hash
    decreases end - pos
  {
    if pos < end {
      var next := ExtraField(data, pos, hash).value.1;
      FieldStartsStep(data, pos, end, hash);
      var starts := FieldStarts(data, pos, end);
      assert !IsHashField(data, starts[0]);
      assert forall k :: 0 <= k < |FieldStarts(data, next, end)| ==> FieldStarts(data, next, end)[k] == starts[k + 1];
      ExtraFieldsKeepHash(data, next, end, hash);
    }
  }

  /** The hash is that of the last visited hash sub-field: the 16 bytes after
      its 3-byte skip. */
  lemma {:induction false} ExtraFieldsLastHash(data: seq<byte>, pos: nat, end: nat, hash: Option<seq<byte>>, k: nat)
    requires ExtraFields(data, pos, end, hash).Ok?
    requires var starts := FieldStarts(data, pos, end);
      k < |starts| && IsHashField(data, starts[k]) &&
      forall j :: k < j < |starts| ==> !IsHashField(data, starts[j])
    ensures var q := FieldStarts(data, pos, end)[k];
      q + 23 <= |data| && ExtraFields(data, pos, end, hash).value.0 == Some(HashAt(data, q))
    decreases end - pos
  {
    var (inner, next) := ExtraField(data, pos, hash).value;
    FieldStartsStep(data, pos, end, hash);
    var starts := FieldStarts(data, pos, end);
    var rest := FieldStarts(data, next, end);
    assert forall j :: 0 <= j < |rest| ==> rest[j] == starts[j + 1];
    if k == 0 {
      assert inner == Some(HashAt(data, pos));
      ExtraFieldsKeepHash(data, next, end, inner);
    } else {
      ExtraFieldsLastHash(data, next, end, inner, k - 1);
    }
  }

  /** The hash ends up present once some visited sub-field is the hash
      sub-field, or when it was present from the start. */
  lemma {:induction false} ExtraFieldsFindHash(data: seq<byte>, pos: nat, end: nat, hash: Option<seq<byte>>, k: nat)
    requires ExtraFields(data, pos, end, hash).Ok?
    requires hash.Some? || (k < |FieldStarts(data, pos, end)| && IsHashField(data, FieldStarts(data, pos, end)[k]))
    ensures ExtraFields(data, pos, end, hash).value.0.Some?
    decreases end - pos
  {
    if pos < end {
      var (inner, next) := ExtraField(data, pos, hash).value;
      FieldStartsStep(data, pos, end, hash);
      if hash.Some? || k == 0 {
        ExtraFieldsFindHash(data, next, end, inner, 0);
      } else {
        ExtraFieldsFindHash(data, next, end, inner, k - 1);
      }
    }
  }

  /** A hash that is absent or 16 bytes long stays so. */
  lemma {:induction false} ExtraFieldsHashLength(data: seq<byte>, pos: nat, end: nat, hash: Option<seq<byte>>)
    requires ExtraFields(data, pos, end, hash).Ok?
    requires hash.None? || |hash.value| == 16
    ensures var h := ExtraFields(data, pos, end, hash).value.0;
      h.None? || |h.value| == 16
    decreases end - pos
  {
    if pos < end {
      var (inner, next) := ExtraField(data, pos, hash).value;
      ExtraFieldsHashLength(data, next, end, inner);
    }
  }

  /** For a record, whose walk starts without a hash: MD5Hash is None exactly
      when no visited sub-field is the hash sub-field, and is 16 bytes long
      otherwise. */
  lemma ExtraFieldsHashPresent(data: seq<byte>, pos: nat, end: nat)
    requires ExtraFields(data, pos, end, None).Ok?
    ensures var h := ExtraFields(data, pos, end, None).value.0;
      var starts := FieldStarts(data, pos, end);
      (h.None? <==> forall k :: 0 <= k < |starts| ==> !IsHashField(data, starts[k])) &&
      (h.Some? ==> |h.value| == 16)
  {
    var starts := FieldStarts(data, pos, end);
    if k :| 0 <= k < |starts| && IsHashField(data, starts[k]) {
      ExtraFieldsFindHash(data, pos, end, None, k);
    } else {
      ExtraFieldsKeepHash(data, pos, end, None);
    }
    ExtraFieldsHashLength(data, pos, end, None);
  }

  /** Where a record ends: after the 46-byte header, the name, the extra field
      when its length is positive, and the comment when its length is positive.
      When the sub-fields tile the extra field, it occupies exactly its
      declared length. */
  lemma RecordEnd(data: seq<byte>, pos: nat)
    requires ParseRecord(data, pos).Ok?
    ensures var h := HeaderAt(data, pos).value;
      var next := ParseRecord(data, pos).value.1;
      var n := h.fileNameLength;
      var x := if h.extraFieldLength > 0 then h.extraFieldLength else 0;
      var c := if h.fileCommentLength > 0 then h.fileCommentLength else 0;
      n >= 0 &&
      next >= pos + CentralHeaderSize + n + x + c &&
      (h.extraFieldLength <= 0 ==> next == pos + CentralHeaderSize + n + c) &&
      (h.extraFieldLength > 0 && Tiles(data, pos + CentralHeaderSize + n, pos + CentralHeaderSize + n + x) ==>
         next == pos + CentralHeaderSize + n + x + c)
  {
    var h := HeaderAt(data, pos).value;
    var afterName := pos + CentralHeaderSize + h.fileNameLength;
    if h.extraFieldLength > 0 {
      ExtraFieldsEnd(data, afterName, afterName + h.extraFieldLength, None);
    }
  }

  // ------------------------------------------------------------- extraction

  /** C#'s unchecked (int) conversion of a uint. */
  function UIntToInt(u: nat): int {
    ToSigned(u % 0x1_0000_0000, 4)
  }

  /** The compressed payload of an entry: read the local header at
      LocalHeaderOffset, skip its signature and 22 bytes, read its own name and
      extra lengths n and m, skip n + m bytes, then read CompressedSize bytes. */
  function PayloadAt(data: seq<byte>, e: Entry): Result<seq<byte>> {
    var lho := e.localHeaderOffset;
    if lho + LocalHeaderSize > |data| then Err(EndOfStream)
    else
      var skip := I16(data, lho + 26) + I16(data, lho + 28);
      if skip < 0 then Err(NegativeCount)
      else
        match BytesAt(data, lho + LocalHeaderSize, skip)
        case Err(err) => Err(err)
        case Ok(_) =>
          var count := UIntToInt(e.compressedSize);
          if count < 0 then Err(NegativeCount)
          else BytesAt(data, lho + LocalHeaderSize + skip, count)
  }

  /** The payload is the CompressedSize bytes at LocalHeaderOffset + 30 + n + m,
      with n and m taken from the local header. */
  lemma PayloadLocation(data: seq<byte>, e: Entry)
    requires e.compressedSize < 0x1_0000_0000 && PayloadAt(data, e).Ok?
    ensures var lho := e.localHeaderOffset;
      lho + LocalHeaderSize <= |data| &&
      var start := lho + LocalHeaderSize + I16(data, lho + 26) + I16(data, lho + 28);
      var p := PayloadAt(data, e).value;
      |p| == e.compressedSize && e.compressedSize <= IntMax &&
      (e.compressedSize > 0 ==> start + |p| <= |data| && p == data[start..start + |p|])
  {
  }

  /** A codec: zlib (RFC 1950) or raw deflate (RFC 1951) decompression, None
      when it throws. */
  type Codec = seq<byte> -> Option<seq<byte>>

  /** An output passes the size gate when it has the declared uncompressed size. */
  predicate Passes(out: Option<seq<byte>>, size: nat) {
    out.Some? && |out.value| == size
  }

  /** zlib first; raw deflate only when zlib fails the gate. */
  function Decompress(payload: seq<byte>, e: Entry, zlib: Codec, deflate: Codec): Result<seq<byte>> {
    var first := zlib(payload);
    if Passes(first, e.uncompressedSize) then Ok(first.value)
    else
      var second := deflate(payload);
      if Passes(second, e.uncompressedSize) then Ok(second.value)
      else Err(DecompressFailed(e.fileName))
  }

  /** The selection rule: the zlib output iff it passes the gate, else the
      deflate output iff it passes, else failure; an accepted output always
      has the declared size. */
  lemma DecompressSelection(payload: seq<byte>, e: Entry, zlib: Codec, deflate: Codec)
    ensures var r := Decompress(payload, e, zlib, deflate);
      (r.Ok? <==> Passes(zlib(payload), e.uncompressedSize) || Passes(deflate(payload), e.uncompressedSize)) &&
      (r.Ok? ==> |r.value| == e.uncompressedSize) &&
      (Passes(zlib(payload), e.uncompressedSize) ==> r == Ok(zlib(payload).value)) &&
      (!Passes(zlib(payload), e.uncompressedSize) && Passes(deflate(payload), e.uncompressedSize) ==>
         r == Ok(deflate(payload).value)) &&
      (r.Err? ==> r.error == DecompressFailed(e.fileName))
  {
  }

  /** When zlib passes the gate, raw deflate plays no part: any other deflate
      gives the same outcome. */
  lemma DeflateNotAttempted(payload: seq<byte>, e: Entry, zlib: Codec, deflate: Codec, other: Codec)
    requires Passes(zlib(payload), e.uncompressedSize)
    ensures Decompress(payload, e, zlib, deflate) == Decompress(payload, e, zlib, other)
  {
  }

  /** One entry: locate its payload, then decompress it. */
  function ExtractEntry(data: seq<byte>, e: Entry, zlib: Codec, deflate: Codec): Result<seq<byte>> {
    match PayloadAt(data, e)
    case Err(err) => Err(err)
    case Ok(payload) => Decompress(payload, e, zlib, deflate)
  }

  /** A file the extraction writes: its stored name and its contents. */
  datatype Extracted = Extracted(fileName: string, contents: seq<byte>)

  /** What an extraction leaves behind: the files written, in order, and the
      error that stopped it, if any. */
  datatype Extraction = Extraction(files: seq<Extracted>, failure: Option<Error>)

  /** The per-entry part of an extraction: an entry's contents or the error it stops with. */
  type Extractor = Entry -> Result<seq<byte>>

  /** The extraction loop: entries in order, stopping at the first failure. */
  function ExtractAll(extract: Extractor, entries: seq<Entry>): Extraction
    decreases |entries|
  {
    if entries == [] then Extraction([], None)
    else match extract(entries[0])
      case Err(err) => Extraction([], Some(err))
      case Ok(bytes) =>
        var rest := ExtractAll(extract, entries[1..]);
        Extraction([Extracted(entries[0].fileName, bytes)] + rest.files, rest.failure)
  }

  function EntryExtractor(data: seq<byte>, zlib: Codec, deflate: Codec): Extractor {
    e => ExtractEntry(data, e, zlib, deflate)
  }

  function ExtractEntries(data: seq<byte>, entries: seq<Entry>, zlib: Codec, deflate: Codec): Extraction {
    ExtractAll(EntryExtractor(data, zlib, deflate), entries)
  }

  /** ExtractZip: parse the directory, then extract its entries in order. */
  function ExtractArchive(data: seq<byte>, zlib: Codec, deflate: Codec): Extraction {
    match ParseDirectory(data)
    case Err(err) => Extraction([], Some(err))
    case Ok(entries) => ExtractEntries(data, entries, zlib, deflate)
  }

  /** The extraction loop goes through the entries in list order and stops at
      the first one that fails. */
  lemma {:induction false} ExtractAllStops(extract: Extractor, entries: seq<Entry>)
    ensures var x := ExtractAll(extract, entries);
      |x.files| <= |entries| &&
      (forall i :: 0 <= i < |x.files| ==>
        x.files[i].fileName == entries[i].fileName && extract(entries[i]) == Ok(x.files[i].contents)) &&
      (x.failure.None? <==> |x.files| == |entries|) &&
      (x.failure.Some? ==> extract(entries[|x.files|]) == Err(x.failure.value))
    decreases |entries|
  {
    if entries != [] && extract(entries[0]).Ok? {
      var x := ExtractAll(extract, entries);
      var rest := ExtractAll(extract, entries[1..]);
      ExtractAllStops(extract, entries[1..]);
      assert x.files == [Extracted(entries[0].fileName, extract(entries[0]).value)] + rest.files;
      forall i | 1 <= i < |x.files|
        ensures x.files[i] == rest.files[i - 1] && entries[i] == entries[1..][i - 1]
      {
      }
    }
  }

  /** Whatever an entry's extraction yields has the declared uncompressed size. */
  lemma ExtractEntrySize(data: seq<byte>, e: Entry, zlib: Codec, deflate: Codec)
    ensures ExtractEntry(data, e, zlib, deflate).Ok? ==>
      |ExtractEntry(data, e, zlib, deflate).value| == e.uncompressedSize
  {
    match PayloadAt(data, e) {
      case Err(_) =>
      case Ok(payload) => DecompressSelection(payload, e, zlib, deflate);
    }
  }

  /** Extraction goes through the entries in list order and stops at the first
      one that fails: every earlier entry has been written under its own name
      with its declared size, and the failure is that entry's. */
  lemma ExtractStopsAtFirstFailure(data: seq<byte>, entries: seq<Entry>, zlib: Codec, deflate: Codec)
    ensures var x := ExtractEntries(data, entries, zlib, deflate);
      |x.files| <= |entries| &&
      (forall i :: 0 <= i < |x.files| ==>
        x.files[i].fileName == entries[i].fileName &&
        ExtractEntry(data, entries[i], zlib, deflate) == Ok(x.files[i].contents) &&
        |x.files[i].contents| == entries[i].uncompressedSize) &&
      (x.failure.None? <==> |x.files| == |entries|) &&
      (x.failure.Some? ==> ExtractEntry(data, entries[|x.files|], zlib, deflate) == Err(x.failure.value))
  {
    var extract := EntryExtractor(data, zlib, deflate);
    ExtractAllStops(extract, entries);
    var x := ExtractAll(extract, entries);
    forall i | 0 <= i < |x.files|
      ensures |x.files[i].contents| == entries[i].uncompressedSize
    {
      ExtractEntrySize(data, entries[i], zlib, deflate);
    }
  }

  /** Without an end record nothing is written. */
  lemma NoEocdNothingWritten(data: seq<byte>, zlib: Codec, deflate: Codec)
    requires forall j: nat :: j + EocdSize <= |data| ==> !IsEocdAt(data, j)
    ensures ExtractArchive(data, zlib, deflate) == Extraction([], Some(EocdNotFound))
  {
    FindEocdHighest(data);
  }
}
