# ChicksLib reader and InfiniZip archive code, modelled in Dafny

ChicksLib has two parts modelled here.

`EndianBinaryReader` is a cursor over a seekable byte stream. It:

- decodes 16-, 32- and 64-bit integers in a configured byte order (the model reads in the corrected form of the host-endianness finding below, which agrees with the code on a little-endian host);
- reads strings in five formats;
- fills integer arrays with successive reads;
- keeps a stack of saved offsets.

`InfiniZip` reads one vendor's dialect of the ZIP format (PKWARE APPNOTE.TXT):

- it finds the end-of-central-directory record (section 4.3.16) by a backward scan;
- it reads every central directory file header (section 4.3.12), including a vendor extra sub-field `0x464B` inside the extensible data (section 4.5) that carries a 16-byte MD5 hash;
- it locates each entry's payload behind its local file header (section 4.3.7);
- it decompresses the payload by trying zlib first and raw deflate second, each accepted only when the output has the declared uncompressed size.

The project has six modules:

- `Results` holds the failure values. Every exception the code throws is an `Error` value here.
- `ByteOrder` holds bytes, little-endian decoding, two's complement, `BinaryPrimitives.ReverseEndianness` and the host-endianness finding below.
- `ReaderSpec` gives what each reader operation returns, as functions of the stream contents and the cursor.
- `IO` holds the classes `Stream` (contents and a cursor) and `EndianBinaryReader` (its fields are the endianness, `SwapBytes`, the offset stack and the string builder). Each method is proved against `ReaderSpec`.
- `ZipFormat` gives what the archive code computes, as functions of the archive bytes, with lemmas about positions, counts, order, the hash and codec selection.
- `Archives` holds the class `InfiniZip`. Its field `lastCentralDirOffset` stands for the static property `LastCentralDirOffset`. Its methods scan, parse and extract with the reader and are proved equal to the `ZipFormat` functions.

The host's native byte order (`BitConverter.IsLittleEndian`) is a parameter of the reader. The two codecs are parameters of type `seq<byte> -> Option<seq<byte>>`, where `None` stands for a codec that throws. Extraction returns the (name, contents) pairs it would write, in order, together with the error that stopped it, if any.

## Model

| member | source | states |
|---|---|---|
| ByteOrder.ToSigned | ChicksLib/IO/EndianBinaryReader.cs:39-40 | an n-byte pattern read as a signed type is the pattern or the pattern minus 256^n, lies in the signed range, and is non-negative exactly when the pattern is below 256^n/2 |
| ByteOrder.ToLEOfLE | ChicksLib/IO/EndianBinaryReader.cs:39-52 | encoding the value of n little-endian bytes back into n bytes gives the same bytes |
| ByteOrder.LEOfToLE | ChicksLib/IO/EndianBinaryReader.cs:39-52 | decoding the n-byte little-endian encoding of any value below 256^n gives the value back |
| ByteOrder.ReverseEndiannessOfLE | ChicksLib/IO/EndianBinaryReader.cs:39-52 | byte-reversing the value read from some bytes equals reading the reversed bytes |
| ByteOrder.ReverseEndiannessInvolutive | ChicksLib/IO/EndianBinaryReader.cs:39-52 | byte-reversing an n-byte value twice gives it back |
| ByteOrder.BigEndianFirstByteMostSignificant | ChicksLib/IO/EndianBinaryReader.cs:14-21 | in big-endian order the first byte is the most significant |
| ByteOrder.AsWrittenReadOnLittleEndianHost | ChicksLib/IO/EndianBinaryReader.cs:17-21 | on a little-endian host, the code as written (base read, reversed when SwapBytes is set) decodes in the configured order |
| ByteOrder.AsWrittenReadOnBigEndianHost | ChicksLib/IO/EndianBinaryReader.cs:39-52 | on a big-endian host, the code as written decodes in the opposite of the configured order |
| ByteOrder.AsWrittenReadCounterexample | ChicksLib/IO/EndianBinaryReader.cs:39-40 | bytes 01 00 with LittleEndian configured on a big-endian host read as 256, where the little-endian value is 1 |
| ByteOrder.ConfiguredReadDecodes | ChicksLib/IO/EndianBinaryReader.cs:39-52 | the corrected read (host-order read, reversed when SwapBytes is set) decodes in the configured order on every host |
| ByteOrder.ConfiguredReadOnLittleEndianHost | ChicksLib/IO/EndianBinaryReader.cs:39-52 | on a little-endian host the corrected read and the read as written give the same value for every configured order |
| ByteOrder.AsWrittenReadIsOppositeConfigured | ChicksLib/IO/EndianBinaryReader.cs:19 | on a big-endian host the read as written with an order configured equals the corrected read with the opposite order configured |
| ReaderSpec.ReadInRange | ChicksLib/IO/EndianBinaryReader.cs:39-52 | every successful integer read returns a value of its C# type (short, ushort, int, uint, long, ulong) |
| ReaderSpec.ValuesSucceed | ChicksLib/IO/EndianBinaryReader.cs:141-199 | count successive reads succeed exactly when count is 0 or count·width bytes remain, yield count values, and otherwise fail with end of stream |
| ReaderSpec.ValuesElement | ChicksLib/IO/EndianBinaryReader.cs:141-199 | element i of a batch is the value of the i-th width-byte slice after the cursor |
| ReaderSpec.BatchWidth | ChicksLib/IO/EndianBinaryReader.cs:181-199 | ReadInt64s succeeds exactly when count is 0 or 4·count bytes remain, ReadUInt64s exactly when count is 0 or 8·count bytes remain; every batch read of count 0 gives the empty array |
| ReaderSpec.UInt64sIgnoreEndianness | ChicksLib/IO/EndianBinaryReader.cs:191-199 | ReadUInt64s returns the same array whatever byte order is configured |
| ReaderSpec.FirstZero | ChicksLib/IO/EndianBinaryReader.cs:77 | the index found is the first zero byte at or after the start, and none is found exactly when there is no zero byte |
| ReaderSpec.TruncateAtZero | ChicksLib/IO/EndianBinaryReader.cs:77-78 | the result is a prefix with no zero byte, cut exactly at the first zero byte when there is one |
| ReaderSpec.NullTerminatedString | ChicksLib/IO/EndianBinaryReader.cs:60-68 | NullTerminated fails exactly when no zero byte follows; otherwise it consumes through the first zero byte and returns the characters before it, with no terminator in them |
| ReaderSpec.FixedLengthString | ChicksLib/IO/EndianBinaryReader.cs:70-79 | length -1 is refused and a length below -1 is a negative count; length N succeeds exactly when N is 0 or N bytes remain, consumes exactly N bytes, and returns the bytes before the first zero, with no zero in the result |
| ReaderSpec.PrefixedString | ChicksLib/IO/EndianBinaryReader.cs:81-109 | the prefixed formats read a 1-, 2- or 4-byte count L, then exactly L characters; the string has length L and is the next L bytes |
| ReaderSpec.UnknownFormatRefused | ChicksLib/IO/EndianBinaryReader.cs:111-112 | Unknown reaches the default branch and is refused |
| ReaderSpec.PopAfterPush | ChicksLib/IO/EndianBinaryReader.cs:248-258 | popping after pushing x returns x and the earlier stack, and peeking sees x |
| ReaderSpec.PushAfterPop | ChicksLib/IO/EndianBinaryReader.cs:248-258 | pushing back the popped value restores the stack |
| IO.Stream.Seek | ChicksLib/IO/EndianBinaryReader.cs:236-237 | a seek target before the start is refused with the cursor unchanged; any other target, even past the end, becomes the cursor |
| IO.Stream.Read | ChicksLib/IO/EndianBinaryReader.cs:75 | n bytes are returned and the cursor advances by n; when fewer than n remain the read fails after consuming what is left, so the cursor moves to the end of the stream (or stays when already at or past it) |
| IO.EndianBinaryReader.constructor | ChicksLib/IO/EndianBinaryReader.cs:260-274 | Init sets the endianness through its setter, so SwapBytes is derived, and the offset stack and builder start empty |
| IO.EndianBinaryReader.SetEndianness | ChicksLib/IO/EndianBinaryReader.cs:14-22 | every assignment to Endianness re-derives SwapBytes as (configured order differs from host order) |
| IO.EndianBinaryReader.Read | ChicksLib/IO/EndianBinaryReader.cs:39-52 | each integer read returns the next 2, 4 or 8 bytes decoded in the configured order (ReadUInt64 always little-endian) and advances the cursor by exactly that width; on a short read it fails and the cursor moves to the end of the stream; the overridden reads follow the corrected ConfiguredRead, which is the code's behaviour on a little-endian host |
| IO.EndianBinaryReader.DecodeBytes | ChicksLib/IO/EndianBinaryReader.cs:39-52 | the Width(p) bytes taken by an integer read are decoded as the configured order prescribes, with the sign of the C# type |
| IO.EndianBinaryReader.ReadByte | ChicksLib/IO/EndianBinaryReader.cs:83 | the next byte and a one-byte advance, or end of stream without moving |
| IO.EndianBinaryReader.ReadChar | ChicksLib/IO/EndianBinaryReader.cs:64 | the next byte as a character and a one-byte advance, or end of stream without moving |
| IO.EndianBinaryReader.ReadBytes | ChicksLib/IO/EndianBinaryReader.cs:75 | a negative count is refused without moving the cursor; otherwise exactly count bytes are consumed and returned, or the read fails with the cursor moved to the end of the stream |
| IO.EndianBinaryReader.ReadArray | ChicksLib/IO/EndianBinaryReader.cs:141-199 | the array holds count successive element reads in index order, the cursor advances by count·width, and a negative count is refused |
| IO.EndianBinaryReader.FillArray | ChicksLib/IO/EndianBinaryReader.cs:145-146 | the for loop stores the i-th successive read in a[i] and advances the cursor by the element width each time, or stops at the first failing read with its error |
| IO.EndianBinaryReader.ReadString | ChicksLib/IO/EndianBinaryReader.cs:54-116 | the string and new cursor are those of the format's specification; the builder is cleared and then holds the string, except for FixedLength; a refused format or length consumes nothing |
| IO.EndianBinaryReader.ReadNullTerminated | ChicksLib/IO/EndianBinaryReader.cs:60-68 | the loop appends characters until the zero one and returns the NullTerminated specification's string |
| IO.EndianBinaryReader.ReadFixedLength | ChicksLib/IO/EndianBinaryReader.cs:70-79 | returns the FixedLength specification's string; -1 and negative lengths consume nothing |
| IO.EndianBinaryReader.ReadPrefixed | ChicksLib/IO/EndianBinaryReader.cs:81-109 | returns the prefixed specification's string, which the builder then holds |
| IO.EndianBinaryReader.ReadLengthPrefix | ChicksLib/IO/EndianBinaryReader.cs:83-103 | the prefix is one byte, or a 2- or 4-byte count in the configured order, and the cursor moves past it; too few bytes is end of stream |
| IO.EndianBinaryReader.AppendChars | ChicksLib/IO/EndianBinaryReader.cs:101-109 | the counted loop appends exactly L characters; with the 32-bit counter, a count above 2^31-1 can only end at end of stream |
| IO.EndianBinaryReader.PeekString | ChicksLib/IO/EndianBinaryReader.cs:118-129 | returns what ReadString would; on success the cursor is back where it was |
| IO.EndianBinaryReader.Seek | ChicksLib/IO/EndianBinaryReader.cs:236-237 | the cursor moves to the target for the origin, or the seek is refused before the start |
| IO.EndianBinaryReader.SeekBegin | ChicksLib/IO/EndianBinaryReader.cs:239-240 | the cursor becomes the offset, unless it is negative |
| IO.EndianBinaryReader.SeekCurrent | ChicksLib/IO/EndianBinaryReader.cs:242-243 | the cursor moves by the offset, unless that goes before the start |
| IO.EndianBinaryReader.SeekEnd | ChicksLib/IO/EndianBinaryReader.cs:245-246 | the cursor becomes the length plus the offset, unless that is negative |
| IO.EndianBinaryReader.SkipNulls | ChicksLib/IO/EndianBinaryReader.cs:231-234 | SeekCurrent(length) without reading: the cursor moves by length, backwards when length is negative, and the skip is refused when that would go before the start |
| IO.EndianBinaryReader.PushOffset | ChicksLib/IO/EndianBinaryReader.cs:248-249 | the offset is pushed on top of the stack |
| IO.EndianBinaryReader.PushPosition | ChicksLib/IO/EndianBinaryReader.cs:251-252 | the current position is pushed on top of the stack |
| IO.EndianBinaryReader.PeekOffset | ChicksLib/IO/EndianBinaryReader.cs:254-255 | returns the top offset without changing the stack, or fails exactly when the stack is empty |
| IO.EndianBinaryReader.PopOffset | ChicksLib/IO/EndianBinaryReader.cs:257-258 | removes and returns the top offset, or fails on the empty stack and leaves it empty |
| ZipFormat.ScanBack | ChicksLib/Archives/InfiniZip.cs:22-30 | a position found by the scan from i is at most i |
| ZipFormat.FindEocd | ChicksLib/Archives/InfiniZip.cs:21-30 | a found end record leaves room for its 22 bytes |
| ZipFormat.ScanBackFinds | ChicksLib/Archives/InfiniZip.cs:22-30 | the scan from i finds the highest signature position at or below i, and finds none exactly when there is none |
| ZipFormat.FindEocdHighest | ChicksLib/Archives/InfiniZip.cs:21-33 | the end record is the highest position, among those leaving 22 bytes, whose 4 little-endian bytes are 0x06054b50; none is found exactly when there is none, in particular when the archive is shorter than 22 bytes |
| ZipFormat.RecordSignature | ChicksLib/Archives/InfiniZip.cs:47-49 | a parsed record starts with 0x02014b50; a record starting with anything else is refused with that value |
| ZipFormat.RepeatCount | ChicksLib/Archives/InfiniZip.cs:45-98 | a successful record loop over a count k yields max(0, k) entries |
| ZipFormat.RepeatSplit | ChicksLib/Archives/InfiniZip.cs:45-98 | the record loop keeps directory order: the first j entries come from the first j records, and the rest are read from where those end |
| ZipFormat.RepeatFailure | ChicksLib/Archives/InfiniZip.cs:45-98 | when the loop fails after j successful records, the whole loop fails with that error |
| ZipFormat.RecordFailureFails | ChicksLib/Archives/InfiniZip.cs:47-49 | the first record that fails makes the whole directory fail with its error, and no list is returned |
| ZipFormat.DirectoryCount | ChicksLib/Archives/InfiniZip.cs:35-100 | a parsed directory has a non-negative offset and max(0, count) entries, where count is the signed 16-bit value at eocd+10 |
| ZipFormat.ExtraField | ChicksLib/Archives/InfiniZip.cs:73-84 | one sub-field consumes 4 + its size bytes (19 for the hash sub-field) |
| ZipFormat.ExtraFieldsEnd | ChicksLib/Archives/InfiniZip.cs:66-86 | the sub-field loop ends at or after the end of the extra region, and exactly at its end iff the sub-fields tile the region |
| ZipFormat.ExtraFieldsKeepHash | ChicksLib/Archives/InfiniZip.cs:65-85 | the hash is unchanged when no visited sub-field has ID 0x464B and size 19 |
| ZipFormat.ExtraFieldsLastHash | ChicksLib/Archives/InfiniZip.cs:76-80 | the hash is the 16 bytes after the 3-byte skip of the last such sub-field |
| ZipFormat.ExtraFieldsFindHash | ChicksLib/Archives/InfiniZip.cs:65-85 | the hash is present after the loop when it was present before or some visited sub-field is a hash sub-field |
| ZipFormat.ExtraFieldsHashLength | ChicksLib/Archives/InfiniZip.cs:79 | a hash that is absent or 16 bytes long stays so through the loop |
| ZipFormat.ExtraFieldsHashPresent | ChicksLib/Archives/InfiniZip.cs:65-85 | MD5Hash is null exactly when no visited sub-field has ID 0x464B and size 19, and is 16 bytes otherwise |
| ZipFormat.RecordEnd | ChicksLib/Archives/InfiniZip.cs:63-89 | the next record starts at or after start + 46 + name length + the positive extra and comment lengths, exactly there when the sub-fields tile the extra region, and skips a non-positive extra or comment length |
| ZipFormat.PayloadLocation | ChicksLib/Archives/InfiniZip.cs:110-120 | the payload is the CompressedSize bytes at LocalHeaderOffset + 30 + n + m, with n and m the signed 16-bit lengths at +26 and +28 of the local header; a successful read implies CompressedSize is at most 2^31-1, because the int cast makes larger sizes negative |
| ZipFormat.DecompressSelection | ChicksLib/Archives/InfiniZip.cs:122-154 | the zlib output is used iff it has the declared size, else the deflate output under the same gate, else "could not decompress"; accepted output always has the declared size |
| ZipFormat.DeflateNotAttempted | ChicksLib/Archives/InfiniZip.cs:124-137 | when zlib passes the gate, the deflate codec does not influence the outcome |
| ZipFormat.ExtractStopsAtFirstFailure | ChicksLib/Archives/InfiniZip.cs:108-167 | entries are extracted in list order; every emitted file has its entry's name, its extracted bytes and the declared size; extraction stops at the first failing entry with that entry's error, and succeeds iff all were emitted |
| ZipFormat.NoEocdNothingWritten | ChicksLib/Archives/InfiniZip.cs:32-33 | without an end-record signature nothing is written and the error is "EOCD not found" |
| Archives.InfiniZip.constructor | ChicksLib/Archives/InfiniZip.cs:12 | LastCentralDirOffset starts at 0 |
| Archives.InfiniZip.ParseCentralDirectory | ChicksLib/Archives/InfiniZip.cs:15-101 | returns exactly the directory specification's entries or error, leaves the cursor after the last record, and stores the end record's directory offset in LastCentralDirOffset |
| Archives.InfiniZip.FindEndRecord | ChicksLib/Archives/InfiniZip.cs:21-30 | the seek-and-test loop with break yields the end-record position, or -1 |
| Archives.InfiniZip.ReadLocator | ChicksLib/Archives/InfiniZip.cs:35-40 | the count is the int16 at eocd+10 and the offset the int32 at eocd+16 |
| Archives.InfiniZip.ReadLocatorFields | ChicksLib/Archives/InfiniZip.cs:38-40 | the count is the int16 at eocd+10 and the offset the int32 at eocd+16, after the ignored directory size |
| Archives.InfiniZip.ReadRecords | ChicksLib/Archives/InfiniZip.cs:45-98 | the counted loop appends the records in order and returns the record loop's entries or its first error |
| Archives.InfiniZip.ReadEntryStep | ChicksLib/Archives/InfiniZip.cs:47-97 | one loop iteration parses one record as the record specification does |
| Archives.InfiniZip.ReadEntry | ChicksLib/Archives/InfiniZip.cs:47-97 | one record's entry and the next record's position are those of the record specification |
| Archives.InfiniZip.ReadHeader | ChicksLib/Archives/InfiniZip.cs:47-61 | the signature guard and the fixed 46-byte header fields read from their fixed offsets |
| Archives.InfiniZip.ReadHeaderFields | ChicksLib/Archives/InfiniZip.cs:53-61 | compressed size at +20, uncompressed size at +24, name length at +28, extra length at +30, comment length at +32, local header offset at +42 |
| Archives.InfiniZip.ReadSizes | ChicksLib/Archives/InfiniZip.cs:53-55 | the CRC-32 is skipped and the two sizes are the uint32 values after it |
| Archives.InfiniZip.ReadOffset | ChicksLib/Archives/InfiniZip.cs:59-61 | the disk number and attributes are skipped and the local header offset is the uint32 after them |
| Archives.InfiniZip.ReadLengths | ChicksLib/Archives/InfiniZip.cs:56-58 | the three lengths are successive signed 16-bit values |
| Archives.InfiniZip.ReadExtraFields | ChicksLib/Archives/InfiniZip.cs:66-86 | the while loop over the extra region returns the sub-field walk's hash and end position |
| Archives.InfiniZip.ReadExtraField | ChicksLib/Archives/InfiniZip.cs:73-84 | one iteration reads one sub-field, taking the hash from a 0x464B sub-field of size 19 |
| Archives.InfiniZip.ExtractZip | ChicksLib/Archives/InfiniZip.cs:103-168 | the files written and the failure are exactly those of the extraction specification; LastCentralDirOffset is set as by the parse |
| Archives.InfiniZip.ExtractEntriesAt | ChicksLib/Archives/InfiniZip.cs:108-167 | the extraction of a parsed entry list equals ExtractEntries: entries in order, stopping at the first failure |
| Archives.InfiniZip.ExtractLoop | ChicksLib/Archives/InfiniZip.cs:108-167 | the foreach loop over the entries appends each extracted file in list order and returns at the first failing entry with its error, equal to the extraction loop specification ExtractAll |
| Archives.InfiniZip.ExtractEntryAt | ChicksLib/Archives/InfiniZip.cs:110-154 | one entry's payload is read and decoded by the size-gated zlib-then-deflate rule |
| Archives.InfiniZip.ReadLocalHeader | ChicksLib/Archives/InfiniZip.cs:110-116 | after the seek, the 30-byte local header gives the number of bytes to skip as the sum of its signed 16-bit lengths at +26 and +28, or end of stream |
| Archives.InfiniZip.ReadPayload | ChicksLib/Archives/InfiniZip.cs:110-120 | the seek to the local header, the skips and the CompressedSize read give the payload specification |

## Left out

- Floating-point reads (`ReadSingle`, `ReadDouble`, `ReadHalf` and their array forms) are left out. They only reinterpret integer bits as IEEE floats.
- Character encodings: every character is one byte, with the character code equal to the byte. This matches ASCII text under the default UTF-8 encoding. Multi-byte UTF-8 sequences and the `Encoding` property and constructor argument are not modelled.
- IO.EndianBinaryReader.Read: the overridden reads follow the corrected ConfiguredRead (host-order base read, reversed when SwapBytes is set), not the code's little-endian base read. ConfiguredReadOnLittleEndianHost shows the two agree on a little-endian host, so the contracts of the IO and Archives classes describe the code only on a little-endian host. On a big-endian host the code reads every overridden integer in the opposite of the configured order (AsWrittenReadOnBigEndianHost). That is the corrected read with the opposite order configured (AsWrittenReadIsOppositeConfigured), so the archive code there reads every directory field big-endian. The archive contracts do not state this case.
- IO.EndianBinaryReader.ReadBytes: a short read fails with end of stream. BinaryReader would return the shorter array instead.
- Stream faults are failure values. A failed primitive read leaves the cursor where .NET leaves it: the bytes that remain are consumed, so the cursor is at the end of the stream. After a failed read inside a compound operation (a string, an array, a record), the cursor position is left unspecified, because the code throws at that point.
- Archives.InfiniZip: `LastCentralDirOffset` and both operations are `static` in the source (InfiniZip.cs:12). The model makes them members of one `InfiniZip` object, so two objects do not share the stored offset the way the static property is shared.
- The `Position` setter is not modelled; it is the same as `SeekBegin`. The unused `mBaseOffsets` stack is not modelled either.
- The string builder's capacity limit and out-of-memory failures are not modelled.
- The file-system and console effects of `ExtractZip` are replaced by the returned list of (name, contents) pairs: `Path.GetDirectoryName`, `Directory.CreateDirectory`, `File.WriteAllBytes` and `Console.WriteLine`.
- zlib (RFC 1950) and raw deflate (RFC 1951) are parameters, not implementations. The `MemoryStream` and `CopyTo` plumbing around them is not modelled.
- IO.EndianBinaryReader.PeekString: the cursor is restored only when the read succeeds. The code has no `try`/`finally`, so a failing read throws before the `SeekBegin`. A restore on every path would be the stronger promise, and the code does not keep it.
- Nothing checks that a local header offset lies before the central directory, and the code does not check it either. The local header signature is read but never compared, as in the code.
- The audio stub, the texture struct and the command-line tool are outside this model.

## Findings

| source | as written | input that shows it | evidently intended | confidence | as-written member | corrected member |
|---|---|---|---|---|---|---|
| ChicksLib/IO/EndianBinaryReader.cs:19 | SwapBytes compares the configured order with the host's, but the base reads it reverses are always little-endian, so on a big-endian host every read decodes in the opposite order | bytes 01 00 read with ReadUInt16, LittleEndian configured, big-endian host: 256 | the configured order on every host (compare with LittleEndian, or reverse a host-order read) | not executed | ByteOrder.AsWrittenRead, ByteOrder.AsWrittenReadCounterexample | ByteOrder.ConfiguredRead, ByteOrder.ConfiguredReadDecodes |
