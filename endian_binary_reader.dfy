/** EndianBinaryReader: a cursor over a seekable byte stream that decodes
    integers in a configured byte order, reads strings in five formats, and
    keeps a stack of saved offsets. Each method is proved against the
    functions of module ReaderSpec. */
module IO {
  import opened Results
  import opened ByteOrder
  import opened ReaderSpec

  /** The part of System.IO.Stream the reader uses: fixed contents and a
      cursor that may be placed past the end. */
  class Stream {
    const data: seq<byte>
    var position: nat

    constructor (contents: seq<byte>)
      ensures data == contents && position == 0
    {
      data := contents;
      position := 0;
    }

    /** Stream.Seek: a target before the start is refused, one past the end is allowed. */
    method Seek(offset: int, origin: SeekOrigin) returns (r: Outcome)
      modifies this
      ensures var target := SeekTarget(old(position), |data|, offset, origin);
        if target < 0 then r == Fail(NegativeSeek) && position == old(position)
        else r == Pass && position == target
    {
      var target := SeekTarget(position, |data|, offset, origin);
      if target < 0 {
        return Fail(NegativeSeek);
      }
      position := target;
      r := Pass;
    }

    /** Reads exactly n bytes. When fewer remain it consumes what is left
        and fails. */
    method Read(n: nat) returns (r: Result<seq<byte>>)
      modifies this
      ensures r == BytesAt(data, old(position), n)
      ensures position == CursorAfter(data, old(position), n)
    {
      if n == 0 {
        return Ok([]);
      }
      if position + n > |data| {
        if position < |data| {
          position := |data|;
        }
        return Err(EndOfStream);
      }
      r := Ok(data[position..position + n]);
      position := position + n;
    }
  }

  class EndianBinaryReader {
    const baseStream: Stream
    /** The host's native byte order (BitConverter.IsLittleEndian). */
    const host: Endianness
    var endianness: Endianness
    var swapBytes: bool
    /** mOffsets; the top of the stack is the last element. */
    var offsets: seq<int>
    /** mStringBuilder */
    var builder: string

    predicate Valid()
      reads this
    {
      swapBytes == SwapBytesFor(endianness, host)
    }

    function Position(): nat
      reads baseStream
    {
      baseStream.position
    }

    /** The constructors and Init: the Endianness setter derives SwapBytes,
        the stacks and the string builder start empty. */
    constructor (input: Stream, endianness: Endianness, host: Endianness)
      ensures baseStream == input && this.host == host && this.endianness == endianness
      ensures swapBytes == (endianness != host) && Valid()
      ensures offsets == [] && builder == []
    {
      baseStream := input;
      this.host := host;
      this.endianness := endianness;
      swapBytes := false;
      offsets := [];
      builder := [];
      new;
      SetEndianness(endianness);
    }

    /** The Endianness setter: SwapBytes is re-derived on every assignment. */
    method SetEndianness(value: Endianness)
      modifies this`endianness, this`swapBytes
      ensures endianness == value
      ensures swapBytes == (value != host) && Valid()
    {
      swapBytes := value != host;
      endianness := value;
    }

    /** ReadInt16, ReadUInt16, ReadInt32, ReadUInt32, ReadInt64 (and the
        inherited ReadUInt64): the next Width(p) bytes decoded in the
        configured order; the cursor moves by Width(p), or to the end of the
        stream on a short read (CursorAfter). The overridden reads follow the corrected ConfiguredRead, which agrees with the code
        as written on a little-endian host (ConfiguredReadOnLittleEndianHost). */
    method Read(p: Primitive) returns (r: Result<int>)
      requires Valid()
      modifies baseStream
      ensures r == ReadAt(baseStream.data, old(baseStream.position), p, endianness)
      ensures baseStream.position == CursorAfter(baseStream.data, old(baseStream.position), Width(p))
    {
      var bytes := baseStream.Read(Width(p));
      if bytes.Err? {
        return Err(bytes.error);
      }
      var value := DecodeBytes(p, bytes.value);
      r := Ok(value);
    }

    /** The decoding half of Read: Width(p) bytes already taken from the
        stream, turned into an integer by the configured byte order. */
    method DecodeBytes(p: Primitive, b: seq<byte>) returns (value: int)
      requires Valid()
      requires |b| == Width(p)
      ensures value == ValueOf(p, b, endianness)
    {
      var w := Width(p);
      var pattern: nat;
      if p == UInt64 {
        // not overridden: BinaryReader's own little-endian read
        pattern := LE(b);
      } else {
        // the corrected base read (ConfiguredRead): host order, byte-reversed
        // when SwapBytes is set; BinaryReader's own base read is little-endian
        // on every host, which differs from this only on a big-endian host
        var native := Decode(b, host);
        pattern := if swapBytes then ReverseEndianness(native, w) else native;
        ConfiguredReadDecodes(b, endianness, host);
        assert pattern == Decode(b, endianness);
      }
      assert pattern < Pow256(w) by {
        assert |Reverse(b)| == |b|;
      }
      value := if IsSigned(p) then ToSigned(pattern, w) else pattern;
    }

    /** BinaryReader.ReadByte */
    method ReadByte() returns (r: Result<byte>)
      modifies baseStream
      ensures old(baseStream.position) < |baseStream.data| ==>
        r == Ok(baseStream.data[old(baseStream.position)]) && baseStream.position == old(baseStream.position) + 1
      ensures old(baseStream.position) >= |baseStream.data| ==>
        r == Err(EndOfStream) && baseStream.position == old(baseStream.position)
    {
      var bytes := baseStream.Read(1);
      if bytes.Err? {
        return Err(bytes.error);
      }
      r := Ok(bytes.value[0]);
    }

    /** BinaryReader.ReadChar with a single-byte encoding. */
    method ReadChar() returns (r: Result<char>)
      modifies baseStream
      ensures old(baseStream.position) < |baseStream.data| ==>
        r == Ok(ToChar(baseStream.data[old(baseStream.position)])) && baseStream.position == old(baseStream.position) + 1
      ensures old(baseStream.position) >= |baseStream.data| ==>
        r == Err(EndOfStream) && baseStream.position == old(baseStream.position)
    {
      var b := ReadByte();
      if b.Err? {
        return Err(b.error);
      }
      r := Ok(ToChar(b.value));
    }

    /** BinaryReader.ReadBytes: a negative count is refused; fewer bytes than
        asked for is a failure here. */
    method ReadBytes(count: int) returns (r: Result<seq<byte>>)
      modifies baseStream
      ensures count < 0 ==> r == Err(NegativeCount) && baseStream.position == old(baseStream.position)
      ensures 0 <= count ==> r == BytesAt(baseStream.data, old(baseStream.position), count)
      ensures 0 <= count ==> baseStream.position == CursorAfter(baseStream.data, old(baseStream.position), count)
    {
      if count < 0 {
        return Err(NegativeCount);
      }
      r := baseStream.Read(count);
    }

    /** ReadInt16s ... ReadUInt64s: an array of `count` successive element
        reads, filled in index order. */
    method ReadArray(b: Batch, count: int) returns (r: Result<array<int>>)
      requires Valid()
      modifies baseStream
      ensures match r
        case Ok(a) =>
          fresh(a) && BatchAt(baseStream.data, old(baseStream.position), b, count, endianness) == Ok(a[..]) &&
          baseStream.position == old(baseStream.position) + count * Width(ElementRead(b))
        case Err(e) =>
          BatchAt(baseStream.data, old(baseStream.position), b, count, endianness) == Err(e)
    {
      if count < 0 {
        return Err(NegativeCount);
      }
      var p := ElementRead(b);
      var a := new int[count];
      var done := FillArray(a, p, ElementAt(baseStream.data, p, endianness));
      if done.Fail? {
        return Err(done.error);
      }
      r := Ok(a);
    }

    /** The loop of a batch read: a[i] := the i-th successive read of kind p,
        against an element reader that agrees with ReadAt. */
    method FillArray(a: array<int>, p: Primitive, ghost read: ElementReader) returns (r: Outcome)
      requires Valid()
      requires forall q {:trigger ReadAt(baseStream.data, q, p, endianness)} ::
        read(q) == ReadAt(baseStream.data, q, p, endianness)
      modifies a, baseStream
      ensures var spec := Successive(read, Width(p), old(baseStream.position), a.Length);
        (r.Pass? ==> spec == Ok(a[..]) && baseStream.position == old(baseStream.position) + a.Length * Width(p)) &&
        (r.Fail? ==> spec == Err(r.error))
    {
      ghost var w := Width(p);
      ghost var start := baseStream.position;
      PrependNothing(Successive(read, w, start, a.Length));
      assert a[..0] == [];
      for i := 0 to a.Length
        invariant baseStream.position == start + i * w
        invariant Successive(read, w, start, a.Length)
                  == Prepend(a[..i], Successive(read, w, baseStream.position, a.Length - i))
      {
        ghost var pos := baseStream.position;
        var v := Read(p);
        assert read(pos) == v;
        if v.Err? {
          return Fail(v.error);
        }
        ghost var rest := Successive(read, w, pos + w, a.Length - i - 1);
        a[i] := v.value;
        assert a[..i + 1] == a[..i] + [v.value];
        PrependPrepend(a[..i], [v.value], rest);
        assert start + i * w + w == start + (i + 1) * w;
      }
      assert a[..a.Length] == a[..] == a[..] + [];
      r := Pass;
    }

    /** ReadString(format, fixedLength). The string builder is cleared first
        and holds the string afterwards, except for FixedLength, which does not
        use it. A refused argument consumes nothing. */
    method ReadString(format: StringBinaryFormat, fixedLength: int) returns (r: Result<string>)
      requires Valid()
      modifies this`builder, baseStream
      ensures var spec := StringAt(baseStream.data, old(baseStream.position), format, fixedLength, endianness);
        r == StringValue(spec) &&
        (spec.Ok? ==> baseStream.position == spec.value.1 &&
                      builder == if format == FixedLength then [] else spec.value.0)
      ensures format == Unknown || (format == FixedLength && fixedLength < 0) ==>
        baseStream.position == old(baseStream.position)
    {
      builder := [];
      match format {
        case NullTerminated =>
          r := ReadNullTerminated();
        case FixedLength =>
          r := ReadFixedLength(fixedLength);
        case PrefixedLength8 =>
          r := ReadPrefixed(PrefixedLength8);
        case PrefixedLength16 =>
          r := ReadPrefixed(PrefixedLength16);
        case PrefixedLength32 =>
          r := ReadPrefixed(PrefixedLength32);
        case Unknown =>
          r := Err(UnknownStringFormat);
      }
    }

    /** The NullTerminated case: append characters until a zero one. */
    method ReadNullTerminated() returns (r: Result<string>)
      requires builder == []
      modifies this`builder, baseStream
      ensures var spec := StringAt(baseStream.data, old(baseStream.position), NullTerminated, -1, endianness);
        r == StringValue(spec) && (spec.Ok? ==> baseStream.position == spec.value.1 && builder == spec.value.0)
    {
      ghost var data, start := baseStream.data, baseStream.position;
      while true
        invariant baseStream.position == start + |builder|
        invariant forall k :: 0 <= k < |builder| ==>
          start + k < |data| && data[start + k] != 0 && builder[k] == ToChar(data[start + k])
        invariant FirstZero(data, start) == FirstZero(data, baseStream.position)
        decreases |data| - baseStream.position
      {
        var c := ReadChar();
        if c.Err? {
          return Err(c.error);
        }
        ToCharZero(data[baseStream.position - 1]);
        if c.value == '\0' {
          break;
        }
        builder := builder + [c.value];
      }
      assert builder == Chars(data[start..baseStream.position - 1]);
      r := Ok(builder);
    }

    /** The FixedLength case: exactly n bytes, cut at the first zero byte
        (Array.IndexOf). The default length -1 is refused before any read. */
    method ReadFixedLength(n: int) returns (r: Result<string>)
      modifies baseStream
      ensures var spec := StringAt(baseStream.data, old(baseStream.position), FixedLength, n, endianness);
        r == StringValue(spec) && (spec.Ok? ==> baseStream.position == spec.value.1)
      ensures n < 0 ==> baseStream.position == old(baseStream.position)
    {
      if n == -1 {
        return Err(InvalidFixedLength);
      }
      var bytes := ReadBytes(n);
      if bytes.Err? {
        return Err(bytes.error);
      }
      var index := FirstZero(bytes.value, 0);
      r := Ok(if index.None? then Chars(bytes.value) else Chars(bytes.value[..index.value]));
    }

    /** The length-prefixed cases: a count read with ReadByte, ReadUInt16 or
        ReadUInt32, then that many characters. */
    method ReadPrefixed(format: StringBinaryFormat) returns (r: Result<string>)
      requires Valid() && builder == []
      requires format == PrefixedLength8 || format == PrefixedLength16 || format == PrefixedLength32
      modifies this`builder, baseStream
      ensures var spec := StringAt(baseStream.data, old(baseStream.position), format, -1, endianness);
        r == StringValue(spec) && (spec.Ok? ==> baseStream.position == spec.value.1 && builder == spec.value.0)
    {
      ghost var data, start := baseStream.data, baseStream.position;
      ghost var w: nat := if format == PrefixedLength8 then 1 else if format == PrefixedLength16 then 2 else 4;
      var l := ReadLengthPrefix(format);
      if l.Err? {
        return Err(l.error);
      }
      var length := l.value;
      assert baseStream.position == start + w;
      ghost var spec := if length > IntMax then Err(EndOfStream) else CharsAt(data, start + w, length);
      assert StringAt(data, start, format, -1, endianness) == spec;
      var done := AppendChars(length);
      if done.Fail? {
        return Err(done.error);
      }
      assert builder == spec.value.0;
      r := Ok(builder);
    }

    /** The count in front of a prefixed string: ReadByte, ReadUInt16 or ReadUInt32. */
    method ReadLengthPrefix(format: StringBinaryFormat) returns (r: Result<nat>)
      requires Valid()
      requires format == PrefixedLength8 || format == PrefixedLength16 || format == PrefixedLength32
      modifies baseStream
      ensures var data, pos := baseStream.data, old(baseStream.position);
        var w := if format == PrefixedLength8 then 1 else if format == PrefixedLength16 then 2 else 4;
        if pos + w <= |data| then
          r == Ok(if w == 1 then data[pos] as nat else Decode(data[pos..pos + w], endianness)) &&
          baseStream.position == pos + w
        else r == Err(EndOfStream)
    {
      if format == PrefixedLength8 {
        var l := ReadByte();
        if l.Err? {
          return Err(l.error);
        }
        r := Ok(l.value as nat);
      } else {
        var l := Read(if format == PrefixedLength16 then UInt16 else UInt32);
        if l.Err? {
          return Err(l.error);
        }
        r := Ok(l.value);
      }
    }

    /** The counted loop of the prefixed formats, appending one character read
        per iteration. The counter is a C# int: past IntMax it wraps to
        the smallest int, so a length beyond IntMax is never reached. */
    method AppendChars(length: nat) returns (r: Outcome)
      modifies this`builder, baseStream
      ensures var spec := if length > IntMax then Err(EndOfStream)
                          else CharsAt(baseStream.data, old(baseStream.position), length);
        (r.Pass? <==> spec.Ok?) &&
        (r.Fail? ==> r.error == EndOfStream) &&
        (spec.Ok? ==> builder == old(builder) + spec.value.0 && baseStream.position == spec.value.1)
    {
      ghost var data, start, before := baseStream.data, baseStream.position, builder;
      ghost var bytes: seq<byte> := [];
      var i: int := 0;
      while i < length
        invariant IntMin <= i <= IntMax
        invariant length <= IntMax ==> i == |bytes| <= length
        invariant baseStream.position == start + |bytes|
        invariant bytes != [] ==> start + |bytes| <= |data| && bytes == data[start..start + |bytes|]
        invariant builder == before + Chars(bytes)
        decreases |data| - baseStream.position
      {
        var c := ReadChar();
        if c.Err? {
          return Fail(c.error);
        }
        CharsSnoc(bytes, data[start + |bytes|]);
        bytes := bytes + [data[start + |bytes|]];
        assert bytes == data[start..start + |bytes|];
        builder := builder + [c.value];
        i := if i == IntMax then IntMin else i + 1;
      }
      r := Pass;
    }

    /** PeekString: the string ReadString would return; on success the cursor
        is put back where it was. A failed read throws before the cursor is
        restored. */
    method PeekString(format: StringBinaryFormat, fixedLength: int) returns (r: Result<string>)
      requires Valid()
      modifies this`builder, baseStream
      ensures r == StringValue(StringAt(baseStream.data, old(baseStream.position), format, fixedLength, endianness))
      ensures r.Ok? ==> Position() == old(Position())
    {
      var current := Position();
      r := ReadString(format, fixedLength);
      if r.Err? {
        return;
      }
      var _ := SeekBegin(current);
    }

    method Seek(offset: int, origin: SeekOrigin) returns (r: Outcome)
      modifies baseStream
      ensures var target := SeekTarget(old(baseStream.position), |baseStream.data|, offset, origin);
        if target < 0 then r == Fail(NegativeSeek) && baseStream.position == old(baseStream.position)
        else r == Pass && baseStream.position == target
    {
      r := baseStream.Seek(offset, origin);
    }

    method SeekBegin(offset: int) returns (r: Outcome)
      modifies baseStream
      ensures if offset < 0 then r == Fail(NegativeSeek) && baseStream.position == old(baseStream.position)
              else r == Pass && baseStream.position == offset
    {
      r := baseStream.Seek(offset, Begin);
    }

    method SeekCurrent(offset: int) returns (r: Outcome)
      modifies baseStream
      ensures var target := old(baseStream.position) + offset;
        if target < 0 then r == Fail(NegativeSeek) && baseStream.position == old(baseStream.position)
        else r == Pass && baseStream.position == target
    {
      r := baseStream.Seek(offset, Current);
    }

    method SeekEnd(offset: int) returns (r: Outcome)
      modifies baseStream
      ensures var target := |baseStream.data| + offset;
        if target < 0 then r == Fail(NegativeSeek) && baseStream.position == old(baseStream.position)
        else r == Pass && baseStream.position == target
    {
      r := baseStream.Seek(offset, End);
    }

    /** SkipNulls(length): SeekCurrent(length) without reading; a negative
        length moves the cursor back. */
    method SkipNulls(length: int) returns (r: Outcome)
      modifies baseStream
      ensures var target := old(baseStream.position) + length;
        if target < 0 then r == Fail(NegativeSeek) && baseStream.position == old(baseStream.position)
        else r == Pass && baseStream.position == target
    {
      r := SeekCurrent(length);
    }

    /** PushOffset(offset) */
    method PushOffset(offset: int)
      modifies this`offsets
      ensures offsets == Push(old(offsets), offset)
    {
      offsets := offsets + [offset];
    }

    /** PushOffset(): saves the current position. */
    method PushPosition()
      modifies this`offsets
      ensures offsets == Push(old(offsets), Position())
    {
      offsets := offsets + [Position()];
    }

    /** PeekOffset: the saved offset on top; the stack is not changed. */
    method PeekOffset() returns (r: Result<int>)
      ensures r == Peek(offsets)
      ensures r.Ok? <==> offsets != []
      ensures r.Ok? ==> r.value == offsets[|offsets| - 1]
    {
      if offsets == [] {
        return Err(EmptyStack);
      }
      r := Ok(offsets[|offsets| - 1]);
    }

    /** PopOffset: removes and returns the saved offset on top. */
    method PopOffset() returns (r: Result<int>)
      modifies this`offsets
      ensures old(offsets) == [] ==> r == Err(EmptyStack) && offsets == old(offsets)
      ensures old(offsets) != [] ==> r.Ok? && Pop(old(offsets)) == Ok((r.value, offsets))
    {
      if offsets == [] {
        return Err(EmptyStack);
      }
      r := Ok(offsets[|offsets| - 1]);
      offsets := offsets[..|offsets| - 1];
    }
  }
}
