/** What EndianBinaryReader's reads return, as functions of the stream contents
    and the cursor; the class in module IO is proved against these. */
module ReaderSpec {
  import opened Results
  import opened ByteOrder

  /** How ReadString finds the extent of a string: up to a zero byte, a
      caller-given byte count, or a count prefix of 1, 2 or 4 bytes. */
  datatype StringBinaryFormat =
    | Unknown
    | NullTerminated
    | FixedLength
    | PrefixedLength8
    | PrefixedLength16
    | PrefixedLength32

  /** The integer reads: ReadInt16 ... ReadInt64 and the inherited ReadUInt64. */
  datatype Primitive = Int16 | UInt16 | Int32 | UInt32 | Int64 | UInt64

  /** The batch reads ReadInt16s ... ReadUInt64s. */
  datatype Batch = Int16s | UInt16s | Int32s | UInt32s | Int64s | UInt64s

  datatype SeekOrigin = Begin | Current | End

  function Width(p: Primitive): nat {
    match p
    case Int16 | UInt16 => 2
    case Int32 | UInt32 => 4
    case Int64 | UInt64 => 8
  }

  predicate IsSigned(p: Primitive) {
    p == Int16 || p == Int32 || p == Int64
  }

  /** The values of the C# type a read returns. */
  predicate InRange(p: Primitive, v: int) {
    var bound := Pow256(Width(p));
    if IsSigned(p) then -(bound / 2) <= v < bound / 2 else 0 <= v < bound
  }

  /** The value of one read of kind p over its Width(p) bytes with the reader
      configured to `order`. ReadUInt64 is not overridden, so it stays
      BinaryReader's own read, which is little-endian whatever `order` is. */
  function ValueOf(p: Primitive, b: seq<byte>, order: Endianness): int
    requires |b| == Width(p)
  {
    var pattern := if p == UInt64 then LE(b) else Decode(b, order);
    assert pattern < Pow256(|b|) by {
      assert |Reverse(b)| == |b|;
    }
    if IsSigned(p) then ToSigned(pattern, Width(p)) else pattern
  }

  /** One integer read at `pos`. */
  function ReadAt(data: seq<byte>, pos: nat, p: Primitive, order: Endianness): Result<int> {
    if pos + Width(p) <= |data| then Ok(ValueOf(p, data[pos..pos + Width(p)], order))
    else Err(EndOfStream)
  }

  /** Every successful read yields a value of its C# type. */
  lemma ReadInRange(data: seq<byte>, pos: nat, p: Primitive, order: Endianness)
    requires ReadAt(data, pos, p, order).Ok?
    ensures InRange(p, ReadAt(data, pos, p, order).value)
  {
    var b := data[pos..pos + Width(p)];
    assert |Reverse(b)| == |b|;
  }

  /** The element read each batch read uses. ReadInt64s reads each element
      with ReadUInt32. */
  function ElementRead(b: Batch): Primitive {
    match b
    case Int16s => Int16
    case UInt16s => UInt16
    case Int32s => Int32
    case UInt32s => UInt32
    case Int64s => UInt32
    case UInt64s => UInt64
  }

  /** A read at a given position: its value or the error it fails with. */
  type ElementReader = nat -> Result<int>

  /** n successive reads of width w starting at pos, stopping at the first failure. */
  function Successive(read: ElementReader, w: nat, pos: nat, n: nat): Result<seq<int>>
    decreases n
  {
    if n == 0 then Ok([])
    else match read(pos)
      case Err(e) => Err(e)
      case Ok(v) => Prepend([v], Successive(read, w, pos + w, n - 1))
  }

  function ElementAt(data: seq<byte>, p: Primitive, order: Endianness): ElementReader {
    (q: nat) => ReadAt(data, q, p, order)
  }

  /** n successive reads of kind p starting at pos. */
  function Values(data: seq<byte>, pos: nat, p: Primitive, n: nat, order: Endianness): Result<seq<int>> {
    Successive(ElementAt(data, p, order), Width(p), pos, n)
  }

  function Prepend(xs: seq<int>, r: Result<seq<int>>): Result<seq<int>> {
    match r
    case Ok(ys) => Ok(xs + ys)
    case Err(e) => Err(e)
  }

  lemma PrependNothing(r: Result<seq<int>>)
    ensures Prepend([], r) == r
  {
    if r.Ok? {
      assert [] + r.value == r.value;
    }
  }

  lemma PrependPrepend(xs: seq<int>, ys: seq<int>, r: Result<seq<int>>)
    ensures Prepend(xs, Prepend(ys, r)) == Prepend(xs + ys, r)
  {
    if r.Ok? {
      assert xs + (ys + r.value) == (xs + ys) + r.value;
    }
  }

  /** A batch read: allocating the array fails on a negative count. */
  function BatchAt(data: seq<byte>, pos: nat, b: Batch, count: int, order: Endianness): Result<seq<int>> {
    if count < 0 then Err(NegativeCount) else Values(data, pos, ElementRead(b), count, order)
  }

  /** Successive reads of a reader that fails, with end of stream, exactly
      past `bound` succeed exactly when all n fit below it. */
  lemma {:induction false} SuccessiveSucceed(read: ElementReader, w: nat, pos: nat, n: nat, bound: int)
    requires forall q: nat {:trigger read(q)} ::
      (read(q).Ok? <==> q + w <= bound) && (read(q).Err? ==> read(q).error == EndOfStream)
    ensures Successive(read, w, pos, n).Ok? <==> n == 0 || pos + n * w <= bound
    ensures Successive(read, w, pos, n).Err? ==> Successive(read, w, pos, n).error == EndOfStream
    ensures Successive(read, w, pos, n).Ok? ==> |Successive(read, w, pos, n).value| == n
    decreases n
  {
    if n > 0 {
      SuccessiveSucceed(read, w, pos + w, n - 1, bound);
      assert n * w == w + (n - 1) * w;
      assert (n - 1) * w >= 0;
    }
  }

  /** Element i of successful successive reads is the read at pos + i * w. */
  lemma {:induction false} SuccessiveElement(read: ElementReader, w: nat, pos: nat, n: nat, i: nat)
    requires Successive(read, w, pos, n).Ok? && i < n
    ensures read(pos + i * w).Ok?
    ensures |Successive(read, w, pos, n).value| == n
    ensures Successive(read, w, pos, n).value[i] == read(pos + i * w).value
    decreases n
  {
    var rest := Successive(read, w, pos + w, n - 1);
    if n > 1 {
      SuccessiveElement(read, w, pos + w, n - 1, if i == 0 then 0 else i - 1);
    } else {
      assert rest == Ok([]);
    }
    if i > 0 {
      assert i * w == (i - 1) * w + w;
    }
  }

  /** Two readers that agree everywhere give the same successive reads. */
  lemma {:induction false} SuccessiveAgree(r1: ElementReader, r2: ElementReader, w: nat, pos: nat, n: nat)
    requires forall q: nat {:trigger r1(q)} :: r1(q) == r2(q)
    ensures Successive(r1, w, pos, n) == Successive(r2, w, pos, n)
    decreases n
  {
    if n > 0 {
      SuccessiveAgree(r1, r2, w, pos + w, n - 1);
    }
  }

  /** The successive reads succeed exactly when the stream holds n elements
      (zero reads always succeed, wherever the cursor is), with n values. */
  lemma ValuesSucceed(data: seq<byte>, pos: nat, p: Primitive, n: nat, order: Endianness)
    ensures Values(data, pos, p, n, order).Ok? <==> n == 0 || pos + n * Width(p) <= |data|
    ensures Values(data, pos, p, n, order).Err? ==> Values(data, pos, p, n, order).error == EndOfStream
    ensures Values(data, pos, p, n, order).Ok? ==> |Values(data, pos, p, n, order).value| == n
  {
    var read := ElementAt(data, p, order);
    forall q: nat
      ensures (read(q).Ok? <==> q + Width(p) <= |data|) && (read(q).Err? ==> read(q).error == EndOfStream)
    {
    }
    SuccessiveSucceed(read, Width(p), pos, n, |data|);
  }

  /** Element i of a batch is the value of the i-th Width(p)-byte slice. */
  lemma ValuesElement(data: seq<byte>, pos: nat, p: Primitive, n: nat, order: Endianness, i: nat)
    requires Values(data, pos, p, n, order).Ok? && i < n
    ensures pos + i * Width(p) + Width(p) <= |data|
    ensures |Values(data, pos, p, n, order).value| == n
    ensures Values(data, pos, p, n, order).value[i] ==
            ValueOf(p, data[pos + i * Width(p)..pos + i * Width(p) + Width(p)], order)
  {
    SuccessiveElement(ElementAt(data, p, order), Width(p), pos, n, i);
    assert ReadAt(data, pos + i * Width(p), p, order).Ok?;
  }

  /** A batch consumes count elements of its element read: for ReadInt64s
      that is 4 bytes each, not 8. */
  lemma BatchWidth(data: seq<byte>, pos: nat, count: nat, order: Endianness)
    ensures BatchAt(data, pos, Int64s, count, order).Ok? <==> count == 0 || pos + 4 * count <= |data|
    ensures BatchAt(data, pos, UInt64s, count, order).Ok? <==> count == 0 || pos + 8 * count <= |data|
    ensures forall b: Batch :: BatchAt(data, pos, b, 0, order) == Ok([])
  {
    ValuesSucceed(data, pos, UInt32, count, order);
    ValuesSucceed(data, pos, UInt64, count, order);
    assert Width(UInt32) == 4 && Width(UInt64) == 8;
  }

  /** ReadUInt64s decodes little-endian whatever the configured order. */
  lemma UInt64sIgnoreEndianness(data: seq<byte>, pos: nat, count: int)
    ensures BatchAt(data, pos, UInt64s, count, LittleEndian) == BatchAt(data, pos, UInt64s, count, BigEndian)
  {
    if count >= 0 {
      ValuesIgnoreOrder(data, pos, count);
    }
  }

  lemma ValuesIgnoreOrder(data: seq<byte>, pos: nat, n: nat)
    ensures Values(data, pos, UInt64, n, LittleEndian) == Values(data, pos, UInt64, n, BigEndian)
  {
    var little, big := ElementAt(data, UInt64, LittleEndian), ElementAt(data, UInt64, BigEndian);
    forall q: nat
      ensures little(q) == big(q)
    {
    }
    SuccessiveAgree(little, big, 8, pos, n);
  }

  // ---------------------------------------------------------------- strings

  /** The single-byte encoding: byte b is the character with code b. */
  function ToChar(b: byte): char {
    (b as int) as char
  }

  function Chars(bs: seq<byte>): (s: string)
    ensures |s| == |bs|
  {
    seq(|bs|, i requires 0 <= i < |bs| => ToChar(bs[i]))
  }

  lemma ToCharZero(b: byte)
    ensures ToChar(b) == '\0' <==> b == 0
  {
    assert (ToChar(b) as int) == b as int;
  }

  /** The first zero byte at or after pos (Array.IndexOf for a zero byte). */
  function FirstZero(data: seq<byte>, pos: nat): (r: Option<nat>)
    ensures r.Some? ==> pos <= r.value < |data| && data[r.value] == 0
    ensures r.Some? ==> forall k :: pos <= k < r.value ==> data[k] != 0
    ensures r.None? ==> forall k :: pos <= k < |data| ==> data[k] != 0
    decreases |data| - pos
  {
    if pos >= |data| then None
    else if data[pos] == 0 then Some(pos)
    else FirstZero(data, pos + 1)
  }

  /** The bytes before the first zero byte, or all of them when there is none. */
  function TruncateAtZero(bs: seq<byte>): (r: seq<byte>)
    ensures r <= bs
    ensures forall i :: 0 <= i < |r| ==> r[i] != 0
    ensures |r| < |bs| ==> bs[|r|] == 0
  {
    match FirstZero(bs, 0)
    case None => bs
    case Some(index) => bs[..index]
  }

  /** n bytes at pos. Asking for none succeeds even past the end. */
  function BytesAt(data: seq<byte>, pos: nat, n: nat): (r: Result<seq<byte>>)
    ensures r.Ok? ==> |r.value| == n
  {
    if n == 0 then Ok([])
    else if pos + n <= |data| then Ok(data[pos..pos + n])
    else Err(EndOfStream)
  }

  /** Where a read of n bytes at pos leaves the cursor. A read that finds
      fewer than n bytes consumes the ones that remain before it fails, so a
      cursor before the end moves to the end; one at or past the end stays. */
  function CursorAfter(data: seq<byte>, pos: nat, n: nat): (q: nat)
    ensures BytesAt(data, pos, n).Ok? ==> q == pos + n
    ensures BytesAt(data, pos, n).Err? ==> pos <= q && |data| <= q && (q == pos || q == |data|)
  {
    if BytesAt(data, pos, n).Ok? then pos + n
    else if pos < |data| then |data|
    else pos
  }

  /** n characters at pos, one byte each. */
  function CharsAt(data: seq<byte>, pos: nat, n: nat): Result<(string, nat)> {
    match BytesAt(data, pos, n)
    case Ok(bs) => Ok((Chars(bs), pos + n))
    case Err(e) => Err(e)
  }

  lemma CharsSnoc(bs: seq<byte>, b: byte)
    ensures Chars(bs + [b]) == Chars(bs) + [ToChar(b)]
  {
  }

  /** The range of the source's `int` loop counter. */
  const IntMax: int := 0x7FFF_FFFF
  const IntMin: int := -0x8000_0000

  /** ReadString(format, fixedLength) at pos: the string and the new position. */
  function StringAt(data: seq<byte>, pos: nat, format: StringBinaryFormat, fixedLength: int,
                    order: Endianness): Result<(string, nat)>
  {
    match format
    case NullTerminated =>
      (match FirstZero(data, pos)
       case None => Err(EndOfStream)
       case Some(z) => Ok((Chars(data[pos..z]), z + 1)))
    case FixedLength =>
      if fixedLength == -1 then Err(InvalidFixedLength)
      else if fixedLength < 0 then Err(NegativeCount)
      else
        (match BytesAt(data, pos, fixedLength)
         case Err(e) => Err(e)
         case Ok(bs) => Ok((Chars(TruncateAtZero(bs)), pos + fixedLength)))
    case PrefixedLength8 =>
      if pos + 1 > |data| then Err(EndOfStream) else CharsAt(data, pos + 1, data[pos] as nat)
    case PrefixedLength16 =>
      if pos + 2 > |data| then Err(EndOfStream)
      else CharsAt(data, pos + 2, Decode(data[pos..pos + 2], order))
    case PrefixedLength32 =>
      if pos + 4 > |data| then Err(EndOfStream)
      else
        var length := Decode(data[pos..pos + 4], order);
        // the int counter wraps before reaching such a length: the loop only ends at end of stream
        if length > IntMax then Err(EndOfStream) else CharsAt(data, pos + 4, length)
    case Unknown =>
      Err(UnknownStringFormat)
  }

  function StringValue(r: Result<(string, nat)>): Result<string> {
    match r
    case Ok((s, _)) => Ok(s)
    case Err(e) => Err(e)
  }

  /** NullTerminated: consumes up to and including the first zero byte and
      returns the characters before it; fails when there is no zero byte. */
  lemma NullTerminatedString(data: seq<byte>, pos: nat, fixedLength: int, order: Endianness)
    ensures var r := StringAt(data, pos, NullTerminated, fixedLength, order);
      (r.Err? <==> forall k :: pos <= k < |data| ==> data[k] != 0) &&
      (r.Err? ==> r.error == EndOfStream) &&
      (r.Ok? ==>
        var (s, next) := r.value;
        pos < next <= |data| && data[next - 1] == 0 && |s| == next - 1 - pos &&
        (forall k :: pos <= k < next - 1 ==> data[k] != 0) &&
        '\0' !in s &&
        forall i :: 0 <= i < |s| ==> s[i] == ToChar(data[pos + i]))
  {
    var r := StringAt(data, pos, NullTerminated, fixedLength, order);
    if r.Ok? {
      var (s, next) := r.value;
      forall i | 0 <= i < |s| ensures s[i] != '\0' {
        ToCharZero(data[pos + i]);
      }
    }
  }

  /** FixedLength: -1 is refused; otherwise exactly N bytes are consumed and the
      result is their prefix before the first zero byte. */
  lemma FixedLengthString(data: seq<byte>, pos: nat, n: int, order: Endianness)
    ensures n == -1 ==> StringAt(data, pos, FixedLength, n, order) == Err(InvalidFixedLength)
    ensures n < -1 ==> StringAt(data, pos, FixedLength, n, order) == Err(NegativeCount)
    ensures 0 <= n ==> (StringAt(data, pos, FixedLength, n, order).Ok? <==> n == 0 || pos + n <= |data|)
    ensures StringAt(data, pos, FixedLength, n, order).Ok? ==>
      var (s, next) := StringAt(data, pos, FixedLength, n, order).value;
      next == pos + n && |s| <= n && '\0' !in s &&
      (forall i :: 0 <= i < |s| ==> s[i] == ToChar(data[pos + i])) &&
      (|s| < n ==> data[pos + |s|] == 0)
  {
    var r := StringAt(data, pos, FixedLength, n, order);
    if r.Ok? {
      var (s, next) := r.value;
      var t := TruncateAtZero(BytesAt(data, pos, n).value);
      forall i | 0 <= i < |s| ensures s[i] != '\0' {
        ToCharZero(t[i]);
      }
    }
  }

  /** The length-prefixed formats read a 1-, 2- or 4-byte count L, then exactly
      L characters; the string has length L. Unknown is refused. */
  lemma PrefixedString(data: seq<byte>, pos: nat, format: StringBinaryFormat, fixedLength: int,
                       order: Endianness)
    requires format == PrefixedLength8 || format == PrefixedLength16 || format == PrefixedLength32
    requires StringAt(data, pos, format, fixedLength, order).Ok?
    ensures var w := if format == PrefixedLength8 then 1 else if format == PrefixedLength16 then 2 else 4;
      var (s, next) := StringAt(data, pos, format, fixedLength, order).value;
      pos + w <= |data| &&
      var length := if w == 1 then data[pos] as nat else Decode(data[pos..pos + w], order);
      |s| == length && next == pos + w + length && (length > 0 ==> next <= |data|) &&
      forall i :: 0 <= i < length ==> s[i] == ToChar(data[pos + w + i])
  {
  }

  lemma UnknownFormatRefused(data: seq<byte>, pos: nat, fixedLength: int, order: Endianness)
    ensures StringAt(data, pos, Unknown, fixedLength, order) == Err(UnknownStringFormat)
  {
  }

  // ------------------------------------------------------------- seek, stack

  /** Where Stream.Seek(offset, origin) moves the cursor. */
  function SeekTarget(position: nat, length: nat, offset: int, origin: SeekOrigin): int {
    match origin
    case Begin => offset
    case Current => position + offset
    case End => length + offset
  }

  /** The offset stack; its top is the last element. */
  function Push(stack: seq<int>, x: int): seq<int> {
    stack + [x]
  }

  function Peek(stack: seq<int>): Result<int> {
    if stack == [] then Err(EmptyStack) else Ok(stack[|stack| - 1])
  }

  function Pop(stack: seq<int>): Result<(int, seq<int>)> {
    if stack == [] then Err(EmptyStack) else Ok((stack[|stack| - 1], stack[..|stack| - 1]))
  }

  /** Pop undoes Push: it returns the pushed value and the earlier stack,
      and Peek sees the same value. */
  lemma PopAfterPush(stack: seq<int>, x: int)
    ensures Pop(Push(stack, x)) == Ok((x, stack))
    ensures Peek(Push(stack, x)) == Ok(x)
  {
    assert Push(stack, x)[..|stack|] == stack;
  }

  /** Pushing back what Pop returned restores the stack. */
  lemma PushAfterPop(stack: seq<int>)
    requires Pop(stack).Ok?
    ensures Push(Pop(stack).value.1, Pop(stack).value.0) == stack
  {
  }
}
