/** Bytes, byte orders and the byte-reversal that EndianBinaryReader applies to
    every multi-byte integer it reads. Values are unsigned bit patterns (`nat`);
    `ToSigned` reinterprets a pattern as a two's-complement integer. */
module ByteOrder {

  newtype byte = b: int | 0 <= b < 256

  datatype Endianness = LittleEndian | BigEndian

  function Opposite(e: Endianness): Endianness {
    if e == LittleEndian then BigEndian else LittleEndian
  }

  /** 256 to the power n: the number of distinct n-byte patterns. */
  function Pow256(n: nat): (r: nat)
    ensures r > 0
  {
    if n == 0 then 1 else 256 * Pow256(n - 1)
  }

  /** The value of a byte sequence read least significant byte first. */
  function LE(s: seq<byte>): (r: nat)
    ensures r < Pow256(|s|)
  {
    if s == [] then 0
    else
      var rest := LE(s[1..]);
      assert s[0] as nat + 256 * rest <= 255 + 256 * (Pow256(|s| - 1) - 1);
      s[0] as nat + 256 * rest
  }

  /** The n-byte little-endian encoding of v (v taken modulo 256^n). */
  function ToLE(v: nat, n: nat): (s: seq<byte>)
    ensures |s| == n
  {
    if n == 0 then [] else [(v % 256) as byte] + ToLE(v / 256, n - 1)
  }

  function Reverse(s: seq<byte>): (r: seq<byte>)
    ensures |r| == |s|
    ensures forall i :: 0 <= i < |s| ==> r[i] == s[|s| - 1 - i]
  {
    if s == [] then [] else Reverse(s[1..]) + [s[0]]
  }

  lemma ReverseReverse(s: seq<byte>)
    ensures Reverse(Reverse(s)) == s
  {
  }

  /** The value of the bytes s in the byte order `order`. */
  function Decode(s: seq<byte>, order: Endianness): nat {
    if order == LittleEndian then LE(s) else LE(Reverse(s))
  }

  /** Encoding a decoded sequence gives the sequence back. */
  lemma {:induction false} ToLEOfLE(s: seq<byte>)
    ensures ToLE(LE(s), |s|) == s
  {
    if s != [] {
      var v := LE(s);
      assert v == s[0] as nat + 256 * LE(s[1..]);
      assert v % 256 == s[0] as nat;
      assert v / 256 == LE(s[1..]);
      ToLEOfLE(s[1..]);
    }
  }

  /** Decoding an encoding gives the value back, for every value that fits. */
  lemma {:induction false} LEOfToLE(v: nat, n: nat)
    requires v < Pow256(n)
    ensures LE(ToLE(v, n)) == v
  {
    if n > 0 {
      var s := ToLE(v, n);
      assert s[1..] == ToLE(v / 256, n - 1);
      assert v / 256 < Pow256(n - 1);
      LEOfToLE(v / 256, n - 1);
      assert v == v % 256 + 256 * (v / 256);
    }
  }

  /** Appending a byte at the high end adds it times 256^|s|. */
  lemma {:induction false} LEAppend(s: seq<byte>, b: byte)
    ensures LE(s + [b]) == LE(s) + b as nat * Pow256(|s|)
  {
    if s == [] {
      assert [b][1..] == [];
    } else {
      var t := s[1..];
      assert (s + [b])[1..] == t + [b];
      LEAppend(t, b);
      var x, y := LE(t), b as nat * Pow256(|t|);
      assert LE(s + [b]) == s[0] as nat + 256 * (x + y);
      assert 256 * (x + y) == 256 * x + 256 * y;
      assert 256 * y == b as nat * (256 * Pow256(|t|));
    }
  }

  /** In big-endian order the first byte is the most significant one. */
  lemma BigEndianFirstByteMostSignificant(b: byte, s: seq<byte>)
    ensures Decode([b] + s, BigEndian) == b as nat * Pow256(|s|) + Decode(s, BigEndian)
  {
    assert Reverse([b] + s) == Reverse(s) + [b];
    LEAppend(Reverse(s), b);
  }

  /** The signed value of the n-byte two's-complement pattern u. */
  function ToSigned(u: nat, n: nat): (r: int)
    requires 1 <= n && u < Pow256(n)
    ensures -(Pow256(n) / 2) <= r < Pow256(n) / 2
    ensures r == u || r == u - Pow256(n)
    ensures 0 <= r <==> u < Pow256(n) / 2
  {
    var half := Pow256(n) / 2;
    assert Pow256(n) == 256 * Pow256(n - 1) == half + half;
    if u >= half then u - Pow256(n) else u
  }

  /** BinaryPrimitives.ReverseEndianness on an n-byte value. */
  function ReverseEndianness(v: nat, n: nat): (r: nat)
    ensures r < Pow256(n)
  {
    LE(Reverse(ToLE(v, n)))
  }

  /** Reversing the bytes of a read value is reading the reversed bytes. */
  lemma ReverseEndiannessOfLE(s: seq<byte>)
    ensures ReverseEndianness(LE(s), |s|) == LE(Reverse(s))
  {
    ToLEOfLE(s);
  }

  lemma ReverseEndiannessInvolutive(v: nat, n: nat)
    requires v < Pow256(n)
    ensures ReverseEndianness(ReverseEndianness(v, n), n) == v
  {
    var s := ToLE(v, n);
    ReverseEndiannessOfLE(Reverse(s));
    ReverseReverse(s);
    LEOfToLE(v, n);
  }

  /** The `SwapBytes` flag the Endianness setter derives: the configured order
      differs from the host's native order. */
  function SwapBytesFor(configured: Endianness, host: Endianness): bool {
    configured != host
  }

  /** The read as the source writes it: BinaryReader's own read, which always
      decodes little-endian, byte-reversed when SwapBytes is set. */
  function AsWrittenRead(s: seq<byte>, configured: Endianness, host: Endianness): nat {
    if SwapBytesFor(configured, host) then ReverseEndianness(LE(s), |s|) else LE(s)
  }

  /** On a little-endian host the as-written read decodes in the configured order. */
  lemma AsWrittenReadOnLittleEndianHost(s: seq<byte>, configured: Endianness)
    ensures AsWrittenRead(s, configured, LittleEndian) == Decode(s, configured)
  {
    ReverseEndiannessOfLE(s);
  }

  /** On a big-endian host the as-written read decodes in the opposite order. */
  lemma AsWrittenReadOnBigEndianHost(s: seq<byte>, configured: Endianness)
    ensures AsWrittenRead(s, configured, BigEndian) == Decode(s, Opposite(configured))
  {
    ReverseEndiannessOfLE(s);
  }

  /** The two bytes 01 00 read with LittleEndian configured on a big-endian host
      give 256 instead of 1. */
  lemma AsWrittenReadCounterexample()
    ensures AsWrittenRead([1, 0], LittleEndian, BigEndian) == 256
    ensures Decode([1, 0], LittleEndian) == 1
  {
    AsWrittenReadOnBigEndianHost([1, 0], LittleEndian);
    assert Reverse([1, 0]) == [0, 1];
    assert LE([0, 1]) == 0 + 256 * LE([1]);
    assert [1, 0][1..] == [0];
    assert [1 as byte][1..] == [];
  }

  /** The corrected read: a host-order (native) read, byte-reversed when
      SwapBytes is set. */
  function ConfiguredRead(s: seq<byte>, configured: Endianness, host: Endianness): nat {
    var native := Decode(s, host);
    if SwapBytesFor(configured, host) then ReverseEndianness(native, |s|) else native
  }

  /** The corrected read decodes in the configured order on every host. */
  lemma ConfiguredReadDecodes(s: seq<byte>, configured: Endianness, host: Endianness)
    ensures ConfiguredRead(s, configured, host) == Decode(s, configured)
  {
    ReverseEndiannessOfLE(s);
    ReverseEndiannessOfLE(Reverse(s));
    ReverseReverse(s);
  }

  /** On a little-endian host, the corrected read and the read as written agree. */
  lemma ConfiguredReadOnLittleEndianHost(s: seq<byte>, configured: Endianness)
    ensures ConfiguredRead(s, configured, LittleEndian) == AsWrittenRead(s, configured, LittleEndian)
  {
    ConfiguredReadDecodes(s, configured, LittleEndian);
    AsWrittenReadOnLittleEndianHost(s, configured);
  }

  /** On a big-endian host, the read as written with one order configured is
      the corrected read with the opposite order configured. */
  lemma AsWrittenReadIsOppositeConfigured(s: seq<byte>, configured: Endianness)
    ensures AsWrittenRead(s, configured, BigEndian) == ConfiguredRead(s, Opposite(configured), BigEndian)
  {
    AsWrittenReadOnBigEndianHost(s, configured);
    ConfiguredReadDecodes(s, Opposite(configured), BigEndian);
  }
}
