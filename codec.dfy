/**
 * The value level of raz::Serializer (include/raz/serialization.hpp): how an
 * integer or a string becomes the bytes handed to the buffer, and how those
 * bytes are turned back into a value. The imperative Serializer class that
 * drives a buffer with these encodings lives in module Serialization.
 */
module Codec {
  import opened Wrappers

  /** An unsigned char / uint8_t. */
  type byte = b: int | 0 <= b < 256

  /** uint16_t */
  type u16 = x: int | 0 <= x < 0x1_0000

  /** uint32_t */
  type u32 = x: int | 0 <= x < 0x1_0000_0000

  datatype SerializationMode = Serialize | Deserialize

  /** The one exception kind the codec and the buffers throw. */
  datatype SerializationError = SerializationError

  /**
   * A byte buffer as a value: its mode, the bytes written so far, the
   * read cursor and its capacity SIZE.
   */
  datatype Cursor = Cursor(mode: SerializationMode, written: seq<byte>, pos: nat, size: nat) {
    predicate Valid()
    {
      pos <= |written| <= size
    }

    /** The bytes written but not yet read. */
    function Unread(): seq<byte>
      requires Valid()
    {
      written[pos..]
    }

    /** Free capacity. */
    function Room(): nat
      requires Valid()
    {
      size - |written|
    }
  }

  /** Byte order of the machine the code runs on (a parameter of the model). */
  datatype Endianness = LittleEndian | BigEndian

  function Pow256(w: nat): (r: nat)
    ensures r >= 1
  {
    if w == 0 then 1 else 256 * Pow256(w - 1)
  }

  /** The w least significant base-256 digits of x, least significant first. */
  function LittleEndianBytes(x: nat, w: nat): (r: seq<byte>)
    ensures |r| == w
  {
    if w == 0 then [] else [x % 256] + LittleEndianBytes(x / 256, w - 1)
  }

  /** The number whose base-256 digits, least significant first, are b. */
  function LittleEndianValue(b: seq<byte>): (r: nat)
    ensures r < Pow256(|b|)
  {
    if |b| == 0 then 0
    else
      var rest := LittleEndianValue(b[1..]);
      assert rest <= Pow256(|b| - 1) - 1;
      assert 256 * rest <= 256 * Pow256(|b| - 1) - 256;
      b[0] + 256 * rest
  }

  lemma {:induction false} LittleEndianRoundTrip(x: nat, w: nat)
    requires x < Pow256(w)
    ensures LittleEndianValue(LittleEndianBytes(x, w)) == x
  {
    if w > 0 {
      assert x / 256 < Pow256(w - 1) by {
        DivBound(x, Pow256(w - 1));
      }
      LittleEndianRoundTrip(x / 256, w - 1);
      var b := LittleEndianBytes(x, w);
      assert b[1..] == LittleEndianBytes(x / 256, w - 1);
    }
  }

  lemma DivBound(x: nat, p: nat)
    requires x < 256 * p
    ensures x / 256 < p
  {
  }

  lemma {:induction false} LittleEndianBytesOfValue(b: seq<byte>)
    ensures LittleEndianBytes(LittleEndianValue(b), |b|) == b
  {
    if |b| > 0 {
      var rest := LittleEndianValue(b[1..]);
      var x := b[0] + 256 * rest;
      assert x % 256 == b[0] && x / 256 == rest;
      LittleEndianBytesOfValue(b[1..]);
    }
  }

  /** Reverses a byte (or any) sequence. */
  function Reverse<T>(s: seq<T>): (r: seq<T>)
    ensures |r| == |s|
    ensures forall i :: 0 <= i < |s| ==> r[i] == s[|s| - 1 - i]
  {
    if |s| == 0 then [] else Reverse(s[1..]) + [s[0]]
  }

  lemma ReverseReverse<T>(s: seq<T>)
    ensures Reverse(Reverse(s)) == s
  {
    assert forall i :: 0 <= i < |s| ==> Reverse(Reverse(s))[i] == s[i];
  }

  /**
   * The object representation of a w-byte unsigned quantity, in the order
   * the host keeps its bytes in memory.
   */
  function HostBytes(bits: nat, w: nat, host: Endianness): (r: seq<byte>)
    ensures |r| == w
  {
    if host == LittleEndian then LittleEndianBytes(bits, w)
    else Reverse(LittleEndianBytes(bits, w))
  }

  /** The unsigned quantity whose object representation on this host is b. */
  function HostValue(b: seq<byte>, host: Endianness): (r: nat)
    ensures r < Pow256(|b|)
  {
    if host == LittleEndian then LittleEndianValue(b)
    else LittleEndianValue(Reverse(b))
  }

  lemma HostRoundTrip(bits: nat, w: nat, host: Endianness)
    requires bits < Pow256(w)
    ensures HostValue(HostBytes(bits, w, host), host) == bits
  {
    LittleEndianRoundTrip(bits, w);
    ReverseReverse(LittleEndianBytes(bits, w));
  }

  /**
   * isBigEndian: store 0x01020304 in a 32-bit word and look at its first
   * byte in memory.
   */
  function IsBigEndian(host: Endianness): (r: bool)
    ensures r <==> host == BigEndian
  {
    HostBytes(0x01020304, 4, host)[0] == 1
  }

  /** The integral types the integer overload of operator() accepts. */
  datatype IntType = U8 | I8 | U16 | I16 | U32 | I32 | U64 | I64 {
    /** sizeof(I) */
    function Width(): nat
    {
      match this
      case U8 | I8 => 1
      case U16 | I16 => 2
      case U32 | I32 => 4
      case U64 | I64 => 8
    }

    predicate Signed()
    {
      match this
      case I8 | I16 | I32 | I64 => true
      case _ => false
    }

    /** 2^(8 * sizeof(I)): the number of distinct bit patterns. */
    function Modulus(): nat
    {
      match this
      case U8 | I8 => 0x100
      case U16 | I16 => 0x1_0000
      case U32 | I32 => 0x1_0000_0000
      case U64 | I64 => 0x1_0000_0000_0000_0000
    }

    /** The values a variable of this type can hold (two's complement when signed). */
    predicate InRange(v: int)
    {
      if Signed() then -(Modulus() / 2) <= v < Modulus() / 2 else 0 <= v < Modulus()
    }
  }

  lemma ModulusIsPow256(t: IntType)
    ensures t.Modulus() == Pow256(t.Width())
  {
    Pow256Values();
  }

  lemma Pow256Values()
    ensures Pow256(1) == 0x100 && Pow256(2) == 0x1_0000
    ensures Pow256(4) == 0x1_0000_0000 && Pow256(8) == 0x1_0000_0000_0000_0000
  {
    assert Pow256(2) == 256 * Pow256(1);
    assert Pow256(4) == 256 * (256 * Pow256(2));
    assert Pow256(8) == 256 * (256 * (256 * (256 * Pow256(4))));
  }

  /** The unsigned bit pattern of v (two's complement for negative values). */
  function ToBits(t: IntType, v: int): (r: nat)
    requires t.InRange(v)
    ensures r < t.Modulus()
  {
    if v < 0 then v + t.Modulus() else v
  }

  /** The value of type t whose bit pattern is b. */
  function FromBits(t: IntType, b: nat): (v: int)
    requires b < t.Modulus()
    ensures t.InRange(v)
    ensures ToBits(t, v) == b
  {
    if t.Signed() && b >= t.Modulus() / 2 then b - t.Modulus() else b
  }

  lemma BitsRoundTrip(t: IntType, v: int)
    requires t.InRange(v)
    ensures FromBits(t, ToBits(t, v)) == v
  {
  }

  /**
   * The bytes the integer overload of operator() writes for v: the host
   * object representation, reversed when EndiannessConversion is on and the
   * host is little-endian (swapEndianness).
   */
  function WireBytes(t: IntType, v: int, conversion: bool, host: Endianness): (r: seq<byte>)
    requires t.InRange(v)
    ensures |r| == t.Width()
  {
    var tmp := HostBytes(ToBits(t, v), t.Width(), host);
    if conversion && !IsBigEndian(host) then Reverse(tmp) else tmp
  }

  /** The value the integer overload of operator() assigns after reading b. */
  function ValueOfWire(t: IntType, b: seq<byte>, conversion: bool, host: Endianness): (v: int)
    requires |b| == t.Width()
    ensures t.InRange(v)
  {
    var tmp := if conversion && !IsBigEndian(host) then Reverse(b) else b;
    ModulusIsPow256(t);
    FromBits(t, HostValue(tmp, host))
  }

  /** With conversion on, the wire order is most significant byte first on every host. */
  lemma ConversionIsBigEndian(t: IntType, v: int, host: Endianness)
    requires t.InRange(v)
    ensures WireBytes(t, v, true, host) == Reverse(LittleEndianBytes(ToBits(t, v), t.Width()))
  {
  }

  /** Without conversion, the bytes go out in host memory order. */
  lemma NoConversionIsHostOrder(t: IntType, v: int, host: Endianness)
    requires t.InRange(v)
    ensures WireBytes(t, v, false, host) == HostBytes(ToBits(t, v), t.Width(), host)
  {
  }

  lemma IntRoundTrip(t: IntType, v: int, conversion: bool, host: Endianness)
    requires t.InRange(v)
    ensures ValueOfWire(t, WireBytes(t, v, conversion, host), conversion, host) == v
  {
    var tmp := HostBytes(ToBits(t, v), t.Width(), host);
    ReverseReverse(tmp);
    ModulusIsPow256(t);
    HostRoundTrip(ToBits(t, v), t.Width(), host);
  }

  /**
   * Two peers that both enable conversion agree whatever their own byte
   * orders: bytes written on one host decode to the same value on the other.
   */
  lemma EndiannessSymmetry(t: IntType, v: int, writer: Endianness, reader: Endianness)
    requires t.InRange(v)
    ensures ValueOfWire(t, WireBytes(t, v, true, writer), true, reader) == v
  {
    ConversionIsBigEndian(t, v, writer);
    ConversionIsBigEndian(t, v, reader);
    IntRoundTrip(t, v, true, reader);
  }

  /**
   * Reading an integer from the front of `stream`: the value and the
   * number of bytes consumed, or None for a short read.
   */
  function DecodeInt(t: IntType, stream: seq<byte>, conversion: bool, host: Endianness): (r: Option<(int, nat)>)
    ensures r.Some? <==> |stream| >= t.Width()
    ensures r.Some? ==> r.value.1 == t.Width()
  {
    if |stream| < t.Width() then None
    else Some((ValueOfWire(t, stream[..t.Width()], conversion, host), t.Width()))
  }

  lemma DecodeIntOfEncoding(t: IntType, v: int, rest: seq<byte>, conversion: bool, host: Endianness)
    requires t.InRange(v)
    ensures DecodeInt(t, WireBytes(t, v, conversion, host) + rest, conversion, host) == Some((v, t.Width()))
  {
    var w := WireBytes(t, v, conversion, host);
    assert (w + rest)[..t.Width()] == w;
    IntRoundTrip(t, v, conversion, host);
  }

  /** static_cast<uint32_t> of a string length. */
  const StringLengthModulus: nat := 0x1_0000_0000

  /** The string length after static_cast<uint32_t>. */
  function StringLength(s: seq<byte>): (len: nat)
    ensures len <= |s| && U32.InRange(len)
    ensures |s| < StringLengthModulus ==> len == |s|
  {
    |s| % StringLengthModulus
  }

  /**
   * The string overload of operator(): the length as a uint32_t through the
   * integer path, then that many raw bytes of the string.
   */
  function EncodeString(s: seq<byte>, conversion: bool, host: Endianness): (r: seq<byte>)
    ensures |r| == 4 + StringLength(s)
  {
    var len := StringLength(s);
    WireBytes(U32, len, conversion, host) + s[..len]
  }

  /** Reading a string: its u32 length, then exactly that many bytes. */
  function DecodeString(stream: seq<byte>, conversion: bool, host: Endianness): (r: Option<(seq<byte>, nat)>)
    ensures r.Some? ==> r.value.1 == 4 + |r.value.0| <= |stream|
  {
    match DecodeInt(U32, stream, conversion, host)
    case None => None
    case Some((len, k)) =>
      if |stream| - k < len then None else Some((stream[k..k + len], k + len))
  }

  lemma {:induction false} StringRoundTrip(s: seq<byte>, rest: seq<byte>, conversion: bool, host: Endianness)
    requires |s| < StringLengthModulus
    ensures DecodeString(EncodeString(s, conversion, host) + rest, conversion, host) == Some((s, 4 + |s|))
  {
    var w := WireBytes(U32, |s|, conversion, host);
    var stream := w + (s + rest);
    assert EncodeString(s, conversion, host) + rest == stream by {
      assert s[..StringLength(s)] == s;
    }
    DecodeIntOfEncoding(U32, |s|, s + rest, conversion, host);
    assert stream[4..4 + |s|] == s;
  }

  /** A string of 2^32 bytes or more loses all but its first |s| mod 2^32 bytes. */
  lemma LongStringTruncated(s: seq<byte>, conversion: bool, host: Endianness)
    ensures DecodeString(EncodeString(s, conversion, host), conversion, host)
         == Some((s[..StringLength(s)], 4 + StringLength(s)))
  {
    var len := StringLength(s);
    var t := s[..len];
    assert StringLength(t) == len;
    assert t[..len] == s[..len];
    StringRoundTrip(t, [], conversion, host);
    assert EncodeString(t, conversion, host) + [] == EncodeString(s, conversion, host);
  }

  /**
   * What a chain of truncating writes appends when `room` bytes are left:
   * the first min(|enc|, room) bytes of the whole encoding.
   */
  function Truncated(enc: seq<byte>, room: nat): (r: seq<byte>)
    ensures |r| <= room && r <= enc
    ensures |enc| <= room ==> r == enc
  {
    enc[..Min(|enc|, room)]
  }

  /** The bytes of a series of writes, one after another. */
  function Flatten(chunks: seq<seq<byte>>): (r: seq<byte>)
  {
    if chunks == [] then [] else chunks[0] + Flatten(chunks[1..])
  }

  /** A series of truncating writes into a cursor, in order. */
  function WriteAll(c: Cursor, chunks: seq<seq<byte>>): (r: Cursor)
    requires c.Valid()
    ensures r.Valid() && r.mode == c.mode && r.pos == c.pos && r.size == c.size
    decreases |chunks|
  {
    if chunks == [] then c
    else WriteAll(c.(written := c.written + Truncated(chunks[0], c.Room())), chunks[1..])
  }

  /**
   * Bytes are kept in the order they were written: after any series of
   * truncating writes the unread bytes are the old ones followed by as much
   * of the concatenated writes as fit.
   */
  lemma {:induction false} WritesInOrder(c: Cursor, chunks: seq<seq<byte>>)
    requires c.Valid()
    ensures WriteAll(c, chunks).Unread() == c.Unread() + Truncated(Flatten(chunks), c.Room())
    decreases |chunks|
  {
    if chunks != [] {
      var c1 := c.(written := c.written + Truncated(chunks[0], c.Room()));
      WritesInOrder(c1, chunks[1..]);
      TruncatedAppend(chunks[0], Flatten(chunks[1..]), c.Room());
      assert c1.Unread() == c.Unread() + Truncated(chunks[0], c.Room());
      if |chunks[0]| <= c.Room() {
        assert c1.Room() == c.Room() - |chunks[0]|;
      } else {
        assert c1.Room() == 0;
        assert Truncated(Flatten(chunks[1..]), 0) == [];
      }
    }
  }

  /** Splitting a truncated write of a + b into a write of a then of b. */
  lemma TruncatedAppend(a: seq<byte>, b: seq<byte>, room: nat)
    ensures Truncated(a + b, room)
         == if |a| <= room then a + Truncated(b, room - |a|) else Truncated(a, room)
  {
    if |a| <= room {
      assert (a + b)[..Min(|a + b|, room)] == a + b[..Min(|b|, room - |a|)];
    } else {
      assert (a + b)[..room] == a[..room];
    }
  }
}
