/**
 * raz::Serializer (include/raz/serialization.hpp) driving a buffer: the
 * integer and string overloads of operator(), getMode, and swapEndianness.
 * The serializer is modelled over the run-time-switchable Buffer of the
 * serialization example, the buffer the library's own example instantiates
 * it with; EndiannessConversion and the host byte order are constants of the
 * object.
 */
module Serialization {
  import opened Wrappers
  import opened Codec
  import opened SerialBuffer

  /** swapEndianness: copy the object representation into a fresh buffer back to front. */
  method SwapEndianness(t: seq<byte>) returns (d: seq<byte>)
    ensures d == Reverse(t)
  {
    var dest := new byte[|t|];
    for i := 0 to |t|
      invariant forall k :: 0 <= k < i ==> dest[k] == t[|t| - k - 1]
    {
      dest[i] := t[|t| - i - 1];
    }
    d := dest[..];
  }

  class Serializer {
    /** m_buffer */
    const buffer: Buffer
    /** The template parameter EndiannessConversion. */
    const conversion: bool
    /** The byte order of the machine the serializer runs on. */
    const host: Endianness

    ghost predicate Valid()
      reads this, buffer
    {
      buffer.Valid()
    }

    /** Serializer(args...) constructs its buffer in place: Buffer<size>(). */
    constructor (size: nat, conversion: bool, host: Endianness)
      ensures Valid() && fresh(buffer) && fresh(buffer.data)
      ensures buffer.State() == Cursor(Serialize, [], 0, size)
      ensures this.conversion == conversion && this.host == host
    {
      buffer := new Buffer(size);
      this.conversion := conversion;
      this.host := host;
    }

    /** getMode forwards to the buffer. */
    function GetMode(): SerializationMode
      reads this, buffer
    {
      buffer.GetMode()
    }

    /** Switches the mode of the underlying buffer; cursors and data stay. */
    method SetMode(m: SerializationMode)
      requires Valid()
      modifies buffer`mode
      ensures Valid() && buffer.State() == old(buffer.State()).(mode := m)
    {
      buffer.SetMode(m);
    }

    /**
     * operator()(I& i) for an integral type t. The result's value is what i
     * holds afterwards; Err is the thrown SerializationError.
     */
    method Integer(t: IntType, i: int) returns (r: Result<int, SerializationError>)
      requires Valid() && t.InRange(i)
      modifies buffer`len, buffer`pos, buffer.data
      ensures Valid()
      ensures var c := old(buffer.State());
        var after := Transfer(c, WireBytes(t, i, conversion, host), DecodeInt(t, c.Unread(), conversion, host), i);
        buffer.State() == after.0 && r == after.1
    {
      ghost var c := buffer.State();
      if GetMode() == Serialize {
        var tmp := HostBytes(ToBits(t, i), t.Width(), host);
        if conversion && !IsBigEndian(host) {
          tmp := SwapEndianness(tmp);
        }
        assert tmp == WireBytes(t, i, conversion, host);
        var n := buffer.Write(tmp);
        assert buffer.State() == c.(written := c.written + Truncated(tmp, c.Room()));
        if n < t.Width() {
          assert |tmp| > c.Room();
          return Err(SerializationError);
        }
        assert |tmp| <= c.Room();
        return Ok(i);
      } else {
        var tmp := buffer.Read(t.Width());
        ghost var after := buffer.State();
        if |tmp| < t.Width() {
          assert buffer.State() == c.(pos := |c.written|);
          return Err(SerializationError);
        }
        ghost var raw := tmp;
        assert raw == c.Unread()[..t.Width()];
        if conversion && !IsBigEndian(host) {
          tmp := SwapEndianness(tmp);
        }
        ModulusIsPow256(t);
        var v := FromBits(t, HostValue(tmp, host));
        assert v == ValueOfWire(t, raw, conversion, host);
        assert DecodeInt(t, c.Unread(), conversion, host) == Some((v, t.Width()));
        assert after == c.(pos := c.pos + t.Width());
        return Ok(v);
      }
    }

    /**
     * operator()(std::string& str): the length as a uint32_t through the
     * integer path, then the characters. The result's value is what str
     * holds afterwards.
     */
    method String(s: seq<byte>) returns (r: Result<seq<byte>, SerializationError>)
      requires Valid()
      modifies buffer`len, buffer`pos, buffer.data
      ensures Valid()
      ensures var c := old(buffer.State());
        var after := Transfer(c, EncodeString(s, conversion, host), DecodeString(c.Unread(), conversion, host), s);
        buffer.State() == after.0 && r == after.1
    {
      ghost var c := buffer.State();
      if GetMode() == Serialize {
        var len := StringLength(s);
        StringPut(c, s, conversion, host);
        var lr := Integer(U32, len);
        if lr.Err? {
          return Err(SerializationError);
        }
        ghost var c1 := buffer.State();
        var n := buffer.Write(s[..len]);
        assert buffer.State().written == c1.written + Truncated(s[..len], c1.Room());
        if n < len {
          return Err(SerializationError);
        }
        return Ok(s);
      } else {
        StringTake(c, conversion, host);
        var lr := Integer(U32, 0);
        if lr.Err? {
          return Err(SerializationError);
        }
        ghost var c1 := buffer.State();
        var got := buffer.Read(lr.value);
        if |got| < lr.value {
          assert buffer.State().pos == |c1.written|;
          return Err(SerializationError);
        }
        assert got == c1.Unread()[..lr.value];
        return Ok(got);
      }
    }
  }

  /**
   * The effect of one operator() call on a buffer: Put in Serialize mode,
   * Take in Deserialize mode.
   */
  function Transfer<T>(c: Cursor, enc: seq<byte>, decoded: Option<(T, nat)>, value: T)
    : (r: (Cursor, Result<T, SerializationError>))
    requires c.Valid()
    requires decoded.Some? ==> decoded.value.1 <= |c.Unread()|
    ensures r.0.Valid() && r.0.mode == c.mode && r.0.size == c.size
  {
    if c.mode == Serialize then Put(c, enc, value) else Take(c, decoded)
  }

  /**
   * Serializing: as much of the encoding as fits is appended, and the call
   * succeeds only if all of it fit.
   */
  function Put<T>(c: Cursor, enc: seq<byte>, value: T): (r: (Cursor, Result<T, SerializationError>))
    requires c.Valid()
    ensures r.0.Valid() && r.0.mode == c.mode && r.0.size == c.size
  {
    (c.(written := c.written + Truncated(enc, c.Room())),
     if |enc| <= c.Room() then Ok(value) else Err(SerializationError))
  }

  /**
   * Deserializing: the decoded value is taken and its bytes consumed, or, on
   * a short read, everything left is consumed and the call fails.
   */
  function Take<T>(c: Cursor, decoded: Option<(T, nat)>): (r: (Cursor, Result<T, SerializationError>))
    requires c.Valid()
    requires decoded.Some? ==> decoded.value.1 <= |c.Unread()|
    ensures r.0.Valid() && r.0.mode == c.mode && r.0.size == c.size
  {
    match decoded
    case Some((v, k)) => (c.(pos := c.pos + k), Ok(v))
    case None => (c.(pos := |c.written|), Err(SerializationError))
  }

  /**
   * Serializing a string is putting its length through the integer overload
   * and then putting the characters raw.
   */
  lemma StringPut(c: Cursor, s: seq<byte>, conversion: bool, host: Endianness)
    requires c.Valid()
    ensures
      var len := StringLength(s);
      var first := Put(c, WireBytes(U32, len, conversion, host), len);
      var whole := Put(c, EncodeString(s, conversion, host), s);
      var c1 := first.0;
      && (first.1.Err? ==> whole.0 == c1 && whole.1 == Err(SerializationError))
      && (first.1.Ok? ==>
            && first.1.value == len
            && whole.0 == c1.(written := c1.written + Truncated(s[..len], c1.Room()))
            && whole.1 == if len <= c1.Room() then Ok(s) else Err(SerializationError))
  {
    var len := StringLength(s);
    var prefix := WireBytes(U32, len, conversion, host);
    var body := s[..len];
    assert EncodeString(s, conversion, host) == prefix + body;
    TruncatedAppend(prefix, body, c.Room());
    if |prefix| <= c.Room() {
      var rest := Truncated(body, c.Room() - |prefix|);
      assert c.written + (prefix + rest) == (c.written + prefix) + rest;
    }
  }

  /**
   * Deserializing a string is taking a u32 length through the integer
   * overload and then taking that many bytes raw.
   */
  lemma StringTake(c: Cursor, conversion: bool, host: Endianness)
    requires c.Valid()
    ensures
      var first := Take(c, DecodeInt(U32, c.Unread(), conversion, host));
      var whole := Take(c, DecodeString(c.Unread(), conversion, host));
      var c1 := first.0;
      && (first.1.Err? ==> whole.0 == c1 && whole.1 == Err(SerializationError))
      && (first.1.Ok? ==>
            var n := first.1.value;
            && n >= 0
            && (|c1.Unread()| < n ==> whole.0 == c1.(pos := |c1.written|) && whole.1 == Err(SerializationError))
            && (|c1.Unread()| >= n ==> whole.0 == c1.(pos := c1.pos + n) && whole.1 == Ok(c1.Unread()[..n])))
  {
    var stream := c.Unread();
    if |stream| >= 4 {
      var n := ValueOfWire(U32, stream[..4], conversion, host);
      assert c.written[c.pos + 4..] == stream[4..];
      if |stream| - 4 >= n {
        assert stream[4..][..n] == stream[4..4 + n];
      }
    }
  }
}
