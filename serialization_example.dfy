/**
 * The user composite of examples/serialization/serialization.cpp and its
 * round trip through one Buffer<1024>.
 */
module SerializationExample {
  import opened Wrappers
  import opened Codec
  import opened SerialBuffer
  import opened Serialization

  /** struct Foo { std::string user; int age; } */
  datatype Foo = Foo(user: seq<byte>, age: int)

  /** The fields in the order Foo::operator() visits them: user, then age. */
  function EncodeFoo(f: Foo, conversion: bool, host: Endianness): (r: seq<byte>)
    requires I32.InRange(f.age)
    ensures |r| == 8 + StringLength(f.user)
  {
    EncodeString(f.user, conversion, host) + WireBytes(I32, f.age, conversion, host)
  }

  function DecodeFoo(stream: seq<byte>, conversion: bool, host: Endianness): (r: Option<(Foo, nat)>)
    ensures r.Some? ==> r.value.1 <= |stream|
  {
    match DecodeString(stream, conversion, host)
    case None => None
    case Some((user, k)) =>
      match DecodeInt(I32, stream[k..], conversion, host)
      case None => None
      case Some((age, k')) => Some((Foo(user, age), k + k'))
  }

  /** Decoding what was encoded under the same policy gives the value back. */
  lemma {:induction false} FooRoundTrip(f: Foo, rest: seq<byte>, conversion: bool, host: Endianness)
    requires |f.user| < StringLengthModulus && I32.InRange(f.age)
    ensures DecodeFoo(EncodeFoo(f, conversion, host) + rest, conversion, host)
         == Some((f, |EncodeFoo(f, conversion, host)|))
  {
    var s := EncodeString(f.user, conversion, host);
    var a := WireBytes(I32, f.age, conversion, host);
    var stream := EncodeFoo(f, conversion, host) + rest;
    var k := 4 + |f.user|;
    assert stream == s + (a + rest);
    StringRoundTrip(f.user, a + rest, conversion, host);
    assert stream[k..] == a + rest;
    DecodeIntOfEncoding(I32, f.age, rest, conversion, host);
  }

  /**
   * Foo::operator() runs serializer(user)(age): serializing a Foo is putting
   * user and then, when that succeeded, putting age.
   */
  lemma FooPut(c: Cursor, foo: Foo, conversion: bool, host: Endianness)
    requires c.Valid() && I32.InRange(foo.age)
    ensures
      var first := Put(c, EncodeString(foo.user, conversion, host), foo.user);
      var whole := Put(c, EncodeFoo(foo, conversion, host), foo);
      var c1 := first.0;
      && (first.1.Err? ==> whole.0 == c1 && whole.1 == Err(SerializationError))
      && (first.1.Ok? ==>
            var second := Put(c1, WireBytes(I32, foo.age, conversion, host), foo.age);
            && whole.0 == second.0
            && whole.1 == if second.1.Ok? then Ok(foo) else Err(SerializationError))
  {
    var encUser := EncodeString(foo.user, conversion, host);
    var encAge := WireBytes(I32, foo.age, conversion, host);
    TruncatedAppend(encUser, encAge, c.Room());
    if |encUser| <= c.Room() {
      var rest := Truncated(encAge, c.Room() - |encUser|);
      assert c.written + (encUser + rest) == (c.written + encUser) + rest;
    }
  }

  /**
   * Deserializing a Foo is taking user and then, when that succeeded, taking
   * age from where user ended.
   */
  lemma FooTake(c: Cursor, conversion: bool, host: Endianness)
    requires c.Valid()
    ensures
      var first := Take(c, DecodeString(c.Unread(), conversion, host));
      var whole := Take(c, DecodeFoo(c.Unread(), conversion, host));
      var c1 := first.0;
      && (first.1.Err? ==> whole.0 == c1 && whole.1 == Err(SerializationError))
      && (first.1.Ok? ==>
            var second := Take(c1, DecodeInt(I32, c1.Unread(), conversion, host));
            && whole.0 == second.0
            && whole.1 == if second.1.Ok? then Ok(Foo(first.1.value, second.1.value)) else Err(SerializationError))
  {
    var stream := c.Unread();
    var ds := DecodeString(stream, conversion, host);
    if ds.None? {
      assert DecodeFoo(stream, conversion, host) == None;
    } else {
      AgeTake(c, conversion, host, ds.value.0, ds.value.1);
    }
  }

  /** Once user was taken from the first k unread bytes, age is taken from the bytes after them. */
  lemma AgeTake(c: Cursor, conversion: bool, host: Endianness, user: seq<byte>, k: nat)
    requires c.Valid() && DecodeString(c.Unread(), conversion, host) == Some((user, k))
    ensures k <= |c.Unread()|
    ensures
      var c1 := c.(pos := c.pos + k);
      var second := Take(c1, DecodeInt(I32, c1.Unread(), conversion, host));
      var whole := Take(c, DecodeFoo(c.Unread(), conversion, host));
      && whole.0 == second.0
      && whole.1 == if second.1.Ok? then Ok(Foo(user, second.1.value)) else Err(SerializationError)
  {
    var stream := c.Unread();
    var c1 := c.(pos := c.pos + k);
    assert c1.Unread() == stream[k..];
    var di := DecodeInt(I32, stream[k..], conversion, host);
    if di.None? {
      assert DecodeFoo(stream, conversion, host) == None;
    } else {
      assert DecodeFoo(stream, conversion, host) == Some((Foo(user, di.value.0), k + di.value.1));
    }
  }

  /**
   * Serializer::operator()(T& t) for T = Foo. The result's value is the Foo
   * the caller's reference holds afterwards.
   */
  method Visit(s: Serializer, foo: Foo) returns (r: Result<Foo, SerializationError>)
    requires s.Valid() && I32.InRange(foo.age)
    modifies s.buffer`len, s.buffer`pos, s.buffer.data
    ensures s.Valid()
    ensures var c := old(s.buffer.State());
      var after := Transfer(c, EncodeFoo(foo, s.conversion, s.host), DecodeFoo(c.Unread(), s.conversion, s.host), foo);
      s.buffer.State() == after.0 && r == after.1
  {
    ghost var c := s.buffer.State();
    if c.mode == Serialize {
      FooPut(c, foo, s.conversion, s.host);
    } else {
      FooTake(c, s.conversion, s.host);
    }
    var user := s.String(foo.user);
    if user.Err? {
      return Err(SerializationError);
    }
    var age := s.Integer(I32, foo.age);
    if age.Err? {
      return Err(SerializationError);
    }
    return Ok(Foo(user.value, age.value));
  }

  /** "razzie" */
  const Razzie: seq<byte> := [0x72, 0x61, 0x7a, 0x7a, 0x69, 0x65]

  /**
   * main: serialize Foo{"razzie", 99} into a Buffer<1024>, switch the mode
   * and deserialize into a fresh Foo from the same buffer.
   */
  method RazzieRoundTrip(host: Endianness) returns (dest: Foo)
    ensures dest == Foo(Razzie, 99)
  {
    dest := BufferRoundTrip(Foo(Razzie, 99), 1024, host);
  }

  /**
   * What main does for any Foo that fits in the buffer: serializing it and
   * deserializing from the same buffer gives it back.
   */
  method BufferRoundTrip(src: Foo, size: nat, host: Endianness) returns (dest: Foo)
    requires |src.user| < StringLengthModulus && I32.InRange(src.age)
    requires 8 + |src.user| <= size
    ensures dest == src
  {
    var serializer := new Serializer(size, false, host);
    serializer.SetMode(Serialize);
    var written := Visit(serializer, src);
    ghost var enc := EncodeFoo(src, false, host);
    assert serializer.buffer.State().written == enc;
    serializer.SetMode(Deserialize);
    FooRoundTrip(src, [], false, host);
    assert serializer.buffer.State().Unread() == enc + [];
    var read := Visit(serializer, Foo([], 0));
    dest := read.value;
  }

  /**
   * With EndiannessConversion the payload is the same on every host:
   * length 6 and "razzie", then 99, both most significant byte first.
   */
  lemma RazziePayload(host: Endianness)
    ensures EncodeFoo(Foo(Razzie, 99), true, host) == [0, 0, 0, 6] + Razzie + [0, 0, 0, 99]
  {
    SmallFooPayload(Razzie, 99, host);
  }

  /**
   * With EndiannessConversion a Foo whose user is shorter than 256 bytes and
   * whose age is in 0 .. 255 goes out as the length in four bytes, most
   * significant first, the user's bytes, and the age in four bytes.
   */
  lemma SmallFooPayload(user: seq<byte>, age: byte, host: Endianness)
    requires |user| < 256
    ensures EncodeFoo(Foo(user, age), true, host) == [0, 0, 0, |user|] + user + [0, 0, 0, age]
  {
    assert StringLength(user) == |user|;
    assert user[..|user|] == user;
    SmallWordOnWire(U32, |user|, host);
    SmallWordOnWire(I32, age, host);
  }

  /** A 32-bit value below 256 goes out as three zero bytes and then itself. */
  lemma SmallWordOnWire(t: IntType, v: nat, host: Endianness)
    requires t.Width() == 4 && v < 256
    ensures t.InRange(v) && WireBytes(t, v, true, host) == [0, 0, 0, v]
  {
    assert t == U32 || t == I32;
    assert t.Modulus() == 0x1_0000_0000;
    assert ToBits(t, v) == v;
    ConversionIsBigEndian(t, v, host);
    SmallLittleEndian(v);
    var be := Reverse([v, 0, 0, 0]);
    assert be == [0, 0, 0, v];
  }

  /** A value below 256 is its own low byte, followed by three zero bytes. */
  lemma SmallLittleEndian(v: byte)
    ensures LittleEndianBytes(v, 4) == [v, 0, 0, 0]
  {
    var zeros := LittleEndianBytes(0, 3);
    assert zeros == [0, 0, 0];
    assert v % 256 == v && v / 256 == 0;
  }
}
