/**
 * raz::PacketBuffer and the Head/Tail records of raz::Packet
 * (include/raz/network.hpp). Unlike the example Buffer, a PacketBuffer's
 * mode is fixed when it is created and every write or read in the wrong
 * mode throws SerializationError before touching the buffer.
 */
module Network {
  import opened Wrappers
  import opened Codec

  /** PacketType */
  type PacketType = u32

  class PacketBuffer {
    /** The template parameter MODE. */
    const mode: SerializationMode
    /** The template parameter SIZE. */
    const size: nat
    /** m_data */
    const data: array<byte>
    /** m_data_len */
    var len: nat
    /** m_data_pos */
    var pos: nat

    ghost predicate Valid()
      reads this
    {
      data.Length == size && pos <= len <= size
    }

    /** The buffer as a value: mode, bytes written so far, read cursor, SIZE. */
    function State(): (c: Cursor)
      reads this, data
      requires Valid()
      ensures c.Valid()
    {
      Cursor(mode, data[..len], pos, size)
    }

    /** A fresh buffer holds nothing and has read nothing. */
    constructor (mode: SerializationMode, size: nat)
      ensures Valid() && fresh(data)
      ensures State() == Cursor(mode, [], 0, size)
    {
      this.mode := mode;
      this.size := size;
      data := new byte[size];
      len := 0;
      pos := 0;
    }

    function GetMode(): (m: SerializationMode)
      reads this
      requires Valid()
      ensures m == State().mode
    {
      mode
    }

    /** getSize: the number of bytes written so far. */
    function GetSize(): (n: nat)
      reads this, data
      requires Valid()
      ensures n == |State().written|
    {
      len
    }

    /** getCapacity: SIZE. */
    function GetCapacity(): (n: nat)
      reads this
      requires Valid()
      ensures n == data.Length
    {
      size
    }

    /**
     * Appends min(|bytes|, SIZE - len) bytes and returns that count; throws
     * without any effect unless the buffer is for serializing.
     */
    method Write(bytes: seq<byte>) returns (r: Result<nat, SerializationError>)
      requires Valid()
      modifies this`len, data
      ensures Valid()
      ensures mode == Deserialize ==> r == Err(SerializationError) && State() == old(State())
      ensures mode == Serialize ==>
        && r == Ok(Min(|bytes|, old(State().Room())))
        && State() == old(State()).(written := old(State().written) + Truncated(bytes, old(State().Room())))
    {
      if GetMode() != Serialize {
        return Err(SerializationError);
      }
      var n := |bytes|;
      if size - len < n {
        n := size - len;
      }
      forall k | 0 <= k < n {
        data[len + k] := bytes[k];
      }
      len := len + n;
      return Ok(n);
    }

    /**
     * Copies out min(count, len - pos) bytes from pos on and advances pos by
     * that many; throws without any effect unless the buffer is for
     * deserializing.
     */
    method Read(count: nat) returns (r: Result<seq<byte>, SerializationError>)
      requires Valid()
      modifies this`pos
      ensures Valid()
      ensures mode == Serialize ==> r == Err(SerializationError) && State() == old(State())
      ensures mode == Deserialize ==>
        && r.Ok?
        && |r.value| == Min(count, |old(State().Unread())|)
        && old(State().Unread()) == r.value + State().Unread()
        && State() == old(State()).(pos := old(pos) + |r.value|)
    {
      if GetMode() != Deserialize {
        return Err(SerializationError);
      }
      var n := count;
      if len - pos < n {
        n := len - pos;
      }
      var out := data[pos..pos + n];
      pos := pos + n;
      return Ok(out);
    }
  }

  /** Packet::Head: the packet type and the payload size. */
  datatype Head = Head(packetType: PacketType, size: u16)

  /** Packet::Tail: a sentinel that is 0 in a well-formed packet. */
  datatype Tail = Tail(n: u32) {
    /** ok() */
    predicate Ok()
    {
      n == 0
    }
  }

  /** A default-initialised Tail (n = 0). */
  const DefaultTail := Tail(0)

  /** ok() holds exactly for the default-initialised Tail. */
  lemma TailOkIsDefault(t: Tail)
    ensures t.Ok() <==> t == DefaultTail
  {
  }
}
