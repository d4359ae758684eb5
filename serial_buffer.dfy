/**
 * The byte buffer of examples/serialization/serialization.cpp: a fixed-size
 * array with a write cursor (len) and a read cursor (pos) and a mode that
 * can be switched at run time. Unlike the library's PacketBuffer it does not
 * check its mode in write or read.
 */
module SerialBuffer {
  import opened Wrappers
  import opened Codec

  class Buffer {
    /** The template parameter SIZE. */
    const size: nat
    /** m_data */
    const data: array<byte>
    /** m_mode */
    var mode: SerializationMode
    /** m_data_len: bytes written so far. */
    var len: nat
    /** m_data_pos: bytes read so far. */
    var pos: nat

    ghost predicate Valid()
      reads this
    {
      data.Length == size && pos <= len <= size
    }

    /** The buffer as a value: mode, bytes written so far, read cursor, SIZE. */
    function State(): (c: Cursor)
      reads this, data
      requires Valid()
      ensures c.Valid()
    {
      Cursor(mode, data[..len], pos, size)
    }

    constructor (size: nat)
      ensures Valid() && fresh(data)
      ensures State() == Cursor(Serialize, [], 0, size)
    {
      this.size := size;
      data := new byte[size];
      mode := Serialize;
      len := 0;
      pos := 0;
    }

    function GetMode(): SerializationMode
      reads this
    {
      mode
    }

    /** setMode changes the mode and nothing else. */
    method SetMode(m: SerializationMode)
      requires Valid()
      modifies this`mode
      ensures Valid() && State() == old(State()).(mode := m)
    {
      mode := m;
    }

    /**
     * Appends min(|bytes|, SIZE - len) bytes and returns that count; the
     * bytes already written, the read cursor and the mode are untouched.
     */
    method Write(bytes: seq<byte>) returns (n: nat)
      requires Valid()
      modifies this`len, data
      ensures Valid()
      ensures n == Min(|bytes|, old(State().Room()))
      ensures State() == old(State()).(written := old(State().written) + Truncated(bytes, old(State().Room())))
    {
      n := |bytes|;
      if size - len < n {
        n := size - len;
      }
      forall k | 0 <= k < n {
        data[len + k] := bytes[k];
      }
      len := len + n;
    }

    /**
     * Copies out min(count, len - pos) bytes starting at pos and advances pos
     * by that many; the data, the write cursor and the mode are untouched.
     */
    method Read(count: nat) returns (out: seq<byte>)
      requires Valid()
      modifies this`pos
      ensures Valid()
      ensures |out| == Min(count, |old(State().Unread())|)
      ensures out == old(State().Unread())[..|out|]
      ensures State() == old(State()).(pos := old(pos) + |out|)
    {
      var n := count;
      if len - pos < n {
        n := len - pos;
      }
      out := data[pos..pos + n];
      pos := pos + n;
    }
  }
}
