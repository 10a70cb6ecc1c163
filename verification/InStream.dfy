/** The input stream: a window of a buffer, read from the front. */
module InStream {
  import opened Wire
  import opened Numbers

  class IStream {
    const buf: array<byte>
    var state: nat
    var bytesLeft: nat

    ghost predicate Valid()
      reads this
    {
      state + bytesLeft <= buf.Length
    }

    /** The bytes that are left */
    ghost function Rest(): (s: seq<byte>)
      requires Valid()
      reads this, buf
      ensures |s| == bytesLeft
    {
      buf[state..state + bytesLeft]
    }

    /** Where the window ends */
    ghost function End(): nat
      reads this
    {
      state + bytesLeft
    }

    /** Reading only moves the front of the window: the end stays where it was. */
    twostate predicate Moved()
      requires old(Valid())
      reads this
    {
      Valid() && state >= old(state) && End() == old(End())
    }

    /** A reading operation that does what the parser p does: it succeeds exactly when the
        parser does on the bytes left, and leaves what the parser leaves. */
    twostate predicate Reads<T>(ok: bool, new p: Parsed<T>)
      requires old(Valid())
      reads this, buf
    {
      Moved() && (ok <==> p.Ok?) && (ok ==> Rest() == p.rest)
    }

    /** pb_istream_from_buffer, for the bytes of buf from start on */
    constructor FromBuffer(buf: array<byte>, start: nat, msglen: nat)
      requires start + msglen <= buf.Length
      ensures Valid() && this.buf == buf && state == start && bytesLeft == msglen
    {
      this.buf, state, bytesLeft := buf, start, msglen;
    }

    /** pb_read, with the bytes as the result */
    method Read(count: nat) returns (ok: bool, data: seq<byte>)
      requires Valid()
      modifies this
      ensures Reads(ok, Take(old(Rest()), count))
      ensures ok ==> data == Take(old(Rest()), count).value
      ensures !ok ==> state == old(state)
    {
      if count == 0 {
        return true, [];
      }
      if bytesLeft < count {
        return false, [];
      }
      data := BufRead(count);
      bytesLeft := bytesLeft - count;
      return true, data;
    }

    /** pb_read with a NULL buffer */
    method Skip(count: nat) returns (ok: bool)
      requires Valid()
      modifies this
      ensures Reads(ok, Take(old(Rest()), count))
    {
      var data;
      ok, data := Read(count);
    }

    /** buf_read */
    method BufRead(count: nat) returns (data: seq<byte>)
      requires state + count <= buf.Length
      modifies this`state
      ensures state == old(state) + count
      ensures data == buf[old(state)..state]
    {
      data := buf[state..state + count];
      state := state + count;
    }

    /** pb_readbyte */
    method ReadByte() returns (ok: bool, b: byte)
      requires Valid()
      modifies this
      ensures Moved() && ok == (old(bytesLeft) > 0)
      ensures ok ==> state == old(state) + 1 && b == old(Rest())[0] && Rest() == old(Rest())[1..]
      ensures !ok ==> state == old(state)
    {
      if bytesLeft == 0 {
        return false, 0;
      }
      b := buf[state];
      state := state + 1;
      bytesLeft := bytesLeft - 1;
      return true, b;
    }

    /** A substream for the next size bytes; this stream keeps what follows them. */
    method SplitOff(size: nat) returns (sub: IStream)
      requires Valid() && size <= bytesLeft
      modifies this
      ensures fresh(sub) && Inside(sub, this) && sub.state == state == old(state)
      ensures sub.bytesLeft == size && bytesLeft == old(bytesLeft) - size
      ensures sub.Rest() == old(Rest())[..size] && Behind(sub, this) == old(Rest())[size..]
    {
      sub := new IStream.FromBuffer(buf, state, bytesLeft);
      sub.bytesLeft := size;
      bytesLeft := bytesLeft - size;
    }
  }

  /** sub reads the bytes just before those that stream goes on with. */
  ghost predicate Inside(sub: IStream, stream: IStream)
    reads sub, stream
  {
    && sub != stream && sub.buf == stream.buf
    && sub.Valid() && sub.End() + stream.bytesLeft <= stream.buf.Length
  }

  /** What stream goes on with behind sub */
  ghost function Behind(sub: IStream, stream: IStream): seq<byte>
    requires Inside(sub, stream)
    reads sub, stream, stream.buf
  {
    stream.buf[sub.End()..sub.End() + stream.bytesLeft]
  }
}
