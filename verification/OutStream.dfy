/** The output stream: writing into a buffer, or only counting. */
module OutStream {
  import opened Wire

  class OStream {
    const buf: array<byte>
    /** The callback is NULL: nothing is written, only counted. */
    const sizing: bool
    const start: nat
    const maxSize: nat
    var state: nat
    var bytesWritten: nat
    /** What has been written, or would have been */
    ghost var written: seq<byte>

    ghost predicate Valid()
      reads this, buf
    {
      && bytesWritten == |written|
      && (!sizing ==>
            && state == start + bytesWritten && bytesWritten <= maxSize && start + maxSize <= buf.Length
            && buf[start..state] == written)
    }

    /** No byte outside the stream's part of the buffer has changed. */
    twostate predicate Contained()
      reads buf
    {
      forall k :: 0 <= k < buf.Length && !(!sizing && start <= k < start + maxSize) ==> buf[k] == old(buf[k])
    }

    /** A writing operation that has out to write, or fails by itself: it succeeds exactly when
        out exists and fits the limit, and then appends exactly out. */
    twostate predicate Emits(ok: bool, new out: Option<seq<byte>>)
      requires old(Valid())
      reads this, buf
    {
      && Valid() && Contained()
      && (ok <==> out.Some? && (sizing || old(bytesWritten) + |out.value| <= maxSize))
      && (ok ==> written == old(written) + out.value)
    }

    /** pb_ostream_from_buffer, for the bytes of buf from start on */
    constructor FromBuffer(buf: array<byte>, start: nat, maxSize: nat)
      requires start + maxSize <= buf.Length
      ensures Valid() && !sizing && this.buf == buf && this.start == start && this.maxSize == maxSize
      ensures written == []
    {
      this.buf, this.start, this.maxSize := buf, start, maxSize;
      state, bytesWritten, sizing, written := start, 0, false, [];
    }

    /** PB_OSTREAM_SIZING */
    constructor Sizing()
      ensures Valid() && sizing && fresh(buf) && written == []
    {
      buf := new byte[0];
      sizing, start, maxSize, state, bytesWritten, written := true, 0, 0, 0, 0, [];
    }

    /** pb_write */
    method Write(data: seq<byte>) returns (ok: bool)
      requires Valid()
      modifies this, buf
      ensures Emits(ok, Some(data))
      ensures !ok ==> written == old(written) && buf[..] == old(buf[..])
    {
      if |data| > 0 && !sizing {
        if bytesWritten + |data| > maxSize {
          return false;
        }
        BufWrite(data);
      }
      bytesWritten, written := bytesWritten + |data|, written + data;
      return true;
    }

    /** buf_write */
    method BufWrite(data: seq<byte>)
      requires state + |data| <= buf.Length
      modifies this`state, buf
      ensures state == old(state) + |data|
      ensures buf[..] == old(buf[..state]) + data + old(buf[state + |data|..])
    {
      var dest := state;
      state := dest + |data|;
      forall k | 0 <= k < |data| {
        buf[dest + k] := data[k];
      }
    }

    /** pb_write with a NULL buffer on a sizing stream, in place of the n bytes of data */
    method Count(n: nat, ghost data: seq<byte>) returns (ok: bool)
      requires Valid() && sizing && |data| == n
      modifies this`bytesWritten, this`written
      ensures ok && Valid() && written == old(written) + data
    {
      bytesWritten, written := bytesWritten + n, written + data;
      return true;
    }

    /** A stream for the next size bytes of the buffer */
    method Limited(size: nat) returns (sub: OStream)
      requires Valid() && !sizing && bytesWritten + size <= maxSize
      ensures fresh(sub) && sub.Valid() && !sub.sizing && sub.written == []
      ensures sub.buf == buf && sub.start == state && sub.maxSize == size
    {
      sub := new OStream.FromBuffer(buf, state, size);
    }

    /** Going on where a limited stream stopped, if nothing before it has changed */
    method Resume(sub: OStream)
      requires !sizing && state == start + bytesWritten && bytesWritten == |written| && state <= buf.Length
      requires buf[start..state] == written
      requires sub.Valid() && !sub.sizing && sub.buf == buf && sub != this
      requires sub.start == state && bytesWritten + sub.maxSize <= maxSize && start + maxSize <= buf.Length
      modifies this
      ensures Valid() && written == old(written) + sub.written
    {
      bytesWritten, written := bytesWritten + sub.bytesWritten, written + sub.written;
      state := sub.state;
    }
  }
}
