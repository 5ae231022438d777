/**
  `raw_ostream` (raw_ostream.cpp): a buffer in front of `write_impl`. Whatever the mode and however the calls fall, the
  bytes handed to `write_impl` followed by the bytes still in the buffer are the bytes written.
 */
module OutStream {
  import opened Basics

  datatype BufferKind = Unbuffered | InternalBuffer | ExternalBuffer

  function Spaces(n: nat): (r: Bytes)
    ensures |r| == n && forall i :: 0 <= i < n ==> r[i] == 32
  {
    seq(n, _ => 32)
  }

  class RawOstream {
    /** OutBufStart and OutBufEnd, null when there is no buffer. */
    var outBuf: array?<byte>
    /** OutBufCur, counted from the start of the buffer. */
    var cur: nat
    var bufferMode: BufferKind
    /** What write_impl has received, in order. */
    var sink: Bytes
    const preferredBufferSize: nat

    ghost predicate Valid()
      reads this
    {
      && (outBuf == null ==> cur == 0)
      && (outBuf != null ==> bufferMode != Unbuffered && outBuf.Length > 0 && cur <= outBuf.Length)
    }

    /** Everything written so far. */
    ghost function Written(): Bytes
      reads this, outBuf
      requires Valid()
    {
      sink + (if outBuf == null then [] else outBuf[..cur])
    }

    constructor (unbuffered: bool, preferred: nat)
      ensures Valid() && Written() == [] && preferredBufferSize == preferred
    {
      outBuf, cur, sink := null, 0, [];
      bufferMode := if unbuffered then Unbuffered else InternalBuffer;
      preferredBufferSize := preferred;
    }

    /** The subclass's sink; it takes all the bytes and leaves the buffer alone. */
    method WriteImpl(data: Bytes)
      modifies this`sink
      ensures sink == old(sink) + data
    {
      sink := sink + data;
    }

    /** The bytes between OutBufCur and OutBufEnd. */
    function Room(): (n: nat)
      reads this
      requires Valid()
      ensures outBuf == null ==> n == 0
    {
      if outBuf == null then 0 else outBuf.Length - cur
    }

    /** The offset callers see counts the buffered bytes too. */
    method Tell() returns (n: nat)
      requires Valid()
      ensures n == |Written()|
    {
      n := |sink| + cur;
    }

    method FlushNonempty()
      requires Valid() && cur > 0
      modifies this`sink, this`cur
      ensures Valid() && cur == 0 && Written() == old(Written()) && sink == Written()
    {
      var length := cur;
      cur := 0;
      WriteImpl(outBuf[..length]);
    }

    method Flush()
      requires Valid()
      modifies this`sink, this`cur
      ensures Valid() && cur == 0 && Written() == old(Written()) && sink == Written()
    {
      if cur != 0 {
        FlushNonempty();
      }
    }

    /** A new buffer may be installed only when the old one is drained. */
    method SetBufferAndMode(buffer: array?<byte>, mode: BufferKind)
      requires Valid() && cur == 0
      requires (mode == Unbuffered) == (buffer == null) && (buffer != null ==> buffer.Length > 0)
      modifies this`outBuf, this`cur, this`bufferMode
      ensures Valid() && Written() == old(Written()) && sink == old(sink)
      ensures outBuf == buffer && cur == 0 && bufferMode == mode
    {
      outBuf := buffer;
      cur := 0;
      bufferMode := mode;
    }

    method SetUnbuffered()
      requires Valid()
      modifies this
      ensures Valid() && Written() == old(Written()) && sink == Written()
      ensures outBuf == null && bufferMode == Unbuffered
    {
      Flush();
      SetBufferAndMode(null, Unbuffered);
    }

    method SetBufferSize(size: nat)
      requires Valid() && size > 0
      modifies this
      ensures Valid() && Written() == old(Written()) && sink == Written()
      ensures outBuf != null && fresh(outBuf) && outBuf.Length == size && cur == 0 && bufferMode == InternalBuffer
    {
      Flush();
      var buffer := new byte[size];
      SetBufferAndMode(buffer, InternalBuffer);
    }

    /** The preferred size, where zero asks for no buffer at all. */
    method SetBuffered()
      requires Valid()
      modifies this
      ensures Valid() && Written() == old(Written()) && sink == Written() && cur == 0
      ensures if preferredBufferSize == 0 then outBuf == null && bufferMode == Unbuffered
              else outBuf != null && fresh(outBuf) && outBuf.Length == preferredBufferSize && bufferMode == InternalBuffer
    {
      if preferredBufferSize != 0 {
        SetBufferSize(preferredBufferSize);
      } else {
        SetUnbuffered();
      }
    }

    /** 1 while a buffer is wanted but not yet made. */
    ghost function Unmade(): nat
      reads this
    {
      if outBuf == null && bufferMode != Unbuffered then 1 else 0
    }

    method WriteChar(c: byte)
      requires Valid()
      modifies this, outBuf
      ensures Valid() && Written() == old(Written()) + [c]
      ensures outBuf == old(outBuf) || fresh(outBuf)
      decreases Unmade()
    {
      if Room() == 0 {
        if outBuf == null {
          if bufferMode == Unbuffered {
            WriteImpl([c]);
            return;
          }
          SetBuffered();
          WriteChar(c);
          return;
        }
        FlushNonempty();
      }
      outBuf[cur] := c;
      cur := cur + 1;
    }

    method CopyToBuffer(data: Bytes)
      requires Valid() && |data| <= Room()
      modifies this`cur, outBuf
      ensures Valid() && Written() == old(Written()) + data && cur == old(cur) + |data|
    {
      if data == [] {
        return;
      }
      forall i | 0 <= i < |data| {
        outBuf[cur + i] := data[i];
      }
      cur := cur + |data|;
      assert outBuf[..cur] == old(outBuf[..cur]) + data;
    }

    /** Fill what room there is, flush, and go on with the rest; an empty buffer is passed by with as many whole
        buffers as there are. */
    method Write(data: Bytes)
      requires Valid()
      modifies this, outBuf
      ensures Valid() && Written() == old(Written()) + data
      ensures outBuf == old(outBuf) || fresh(outBuf)
      decreases |data|, Unmade(), cur
    {
      if Room() < |data| {
        if outBuf == null {
          if bufferMode == Unbuffered {
            WriteImpl(data);
            return;
          }
          SetBuffered();
          Write(data);
          return;
        }
        var numBytes := Room();
        if cur == 0 {
          var bytesToWrite := |data| - |data| % numBytes;
          WriteImpl(data[..bytesToWrite]);
          CopyToBuffer(data[bytesToWrite..]);
          return;
        }
        CopyToBuffer(data[..numBytes]);
        FlushNonempty();
        Write(data[numBytes..]);
        return;
      }
      CopyToBuffer(data);
    }

    /** Runs of spaces in chunks of at most 80. */
    method Indent(numSpaces: nat)
      requires Valid()
      modifies this, outBuf
      ensures Valid() && Written() == old(Written()) + Spaces(numSpaces)
    {
      if numSpaces < 81 {
        Write(Spaces(numSpaces));
        return;
      }
      var left := numSpaces;
      while left > 0
        invariant Valid() && 0 <= left <= numSpaces && Written() == old(Written()) + Spaces(numSpaces - left)
        invariant outBuf == old(outBuf) || fresh(outBuf)
      {
        var numToWrite := if left < 80 then left else 80;
        Write(Spaces(numToWrite));
        assert Spaces(numSpaces - left) + Spaces(numToWrite) == Spaces(numSpaces - left + numToWrite);
        left := left - numToWrite;
      }
    }
  }
}
