/** The growing, self-compacting receive buffer of a client (ByteBuffer.cpp). */
module ByteBuffers {
  import opened Wire

  class ByteBuffer {
    var buffer: array<byte>
    var capacity: nat
    var size: nat
    var head: nat
    var tail: nat

    ghost predicate Valid()
      reads this
    {
      buffer.Length == capacity && size == head - tail && tail <= head <= capacity
    }

    /** The bytes that were written and not yet read. */
    ghost function Contents(): seq<byte>
      requires Valid()
      reads this, buffer
    {
      buffer[tail..head]
    }

    constructor (bufferSize: nat)
      requires bufferSize > 0
      ensures Valid() && fresh(buffer) && Contents() == [] && capacity == bufferSize
    {
      buffer := new byte[bufferSize](_ => 0);
      capacity, size, head, tail := bufferSize, 0, 0, 0;
    }

    method Resize(newBufferCapacity: nat)
      requires Valid() && newBufferCapacity >= size && newBufferCapacity > 0
      modifies this
      ensures Valid() && fresh(buffer) && capacity == newBufferCapacity && tail == 0
      ensures Contents() == old(Contents())
    {
      var newBuf := new byte[newBufferCapacity](_ => 0);
      for i := 0 to size
        modifies newBuf
        invariant newBuf[..i] == buffer[tail..tail + i]
      {
        newBuf[i] := buffer[tail + i];
      }
      assert newBuf[..size] == buffer[tail..head];
      tail := 0;
      head := size;
      capacity := newBufferCapacity;
      buffer := newBuf;
    }

    /** Moves the unread bytes to the front, in place: source and target may overlap. A full buffer
        is left alone, but then nothing precedes the unread bytes anyway. */
    method Defragment()
      requires Valid()
      modifies this`head, this`tail, buffer
      ensures Valid() && tail == 0
      ensures Contents() == old(Contents())
    {
      if tail == 0 || size == capacity {
        return;
      }
      for i := 0 to size
        modifies buffer
        invariant buffer[..i] == old(buffer[tail..tail + i])
        invariant forall k :: i <= k < buffer.Length ==> buffer[k] == old(buffer[k])
      {
        buffer[i] := buffer[tail + i];
      }
      assert buffer[..size] == old(buffer[tail..head]);
      tail := 0;
      head := size;
    }

    function GetBytesAvailable(): nat
      reads this
    {
      size
    }

    function GetContinuousBytesLeft(): nat
      requires Valid()
      reads this
    {
      capacity - head
    }

    /** `recv` into `GetWriteReference()`, followed by `BytesWritten`. */
    method BytesWritten(chunk: seq<byte>)
      requires Valid() && |chunk| <= GetContinuousBytesLeft()
      modifies this`size, this`head, buffer
      ensures Valid()
      ensures Contents() == old(Contents()) + chunk
    {
      for i := 0 to |chunk|
        modifies buffer
        invariant buffer[head..head + i] == chunk[..i]
        invariant forall k :: 0 <= k < head ==> buffer[k] == old(buffer[k])
      {
        buffer[head + i] := chunk[i];
      }
      assert buffer[head..head + |chunk|] == chunk;
      assert buffer[tail..head + |chunk|] == buffer[tail..head] + buffer[head..head + |chunk|];
      size := size + |chunk|;
      head := head + |chunk|;
    }

    method BytesRead(n: nat)
      requires Valid() && n <= size
      modifies this`size, this`tail
      ensures Valid()
      ensures Contents() == old(Contents())[n..]
    {
      size := size - n;
      tail := tail + n;
      assert buffer[tail..head] == buffer[old(tail)..head][n..];
    }

    /** The first `n` unread bytes. */
    method Peek(n: nat) returns (bytes: seq<byte>)
      requires Valid() && n <= size
      ensures bytes == Contents()[..n]
    {
      bytes := buffer[tail..tail + n];
    }
  }
}
