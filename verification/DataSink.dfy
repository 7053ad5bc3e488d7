/** The read callback of the server (DataSink.cpp), and what it makes of a whole connection. */
module DataSinks {
  import opened Wire
  import opened ByteBuffers
  import opened Framing

  const RECEIVE_BUF_START_SIZE := 1024 * 100

  /** `DataRouter`, as far as the sink sees it: messages pushed on its queue. */
  class DataRouter {
    var queue: seq<Payload>

    method Route(message: Payload)
      modifies this
      ensures queue == if message == [] then old(queue) else old(queue) + [message]
      ensures queue == old(queue) + NonEmpty([message])
    {
      NonEmptyMeans([message]);
      if |message| == 0 {
        return;
      }
      queue := queue + [message];
    }
  }

  /** The capacity after making room for a message of length `n` that does not fit. */
  function Grown(capacity: nat, n: nat): nat {
    if n > capacity * 2 then n else capacity * 2
  }

  /** The capacity after the loop has left `rest` unread. */
  function CapacityFor(capacity: nat, rest: seq<byte>): nat {
    if |rest| > 4 && Announced(rest) + 4 > capacity then Grown(capacity, Announced(rest)) else capacity
  }

  class DataSink {
    const router: DataRouter
    var numConnectedClients: int

    constructor (router: DataRouter)
      ensures this.router == router && numConnectedClients == 0
    {
      this.router, numConnectedClients := router, 0;
    }

    /** `_ReadCallback` for a `recv` that returned the bytes of `chunk`, none at the end of the
        stream. The result says whether the client is still connected. */
    method ReadCallback(buf: ByteBuffer, chunk: seq<byte>) returns (connected: bool)
      requires buf.Valid() && buf.size + |chunk| <= buf.capacity && 4 < buf.capacity
      modifies this`numConnectedClients, router, buf, buf.buffer
      ensures buf.Valid() && (buf.buffer == old(buf.buffer) || fresh(buf.buffer))
      ensures connected <==> chunk != []
      ensures numConnectedClients == old(numConnectedClients) - (if connected then 0 else 1)
      ensures router.queue == old(router.queue) + if connected then Drained(old(buf.Contents()) + chunk) else []
      ensures buf.Contents() == if connected then Rest(old(buf.Contents()) + chunk) else old(buf.Contents())
      ensures buf.capacity == if connected then CapacityFor(old(buf.capacity), buf.Contents()) else old(buf.capacity)
      ensures connected ==> buf.size < buf.capacity
    {
      buf.Defragment();
      buf.BytesWritten(chunk);
      if |chunk| <= 0 {
        assert chunk == [];
        numConnectedClients := numConnectedClients - 1;
        return false;
      }
      assert buf.Contents() == old(buf.Contents()) + chunk;
      RouteFrames(buf);
      return true;
    }

    /** The loop: route every whole message, and grow a buffer that is too small for the next one. */
    method RouteFrames(buf: ByteBuffer)
      requires buf.Valid() && 4 < buf.capacity
      modifies router, buf, buf.buffer
      ensures buf.Valid() && (buf.buffer == old(buf.buffer) || fresh(buf.buffer))
      ensures router.queue == old(router.queue) + Drained(old(buf.Contents()))
      ensures buf.Contents() == Rest(old(buf.Contents()))
      ensures buf.capacity == CapacityFor(old(buf.capacity), buf.Contents())
      ensures buf.size < buf.capacity
    {
      hide Drained, Rest, FromBigEndian, NonEmpty;
      ghost var all := buf.Contents();
      while buf.GetBytesAvailable() > 4
        invariant buf.Valid() && buf.buffer == old(buf.buffer) && buf.capacity == old(buf.capacity)
        invariant router.queue + Drained(buf.Contents()) == old(router.queue) + Drained(all)
        invariant Rest(buf.Contents()) == Rest(all)
        decreases buf.size
      {
        ghost var u, routed := buf.Contents(), router.queue;
        DrainStep(u);
        var header := buf.Peek(4);
        var messageLength := FromBigEndian(header);
        assert messageLength == Announced(u);
        if messageLength > buf.capacity - 4 {
          // Too small even for this message alone: grow and wait for the next read.
          if messageLength > buf.capacity * 2 {
            buf.Resize(messageLength);
          } else {
            buf.Resize(buf.capacity * 2);
          }
          return;
        }
        if buf.GetBytesAvailable() - 4 < messageLength {
          return;
        }
        TakeMessage(buf, messageLength);
        Associates(routed, NonEmpty([u[4..4 + messageLength]]), Drained(buf.Contents()));
      }
      DrainStep(buf.Contents());
    }

    /** The header is dropped, the message behind it routed. */
    method TakeMessage(buf: ByteBuffer, messageLength: nat)
      requires buf.Valid() && 4 + messageLength <= buf.size
      modifies router, buf`size, buf`tail
      ensures buf.Valid()
      ensures buf.Contents() == old(buf.Contents())[4 + messageLength..]
      ensures router.queue == old(router.queue) + NonEmpty([old(buf.Contents())[4..4 + messageLength]])
    {
      hide NonEmpty;
      ghost var u := buf.Contents();
      buf.BytesRead(4);
      var message := buf.Peek(messageLength);
      assert message == u[4..4 + messageLength];
      router.Route(message);
      buf.BytesRead(messageLength);
      assert buf.Contents() == u[4 + messageLength..];
    }
  }
}
