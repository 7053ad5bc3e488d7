/** The sending half: items, partial sends and broken connections (Streamer.cpp, StreamItem.cpp). */
module Streamers {
  import opened Wire
  import opened Framing

  /** Header and payload in one piece of memory, and the descriptors it goes to. */
  class StreamItem {
    const message: array<byte>
    const serversSockFd: seq<int>

    /** The header is put in; the payload is left for the user to fill in place. */
    constructor (payloadLength: nat, serversSockFd: seq<int>)
      requires payloadLength < TWO_31
      ensures fresh(message) && message.Length == payloadLength + 4
      ensures message[..4] == BigEndian(payloadLength)
      ensures Weighed(message[0], message[1], message[2], message[3]) == payloadLength
      ensures this.serversSockFd == serversSockFd
    {
      var header := BigEndian(payloadLength);
      BigEndianWeighs(payloadLength);
      message := new byte[payloadLength + 4](i requires 0 <= i => if i < 4 then header[i] else 0);
      this.serversSockFd := serversSockFd;
    }

    /** The header still announces the payload. */
    ghost predicate Framed()
      reads message
    {
      4 <= message.Length < TWO_31 + 4 && message[..4] == BigEndian(message.Length - 4)
    }

    lemma FramedIsFrame()
      requires Framed()
      ensures Sendable(message[4..]) && message[..] == Frame(message[4..])
    {
      assert message[..] == message[..4] + message[4..];
    }
  }

  /** One connection: the bytes the kernel has accepted on it, and the payloads sent whole. */
  datatype Conn = Conn(sent: seq<Payload>, bytes: seq<byte>)

  predicate AllSendable(ps: seq<Payload>) {
    forall p :: p in ps ==> Sendable(p)
  }

  /** Whole frames only. */
  predicate Whole(c: Conn) {
    AllSendable(c.sent) && c.bytes == Stream(c.sent)
  }

  /** Whole frames and then at most one that is cut off. */
  ghost predicate CutOff(c: Conn) {
    AllSendable(c.sent) && exists p: Payload :: Sendable(p) && Stream(c.sent) <= c.bytes < Stream(c.sent) + Frame(p)
  }

  /** Exactly the open connections are registered, each for one server, and between two items each of
      them has carried whole frames; those closed have at most one frame cut off at the end. */
  ghost predicate Consistent(serverMap: map<string, int>, open: map<int, Conn>, closed: seq<Conn>) {
    && (forall a :: a in serverMap ==> serverMap[a] in open)
    && (forall a, b :: a in serverMap && b in serverMap && serverMap[a] == serverMap[b] ==> a == b)
    && (forall fd :: fd in open ==> Registered(serverMap, fd) && Whole(open[fd]))
    && (forall c :: c in closed ==> CutOff(c))
  }

  ghost predicate Registered(serverMap: map<string, int>, fd: int) {
    exists a :: a in serverMap && serverMap[a] == fd
  }

  /** A new connection for a server without one, or more whole frames on one that is open. */
  lemma StaysConsistent(serverMap: map<string, int>, open: map<int, Conn>, closed: seq<Conn>, a: string, fd: int, c: Conn)
    requires Consistent(serverMap, open, closed) && Whole(c)
    requires (a in serverMap && serverMap[a] == fd) || (a !in serverMap && fd !in open)
    ensures Consistent(serverMap[a := fd], open[fd := c], closed)
  {
    hide Whole, CutOff;
    var m := serverMap[a := fd];
    assert m[a] == fd;
    forall x | x in open && x != fd
      ensures Registered(m, x)
    {
      var b :| b in serverMap && serverMap[b] == x;
      assert m[b] == x;
    }
  }

  /** A connection is closed with at most one frame cut off. */
  lemma ClosingStaysConsistent(serverMap: map<string, int>, open: map<int, Conn>, closed: seq<Conn>, a: string, c: Conn)
    requires Consistent(serverMap, open, closed) && CutOff(c) && a in serverMap
    ensures Consistent(serverMap - {a}, open - {serverMap[a]}, closed + [c])
  {
    hide Whole, CutOff;
    var m := serverMap - {a};
    forall x | x in open && x != serverMap[a]
      ensures Registered(m, x)
    {
      var b :| b in serverMap && serverMap[b] == x;
      assert b in m && m[b] == x;
    }
  }

  ghost function Address(serverMap: map<string, int>, open: map<int, Conn>, closed: seq<Conn>, fd: int): (a: string)
    requires Consistent(serverMap, open, closed) && fd in open
    ensures a in serverMap && serverMap[a] == fd
  {
    assert Registered(serverMap, fd);
    var a :| a in serverMap && serverMap[a] == fd;
    a
  }

  class Streamer {
    var serverMap: map<string, int>
    /** The connections that are open, by descriptor, and those that were closed. */
    var open: map<int, Conn>
    var closed: seq<Conn>

    ghost predicate Valid()
      reads this
    {
      Consistent(serverMap, open, closed)
    }

    constructor ()
      ensures Valid() && serverMap == map[] && open == map[] && closed == []
    {
      serverMap, open, closed := map[], map[], [];
    }

    /** `SetupStream`. `newFd` is the descriptor `connect` succeeds on, if it gets that far; it may
        be the number of a connection that was closed. */
    method SetupStream(serverAddress: string, newFd: Option<int>) returns (fd: int)
      requires Valid() && (newFd.Some? ==> newFd.value >= 0 && newFd.value !in open)
      modifies this
      ensures Valid() && closed == old(closed)
      ensures serverAddress in old(serverMap) ==>
                serverMap == old(serverMap) && open == old(open) && fd == serverMap[serverAddress]
      ensures serverAddress !in old(serverMap) && newFd.None? ==>
                fd == -1 && serverMap == old(serverMap) && open == old(open)
      ensures serverAddress !in old(serverMap) && newFd.Some? ==>
                && fd == newFd.value && serverMap == old(serverMap)[serverAddress := fd]
                && open == old(open)[fd := Conn([], [])]
    {
      if serverAddress in serverMap {
        return serverMap[serverAddress];
      }
      if newFd.None? {
        return -1;
      }
      fd := newFd.value;
      StaysConsistent(serverMap, open, closed, serverAddress, fd, Conn([], []));
      serverMap := serverMap[serverAddress := fd];
      open := open[fd := Conn([], [])];
    }

    /** `send`: -1 on a descriptor that is not open or a broken connection, else at least one byte. */
    method Send(fd: int, bytes: seq<byte>, outcome: nat) returns (n: int)
      requires bytes != []
      modifies this`open
      ensures fd !in old(open) ==> n == -1
      ensures n == -1 || 1 <= n <= |bytes|
      ensures n == -1 ==> open == old(open)
      ensures fd in old(open) ==> n == if outcome == 0 then -1 else Accepted(outcome, |bytes|)
      ensures n != -1 ==> fd in old(open) && open == old(open)[fd := old(open)[fd].(bytes := old(open)[fd].bytes + bytes[..n])]
    {
      if fd !in open || outcome == 0 {
        return -1;
      }
      n := Accepted(outcome, |bytes|);
      open := open[fd := open[fd].(bytes := open[fd].bytes + bytes[..n])];
    }

    /** `_SendAll`: again and again until everything is out or a send fails. `outcomes` stands for
        what the network does. */
    method SendAll(fd: int, message: seq<byte>, outcomes: nat -> nat) returns (sent: nat)
      requires message != []
      modifies this`open
      ensures sent <= |message|
      ensures fd in old(open) ==> (sent == |message| <==> GoesOut(outcomes, 0, |message|))
      ensures fd !in old(open) ==> sent == 0 && open == old(open)
      ensures fd in old(open) ==>
                open == old(open)[fd := old(open)[fd].(bytes := old(open)[fd].bytes + message[..sent])]
    {
      sent := 0;
      ghost var c := if fd in open then open[fd] else Conn([], []);
      assert c.(bytes := c.bytes + message[..0]) == c;
      assert fd in open ==> open == open[fd := c];
      while sent < |message|
        invariant sent <= |message|
        invariant fd !in old(open) ==> sent == 0 && open == old(open)
        invariant fd in old(open) ==> open == old(open)[fd := c.(bytes := c.bytes + message[..sent])]
        invariant fd in old(open) ==> GoesOut(outcomes, 0, |message|) == GoesOut(outcomes, sent, |message|)
        decreases |message| - sent
      {
        ghost var before := message[..sent];
        var retval := Send(fd, message[sent..], outcomes(sent));
        if retval == -1 {
          return;
        }
        assert c.bytes + message[..sent + retval] == c.bytes + before + message[sent..][..retval];
        sent := sent + retval;
      }
    }

    /** `_RemoveAndCleanupSockFd`: if a server is registered for the descriptor, forget it and close. */
    method RemoveAndCleanupSockFd(fd: int)
      modifies this
      ensures if Registered(old(serverMap), fd)
              then exists a :: && a in old(serverMap) && old(serverMap)[a] == fd
                               && serverMap == old(serverMap) - {a}
                               && closed == old(closed) + (if fd in old(open) then [old(open)[fd]] else [])
                               && open == old(open) - {fd}
              else serverMap == old(serverMap) && open == old(open) && closed == old(closed)
    {
      if a :| a in serverMap && serverMap[a] == fd {
        serverMap := serverMap - {a};
        closed := closed + if fd in open then [open[fd]] else [];
        open := open - {fd};
      }
    }

    /** One turn of the loop of `_SendItem`: the whole frame reaches the connection, or the connection
        is closed with the frame cut off, or the descriptor was closed before and nothing happens. */
    method SendTo(fd: int, message: seq<byte>, outcomes: nat -> nat)
      requires Valid() && 4 <= |message| && Sendable(message[4..]) && message == Frame(message[4..])
      modifies this
      ensures Valid()
      ensures fd !in old(open) ==> serverMap == old(serverMap) && open == old(open) && closed == old(closed)
      ensures fd in old(open) && GoesOut(outcomes, 0, |message|) ==>
                var c := old(open)[fd];
                && serverMap == old(serverMap) && closed == old(closed)
                && open == old(open)[fd := Conn(c.sent + [message[4..]], c.bytes + message)]
      ensures fd in old(open) && !GoesOut(outcomes, 0, |message|) ==>
                var c := old(open)[fd];
                && open == old(open) - {fd}
                && exists cut :: cut < message && closed == old(closed) + [c.(bytes := c.bytes + cut)]
    {
      hide AllSendable, Whole, CutOff, Frame, Stream, GoesOut;
      ghost var m, o, c := serverMap, open, if fd in open then open[fd] else Conn([], []);
      ghost var a := if fd in open then Address(m, o, closed, fd) else "";
      var sent := SendAll(fd, message, outcomes);
      if sent != |message| {
        ghost var cut := message[..sent];
        RemoveAndCleanupSockFd(fd);
        if fd in o {
          CutShort(c, message[4..], sent);
          ClosingStaysConsistent(m, o, old(closed), a, c.(bytes := c.bytes + cut));
          assert cut < message && serverMap == m - {a} && open == o - {fd};
        }
      } else {
        open := open[fd := open[fd].(sent := open[fd].sent + [message[4..]])];
        assert message[..sent] == message;
        OneMore(c, message[4..]);
        StaysConsistent(m, o, closed, a, fd, open[fd]);
        assert m == m[a := fd] && open == o[fd := open[fd]];
      }
    }

    /** `_SendItem`, where `outcomes(i)` is what the network does to the bytes for the `i`-th descriptor. A
        connection stays open exactly if everything sent to it goes out, whatever happens to the others; then
        it got the payload once for each time the item names it, whole. */
    method SendItem(item: StreamItem, outcomes: nat -> nat -> nat)
      requires Valid() && item.Framed()
      modifies this
      ensures Valid() && old(closed) <= closed && open.Keys <= old(open).Keys
      ensures forall fd :: fd in old(open) ==>
                (fd in open <==> SurvivesAll(item.serversSockFd, fd, outcomes, item.message.Length))
      ensures forall fd :: fd in open ==>
                open[fd].sent == old(open)[fd].sent + Copies(item.message[4..], multiset(item.serversSockFd)[fd])
    {
      hide AllSendable, Whole, CutOff, Frame, Stream, Valid, GoesOut, SurvivesAll, Copies;
      var fds := item.serversSockFd;
      item.FramedIsFrame();
      NoneYet(fds, outcomes, item.message.Length, item.message[4..]);
      for i := 0 to |fds|
        invariant Valid() && old(closed) <= closed && open.Keys <= old(open).Keys
        invariant forall fd :: fd in open ==>
                    open[fd].sent == old(open)[fd].sent + Copies(item.message[4..], multiset(fds[..i])[fd])
        invariant forall fd :: fd in old(open) ==> (fd in open <==> SurvivesAll(fds[..i], fd, outcomes, item.message.Length))
      {
        assert fds[..i + 1] == fds[..i] + [fds[i]];
        MoreCopies(item.message[4..]);
        SurvivesOneMore(fds, i, outcomes, item.message.Length);
        SendTo(fds[i], item.message[..], outcomes(i));
      }
      assert fds[..|fds|] == fds;
    }
  }

  /** How much of `n` bytes `send` accepts when the network is ready for `outcome`. */
  function Accepted(outcome: nat, n: nat): (k: nat)
    ensures k <= n && (outcome > 0 && n > 0 ==> k > 0)
  {
    if outcome > n then n else outcome
  }

  /** Every `send` from position `sent` up to `length` accepts something. */
  predicate GoesOut(outcomes: nat -> nat, sent: nat, length: nat)
    decreases length - sent
  {
    sent < length ==> outcomes(sent) > 0 && GoesOut(outcomes, sent + Accepted(outcomes(sent), length - sent), length)
  }

  /** Nothing fails on `fd`, at any place where the item names it. */
  predicate SurvivesAll(fds: seq<int>, fd: int, outcomes: nat -> nat -> nat, length: nat) {
    forall i :: 0 <= i < |fds| && fds[i] == fd ==> GoesOut(outcomes(i), 0, length)
  }

  lemma NoneYet(fds: seq<int>, outcomes: nat -> nat -> nat, length: nat, p: Payload)
    ensures forall fd :: SurvivesAll(fds[..0], fd, outcomes, length)
    ensures Copies(p, 0) == []
  {
  }

  lemma MoreCopies(p: Payload)
    ensures forall n: nat :: Copies(p, n + 1) == Copies(p, n) + [p]
  {
  }

  lemma SurvivesOneMore(fds: seq<int>, i: nat, outcomes: nat -> nat -> nat, length: nat)
    requires i < |fds|
    ensures forall fd :: SurvivesAll(fds[..i + 1], fd, outcomes, length) <==>
                           SurvivesAll(fds[..i], fd, outcomes, length) && (fds[i] == fd ==> GoesOut(outcomes(i), 0, length))
  {
    hide GoesOut;
    forall fd
      ensures SurvivesAll(fds[..i + 1], fd, outcomes, length) ==> SurvivesAll(fds[..i], fd, outcomes, length)
    {
      forall j | 0 <= j < i && fds[..i][j] == fd
        ensures SurvivesAll(fds[..i + 1], fd, outcomes, length) ==> GoesOut(outcomes(j), 0, length)
      {
        assert fds[..i + 1][j] == fd;
      }
    }
    assert fds[..i + 1][i] == fds[i];
  }

  function Copies(p: Payload, n: nat): (ps: seq<Payload>) {
    seq(n, _ => p)
  }

  /** One more whole frame leaves a connection with whole frames. */
  lemma OneMore(c: Conn, p: Payload)
    requires Whole(c) && Sendable(p)
    ensures Whole(Conn(c.sent + [p], c.bytes + Frame(p)))
  {
    StreamSnoc(c.sent, p);
  }

  /** Part of one more frame leaves a connection cut off. */
  lemma CutShort(c: Conn, p: Payload, n: nat)
    requires Whole(c) && Sendable(p) && n < |Frame(p)|
    ensures CutOff(c.(bytes := c.bytes + Frame(p)[..n]))
  {
    assert c.bytes + Frame(p)[..n] < Stream(c.sent) + Frame(p);
  }

  lemma {:induction false} StreamSnoc(ps: seq<Payload>, p: Payload)
    requires AllSendable(ps) && Sendable(p)
    ensures AllSendable(ps + [p]) && Stream(ps + [p]) == Stream(ps) + Frame(p)
  {
    if ps == [] {
      assert ps + [p] == [p];
      assert Stream([p]) == Frame(p) + Stream([]);
    } else {
      hide Frame;
      assert (ps + [p])[1..] == ps[1..] + [p];
      StreamSnoc(ps[1..], p);
      assert Frame(ps[0]) + (Stream(ps[1..]) + Frame(p)) == Frame(ps[0]) + Stream(ps[1..]) + Frame(p);
    }
  }

  /** A count below the whole of `ps` and one more frame never reaches that frame; the whole of `ps`
      reaches every frame of it. */
  lemma {:induction false} CutFrameNeverCounts(ps: seq<Payload>, p: Payload, n: nat)
    requires AllSendable(ps) && Sendable(p) && n < |Stream(ps)| + |Frame(p)|
    ensures WholeFrames(ps + [p], n) <= |ps|
    ensures n >= |Stream(ps)| ==> WholeFrames(ps + [p], n) == |ps|
  {
    if ps == [] {
      assert ps + [p] == [p];
    } else {
      assert (ps + [p])[1..] == ps[1..] + [p];
      if n >= |Frame(ps[0])| {
        CutFrameNeverCounts(ps[1..], p, n - |Frame(ps[0])|);
      }
    }
  }

  /** From end to end: whatever part of a connection's bytes has arrived, whether it is open or broke, the
      receiver routes the non-empty payloads of a beginning of what was sent whole, in order and nothing
      else; and once every byte has arrived, of all that was sent whole. */
  lemma ReceiverRoutesWhatWasSent(c: Conn, s: seq<byte>) returns (k: nat)
    requires (Whole(c) || CutOff(c)) && s <= c.bytes
    ensures k <= |c.sent| && Drained(s) == NonEmpty(c.sent[..k])
    ensures (forall p :: p in c.sent ==> p != []) ==> Drained(s) == c.sent[..k]
    ensures multiset(Drained(s)) == multiset(c.sent[..k])[[] := 0]
    ensures s == c.bytes ==> k == |c.sent|
  {
    hide CutOff, Whole, NonEmpty, Drained, AllSendable;
    k := WholeSoFar(c, s);
    assert forall p :: p in c.sent[..k] ==> p in c.sent;
    NonEmptyMeans(c.sent[..k]);
  }

  lemma WholeSoFar(c: Conn, s: seq<byte>) returns (k: nat)
    requires (Whole(c) || CutOff(c)) && s <= c.bytes
    ensures k <= |c.sent| && Drained(s) == NonEmpty(c.sent[..k])
    ensures s == c.bytes ==> k == |c.sent|
  {
    if Whole(c) {
      OpenIsCutOff(c);
    }
    var p: Payload :| Sendable(p) && Stream(c.sent) <= c.bytes < Stream(c.sent) + Frame(p);
    StreamSnoc(c.sent, p);
    k := WholeFrames(c.sent + [p], |s|);
    CutFrameNeverCounts(c.sent, p, |s|);
    DeliversWholeFrames(c.sent + [p], s);
    assert (c.sent + [p])[..k] == c.sent[..k];
  }

  /** A connection that is open counts as one cut off after no bytes of the next frame. */
  lemma OpenIsCutOff(c: Conn)
    requires Whole(c)
    ensures CutOff(c)
  {
    CutShort(c, [], 0);
    assert c.bytes + Frame([])[..0] == c.bytes;
  }
}
