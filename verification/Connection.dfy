/** Whole connections: every way to cut a stream of frames into receives. */
module Connections {
  import opened Wire
  import opened ByteBuffers
  import opened Framing
  import opened DataSinks

  /** What one client's buffer and the messages routed from it amount to. */
  datatype SinkState = SinkState(capacity: nat, unread: seq<byte>, routed: seq<Payload>)

  const START := SinkState(RECEIVE_BUF_START_SIZE, [], [])

  /** The effect of `ReadCallback` for a non-empty receive. */
  function Callback(st: SinkState, chunk: seq<byte>): SinkState {
    var rest := Rest(st.unread + chunk);
    SinkState(CapacityFor(st.capacity, rest), rest, st.routed + Drained(st.unread + chunk))
  }

  function Run(st: SinkState, chunks: seq<seq<byte>>): SinkState
    decreases |chunks|
  {
    if chunks == [] then st else Callback(Run(st, chunks[..|chunks| - 1]), chunks[|chunks| - 1])
  }

  function Flatten(chunks: seq<seq<byte>>): seq<byte>
    decreases |chunks|
  {
    if chunks == [] then [] else Flatten(chunks[..|chunks| - 1]) + chunks[|chunks| - 1]
  }

  /** Each receive returned something, and no more than was asked for. */
  predicate Receivable(st: SinkState, chunks: seq<seq<byte>>)
    decreases |chunks|
  {
    chunks == [] ||
    (var before := chunks[..|chunks| - 1];
     && Receivable(st, before)
     && 0 < |chunks[|chunks| - 1]| <= Run(st, before).capacity - |Run(st, before).unread|)
  }

  /** The loop of the event library: one callback after the other. */
  method Serve(sink: DataSink, buf: ByteBuffer, chunks: seq<seq<byte>>)
    requires buf.Valid() && buf.capacity > 4
    requires Receivable(SinkState(buf.capacity, buf.Contents(), sink.router.queue), chunks)
    modifies sink`numConnectedClients, sink.router, buf, buf.buffer
    ensures buf.Valid()
    ensures SinkState(buf.capacity, buf.Contents(), sink.router.queue)
         == Run(old(SinkState(buf.capacity, buf.Contents(), sink.router.queue)), chunks)
  {
    hide Drained, Rest, CapacityFor;
    ghost var st := SinkState(buf.capacity, buf.Contents(), sink.router.queue);
    assert chunks[..|chunks|] == chunks;
    for i := 0 to |chunks|
      invariant buf.Valid() && buf.capacity > 4 && (buf.buffer == old(buf.buffer) || fresh(buf.buffer))
      invariant SinkState(buf.capacity, buf.Contents(), sink.router.queue) == Run(st, chunks[..i])
    {
      ReceivableAt(st, chunks, i);
      assert chunks[..i + 1][..i] == chunks[..i];
      CapacityGrows(buf.capacity, Rest(buf.Contents() + chunks[i]));
      var connected := sink.ReadCallback(buf, chunks[i]);
    }
  }

  lemma CapacityGrows(capacity: nat, rest: seq<byte>)
    ensures CapacityFor(capacity, rest) >= capacity
  {
  }

  lemma {:induction false} ReceivableAt(st: SinkState, chunks: seq<seq<byte>>, i: nat)
    requires Receivable(st, chunks) && i < |chunks|
    ensures Receivable(st, chunks[..i])
    ensures 0 < |chunks[i]| <= Run(st, chunks[..i]).capacity - |Run(st, chunks[..i]).unread|
    decreases |chunks|
  {
    if i < |chunks| - 1 {
      ReceivableAt(st, chunks[..|chunks| - 1], i);
      assert chunks[..|chunks| - 1][..i] == chunks[..i];
    }
  }

  /** After any receives, what was routed and what is unread depend on the bytes alone. */
  lemma {:induction false} RunDrains(chunks: seq<seq<byte>>)
    ensures Run(START, chunks).routed == Drained(Flatten(chunks))
    ensures Run(START, chunks).unread == Rest(Flatten(chunks))
    decreases |chunks|
  {
    hide Drained, Rest, CapacityFor;
    if chunks == [] {
      NothingReceived();
    } else {
      var before, chunk := chunks[..|chunks| - 1], chunks[|chunks| - 1];
      RunDrains(before);
      DrainingIsIncremental(Flatten(before), chunk);
    }
  }

  lemma NothingReceived()
    ensures Drained([]) == [] && Rest([]) == []
  {
  }

  /** The window never closes: between callbacks there is room for at least one byte, so a receive of
      nothing always means that the client is gone. */
  lemma {:induction false} WindowStaysOpen(chunks: seq<seq<byte>>)
    requires Receivable(START, chunks)
    ensures |Run(START, chunks).unread| < Run(START, chunks).capacity
    ensures Run(START, chunks).capacity >= RECEIVE_BUF_START_SIZE
    decreases |chunks|
  {
    hide Drained, Rest;
    if chunks != [] {
      var st, chunk := Run(START, chunks[..|chunks| - 1]), chunks[|chunks| - 1];
      WindowStaysOpen(chunks[..|chunks| - 1]);
      var rest := Rest(st.unread + chunk);
      assert |rest| <= |st.unread + chunk| <= st.capacity;
      assert !HasFrame(rest);
    }
  }

  /** The number of frames that are complete in the first `n` bytes is what the bytes after them say:
      an unfinished header or an unfinished payload of the next frame. */
  lemma RestAnnouncesNext(ps: seq<Payload>, s: seq<byte>)
    requires (forall p :: p in ps ==> Sendable(p)) && s <= Stream(ps) && |Rest(s)| > 4
    ensures WholeFrames(ps, |s|) < |ps| && Announced(Rest(s)) == |ps[WholeFrames(ps, |s|)]|
  {
    hide Drained, Rest, Announced, HasFrame;
    DeliversWholeFrames(ps, s);
    var k := WholeFrames(ps, |s|);
    StreamSplit(ps, k);
    assert Rest(s) == s[|Stream(ps[..k])|..];
    PrefixTail(s, Stream(ps), |Stream(ps[..k])|);
    NoMoreFrames(ps, |s|);
    NoFrameYet(ps[k..], Rest(s));
  }

  lemma {:induction false} StreamSplit(ps: seq<Payload>, k: nat)
    requires (forall p :: p in ps ==> Sendable(p)) && k <= |ps|
    ensures Stream(ps) == Stream(ps[..k]) + Stream(ps[k..])
    decreases k
  {
    if k == 0 {
      assert ps[0..] == ps && ps[..0] == [];
    } else {
      StreamSplit(ps[1..], k - 1);
      assert ps[..k] == [ps[0]] + ps[1..][..k - 1];
      StreamCons(ps[0], ps[1..][..k - 1]);
      assert ps[1..][k - 1..] == ps[k..];
    }
  }

  lemma {:induction false} NoMoreFrames(ps: seq<Payload>, n: nat)
    requires forall p :: p in ps ==> Sendable(p)
    ensures var k := WholeFrames(ps, n);
            |Stream(ps[..k])| <= n && WholeFrames(ps[k..], n - |Stream(ps[..k])|) == 0
    decreases |ps|
  {
    var k := WholeFrames(ps, n);
    if k == 0 {
      assert ps[0..] == ps && ps[..0] == [];
    } else {
      NoMoreFrames(ps[1..], n - 4 - |ps[0]|);
      assert ps[..k] == [ps[0]] + ps[1..][..k - 1];
      StreamCons(ps[0], ps[1..][..k - 1]);
      assert ps[1..][k - 1..] == ps[k..];
    }
  }

  /** The buffer keeps its first capacity, or stays below twice the longest frame. */
  lemma {:induction false} CapacityBounded(ps: seq<Payload>, chunks: seq<seq<byte>>, longest: nat)
    requires forall p :: p in ps ==> Sendable(p) && |p| <= longest
    requires Flatten(chunks) <= Stream(ps)
    ensures var capacity := Run(START, chunks).capacity;
            capacity == 102400 || capacity < 2 * (longest + 4)
    decreases |chunks|
  {
    hide Drained, Rest, Announced, HasFrame, Stream;
    if chunks != [] {
      var before, chunk := chunks[..|chunks| - 1], chunks[|chunks| - 1];
      assert Flatten(before) <= Flatten(chunks);
      CapacityBounded(ps, before, longest);
      RunDrains(chunks);
      var rest := Run(START, chunks).unread;
      if |rest| > 4 {
        RestAnnouncesNext(ps, Flatten(chunks));
        assert ps[WholeFrames(ps, |Flatten(chunks)|)] in ps;
      }
    }
  }

  /** How many callbacks have changed the capacity and left frame `k` as the first incomplete one. */
  function Resizes(ps: seq<Payload>, chunks: seq<seq<byte>>, k: nat): nat
    decreases |chunks|
  {
    if chunks == [] then 0
    else
      var before := chunks[..|chunks| - 1];
      Resizes(ps, before, k)
      + if WholeFrames(ps, |Flatten(chunks)|) == k && Run(START, chunks).capacity != Run(START, before).capacity then 1 else 0
  }

  /** In no run does a frame make the buffer grow more than twice: after the first time its payload would
      fit, after the second its header as well. */
  lemma {:induction false} TwoResizesSuffice(ps: seq<Payload>, chunks: seq<seq<byte>>, k: nat)
    requires (forall p :: p in ps ==> Sendable(p)) && Flatten(chunks) <= Stream(ps) && k < |ps|
    ensures Resizes(ps, chunks, k) <= 2
    ensures Resizes(ps, chunks, k) >= 1 ==> Run(START, chunks).capacity >= |ps[k]|
    ensures Resizes(ps, chunks, k) == 2 ==> Run(START, chunks).capacity >= |ps[k]| + 4
    ensures Run(START, chunks).capacity >= RECEIVE_BUF_START_SIZE
    decreases |chunks|
  {
    hide Drained, Rest, Announced, HasFrame, Stream;
    if chunks != [] {
      var before := chunks[..|chunks| - 1];
      assert Flatten(before) <= Flatten(chunks);
      TwoResizesSuffice(ps, before, k);
      RunDrains(chunks);
      if |Rest(Flatten(chunks))| > 4 {
        RestAnnouncesNext(ps, Flatten(chunks));
      }
    }
  }

  /** A callback changes the capacity exactly if it leaves more than the header of a frame that does not fit
      with its header; so every resize is counted for one frame. The capacity is doubled, or is the length of
      the payload if that is more. */
  lemma ResizeHasFrame(ps: seq<Payload>, chunks: seq<seq<byte>>)
    requires (forall p :: p in ps ==> Sendable(p)) && Flatten(chunks) <= Stream(ps) && Receivable(START, chunks) && chunks != []
    ensures var before, after := Run(START, chunks[..|chunks| - 1]).capacity, Run(START, chunks).capacity;
            var k := WholeFrames(ps, |Flatten(chunks)|);
            && (after != before <==> |Run(START, chunks).unread| > 4 && k < |ps| && |ps[k]| + 4 > before)
            && (after != before ==> after == if |ps[k]| > 2 * before then |ps[k]| else 2 * before)
  {
    hide Drained, Rest, Announced, HasFrame, Stream;
    RunDrains(chunks);
    WindowStaysOpen(chunks[..|chunks| - 1]);
    if |Rest(Flatten(chunks))| > 4 {
      RestAnnouncesNext(ps, Flatten(chunks));
    }
  }

  /** The receiving half of the protocol. For every list of payloads, every beginning of their stream
      and every way to cut it into receives: the non-empty payloads of the whole frames received so
      far have been routed, in order and nothing else; the incomplete frame waits in the buffer; and
      there is room for more. */
  lemma ConnectionDelivers(ps: seq<Payload>, chunks: seq<seq<byte>>)
    requires forall p :: p in ps ==> Sendable(p)
    requires Flatten(chunks) <= Stream(ps) && Receivable(START, chunks)
    ensures var st := Run(START, chunks);
            var s := Flatten(chunks);
            var k := WholeFrames(ps, |s|);
            && st.routed == NonEmpty(ps[..k])
            && ((forall p :: p in ps ==> p != []) ==> st.routed == ps[..k])
            && multiset(st.routed) == multiset(ps[..k])[[] := 0]
            && Stream(ps[..k]) <= s && (k < |ps| ==> |s| < |Stream(ps[..k + 1])|)
            && st.unread == (if k > 0 && ps[k - 1] == [] && s == Stream(ps[..k]) then Frame([]) else s[|Stream(ps[..k])|..])
            && |st.unread| < st.capacity
  {
    hide Drained, Rest, Run, NonEmpty, Stream;
    RunDrains(chunks);
    DeliversWholeFrames(ps, Flatten(chunks));
    var routed := ps[..WholeFrames(ps, |Flatten(chunks)|)];
    assert forall p :: p in routed ==> p in ps;
    NonEmptyMeans(routed);
    WholeFramesFit(ps, |Flatten(chunks)|);
    WindowStaysOpen(chunks);
  }

  /** And any bytes can arrive: there is always room for the next one. */
  lemma {:induction false} EverythingArrives(s: seq<byte>) returns (chunks: seq<seq<byte>>)
    ensures Receivable(START, chunks) && Flatten(chunks) == s
    decreases |s|
  {
    if s == [] {
      chunks := [];
    } else {
      var n := |s| - 1;
      var before := EverythingArrives(s[..n]);
      chunks := before + [[s[n]]];
      assert chunks[..|before|] == before && s == s[..n] + [s[n]];
      WindowStaysOpen(before);
    }
  }
}
