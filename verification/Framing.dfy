/** Length-prefixed frames, and what a receiver makes of any beginning of a stream of them. */
module Framing {
  import opened Wire

  function Reversed(bs: seq<byte>): (r: seq<byte>)
    requires |bs| == 4
    ensures |r| == 4
  {
    [bs[3], bs[2], bs[1], bs[0]]
  }

  /** `htonl` of a payload length, and `ntohl` of a header. */
  function BigEndian(v: nat): (bs: seq<byte>)
    ensures |bs| == 4
  {
    Reversed(LittleEndian(v, 4))
  }

  function FromBigEndian(bs: seq<byte>): nat
    requires |bs| == 4
  {
    FromLittleEndian(Reversed(bs))
  }

  lemma BigEndianInverts(v: nat)
    requires v < TWO_32
    ensures FromBigEndian(BigEndian(v)) == v
  {
    Pow256Values();
    LittleEndianInverts(v, 4);
    assert Reversed(BigEndian(v)) == LittleEndian(v, 4);
  }

  /** Network order: the first byte of a header is the most significant. */
  function Weighed(h0: byte, h1: byte, h2: byte, h3: byte): nat {
    (h0 as nat) * 0x100_0000 + (h1 as nat) * 0x1_0000 + (h2 as nat) * 0x100 + (h3 as nat)
  }

  lemma BigEndianWeighs(v: nat)
    requires v < TWO_32
    ensures var h := BigEndian(v); Weighed(h[0], h[1], h[2], h[3]) == v
  {
    var a := v / 256;
    var b := a / 256;
    var c := b / 256;
    assert LittleEndian(v, 4) == [v % 256] + LittleEndian(a, 3);
    assert LittleEndian(a, 3) == [a % 256] + LittleEndian(b, 2);
    assert LittleEndian(b, 2) == [b % 256] + LittleEndian(c, 1);
    assert LittleEndian(c, 1) == [c % 256] + LittleEndian(c / 256, 0);
  }

  lemma FromBigEndianWeighs(h: seq<byte>)
    requires |h| == 4
    ensures FromBigEndian(h) == Weighed(h[0], h[1], h[2], h[3])
  {
    var r := Reversed(h);
    assert FromLittleEndian(r) == (r[0] as nat) + 256 * FromLittleEndian(r[1..]);
    assert r[1..] == [h[2], h[1], h[0]];
    assert FromLittleEndian(r[1..]) == (h[2] as nat) + 256 * FromLittleEndian([h[1], h[0]]) by {
      assert [h[2], h[1], h[0]][1..] == [h[1], h[0]];
    }
    assert FromLittleEndian([h[1], h[0]]) == (h[1] as nat) + 256 * FromLittleEndian([h[0]]) by {
      assert [h[1], h[0]][1..] == [h[0]];
    }
    assert FromLittleEndian([h[0]]) == (h[0] as nat) by {
      assert [h[0]][1..] == [];
    }
  }

  type Payload = seq<byte>

  /** What a payload length may be: the header is read back into a signed 32-bit integer. */
  predicate Sendable(p: Payload) {
    |p| < TWO_31
  }

  function Frame(p: Payload): (bs: seq<byte>)
    requires Sendable(p)
    ensures |bs| == 4 + |p|
  {
    BigEndian(|p|) + p
  }

  /** A frame is the length of the payload in network order and the payload; and what any four bytes announce
      is their value in network order. */
  lemma FrameMeans(p: Payload, u: seq<byte>)
    requires Sendable(p) && |u| >= 4
    ensures var f := Frame(p); Weighed(f[0], f[1], f[2], f[3]) == |p| && f[4..] == p
    ensures Announced(u) == Weighed(u[0], u[1], u[2], u[3])
  {
    BigEndianWeighs(|p|);
    assert Frame(p)[..4] == BigEndian(|p|);
    FromBigEndianWeighs(u[..4]);
  }

  function Stream(ps: seq<Payload>): seq<byte>
    requires forall p :: p in ps ==> Sendable(p)
  {
    if ps == [] then [] else Frame(ps[0]) + Stream(ps[1..])
  }

  /** The length the first four bytes announce. */
  function Announced(u: seq<byte>): nat
    requires |u| >= 4
  {
    FromBigEndian(u[..4])
  }

  /* ----------------------- the loop of _ReadCallback ------------------------ */

  /** A frame is taken only when more than its header is there. */
  predicate HasFrame(u: seq<byte>) {
    |u| > 4 && Announced(u) <= |u| - 4
  }

  /** The non-empty messages routed out of the unread bytes `u`. */
  function Drained(u: seq<byte>): seq<Payload>
    decreases |u|
  {
    if !HasFrame(u) then []
    else
      var n := Announced(u);
      NonEmpty([u[4..4 + n]]) + Drained(u[4 + n..])
  }

  /** The bytes that stay unread. */
  function Rest(u: seq<byte>): (r: seq<byte>)
    ensures |r| <= |u| && !HasFrame(r)
    decreases |u|
  {
    if HasFrame(u) then Rest(u[4 + Announced(u)..]) else u
  }

  /** `Route` drops empty messages. */
  function NonEmpty(ps: seq<Payload>): seq<Payload> {
    if ps == [] then [] else (if ps[0] == [] then [] else [ps[0]]) + NonEmpty(ps[1..])
  }

  /** All messages but the empty ones are left, in order and as often as they were. */
  lemma NonEmptyMeans(ps: seq<Payload>)
    ensures (forall p :: p in ps ==> p != []) ==> NonEmpty(ps) == ps
    ensures multiset(NonEmpty(ps)) == multiset(ps)[[] := 0]
  {
    if forall p :: p in ps ==> p != [] {
      NonEmptyKeeps(ps);
    }
    NonEmptyCounts(ps);
  }

  lemma {:induction false} NonEmptyKeeps(ps: seq<Payload>)
    requires forall p :: p in ps ==> p != []
    ensures NonEmpty(ps) == ps
  {
    if ps != [] {
      assert ps[0] in ps && forall p :: p in ps[1..] ==> p in ps;
      NonEmptyKeeps(ps[1..]);
      assert ps == [ps[0]] + ps[1..];
    }
  }

  lemma {:induction false} NonEmptyCounts(ps: seq<Payload>)
    ensures multiset(NonEmpty(ps)) == multiset(ps)[[] := 0]
  {
    if ps != [] {
      NonEmptyCounts(ps[1..]);
      assert ps == [ps[0]] + ps[1..];
      assert multiset(ps) == multiset{ps[0]} + multiset(ps[1..]);
    }
  }

  lemma {:induction false} NonEmptyAppend(a: seq<Payload>, b: seq<Payload>)
    ensures NonEmpty(a + b) == NonEmpty(a) + NonEmpty(b)
  {
    if a == [] {
      assert a + b == b;
    } else {
      assert (a + b)[1..] == a[1..] + b;
      NonEmptyAppend(a[1..], b);
    }
  }

  /** Where the stream is cut does not matter: draining `a`, and then what was left of it with `b`
      after it, is draining `a + b`. */
  lemma {:induction false} DrainingIsIncremental(a: seq<byte>, b: seq<byte>)
    ensures Drained(a + b) == Drained(a) + Drained(Rest(a) + b)
    ensures Rest(a + b) == Rest(Rest(a) + b)
    decreases |a|
  {
    hide FromBigEndian, NonEmpty;
    if HasFrame(a) {
      var n := Announced(a);
      assert (a + b)[..4] == a[..4];
      assert (a + b)[4..4 + n] == a[4..4 + n];
      assert (a + b)[4 + n..] == a[4 + n..] + b;
      DrainingIsIncremental(a[4 + n..], b);
    }
  }

  /** How many whole frames the first `n` bytes of a stream hold. */
  function WholeFrames(ps: seq<Payload>, n: nat): (k: nat)
    ensures k <= |ps|
  {
    if ps != [] && 4 + |ps[0]| <= n then 1 + WholeFrames(ps[1..], n - 4 - |ps[0]|) else 0
  }

  /** They are as many as fit. */
  lemma {:induction false} WholeFramesFit(ps: seq<Payload>, n: nat)
    requires forall p :: p in ps ==> Sendable(p)
    ensures var k := WholeFrames(ps, n);
            |Stream(ps[..k])| <= n && (k < |ps| ==> n < |Stream(ps[..k + 1])|)
  {
    hide Frame;
    var k := WholeFrames(ps, n);
    if ps != [] {
      StreamCons(ps[0], []);
      if k > 0 {
        WholeFramesFit(ps[1..], n - 4 - |ps[0]|);
        assert ps[..k] == [ps[0]] + ps[1..][..k - 1];
        StreamCons(ps[0], ps[1..][..k - 1]);
        if k < |ps| {
          assert ps[..k + 1] == [ps[0]] + ps[1..][..k];
          StreamCons(ps[0], ps[1..][..k]);
        }
      } else {
        assert ps[..1] == [ps[0]] + [];
      }
    }
  }

  lemma FrontFrame(p: Payload, rest: seq<byte>)
    requires Sendable(p)
    ensures Announced(Frame(p) + rest) == |p|
    ensures (Frame(p) + rest)[4..4 + |p|] == p && (Frame(p) + rest)[4 + |p|..] == rest
  {
    BigEndianInverts(|p|);
    assert (Frame(p) + rest)[..4] == BigEndian(|p|);
  }

  /** From any beginning `s` of a stream of frames, the messages routed are the non-empty payloads of
      the whole frames in `s`, in order, and the unread bytes are the incomplete frame at the end —
      except that an empty frame right at the end waits, header and all, for the next bytes. */
  lemma {:induction false} DeliversWholeFrames(ps: seq<Payload>, s: seq<byte>)
    requires (forall p :: p in ps ==> Sendable(p)) && s <= Stream(ps)
    ensures var k := WholeFrames(ps, |s|);
            && Stream(ps[..k]) <= s
            && Drained(s) == NonEmpty(ps[..k])
            && Rest(s) == if k > 0 && ps[k - 1] == [] && s == Stream(ps[..k]) then Frame([]) else s[|Stream(ps[..k])|..]
    decreases |ps|
  {
    hide Drained, Rest, HasFrame, Announced, NonEmpty, Frame;
    var k := WholeFrames(ps, |s|);
    if k == 0 {
      NoFrameYet(ps, s);
      DrainStep(s);
      EmptyFrameWaits();
    } else {
      var p, s', qs := ps[0], s[4 + |ps[0]|..], ps[1..][..k - 1];
      SplitFront(ps, s);
      DeliversWholeFrames(ps[1..], s');
      NonEmptyAppend([p], qs);
      if s' != [] || p != [] {
        TakesFrame(p, s');
      } else {
        EmptyFrameWaits();
        assert Frame(p) + s' == Frame([]);
      }
    }
  }

  /** The first frame of a beginning of a stream that has it, and the rest. */
  lemma SplitFront(ps: seq<Payload>, s: seq<byte>)
    requires (forall p :: p in ps ==> Sendable(p)) && s <= Stream(ps) && WholeFrames(ps, |s|) > 0
    ensures var k, p, s' := WholeFrames(ps, |s|), ps[0], s[4 + |ps[0]|..];
            && s == Frame(p) + s' && s' <= Stream(ps[1..]) && WholeFrames(ps[1..], |s'|) == k - 1
            && ps[..k] == [p] + ps[1..][..k - 1]
            && Stream(ps[..k]) == Frame(p) + Stream(ps[1..][..k - 1])
            && (s == Stream(ps[..k]) <==> s' == Stream(ps[1..][..k - 1]))
  {
    var k, p, s' := WholeFrames(ps, |s|), ps[0], s[4 + |ps[0]|..];
    FrontFrame(p, Stream(ps[1..]));
    PrefixTail(s, Stream(ps), 4 + |p|);
    assert Stream(ps)[..4 + |p|] == Frame(p);
    assert s == Frame(p) + s';
    assert ps[..k] == [p] + ps[1..][..k - 1];
    StreamCons(p, ps[1..][..k - 1]);
    var rest := Stream(ps[1..][..k - 1]);
    assert (Frame(p) + rest)[4 + |p|..] == rest;
  }

  lemma EmptyFrameWaits()
    ensures Drained(Frame([])) == [] && Rest(Frame([])) == Frame([]) && NonEmpty([[]]) == [] && NonEmpty([]) == []
    ensures Drained([]) == [] && Rest([]) == []
  {
  }

  /** Nothing to take out of bytes that hold no frame; otherwise the first frame, then the others. */
  lemma DrainStep(u: seq<byte>)
    ensures !HasFrame(u) ==> Drained(u) == [] && Rest(u) == u
    ensures HasFrame(u) ==> Drained(u) == NonEmpty([u[4..4 + Announced(u)]]) + Drained(u[4 + Announced(u)..])
    ensures HasFrame(u) ==> Rest(u) == Rest(u[4 + Announced(u)..])
  {
  }

  lemma PrefixTail(s: seq<byte>, t: seq<byte>, n: nat)
    requires s <= t && n <= |s|
    ensures s[n..] <= t[n..] && s[..n] == t[..n]
  {
    assert s[n..] == t[n..][..|s| - n];
  }

  lemma TakesFrame(p: Payload, s: seq<byte>)
    requires Sendable(p) && (s != [] || p != [])
    ensures Drained(Frame(p) + s) == NonEmpty([p]) + Drained(s) && Rest(Frame(p) + s) == Rest(s)
  {
    FrontFrame(p, s);
  }

  lemma StreamCons(p: Payload, ps: seq<Payload>)
    requires Sendable(p) && forall q :: q in ps ==> Sendable(q)
    ensures Stream([p] + ps) == Frame(p) + Stream(ps)
  {
    assert ([p] + ps)[1..] == ps;
  }

  /** Less than one frame of a stream: nothing to take out. */
  lemma NoFrameYet(ps: seq<Payload>, s: seq<byte>)
    requires (forall p :: p in ps ==> Sendable(p)) && s <= Stream(ps) && WholeFrames(ps, |s|) == 0
    ensures !HasFrame(s)
    ensures |s| >= 4 ==> ps != [] && Announced(s) == |ps[0]|
  {
    if |s| >= 4 {
      FrontFrame(ps[0], Stream(ps[1..]));
      assert s[..4] == Stream(ps)[..4];
    }
  }
}
