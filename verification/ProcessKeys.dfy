/** The keys processes are filed under (`CreateProcMapKey`, Handler.h). */
module ProcessKeys {
  import opened Decimals

  function Key(hostName: string, pid: nat): string {
    hostName + Decimal(pid)
  }

  /** The longer host name is the shorter one and then a numeral that can begin a process id, when ids go
      from `minPid` to `maxPid`. */
  predicate Extends(shorter: string, longer: string, minPid: nat, maxPid: nat) {
    && |shorter| < |longer| && shorter <= longer
    && var w := longer[|shorter|..];
       AllDigits(w) && w[0] != '0' && ValueOf(w) * 10 + minPid <= maxPid
  }

  predicate SameKey(h1: string, p1: nat, h2: string, p2: nat) {
    (h1 != h2 || p1 != p2) && Key(h1, p1) == Key(h2, p2)
  }

  /** On one host different processes have different keys. */
  lemma OneHost(h: string, p1: nat, p2: nat)
    requires Key(h, p1) == Key(h, p2)
    ensures p1 == p2
  {
    assert Key(h, p1)[|h|..] == Decimal(p1) && Key(h, p2)[|h|..] == Decimal(p2);
    DecimalInverts(p1);
    DecimalInverts(p2);
  }

  lemma CollisionExtends(h1: string, p1: nat, h2: string, p2: nat, minPid: nat, maxPid: nat)
    requires SameKey(h1, p1, h2, p2) && p1 <= maxPid && minPid <= p2 && |h1| <= |h2|
    ensures Extends(h1, h2, minPid, maxPid)
  {
    var k, w := Key(h1, p1), h2[|h1|..];
    assert h1 == k[..|h1|] == h2[..|h1|];
    assert h2 == h1 + w;
    if w == [] {
      assert h1 == h2;
      OneHost(h1, p1, p2);
    } else {
      assert Decimal(p1) == k[|h1|..];
      assert k == h1 + (w + Decimal(p2));
      assert Decimal(p1) == w + Decimal(p2);
      assert AllDigits(w) by {
        forall c | c in w ensures IsDigit(c) { assert c in Decimal(p1); }
      }
      DecimalInverts(p1);
      DecimalInverts(p2);
      ValueOfJoined(w, Decimal(p2));
    }
  }

  lemma ExtendsCollides(h1: string, h2: string, minPid: nat, maxPid: nat) returns (p1: nat)
    requires Extends(h1, h2, minPid, maxPid) && minPid <= 9
    ensures minPid <= p1 <= maxPid && SameKey(h1, p1, h2, minPid)
  {
    var w := h2[|h1|..];
    p1 := ValueOf(w) * 10 + minPid;
    ValueInverts(w);
    assert p1 / 10 == ValueOf(w) && p1 % 10 == minPid;
    assert Decimal(p1) == Decimal(p1 / 10) + [Digit(p1 % 10)] == w + Decimal(minPid);
    assert h2 == h1 + w;
    assert Key(h1, p1) == h1 + (w + Decimal(minPid)) == Key(h2, minPid);
  }

  predicate Confusable(h1: string, h2: string, minPid: nat, maxPid: nat) {
    Extends(h1, h2, minPid, maxPid) || Extends(h2, h1, minPid, maxPid)
  }

  /** Processes of two hosts can be confused exactly when one host name is the other with a numeral after
      it: process 23 of `node1` is process 3 of `node12`. The least id there is, 0 or 1 say, matters for
      the longest numeral that fits. */
  lemma KeysCollide(h1: string, h2: string, minPid: nat, maxPid: nat)
    requires minPid <= 9
    ensures (exists p1: nat, p2: nat :: minPid <= p1 <= maxPid && minPid <= p2 <= maxPid && SameKey(h1, p1, h2, p2))
            <==> Confusable(h1, h2, minPid, maxPid)
  {
    forall p1: nat, p2: nat | minPid <= p1 <= maxPid && minPid <= p2 <= maxPid && SameKey(h1, p1, h2, p2)
      ensures Confusable(h1, h2, minPid, maxPid)
    {
      if |h1| <= |h2| {
        CollisionExtends(h1, p1, h2, p2, minPid, maxPid);
      } else {
        CollisionExtends(h2, p2, h1, p1, minPid, maxPid);
      }
    }
    if Extends(h1, h2, minPid, maxPid) {
      var p1 := ExtendsCollides(h1, h2, minPid, maxPid);
      assert minPid <= maxPid;
    } else if Extends(h2, h1, minPid, maxPid) {
      var p2 := ExtendsCollides(h2, h1, minPid, maxPid);
      assert SameKey(h1, minPid, h2, p2);
    }
  }
}
