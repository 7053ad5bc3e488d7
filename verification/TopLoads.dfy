/** The names with the most load, and the shares of the others (`_UpdateBarChart`, modules/barchart/Handler.cpp). */
module TopLoads {
  import opened Loads
  import opened ArrayHeaps

  /** The load of all bars together, in whatever order. */
  ghost function BagLoad(m: multiset<Bar>): Load
    decreases |m|
  {
    if m == multiset{} then IDLE
    else
      var b :| b in m;
      Plus(b.load, BagLoad(m - multiset{b}))
  }

  lemma {:induction false} BagWithout(m: multiset<Bar>, b: Bar)
    requires b in m
    ensures BagLoad(m) == Plus(b.load, BagLoad(m - multiset{b}))
    decreases |m|
  {
    var c :| c in m && BagLoad(m) == Plus(c.load, BagLoad(m - multiset{c}));
    if c != b {
      assert m - multiset{c} - multiset{b} == m - multiset{b} - multiset{c};
      BagWithout(m - multiset{c}, b);
      BagWithout(m - multiset{b}, c);
      assert BagLoad(m) == Plus(c.load, Plus(b.load, BagLoad(m - multiset{c} - multiset{b})));
    }
  }

  lemma EmptyBag()
    ensures BagLoad(multiset{}) == IDLE
  {
  }

  lemma BagPlusOne(m: multiset<Bar>, b: Bar)
    ensures BagLoad(m + multiset{b}) == Plus(BagLoad(m), b.load)
  {
    BagWithout(m + multiset{b}, b);
    assert m + multiset{b} - multiset{b} == m;
  }

  lemma {:induction false} BagPlusBag(m: multiset<Bar>, n: multiset<Bar>)
    ensures BagLoad(m + n) == Plus(BagLoad(m), BagLoad(n))
    decreases |n|
  {
    hide BagLoad;
    if n == multiset{} {
      EmptyBag();
      assert m + n == m;
    } else {
      var b :| b in n;
      var r := n - multiset{b};
      BagPlusBag(m, r);
      BagPlusOne(m + r, b);
      BagPlusOne(r, b);
      assert r + multiset{b} == n && m + r + multiset{b} == m + n;
    }
  }

  /** Nothing that was left out is heavier than anything that was taken. */
  ghost predicate NoneHeavier(dropped: multiset<Bar>, kept: multiset<Bar>) {
    forall d, k :: d in dropped && k in kept ==> Weight(d) <= Weight(k)
  }

  lemma NothingDropped(kept: multiset<Bar>)
    ensures NoneHeavier(multiset{}, kept)
  {
  }

  /** One turn of the loop once the heap is full: the bar, or the lightest in the heap, is left out. */
  method Offer(heap: array<Bar>, b: Bar, ghost dropped: multiset<Bar>) returns (ghost out: Bar)
    requires heap.Length > 0 && Heap(heap[..]) && NoneHeavier(dropped, multiset(heap[..]))
    modifies heap
    ensures Heap(heap[..]) && NoneHeavier(dropped + multiset{out}, multiset(heap[..]))
    ensures multiset(heap[..]) + multiset{out} == old(multiset(heap[..])) + multiset{b}
  {
    hide Heap, Weight, NoneHeavier;
    LightestInBag(heap[..]);
    if Weight(b) > Weight(heap[0]) {
      out := heap[0];
      ghost var before := multiset(heap[..]);
      ghost var rest := ReplaceLightest(heap, b);
      ReplacedBag(before, rest, multiset(heap[..]), out, b, dropped);
    } else {
      out := b;
      LeftOut(multiset(heap[..]), heap[0], b, dropped);
    }
  }

  /** The bar goes to the end and `push_heap` moves it up. */
  method Add(heap: array<Bar>, size: nat, b: Bar)
    requires size < heap.Length && Heap(heap[..size])
    modifies heap
    ensures Heap(heap[..size + 1]) && multiset(heap[..size + 1]) == old(multiset(heap[..size])) + multiset{b}
  {
    hide Heap;
    ghost var s := heap[..size];
    heap[size] := b;
    assert heap[..size + 1] == s + [b];
    assert heap[..size] == s;
    PushHeap(heap, size + 1);
  }

  /** `pop_heap`, the new values in the bar at the back, `push_heap`. */
  method ReplaceLightest(heap: array<Bar>, b: Bar) returns (ghost rest: multiset<Bar>)
    requires heap.Length > 0 && Heap(heap[..])
    modifies heap
    ensures Heap(heap[..])
    ensures old(multiset(heap[..])) == rest + multiset{old(heap[0])} && multiset(heap[..]) == rest + multiset{b}
  {
    hide Heap;
    var n := heap.Length;
    assert heap[..n] == heap[..];
    PopHeap(heap, n);
    ghost var popped := heap[..n];
    BagOfLast(popped);
    assert popped[..n - 1] == heap[..n - 1];
    rest := multiset(heap[..n - 1]);
    Add(heap, n - 1, b);
    assert heap[..n] == heap[..];
  }

  lemma LeftOut(kept: multiset<Bar>, lightest: Bar, b: Bar, dropped: multiset<Bar>)
    requires NoneHeavier(dropped, kept) && Weight(b) <= Weight(lightest)
    requires forall k :: k in kept ==> Weight(lightest) <= Weight(k)
    ensures NoneHeavier(dropped + multiset{b}, kept)
  {
  }

  lemma LightestInBag(s: seq<Bar>)
    requires Heap(s) && s != []
    ensures s[0] in multiset(s) && forall k :: k in multiset(s) ==> Weight(s[0]) <= Weight(k)
  {
    forall k | k in multiset(s)
      ensures Weight(s[0]) <= Weight(k)
    {
      var i :| 0 <= i < |s| && s[i] == k;
      FrontIsLightest(s, i);
    }
  }

  lemma ReplacedBag(before: multiset<Bar>, rest: multiset<Bar>, after: multiset<Bar>, out: Bar, b: Bar, dropped: multiset<Bar>)
    requires before == rest + multiset{out} && after == rest + multiset{b} && Weight(out) < Weight(b)
    requires NoneHeavier(dropped, before) && forall k :: k in before ==> Weight(out) <= Weight(k)
    ensures NoneHeavier(dropped + multiset{out}, after) && after + multiset{out} == before + multiset{b}
  {
    forall d, k | d in dropped + multiset{out} && k in after
      ensures Weight(d) <= Weight(k)
    {
      assert out in before && (k in before || k == b);
      if d in dropped {
        assert Weight(d) <= Weight(out);
      }
    }
  }

  lemma Rebalance(before: multiset<Bar>, after: multiset<Bar>, dropped: multiset<Bar>, out: Bar, seen: multiset<Bar>, b: Bar)
    requires after + multiset{out} == before + multiset{b} && before + dropped == seen
    ensures after + (dropped + multiset{out}) == seen + multiset{b}
  {
    assert after + (dropped + multiset{out}) == (after + multiset{out}) + dropped;
  }

  /** The heap holds the heaviest of the bars seen, and the rest were dropped. */
  ghost predicate Holds(heap: array<Bar>, size: nat, dropped: multiset<Bar>, seen: multiset<Bar>)
    reads heap
  {
    && size <= heap.Length && Heap(heap[..size]) && (size < heap.Length ==> dropped == multiset{})
    && multiset(heap[..size]) + dropped == seen && NoneHeavier(dropped, multiset(heap[..size]))
  }

  /** One turn of the loop. */
  method Consider(heap: array<Bar>, size: nat, b: Bar, ghost dropped: multiset<Bar>, ghost seen: multiset<Bar>)
      returns (size': nat, ghost dropped': multiset<Bar>)
    requires heap.Length > 0 && Holds(heap, size, dropped, seen)
    modifies heap
    ensures Holds(heap, size', dropped', seen + multiset{b})
    ensures size' == if size < heap.Length then size + 1 else size
  {
    hide Heap, Weight, NoneHeavier;
    size', dropped' := size, dropped;
    if size < heap.Length {
      Add(heap, size, b);
      size' := size + 1;
      NothingDropped(multiset(heap[..size']));
    } else {
      ghost var before := multiset(heap[..]);
      assert heap[..size] == heap[..];
      ghost var out := Offer(heap, b, dropped);
      Rebalance(before, multiset(heap[..]), dropped, out, seen, b);
      dropped' := dropped + multiset{out};
      assert heap[..size] == heap[..];
    }
  }

  /** The `n` heaviest of the bars, as a heap, with the load of all of them. */
  method Heaviest(bars: seq<Bar>, n: nat) returns (heap: array<Bar>, size: nat, total: Load, ghost dropped: multiset<Bar>)
    requires n > 0
    ensures fresh(heap) && size == (if |bars| < n then |bars| else n) && heap.Length == n && Heap(heap[..size])
    ensures multiset(heap[..size]) + dropped == multiset(bars) && NoneHeavier(dropped, multiset(heap[..size]))
    ensures total == BagLoad(multiset(bars))
  {
    hide Weight, NoneHeavier, BagLoad, Plus;
    EmptyBag();
    heap := new Bar[n](_ => Bar("", IDLE));
    size, total, dropped := 0, IDLE, multiset{};
    NothingDropped(multiset(heap[..size]));
    for i := 0 to |bars|
      invariant size == (if i < n then i else n) && fresh(heap) && heap.Length == n
      invariant Holds(heap, size, dropped, multiset(bars[..i])) && total == BagLoad(multiset(bars[..i]))
    {
      hide Holds;
      assert bars[..i + 1] == bars[..i] + [bars[i]];
      BagPlusOne(multiset(bars[..i]), bars[i]);
      total := Plus(total, bars[i].load);
      size, dropped := Consider(heap, size, bars[i], dropped, multiset(bars[..i]));
    }
    assert bars[..|bars|] == bars;
  }

  /* ------------------------------- shares ------------------------------- */

  function Share(l: Load, total: real): Load
    requires total != 0.0
  {
    Load(l.user / total * 100.0, l.system / total * 100.0)
  }

  function SharesOf(s: seq<Bar>, total: real): seq<Bar>
    requires total != 0.0
  {
    seq(|s|, i requires 0 <= i < |s| => Bar(s[i].name, Share(s[i].load, total)))
  }

  lemma ShareAdds(a: Load, b: Load, total: real)
    requires total != 0.0
    ensures Share(Plus(a, b), total) == Plus(Share(a, total), Share(b, total))
  {
    assert (a.user + b.user) / total == a.user / total + b.user / total;
    assert (a.system + b.system) / total == a.system / total + b.system / total;
  }

  lemma {:induction false} SharesOfBag(s: seq<Bar>, total: real)
    requires total != 0.0
    ensures BagLoad(multiset(SharesOf(s, total))) == Share(BagLoad(multiset(s)), total)
  {
    hide BagLoad, Share;
    if s == [] {
      EmptyBag();
      NothingShared(total);
      assert SharesOf(s, total) == [];
    } else {
      var t, b := s[..|s| - 1], s[|s| - 1];
      var c := Bar(b.name, Share(b.load, total));
      SharesOfBag(t, total);
      assert s == t + [b] && SharesOf(s, total) == SharesOf(t, total) + [c];
      BagPlusOne(multiset(t), b);
      BagPlusOne(multiset(SharesOf(t, total)), c);
      ShareAdds(BagLoad(multiset(t)), b.load, total);
    }
  }

  lemma NothingShared(total: real)
    requires total != 0.0
    ensures Share(IDLE, total) == IDLE
  {
  }

  /** Each bar's load is taken from the total and turned into a share. */
  method TurnIntoShares(heap: array<Bar>, size: nat, total: Load) returns (others: Load)
    requires size <= heap.Length && Total(total) != 0.0
    modifies heap
    ensures heap[..size] == SharesOf(old(heap[..size]), Total(total))
    ensures others == Minus(total, BagLoad(multiset(old(heap[..size]))))
  {
    hide BagLoad, Share, Total;
    EmptyBag();
    ghost var s, t := heap[..size], Total(total);
    others := total;
    for i := 0 to size
      invariant others == Minus(total, BagLoad(multiset(s[..i])))
      invariant forall j :: 0 <= j < i ==> heap[j] == Bar(s[j].name, Share(s[j].load, t))
      invariant forall j :: i <= j < size ==> heap[j] == s[j]
    {
      assert s[..i + 1] == s[..i] + [s[i]];
      BagPlusOne(multiset(s[..i]), s[i]);
      others := Minus(others, heap[i].load);
      heap[i] := Bar(heap[i].name, Share(heap[i].load, Total(total)));
    }
    assert s[..size] == s;
  }

  /** `shown` is a chart of `bars`: some `kept` of them, as many as fit and none lighter than one of the
      `dropped`, each with its share, and the share of the dropped ones as "others". A total of zero cannot
      be divided by; then there is no chart. */
  ghost predicate ChartOf(shown: seq<Bar>, bars: seq<Bar>, n: nat, kept: seq<Bar>, dropped: multiset<Bar>) {
    var total := Total(BagLoad(multiset(bars)));
    && multiset(kept) + dropped == multiset(bars)
    && NoneHeavier(dropped, multiset(kept))
    && |kept| == (if |bars| < n then |bars| else n)
    && shown == if total == 0.0 then [] else SharesOf(kept, total) + [Bar("others", Share(BagLoad(dropped), total))]
  }

  /** The chart of the names in `bars`, with room for `n` of them. */
  method Chart(bars: seq<Bar>, n: nat) returns (shown: seq<Bar>)
    requires n > 0
    ensures exists kept, dropped :: ChartOf(shown, bars, n, kept, dropped)
  {
    hide NoneHeavier, Heap, BagLoad, Share, SharesOf;
    var heap, size, total;
    ghost var dropped;
    heap, size, total, dropped := Heaviest(bars, n);
    ghost var kept := heap[..size];
    shown := [];
    if Total(total) != 0.0 {
      BagPlusBag(multiset(kept), dropped);
      var others := TurnIntoShares(heap, size, total);
      shown := heap[..size] + [Bar("others", Share(others, Total(total)))];
    }
    assert ChartOf(shown, bars, n, kept, dropped);
  }

  /* --------------------- user mode and kernel, bar by bar ---------------------- */

  function UserSum(bars: seq<Bar>): real {
    if bars == [] then 0.0 else bars[0].load.user + UserSum(bars[1..])
  }

  function KernelSum(bars: seq<Bar>): real {
    if bars == [] then 0.0 else bars[0].load.system + KernelSum(bars[1..])
  }

  lemma {:induction false} BagIsSums(bars: seq<Bar>)
    ensures BagLoad(multiset(bars)) == Load(UserSum(bars), KernelSum(bars))
  {
    hide BagLoad;
    if bars == [] {
      EmptyBag();
    } else {
      BagIsSums(bars[1..]);
      assert bars == [bars[0]] + bars[1..];
      assert multiset(bars) == multiset(bars[1..]) + multiset{bars[0]};
      BagPlusOne(multiset(bars[1..]), bars[0]);
    }
  }

  /** A chart in numbers. The load of a bar is its time in user mode and in the kernel: no bar left out has
      more than one that is shown. Each of these has its own name and its two parts in per cent of the load of
      all, and with "others" the parts add up to what they are in the load of all. */
  lemma ChartMeans(shown: seq<Bar>, bars: seq<Bar>, n: nat, kept: seq<Bar>, dropped: multiset<Bar>)
    requires ChartOf(shown, bars, n, kept, dropped)
    ensures var u, s := UserSum(bars), KernelSum(bars);
            if u + s == 0.0 then shown == []
            else
              && |shown| == |kept| + 1 && shown[|kept|].name == "others"
              && (forall i :: 0 <= i < |kept| ==>
                    && shown[i].name == kept[i].name
                    && shown[i].load.user == kept[i].load.user / (u + s) * 100.0
                    && shown[i].load.system == kept[i].load.system / (u + s) * 100.0)
              && UserSum(shown) == u / (u + s) * 100.0
              && KernelSum(shown) == s / (u + s) * 100.0
    ensures forall d, k :: d in dropped && k in kept ==> d.load.user + d.load.system <= k.load.user + k.load.system
  {
    if UserSum(bars) + KernelSum(bars) != 0.0 {
      ChartSums(shown, bars, n, kept, dropped);
    }
    ChartBars(shown, bars, n, kept, dropped);
    hide BagLoad, UserSum, KernelSum, SharesOf, Share;
    forall d, k | d in dropped && k in kept
      ensures d.load.user + d.load.system <= k.load.user + k.load.system
    {
      assert k in multiset(kept);
      assert Weight(d) <= Weight(k);
    }
  }

  lemma ChartBars(shown: seq<Bar>, bars: seq<Bar>, n: nat, kept: seq<Bar>, dropped: multiset<Bar>)
    requires ChartOf(shown, bars, n, kept, dropped)
    ensures var u, s := UserSum(bars), KernelSum(bars);
            if u + s == 0.0 then shown == []
            else
              && |shown| == |kept| + 1 && shown[|kept|].name == "others"
              && forall i :: 0 <= i < |kept| ==>
                   && shown[i].name == kept[i].name
                   && shown[i].load.user == kept[i].load.user / (u + s) * 100.0
                   && shown[i].load.system == kept[i].load.system / (u + s) * 100.0
  {
    hide BagLoad, UserSum, KernelSum, NoneHeavier;
    BagIsSums(bars);
  }

  lemma ChartSums(shown: seq<Bar>, bars: seq<Bar>, n: nat, kept: seq<Bar>, dropped: multiset<Bar>)
    requires ChartOf(shown, bars, n, kept, dropped) && UserSum(bars) + KernelSum(bars) != 0.0
    ensures var u, s := UserSum(bars), KernelSum(bars);
            UserSum(shown) == u / (u + s) * 100.0 && KernelSum(shown) == s / (u + s) * 100.0
  {
    hide NoneHeavier, BagLoad, UserSum, KernelSum, SharesOf;
    BagIsSums(bars);
    BagIsSums(shown);
    var whole := BagLoad(multiset(bars));
    var others := Bar("others", Share(BagLoad(dropped), Total(whole)));
    SharesOfBag(kept, Total(whole));
    assert multiset(shown) == multiset(SharesOf(kept, Total(whole))) + multiset{others};
    BagPlusOne(multiset(SharesOf(kept, Total(whole))), others);
    BagPlusBag(multiset(kept), dropped);
    ShareAdds(BagLoad(multiset(kept)), BagLoad(dropped), Total(whole));
  }

  /** So everything that is shown makes exactly 100. */
  lemma ChartIsComplete(shown: seq<Bar>, bars: seq<Bar>, n: nat, kept: seq<Bar>, dropped: multiset<Bar>)
    requires ChartOf(shown, bars, n, kept, dropped) && UserSum(bars) + KernelSum(bars) != 0.0
    ensures UserSum(shown) + KernelSum(shown) == 100.0
  {
    ChartSums(shown, bars, n, kept, dropped);
    hide ChartOf, UserSum, KernelSum;
    Hundred(UserSum(bars), KernelSum(bars));
  }

  lemma Hundred(u: real, s: real)
    requires u + s != 0.0
    ensures u / (u + s) * 100.0 + s / (u + s) * 100.0 == 100.0
  {
    assert u / (u + s) + s / (u + s) == (u + s) / (u + s) == 1.0;
  }
}
