/** A heap in an array with the lightest bar in front: `push_heap` and `pop_heap` with `MinHeapCompare`. */
module ArrayHeaps {
  import opened Loads

  datatype Bar = Bar(name: string, load: Load)

  function Weight(b: Bar): real {
    Total(b.load)
  }

  function Parent(i: int): (p: int)
    requires i > 0
    ensures 0 <= p < i
  {
    (i - 1) / 2
  }

  predicate InOrder(s: seq<Bar>, i: int)
    requires 0 < i < |s|
  {
    Weight(s[Parent(i)]) <= Weight(s[i])
  }

  ghost predicate Heap(s: seq<Bar>) {
    forall i :: 0 < i < |s| ==> InOrder(s, i)
  }

  lemma {:induction false} FrontIsLightest(s: seq<Bar>, i: nat)
    requires Heap(s) && i < |s|
    ensures Weight(s[0]) <= Weight(s[i])
  {
    if i > 0 {
      assert InOrder(s, i);
      FrontIsLightest(s, Parent(i));
    }
  }

  function Swap(s: seq<Bar>, i: nat, j: nat): (t: seq<Bar>)
    requires i < |s| && j < |s|
    ensures |t| == |s|
  {
    s[i := s[j]][j := s[i]]
  }

  lemma SwapKeepsBag(s: seq<Bar>, i: nat, j: nat)
    requires i < |s| && j < |s|
    ensures multiset(Swap(s, i, j)) == multiset(s)
  {
  }

  /** Two of the first `n` bars change places. */
  method Exchange(a: array<Bar>, n: nat, i: nat, j: nat)
    requires i < n <= a.Length && j < n
    modifies a
    ensures a[..n] == Swap(old(a[..n]), i, j) && a[n..] == old(a[n..])
    ensures multiset(a[..n]) == multiset(old(a[..n]))
  {
    SwapKeepsBag(a[..n], i, j);
    a[i], a[j] := a[j], a[i];
    assert a[..n] == Swap(old(a[..n]), i, j);
  }

  /** Only `i` may be lighter than its parent, and its parent is no heavier than the children of `i`. */
  ghost predicate HeapButUp(s: seq<Bar>, i: nat) {
    && i < |s|
    && (forall j :: 0 < j < |s| && j != i ==> InOrder(s, j))
    && (i > 0 ==> forall c :: 0 < c < |s| && Parent(c) == i ==> Weight(s[Parent(i)]) <= Weight(s[c]))
  }

  lemma UpStep(s: seq<Bar>, i: nat)
    requires HeapButUp(s, i) && i > 0 && Weight(s[i]) < Weight(s[Parent(i)])
    ensures HeapButUp(Swap(s, i, Parent(i)), Parent(i))
  {
    var p := Parent(i);
    var t := Swap(s, i, p);
    forall j | 0 < j < |t| && j != p
      ensures InOrder(t, j)
    {
      if j != i {
        assert InOrder(s, j);
      }
    }
    if p > 0 {
      assert InOrder(s, p);
      forall c | 0 < c < |t| && Parent(c) == p
        ensures Weight(t[Parent(p)]) <= Weight(t[c])
      {
        if c != i {
          assert InOrder(s, c);
        }
      }
    }
  }

  /** `push_heap`: the last of the first `n` bars is moved up to where it belongs. */
  method PushHeap(a: array<Bar>, n: nat)
    requires 0 < n <= a.Length && Heap(a[..n - 1])
    modifies a
    ensures Heap(a[..n]) && multiset(a[..n]) == old(multiset(a[..n])) && a[n..] == old(a[n..])
  {
    hide Weight;
    var i := n - 1;
    forall j | 0 < j < n && j != i
      ensures InOrder(a[..n], j)
    {
      assert InOrder(a[..n - 1], j);
    }
    while i > 0 && Weight(a[i]) < Weight(a[Parent(i)])
      invariant 0 <= i < n && HeapButUp(a[..n], i)
      invariant multiset(a[..n]) == old(multiset(a[..n])) && a[n..] == old(a[n..])
    {
      var p := Parent(i);
      UpStep(a[..n], i);
      Exchange(a, n, i, p);
      i := p;
    }
    if i > 0 {
      assert InOrder(a[..n], i);
    }
  }

  /** Only the children of `i` may be lighter than it, and they are no lighter than its parent. */
  ghost predicate HeapButDown(s: seq<Bar>, i: nat) {
    && (forall j :: 0 < j < |s| && Parent(j) != i ==> InOrder(s, j))
    && (0 < i < |s| ==> forall c :: 0 < c < |s| && Parent(c) == i ==> Weight(s[Parent(i)]) <= Weight(s[c]))
  }

  lemma DownStep(s: seq<Bar>, i: nat, c: nat)
    requires HeapButDown(s, i) && 0 < c < |s| && Parent(c) == i && Weight(s[c]) < Weight(s[i])
    requires forall d :: 0 < d < |s| && Parent(d) == i ==> Weight(s[c]) <= Weight(s[d])
    ensures HeapButDown(Swap(s, i, c), c)
  {
    var t := Swap(s, i, c);
    forall j | 0 < j < |t| && Parent(j) != c
      ensures InOrder(t, j)
    {
      if Parent(j) != i {
        assert InOrder(s, j);
      }
    }
    forall d | 0 < d < |t| && Parent(d) == c
      ensures Weight(t[Parent(c)]) <= Weight(t[d])
    {
      assert InOrder(s, d);
    }
  }

  /** The lighter child of `i` among the first `m`. */
  method LighterChild(a: array<Bar>, i: nat, m: nat) returns (c: nat)
    requires 2 * i + 1 < m <= a.Length
    ensures i < c < m && Parent(c) == i
    ensures forall d :: 0 < d < m && Parent(d) == i ==> Weight(a[c]) <= Weight(a[d])
  {
    c := 2 * i + 1;
    if c + 1 < m && Weight(a[c + 1]) < Weight(a[c]) {
      c := c + 1;
    }
  }

  /** The rest of `pop_heap` once the front was exchanged with a bar from the back. */
  method SiftDown(a: array<Bar>, m: nat)
    requires m <= a.Length && HeapButDown(a[..m], 0)
    modifies a
    ensures Heap(a[..m]) && multiset(a[..m]) == old(multiset(a[..m])) && a[m..] == old(a[m..])
  {
    hide Weight;
    var i := 0;
    while 2 * i + 1 < m
      invariant HeapButDown(a[..m], i)
      invariant multiset(a[..m]) == old(multiset(a[..m])) && a[m..] == old(a[m..])
      decreases m - i
    {
      var c := LighterChild(a, i, m);
      ghost var s := a[..m];
      if Weight(a[c]) >= Weight(a[i]) {
        DownDone(s, i, c);
        return;
      }
      DownStep(s, i, c);
      Exchange(a, m, i, c);
      i := c;
    }
    forall j | 0 < j < m
      ensures InOrder(a[..m], j)
    {
      assert Parent(j) != i;
    }
  }

  lemma DownDone(s: seq<Bar>, i: nat, c: nat)
    requires HeapButDown(s, i) && i < c < |s| && Weight(s[c]) >= Weight(s[i])
    requires forall d :: 0 < d < |s| && Parent(d) == i ==> Weight(s[c]) <= Weight(s[d])
    ensures Heap(s)
  {
    forall j | 0 < j < |s|
      ensures InOrder(s, j)
    {
      if Parent(j) == i {
        assert Weight(s[c]) <= Weight(s[j]);
      }
    }
  }

  lemma ExchangedEnds(s: seq<Bar>)
    requires Heap(s) && s != []
    ensures HeapButDown(Swap(s, 0, |s| - 1)[..|s| - 1], 0) && Swap(s, 0, |s| - 1)[|s| - 1] == s[0]
  {
    var t := Swap(s, 0, |s| - 1)[..|s| - 1];
    forall j | 0 < j < |t| && Parent(j) != 0
      ensures InOrder(t, j)
    {
      assert InOrder(s, j);
    }
  }

  lemma BagOfLast(s: seq<Bar>)
    requires s != []
    ensures multiset(s) == multiset(s[..|s| - 1]) + multiset{s[|s| - 1]}
  {
    assert s == s[..|s| - 1] + [s[|s| - 1]];
  }

  /** `pop_heap`: the lightest of the first `n` bars goes last, the others stay a heap. */
  method PopHeap(a: array<Bar>, n: nat)
    requires 0 < n <= a.Length && Heap(a[..n])
    modifies a
    ensures Heap(a[..n - 1]) && a[n - 1] == old(a[0])
    ensures multiset(a[..n]) == old(multiset(a[..n])) && a[n..] == old(a[n..])
  {
    hide Heap, HeapButDown, Swap;
    ghost var s := a[..n];
    ExchangedEnds(s);
    Exchange(a, n, 0, n - 1);
    ghost var t, whole := a[..n], a[..];
    assert a[..n - 1] == t[..n - 1];
    SiftDown(a, n - 1);
    BackStays(whole, a[..], n);
    assert a[..n][..n - 1] == a[..n - 1];
    SameBag(t, a[..n]);
  }

  lemma BackStays(s: seq<Bar>, t: seq<Bar>, n: nat)
    requires 0 < n <= |s| == |t| && s[n - 1..] == t[n - 1..]
    ensures s[n - 1] == t[n - 1] && s[n..] == t[n..]
  {
    assert s[n - 1..][0] == t[n - 1..][0] && s[n - 1..][1..] == s[n..] && t[n - 1..][1..] == t[n..];
  }

  lemma SameBag(s: seq<Bar>, t: seq<Bar>)
    requires |s| == |t| > 0 && s[|s| - 1] == t[|t| - 1]
    requires multiset(s[..|s| - 1]) == multiset(t[..|t| - 1])
    ensures multiset(s) == multiset(t)
  {
    BagOfLast(s);
    BagOfLast(t);
  }
}
