/** Processor loads and their sums. */
module Loads {
  /** Time in user mode and in the kernel. */
  datatype Load = Load(user: real, system: real)

  const IDLE := Load(0.0, 0.0)

  function Plus(a: Load, b: Load): Load {
    Load(a.user + b.user, a.system + b.system)
  }

  function Minus(a: Load, b: Load): Load {
    Load(a.user - b.user, a.system - b.system)
  }

  function Total(a: Load): real {
    a.user + a.system
  }

  /** The sum over all processes of a name. */
  ghost function SumOf<K>(m: map<K, Load>): Load {
    if m == map[] then IDLE
    else
      var k :| k in m;
      Plus(m[k], SumOf(m - {k}))
  }

  /** Whichever key is taken first. */
  lemma {:induction false} SumWithout<K>(m: map<K, Load>, k: K)
    requires k in m
    ensures SumOf(m) == Plus(m[k], SumOf(m - {k}))
    decreases |m|
  {
    var j :| j in m && SumOf(m) == Plus(m[j], SumOf(m - {j}));
    if j != k {
      assert m - {j} - {k} == m - {k} - {j};
      SumWithout(m - {j}, k);
      SumWithout(m - {k}, j);
      assert SumOf(m) == Plus(m[j], Plus(m[k], SumOf(m - {j} - {k})));
    }
  }

  /** Times in user mode, and in the kernel, under the keys listed. */
  function UserTimes<K>(m: map<K, Load>, ks: seq<K>): real
    requires forall k :: k in ks ==> k in m
  {
    if ks == [] then 0.0 else m[ks[0]].user + UserTimes(m, ks[1..])
  }

  function KernelTimes<K>(m: map<K, Load>, ks: seq<K>): real
    requires forall k :: k in ks ==> k in m
  {
    if ks == [] then 0.0 else m[ks[0]].system + KernelTimes(m, ks[1..])
  }

  predicate Lists<K>(ks: seq<K>, m: map<K, Load>) {
    && (forall k :: k in ks ==> k in m) && (forall k :: k in m ==> k in ks)
    && forall i, j :: 0 <= i < j < |ks| ==> ks[i] != ks[j]
  }

  /** The sum has the two kinds of time apart, whichever way the keys are listed. */
  lemma {:induction false} SumMeans<K>(m: map<K, Load>, ks: seq<K>)
    requires Lists(ks, m)
    ensures SumOf(m).user == UserTimes(m, ks) && SumOf(m).system == KernelTimes(m, ks)
    decreases |ks|
  {
    hide SumOf;
    if ks == [] {
      assert m == map[];
      NothingToAdd<K>();
    } else {
      var k, rest := ks[0], ks[1..];
      assert k in ks && ks == [k] + rest;
      SumWithout(m, k);
      SumMeans(m - {k}, rest);
      SameTimes(m, m - {k}, rest);
    }
  }

  lemma NothingToAdd<K>()
    ensures SumOf<K>(map[]) == IDLE
  {
  }

  lemma {:induction false} SameTimes<K>(m: map<K, Load>, n: map<K, Load>, ks: seq<K>)
    requires forall k :: k in ks ==> k in m && k in n && m[k] == n[k]
    ensures UserTimes(m, ks) == UserTimes(n, ks) && KernelTimes(m, ks) == KernelTimes(n, ks)
  {
    if ks != [] {
      SameTimes(m, n, ks[1..]);
    }
  }

  /** Subtracting the old load and adding the new one keeps the sum. */
  lemma SumUpdate<K>(m: map<K, Load>, k: K, l: Load)
    ensures SumOf(m[k := l]) == Plus(Minus(SumOf(m), if k in m then m[k] else IDLE), l)
  {
    var n := m[k := l];
    assert n - {k} == m - {k};
    SumWithout(n, k);
    if k in m {
      SumWithout(m, k);
    } else {
      assert m - {k} == m;
    }
  }
}
