/** What a table of loads holds after any sequence of reports from any hosts. */
module LoadReports {
  import opened Loads
  import opened ProcessKeys

  datatype Process = Process(hostName: string, pid: nat)

  datatype Report = Report(process: Process, processName: string, load: Load)

  function KeyOf(p: Process): string {
    Key(p.hostName, p.pid)
  }

  /** What is known: by process name, and within it by key, the load filed there. */
  type Table = map<string, map<string, Load>>

  function Row(t: Table, processName: string): map<string, Load> {
    if processName in t then t[processName] else map[]
  }

  function Record(t: Table, r: Report): Table {
    t[r.processName := Row(t, r.processName)[KeyOf(r.process) := r.load]]
  }

  function RecordAll(t: Table, rs: seq<Report>): Table {
    if rs == [] then t else Record(RecordAll(t, rs[..|rs| - 1]), rs[|rs| - 1])
  }

  lemma {:induction false} RecordAllAppend(t: Table, rs: seq<Report>, qs: seq<Report>)
    ensures RecordAll(t, rs + qs) == RecordAll(RecordAll(t, rs), qs)
    decreases |qs|
  {
    if qs == [] {
      assert rs + qs == rs;
    } else {
      assert (rs + qs)[..|rs + qs| - 1] == rs + qs[..|qs| - 1];
      RecordAllAppend(t, rs, qs[..|qs| - 1]);
    }
  }

  /* ------------------------ the entry of one process ------------------------- */

  predicate FiledUnder(r: Report, processName: string, key: string) {
    r.processName == processName && KeyOf(r.process) == key
  }

  /** The entry is the load of the last report filed there. */
  lemma {:induction false} LastFiled(rs: seq<Report>, i: nat, processName: string, key: string)
    requires i < |rs| && FiledUnder(rs[i], processName, key)
    requires forall j :: i < j < |rs| ==> !FiledUnder(rs[j], processName, key)
    ensures var t := RecordAll(map[], rs);
            processName in t && key in t[processName] && t[processName][key] == rs[i].load
    decreases |rs|
  {
    if i < |rs| - 1 {
      LastFiled(rs[..|rs| - 1], i, processName, key);
    }
  }

  /** The same reports with any loads. */
  predicate SameProcesses(rs: seq<Report>, qs: seq<Report>) {
    |rs| == |qs| && forall i :: 0 <= i < |rs| ==> qs[i].process == rs[i].process && qs[i].processName == rs[i].processName
  }

  /** A later report of the name, from another host, has the same key. */
  predicate Overwritten(rs: seq<Report>, i: nat)
    requires i < |rs|
  {
    exists j :: i < j < |rs| && Collides(rs[j], rs[i])
  }

  predicate Collides(r: Report, q: Report) {
    r.processName == q.processName && r.process.hostName != q.process.hostName && KeyOf(r.process) == KeyOf(q.process)
  }

  /** The last of the name for its process. */
  predicate LastOfProcess(rs: seq<Report>, i: nat)
    requires i < |rs|
  {
    forall j :: i < j < |rs| && rs[j].processName == rs[i].processName ==> rs[j].process != rs[i].process
  }

  /** Whether the entry where report `i` was filed holds its load. */
  predicate Shows(rs: seq<Report>, i: nat)
    requires i < |rs|
  {
    var row := Row(RecordAll(map[], rs), rs[i].processName);
    KeyOf(rs[i].process) in row && row[KeyOf(rs[i].process)] == rs[i].load
  }

  /** Whatever the loads are, the entry of a process is its own last load, if and only if no later report
      of that name from another host has the same key. */
  lemma LastReportCounts(rs: seq<Report>, i: nat)
    requires i < |rs| && LastOfProcess(rs, i)
    ensures (forall qs :: SameProcesses(rs, qs) ==> Shows(qs, i)) <==> !Overwritten(rs, i)
  {
    hide RecordAll, Key;
    if Overwritten(rs, i) {
      var j := LastCollision(rs, i);
      var qs := rs[j := rs[j].(load := Plus(rs[i].load, Load(1.0, 0.0)))];
      assert SameProcesses(rs, qs) && qs[i].load == rs[i].load;
      LastFiled(qs, j, rs[i].processName, KeyOf(rs[i].process));
      assert !Shows(qs, i);
    } else {
      forall qs | SameProcesses(rs, qs)
        ensures Shows(qs, i)
      {
        forall j | i < j < |qs|
          ensures !FiledUnder(qs[j], rs[i].processName, KeyOf(rs[i].process))
        {
          NotFiledThere(rs, i, j);
        }
        LastFiled(qs, i, rs[i].processName, KeyOf(rs[i].process));
      }
    }
  }

  lemma NotFiledThere(rs: seq<Report>, i: nat, j: nat)
    requires i < j < |rs| && LastOfProcess(rs, i) && !Overwritten(rs, i)
    ensures !FiledUnder(rs[j], rs[i].processName, KeyOf(rs[i].process))
  {
    if FiledUnder(rs[j], rs[i].processName, KeyOf(rs[i].process)) {
      assert !Collides(rs[j], rs[i]);
      OneHost(rs[i].process.hostName, rs[i].process.pid, rs[j].process.pid);
    }
  }

  lemma LastCollision(rs: seq<Report>, i: nat) returns (j: nat)
    requires i < |rs| && LastOfProcess(rs, i) && Overwritten(rs, i)
    ensures i < j < |rs| && FiledUnder(rs[j], rs[i].processName, KeyOf(rs[i].process))
    ensures forall k :: j < k < |rs| ==> !FiledUnder(rs[k], rs[i].processName, KeyOf(rs[i].process))
  {
    var at :| i < at < |rs| && Collides(rs[at], rs[i]);
    j := |rs| - 1;
    while !FiledUnder(rs[j], rs[i].processName, KeyOf(rs[i].process))
      invariant at <= j < |rs|
      invariant forall k :: j < k < |rs| ==> !FiledUnder(rs[k], rs[i].processName, KeyOf(rs[i].process))
      decreases j
    {
      j := j - 1;
    }
  }

  /** Only reports of hosts whose names can be confused overwrite each other. */
  lemma OverwrittenByConfusable(rs: seq<Report>, i: nat, minPid: nat, maxPid: nat)
    requires i < |rs| && Overwritten(rs, i) && minPid <= 9
    requires forall r :: r in rs ==> minPid <= r.process.pid <= maxPid
    ensures exists j :: i < j < |rs| && Confusable(rs[i].process.hostName, rs[j].process.hostName, minPid, maxPid)
  {
    var j :| i < j < |rs| && Collides(rs[j], rs[i]);
    var p, q := rs[i].process, rs[j].process;
    assert rs[i] in rs && rs[j] in rs;
    assert SameKey(p.hostName, p.pid, q.hostName, q.pid);
    KeysCollide(p.hostName, q.hostName, minPid, maxPid);
  }

  /* ------------------------------ the sums ------------------------------------ */

  /** The last load reported for each process of a name. */
  function LastLoads(rs: seq<Report>, processName: string): map<Process, Load> {
    if rs == [] then map[]
    else
      var before, r := LastLoads(rs[..|rs| - 1], processName), rs[|rs| - 1];
      if r.processName == processName then before[r.process := r.load] else before
  }

  lemma {:induction false} LastLoadsAppend(rs: seq<Report>, qs: seq<Report>, processName: string)
    ensures LastLoads(rs + qs, processName) == LastLoads(rs, processName) + LastLoads(qs, processName)
    decreases |qs|
  {
    if qs == [] {
      assert rs + qs == rs;
    } else {
      assert (rs + qs)[..|rs + qs| - 1] == rs + qs[..|qs| - 1];
      LastLoadsAppend(rs, qs[..|qs| - 1], processName);
    }
  }

  /** What is known of a process is what the last report of it says. */
  lemma {:induction false} LastReport(rs: seq<Report>, processName: string, p: Process) returns (i: nat)
    requires p in LastLoads(rs, processName)
    ensures i < |rs| && rs[i] == Report(p, processName, LastLoads(rs, processName)[p])
    ensures forall j :: i < j < |rs| ==> rs[j].process != p || rs[j].processName != processName
    decreases |rs|
  {
    i := |rs| - 1;
    if rs[i].process != p || rs[i].processName != processName {
      i := LastReport(rs[..i], processName, p);
    }
  }

  lemma {:induction false} ReportedIsKnown(rs: seq<Report>, i: nat)
    requires i < |rs|
    ensures rs[i].process in LastLoads(rs, rs[i].processName)
    decreases |rs|
  {
    if i < |rs| - 1 {
      ReportedIsKnown(rs[..|rs| - 1], i);
    }
  }

  predicate KeysApart(ps: set<Process>) {
    forall p, q :: p in ps && q in ps && KeyOf(p) == KeyOf(q) ==> p == q
  }

  function KeysOf(ps: set<Process>): set<string> {
    set p | p in ps :: KeyOf(p)
  }

  /** The keys of a row are those of the processes of the name. */
  lemma {:induction false} RowKeys(rs: seq<Report>, processName: string)
    ensures Row(RecordAll(map[], rs), processName).Keys == KeysOf(LastLoads(rs, processName).Keys)
    decreases |rs|
  {
    hide Key;
    if rs != [] {
      RowKeys(rs[..|rs| - 1], processName);
    }
  }

  /** While the keys differ, each process has its own entry. */
  lemma {:induction false} RowLoads(rs: seq<Report>, processName: string, p: Process)
    requires KeysApart(LastLoads(rs, processName).Keys) && p in LastLoads(rs, processName)
    ensures var row := Row(RecordAll(map[], rs), processName);
            KeyOf(p) in row && row[KeyOf(p)] == LastLoads(rs, processName)[p]
    decreases |rs|
  {
    hide Key;
    var before, r := rs[..|rs| - 1], rs[|rs| - 1];
    assert LastLoads(before, processName).Keys <= LastLoads(rs, processName).Keys;
    if r.processName != processName || p != r.process {
      RowLoads(before, processName, p);
    }
  }

  /** Filing loads under different keys does not change their sum. */
  lemma {:induction false} SumRekeyed(m: map<Process, Load>, row: map<string, Load>)
    requires KeysApart(m.Keys) && row.Keys == KeysOf(m.Keys)
    requires forall p :: p in m ==> row[KeyOf(p)] == m[p]
    ensures SumOf(row) == SumOf(m)
    decreases |m|
  {
    hide Key, SumOf, KeysApart;
    if m == map[] {
      assert row == map[];
      NothingToAdd<Process>();
      NothingToAdd<string>();
    } else {
      var p :| p in m;
      assert KeyOf(p) in KeysOf(m.Keys);
      KeysWithout(m.Keys, p);
      assert (row - {KeyOf(p)}).Keys == row.Keys - {KeyOf(p)} && (m - {p}).Keys == m.Keys - {p};
      SumRekeyed(m - {p}, row - {KeyOf(p)});
      SumWithout(m, p);
      SumWithout(row, KeyOf(p));
    }
  }

  lemma KeysWithout(ps: set<Process>, p: Process)
    requires KeysApart(ps) && p in ps
    ensures KeysOf(ps - {p}) == KeysOf(ps) - {KeyOf(p)} && KeysApart(ps - {p})
    ensures forall q :: q in ps - {p} ==> KeyOf(q) != KeyOf(p)
  {
    hide Key;
  }

  /** Whatever the loads are, a sum over a row is the sum of the last loads of the processes of that name,
      if and only if their keys differ. */
  lemma SumOverProcesses(rs: seq<Report>, processName: string)
    ensures (forall qs :: SameProcesses(rs, qs) ==>
               SumOf(Row(RecordAll(map[], qs), processName)) == SumOf(LastLoads(qs, processName)))
       <==> KeysApart(LastLoads(rs, processName).Keys)
  {
    hide Key, SumOf, RecordAll, LastLoads;
    if KeysApart(LastLoads(rs, processName).Keys) {
      forall qs | SameProcesses(rs, qs)
        ensures SumOf(Row(RecordAll(map[], qs), processName)) == SumOf(LastLoads(qs, processName))
      {
        SumWhileApart(rs, qs, processName);
      }
    } else {
      var qs := seq(|rs|, i requires 0 <= i < |rs| => rs[i].(load := ONE));
      SameLastLoads(rs, qs, processName);
      var row, m := Row(RecordAll(map[], qs), processName), LastLoads(qs, processName);
      RowKeys(qs, processName);
      OnesOnly(qs, processName);
      SumOfOnes(row);
      SumOfOnes(m);
      FewerKeys(m.Keys);
    }
  }

  const ONE := Load(1.0, 0.0)

  lemma SumWhileApart(rs: seq<Report>, qs: seq<Report>, processName: string)
    requires SameProcesses(rs, qs) && KeysApart(LastLoads(rs, processName).Keys)
    ensures SumOf(Row(RecordAll(map[], qs), processName)) == SumOf(LastLoads(qs, processName))
  {
    hide Key, SumOf, RecordAll, LastLoads;
    SameLastLoads(rs, qs, processName);
    RowKeys(qs, processName);
    forall p | p in LastLoads(qs, processName)
      ensures Row(RecordAll(map[], qs), processName)[KeyOf(p)] == LastLoads(qs, processName)[p]
    {
      RowLoads(qs, processName, p);
    }
    SumRekeyed(LastLoads(qs, processName), Row(RecordAll(map[], qs), processName));
  }

  lemma {:induction false} SameLastLoads(rs: seq<Report>, qs: seq<Report>, processName: string)
    requires SameProcesses(rs, qs)
    ensures LastLoads(qs, processName).Keys == LastLoads(rs, processName).Keys
    decreases |rs|
  {
    if rs != [] {
      SameLastLoads(rs[..|rs| - 1], qs[..|qs| - 1], processName);
    }
  }

  /** If every report is of a load of one, so is every entry. */
  lemma {:induction false} OnesOnly(qs: seq<Report>, processName: string)
    requires forall q :: q in qs ==> q.load == ONE
    ensures forall k :: k in Row(RecordAll(map[], qs), processName) ==> Row(RecordAll(map[], qs), processName)[k] == ONE
    ensures forall p :: p in LastLoads(qs, processName) ==> LastLoads(qs, processName)[p] == ONE
    decreases |qs|
  {
    hide Key;
    if qs != [] {
      var before, q := qs[..|qs| - 1], qs[|qs| - 1];
      assert q in qs;
      OnesOnly(before, processName);
      var row := Row(RecordAll(map[], before), processName);
      assert Row(RecordAll(map[], qs), processName) ==
             if q.processName == processName then row[KeyOf(q.process) := q.load] else row;
    }
  }

  lemma {:induction false} SumOfOnes<K>(m: map<K, Load>)
    requires forall k :: k in m ==> m[k] == ONE
    ensures SumOf(m).user == |m.Keys| as real
    decreases |m|
  {
    if m != map[] {
      var k :| k in m;
      SumWithout(m, k);
      SumOfOnes(m - {k});
      assert (m - {k}).Keys == m.Keys - {k};
    }
  }

  /** Processes that share keys have fewer keys than there are processes. */
  lemma FewerKeys(ps: set<Process>)
    requires !KeysApart(ps)
    ensures |KeysOf(ps)| < |ps|
  {
    hide Key;
    var p, q :| p in ps && q in ps && KeyOf(p) == KeyOf(q) && p != q;
    assert KeysOf(ps) == KeysOf(ps - {p}) by {
      assert q in ps - {p};
    }
    AtMostAsMany(ps - {p});
  }

  lemma {:induction false} AtMostAsMany(ps: set<Process>)
    ensures |KeysOf(ps)| <= |ps|
  {
    hide Key;
    if ps != {} {
      var p :| p in ps;
      AtMostAsMany(ps - {p});
      assert KeysOf(ps) == KeysOf(ps - {p}) + {KeyOf(p)};
    }
  }
}
