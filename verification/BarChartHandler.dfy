/** The loads of processes by name: sums that are kept by subtracting and adding (modules/barchart/Handler). */
module BarChartHandlers {
  import opened Loads
  import opened ProcessKeys
  import opened LoadReports

  datatype ProcessMessage = ProcessMessage(processName: string, pid: nat, load: Load)

  datatype WallmonMessage = WallmonMessage(hostName: string, processes: seq<ProcessMessage>)

  function ReportOf(hostName: string, m: ProcessMessage): Report {
    Report(Process(hostName, m.pid), m.processName, m.load)
  }

  function Reports(hostName: string, ms: seq<ProcessMessage>): seq<Report> {
    seq(|ms|, i requires 0 <= i < |ms| => ReportOf(hostName, ms[i]))
  }

  /** The reports in a sequence of messages from any hosts. */
  function AllReports(messages: seq<WallmonMessage>): seq<Report> {
    if messages == [] then []
    else
      var last := messages[|messages| - 1];
      AllReports(messages[..|messages| - 1]) + Reports(last.hostName, last.processes)
  }

  /** The `j`th process of the `i`th message is the process `p`, named `n`. */
  predicate Says(messages: seq<WallmonMessage>, i: int, j: int, n: string, p: Process) {
    && 0 <= i < |messages| && messages[i].hostName == p.hostName
    && 0 <= j < |messages[i].processes| && messages[i].processes[j].processName == n && messages[i].processes[j].pid == p.pid
  }

  /** What is known of a process after any messages is what was said of it last; and it is known as soon as
      anything was said. */
  lemma {:induction false} LastSaid(messages: seq<WallmonMessage>, n: string, p: Process) returns (i: int, j: int)
    requires p in LastLoads(AllReports(messages), n)
    ensures Says(messages, i, j, n, p) && LastLoads(AllReports(messages), n)[p] == messages[i].processes[j].load
    ensures forall k, l :: Says(messages, k, l, n, p) ==> k < i || (k == i && l <= j)
    decreases |messages|
  {
    i := |messages| - 1;
    var last := messages[i];
    var before, rs := AllReports(messages[..i]), Reports(last.hostName, last.processes);
    LastLoadsAppend(before, rs, n);
    if p in LastLoads(rs, n) {
      j := LastReport(rs, n, p);
      forall k, l | Says(messages, k, l, n, p)
        ensures k < i || (k == i && l <= j)
      {
        if k == i {
          assert rs[l].process == p;
        }
      }
    } else {
      i, j := LastSaid(messages[..i], n, p);
      forall k, l | Says(messages, k, l, n, p)
        ensures k < i || (k == i && l <= j)
      {
        if k == |messages| - 1 {
          ReportedIsKnown(rs, l);
        } else {
          assert Says(messages[..|messages| - 1], k, l, n, p);
        }
      }
    }
  }

  lemma {:induction false} SaidIsKnown(messages: seq<WallmonMessage>, i: int, j: int, n: string, p: Process)
    requires Says(messages, i, j, n, p)
    ensures p in LastLoads(AllReports(messages), n)
    decreases |messages|
  {
    var k := |messages| - 1;
    var before, rs := AllReports(messages[..k]), Reports(messages[k].hostName, messages[k].processes);
    LastLoadsAppend(before, rs, n);
    if i < k {
      SaidIsKnown(messages[..k], i, j, n, p);
    } else {
      ReportedIsKnown(rs, j);
    }
  }

  /** The load of one process; where it is filed never changes. */
  class ProcStat {
    ghost const processName: string
    ghost const procKey: string
    var userCpuLoad: real
    var systemCpuLoad: real

    constructor (ghost processName: string, ghost procKey: string)
      ensures this.processName == processName && this.procKey == procKey
      ensures Latest() == IDLE
    {
      this.processName, this.procKey := processName, procKey;
      userCpuLoad, systemCpuLoad := 0.0, 0.0;
    }

    function Latest(): Load
      reads this
    {
      Load(userCpuLoad, systemCpuLoad)
    }
  }

  class ProcNameStat {
    var procMap: map<string, ProcStat>
    var userCpuLoad: real
    var systemCpuLoad: real
    /** The load stored for each process, and the objects they are stored in. */
    ghost const processName: string
    ghost var latest: map<string, Load>
    ghost var stats: set<ProcStat>

    function Aggregate(): Load
      reads this`userCpuLoad, this`systemCpuLoad
    {
      Load(userCpuLoad, systemCpuLoad)
    }

    /** The objects hold the loads `m`, each object those of one process of this name. */
    ghost predicate Stored(m: map<string, Load>)
      reads this`procMap, this`stats, stats
    {
      && procMap.Keys == m.Keys
      && (forall p :: p in stats ==> p.processName == processName)
      && (forall k :: k in m ==> procMap[k] in stats && procMap[k].procKey == k && procMap[k].Latest() == m[k])
    }

    /** The sums are the sums over the map of the latest loads. */
    ghost predicate Valid()
      reads this, stats
    {
      Stored(latest) && Aggregate() == SumOf(latest)
    }

    constructor (ghost processName: string)
      ensures Valid() && latest == map[] && stats == {} && this.processName == processName
    {
      this.processName := processName;
      procMap, userCpuLoad, systemCpuLoad := map[], 0.0, 0.0;
      latest, stats := map[], {};
    }

    /** `Get`: a process that is not there yet is put in, with no load. */
    method Get(procKey: string) returns (p: ProcStat)
      requires Valid()
      modifies this
      ensures Valid() && procKey in procMap && procMap[procKey] == p && p.procKey == procKey
      ensures latest == (if procKey in old(latest) then old(latest) else old(latest)[procKey := IDLE])
      ensures stats == old(stats) + {p} && (p in old(stats) || fresh(p))
    {
      hide SumOf;
      if procKey !in procMap {
        p := new ProcStat(processName, procKey);
        SumUpdate(latest, procKey, IDLE);
        procMap, latest, stats := procMap[procKey := p], latest[procKey := IDLE], stats + {p};
      }
      p := procMap[procKey];
    }

    /** What `Handle` does with the two levels for one process: the old load is taken out of the sum, the
        new one is stored and added. */
    method Update(procKey: string, load: Load)
      requires Valid()
      modifies this, stats
      ensures Valid() && old(stats) <= stats && fresh(stats - old(stats))
      ensures latest == old(latest)[procKey := load]
    {
      hide SumOf, Stored, Aggregate, ProcStat.Latest;
      var procStat := Get(procKey);
      SumUpdate(latest, procKey, load);
      StoredLoad(procStat);
      TakeOut(procStat);
      Store(procStat, load);
      PutIn(procStat);
      latest := latest[procKey := load];
    }

    lemma StoredLoad(p: ProcStat)
      requires Stored(latest) && p.procKey in procMap && procMap[p.procKey] == p
      ensures p in stats && p.procKey in latest && p.Latest() == latest[p.procKey]
    {
    }

    method Store(p: ProcStat, load: Load)
      requires Stored(latest) && p.procKey in procMap && procMap[p.procKey] == p
      modifies p
      ensures Stored(latest[p.procKey := load]) && p.Latest() == load
    {
      p.userCpuLoad, p.systemCpuLoad := load.user, load.system;
    }

    method TakeOut(p: ProcStat)
      modifies this`userCpuLoad, this`systemCpuLoad
      ensures Aggregate() == Minus(old(Aggregate()), p.Latest())
    {
      userCpuLoad := userCpuLoad - p.userCpuLoad;
      systemCpuLoad := systemCpuLoad - p.systemCpuLoad;
    }

    method PutIn(p: ProcStat)
      modifies this`userCpuLoad, this`systemCpuLoad
      ensures Aggregate() == Plus(old(Aggregate()), p.Latest())
    {
      userCpuLoad := userCpuLoad + p.userCpuLoad;
      systemCpuLoad := systemCpuLoad + p.systemCpuLoad;
    }
  }

  class Handler {
    var processNameMap: map<string, ProcNameStat>
    ghost var known: Table
    ghost var names: set<ProcNameStat>
    ghost var stats: set<ProcStat>

    /** Each row of the table is in an object of its own, with processes of its own. */
    ghost predicate Valid()
      reads this, names, stats
    {
      processNameMap.Keys == known.Keys && forall n :: n in known ==> Row(n)
    }

    ghost predicate Row(n: string)
      requires n in processNameMap && n in known
      reads this, names, stats
    {
      && processNameMap[n] in names && processNameMap[n].stats <= stats && processNameMap[n].processName == n
      && processNameMap[n].Valid() && processNameMap[n].latest == known[n]
    }

    /** After any messages from any hosts, the two sums kept for a name are those of the last times in user
        mode and in the kernel of the processes `ps` reported under it, while their keys differ. */
    lemma AggregateIsSum(messages: seq<WallmonMessage>, n: string, ps: seq<Process>)
      requires Valid() && known == RecordAll(map[], AllReports(messages)) && n in known
      requires KeysApart(LastLoads(AllReports(messages), n).Keys)
      requires Lists(ps, LastLoads(AllReports(messages), n))
      ensures processNameMap[n].userCpuLoad == UserTimes(LastLoads(AllReports(messages), n), ps)
      ensures processNameMap[n].systemCpuLoad == KernelTimes(LastLoads(AllReports(messages), n), ps)
    {
      SumMeans(LastLoads(AllReports(messages), n), ps);
      hide SumOf, Key, KeysApart, AllReports, RecordAll, LastLoads;
      SumWhileApart(AllReports(messages), AllReports(messages), n);
    }

    constructor ()
      ensures Valid() && known == map[] && names == {} && stats == {}
    {
      processNameMap, known, names, stats := map[], map[], {}, {};
    }

    /** A name that is not registered yet gets an empty row. */
    method Register(name: string)
      requires Valid()
      modifies this
      ensures Valid() && name in known && fresh(names - old(names)) && stats == old(stats)
      ensures known == if name in old(known) then old(known) else old(known)[name := map[]]
    {
      hide SumOf, ProcNameStat.Stored, ProcNameStat.Aggregate;
      if name !in processNameMap {
        var added := new ProcNameStat(name);
        processNameMap, known, names := processNameMap[name := added], known[name := map[]], names + {added};
      }
    }

    lemma RowsApart(name: string, n: string)
      requires Valid() && name in known && n in known && n != name
      ensures processNameMap[n] != processNameMap[name] && processNameMap[n].stats !! processNameMap[name].stats
    {
    }

    method HandleProcess(hostName: string, m: ProcessMessage)
      requires Valid()
      modifies this, names, stats
      ensures Valid() && fresh(names - old(names)) && fresh(stats - old(stats))
      ensures known == Record(old(known), ReportOf(hostName, m))
      ensures m.processName in known && Key(hostName, m.pid) in known[m.processName]
      ensures known[m.processName][Key(hostName, m.pid)] == m.load
    {
      hide SumOf, Key, Valid, ProcNameStat.Valid;
      Register(m.processName);
      UpdateRow(m.processName, Key(hostName, m.pid), m.load);
    }

    method UpdateRow(name: string, procKey: string, load: Load)
      requires Valid() && name in known
      modifies this, names, stats
      ensures Valid() && names == old(names) && fresh(stats - old(stats))
      ensures known == old(known)[name := old(known)[name][procKey := load]]
    {
      hide SumOf, ProcNameStat.Valid;
      var procNameStat := processNameMap[name];
      forall n | n in known && n != name
        ensures processNameMap[n] != procNameStat && processNameMap[n].stats !! procNameStat.stats
      {
        RowsApart(name, n);
      }
      procNameStat.Update(procKey, load);
      known, stats := known[name := procNameStat.latest], stats + procNameStat.stats;
      forall n | n in known
        ensures Row(n)
      {
        if n != name {
          assert old(Row(n));
        }
      }
    }

    /** `Handle`: the processes of one message, in order. */
    method Handle(message: WallmonMessage)
      requires Valid()
      modifies this, names, stats
      ensures Valid() && fresh(names - old(names)) && fresh(stats - old(stats))
      ensures known == RecordAll(old(known), Reports(message.hostName, message.processes))
    {
      hide Valid, Key;
      var ms := message.processes;
      ghost var rs := Reports(message.hostName, ms);
      for i := 0 to |ms|
        invariant Valid() && fresh(names - old(names)) && fresh(stats - old(stats))
        invariant known == RecordAll(old(known), rs[..i])
      {
        HandleProcess(message.hostName, ms[i]);
        assert rs[..i + 1][..i] == rs[..i];
      }
      assert rs[..|ms|] == rs;
    }

    /** Messages as they come in, from any hosts. */
    method HandleAll(messages: seq<WallmonMessage>)
      requires Valid()
      modifies this, names, stats
      ensures Valid() && known == RecordAll(old(known), AllReports(messages))
    {
      hide Valid, RecordAll;
      RecordNone(known);
      for i := 0 to |messages|
        invariant Valid() && fresh(names - old(names)) && fresh(stats - old(stats))
        invariant known == RecordAll(old(known), AllReports(messages[..i]))
      {
        Handle(messages[i]);
        assert messages[..i + 1][..i] == messages[..i];
        RecordAllAppend(old(known), AllReports(messages[..i]), Reports(messages[i].hostName, messages[i].processes));
      }
      assert messages[..|messages|] == messages;
    }
  }

  lemma RecordNone(t: Table)
    ensures RecordAll(t, AllReports([])) == t
  {
  }
}
