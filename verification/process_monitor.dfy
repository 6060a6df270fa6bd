/**
 `ProcessMonitor` (process_monitor.cpp/.h): the totals of a process
 snapshot, the lookups by pid and by name, and the CPU-usage cache of
 `GetProcessCpuUsage`.

 The toolhelp enumeration and the per-process queries are inputs: a
 snapshot's process list is given, and each CPU reading arrives as the
 process's and the system's kernel and user FILETIMEs (`None` when the
 process cannot be opened or a query fails) plus the tick count.
 */
module ProcessMonitor {
  import opened Common
  import Text
  import DataCollector

  /** A process record; `threadCount` and `priority` are the header's `int32_t`. */
  datatype ProcessInfo = ProcessInfo(
    pid: u32, parentPid: u32, name: string, fullPath: string, state: string, username: string,
    cpuUsage: real, memoryUsage: u64, workingSetSize: u64, pagefileUsage: u64,
    createTime: int, priority: int, threadCount: int, commandLine: string)

  datatype ProcessSnapshot = ProcessSnapshot(
    processes: seq<ProcessInfo>, timestamp: u64, totalProcesses: u32, totalThreads: u32)

  /** `ProcessInfo()`: the value-initialised record, every number 0 and every string empty. */
  const EMPTY_PROCESS: ProcessInfo := ProcessInfo(0, 0, "", "", "", "", 0.0, 0, 0, 0, 0, 0, 0, "")

  // ---------------------------------------------------------------------
  // Totals

  /** The exact sum of the thread counts. */
  function SumThreads(ps: seq<ProcessInfo>): int
  {
    if |ps| == 0 then 0 else SumThreads(ps[..|ps| - 1]) + ps[|ps| - 1].threadCount
  }

  lemma AddMod(a: int, b: int)
    ensures (a % TWO_32 + b % TWO_32) % TWO_32 == (a + b) % TWO_32
  {
  }

  /**
   `GetProcessSnapshot`: the count is the list's size cast to `uint32_t`;
   the thread total adds each `int32_t` count into a `uint32_t`, so it is
   the exact sum modulo 2^32.
   */
  method GetProcessSnapshot(processes: seq<ProcessInfo>, tick: u64) returns (s: ProcessSnapshot)
    ensures s.processes == processes && s.timestamp == tick
    ensures s.totalProcesses == |processes| % TWO_32
    ensures s.totalThreads == SumThreads(processes) % TWO_32
  {
    var total: u32 := 0;
    var i := 0;
    while i < |processes|
      invariant 0 <= i <= |processes|
      invariant total == SumThreads(processes[..i]) % TWO_32
    {
      assert processes[..i + 1][..i] == processes[..i];
      AddMod(SumThreads(processes[..i]), processes[i].threadCount);
      total := (total + processes[i].threadCount % TWO_32) % TWO_32;
      i := i + 1;
    }
    assert processes[..i] == processes;
    s := ProcessSnapshot(processes, tick, Wrap32(|processes|), total);
  }

  /** When the thread counts are non-negative and sum below 2^32, the total is exact. */
  lemma TotalThreadsExact(processes: seq<ProcessInfo>)
    requires forall p :: p in processes ==> p.threadCount >= 0
    requires SumThreads(processes) < TWO_32
    ensures SumThreads(processes) >= 0
    ensures SumThreads(processes) % TWO_32 == SumThreads(processes)
  {
    NonNegativeSum(processes);
  }

  lemma {:induction false} NonNegativeSum(processes: seq<ProcessInfo>)
    requires forall p :: p in processes ==> p.threadCount >= 0
    ensures SumThreads(processes) >= 0
  {
    if |processes| > 0 {
      assert processes[|processes| - 1] in processes;
      NonNegativeSum(processes[..|processes| - 1]);
    }
  }

  // ---------------------------------------------------------------------
  // Lookups

  /** `GetProcessInfo`: the first process with the pid, else the empty record whose pid is 0. */
  function GetProcessInfo(processes: seq<ProcessInfo>, pid: u32): (r: ProcessInfo)
    ensures r in processes || r == EMPTY_PROCESS
    ensures (exists p :: p in processes && p.pid == pid) ==> r.pid == pid && r in processes
    ensures (forall p :: p in processes ==> p.pid != pid) ==> r == EMPTY_PROCESS
  {
    if |processes| == 0 then EMPTY_PROCESS
    else if processes[0].pid == pid then processes[0]
    else
      assert forall p :: p in processes[1..] ==> p in processes;
      assert forall p :: p in processes && p != processes[0] ==> p in processes[1..];
      GetProcessInfo(processes[1..], pid)
  }

  /** The record returned is the first one with the pid. */
  lemma {:induction false} GetProcessInfoFirst(processes: seq<ProcessInfo>, pid: u32, i: nat)
    requires i < |processes| && processes[i].pid == pid
    requires forall j :: 0 <= j < i ==> processes[j].pid != pid
    ensures GetProcessInfo(processes, pid) == processes[i]
  {
    if i > 0 {
      GetProcessInfoFirst(processes[1..], pid, i - 1);
    }
  }

  /** A missing pid and a present pid 0 both give a record with pid 0: the caller cannot tell them apart. */
  lemma MissingPidLooksLikePidZero(processes: seq<ProcessInfo>, pid: u32)
    requires forall p :: p in processes ==> p.pid != pid
    ensures GetProcessInfo(processes, pid).pid == 0
  {
  }

  /** The test of `_stricmp(process.name, name) == 0`. */
  function NameIs(name: string): ProcessInfo -> bool
  {
    (p: ProcessInfo) => Text.EqualsIgnoreCase(p.name, name)
  }

  /** `FindProcessesByName`: the processes whose whole name equals the query up to ASCII case, in order. */
  function FindProcessesByName(processes: seq<ProcessInfo>, name: string): (r: seq<ProcessInfo>)
    ensures |r| <= |processes|
    ensures forall p :: p in r <==> p in processes && Text.Lower(p.name) == Text.Lower(name)
  {
    Filter(processes, NameIs(name))
  }

  /** Each matching process is reported as often as it occurs, and the search ignores ASCII case in the query. */
  lemma FindProcessesByNameCounts(processes: seq<ProcessInfo>, name: string, other: string, p: ProcessInfo)
    requires Text.Lower(name) == Text.Lower(other)
    ensures FindProcessesByName(processes, name) == FindProcessesByName(processes, other)
    ensures Text.Lower(p.name) == Text.Lower(name) ==>
      multiset(FindProcessesByName(processes, name))[p] == multiset(processes)[p]
  {
    FilterCongruent(processes, NameIs(name), NameIs(other));
    FilterMultiplicity(processes, NameIs(name), p);
  }

  // ---------------------------------------------------------------------
  // CPU usage

  /** A pid's cached kernel and user times and the tick of the reading. */
  datatype CpuRecord = CpuRecord(kernelTime: u64, userTime: u64, lastUpdate: u64)

  /** The monitor's state: the per-pid records and one system time shared by all pids. */
  datatype MonitorState = MonitorState(cpuData: map<u32, CpuRecord>, lastSystemTime: u64)

  const INITIAL_STATE: MonitorState := MonitorState(map[], 0)

  /** `current - kernel - user` in `uint64_t`. */
  function ProcessTimeDiff(current: u64, prev: CpuRecord): u64
  {
    Sub64(Sub64(current, prev.kernelTime), prev.userTime)
  }

  /** `r` is 100·dp/ds clamped to [0, 100], and 0 when no system time passed. */
  predicate IsClampedShare(r: real, dp: u64, ds: u64)
  {
    && (ds == 0 ==> r == 0.0)
    && (0 < ds && dp <= ds ==> r * ds as real == 100.0 * dp as real)
    && (0 < ds && ds <= dp ==> r == 100.0)
  }

  /** One processor's share is the clamped percentage. */
  lemma ShareOfOne(dp: u64, ds: u64)
    ensures IsClampedShare(DataCollector.Share(dp, ds, 1), dp, ds)
  {
    assert DataCollector.MaxUsage(1) == 100.0;
  }

  /**
   `GetProcessCpuUsage`: a pid with a record, once some reading has set the
   shared system time, yields 100·Δprocess/Δsystem clamped to [0, 100];
   every successful reading replaces the pid's record and the shared
   system time. A failed query changes nothing and yields 0.
   */
  function GetProcessCpuUsage(st: MonitorState, pid: u32,
                              procTimes: Option<(DataCollector.Filetime, DataCollector.Filetime)>,
                              sysTimes: Option<(DataCollector.Filetime, DataCollector.Filetime)>,
                              tick: u64): (r: (real, MonitorState))
    ensures 0.0 <= r.0 <= 100.0
    ensures procTimes.None? || sysTimes.None? ==> r == (0.0, st)
    ensures procTimes.Some? && sysTimes.Some? ==>
      && r.1.cpuData == st.cpuData[pid := CpuRecord(DataCollector.Ticks(procTimes.value.0), DataCollector.Ticks(procTimes.value.1), tick)]
      && r.1.lastSystemTime == DataCollector.BusyTime(sysTimes.value.0, sysTimes.value.1)
    ensures pid !in st.cpuData || st.lastSystemTime == 0 ==> r.0 == 0.0
    ensures procTimes.Some? && sysTimes.Some? && pid in st.cpuData && st.lastSystemTime > 0 ==>
      IsClampedShare(r.0, ProcessTimeDiff(DataCollector.BusyTime(procTimes.value.0, procTimes.value.1), st.cpuData[pid]),
                     Sub64(DataCollector.BusyTime(sysTimes.value.0, sysTimes.value.1), st.lastSystemTime))
  {
    if procTimes.None? || sysTimes.None? then (0.0, st)
    else
      var (k, u) := procTimes.value;
      var current := DataCollector.BusyTime(k, u);
      var system := DataCollector.BusyTime(sysTimes.value.0, sysTimes.value.1);
      var usage := if pid in st.cpuData && st.lastSystemTime > 0 then
          var dp := ProcessTimeDiff(current, st.cpuData[pid]);
          var ds := Sub64(system, st.lastSystemTime);
          ShareOfOne(dp, ds);
          DataCollector.Share(dp, ds, 1)
        else 0.0;
      (usage, MonitorState(st.cpuData[pid := CpuRecord(DataCollector.Ticks(k), DataCollector.Ticks(u), tick)], system))
  }

  /**
   As written, the system time is shared: reading pid `b` right after pid
   `a`, within one system-clock tick, measures `b` against no system time
   at all and reports 0, however busy `b` was.
   */
  lemma SharedBaselineHidesUsage()
    ensures var st := MonitorState(map[1 := CpuRecord(0, 0, 0), 2 := CpuRecord(0, 0, 0)], 1000);
      var sys := (DataCollector.Filetime(0, 2000), DataCollector.Filetime(0, 0));
      var a := GetProcessCpuUsage(st, 1, Some((DataCollector.Filetime(0, 500), DataCollector.Filetime(0, 0))), Some(sys), 1);
      var b := GetProcessCpuUsage(a.1, 2, Some((DataCollector.Filetime(0, 500), DataCollector.Filetime(0, 0))), Some(sys), 1);
      a.0 == 50.0 && b.0 == 0.0
  {
    var st := MonitorState(map[1 := CpuRecord(0, 0, 0), 2 := CpuRecord(0, 0, 0)], 1000);
    var sys := (DataCollector.Filetime(0, 2000), DataCollector.Filetime(0, 0));
    var p := (DataCollector.Filetime(0, 500), DataCollector.Filetime(0, 0));
    assert DataCollector.BusyTime(sys.0, sys.1) == 2000;
    assert DataCollector.BusyTime(p.0, p.1) == 500;
    var a := GetProcessCpuUsage(st, 1, Some(p), Some(sys), 1);
    assert DataCollector.Share(500, 1000, 1) * 1000.0 == 500.0 * 100.0;
    assert a.0 == 50.0;
  }

  /**
   As written, a pid whose process time is below its record (the pid now
   names a newer process) wraps the `uint64_t` difference and reports the
   full 100.
   */
  lemma ReusedPidReportsFull()
    ensures var st := MonitorState(map[7 := CpuRecord(1000, 0, 0)], 1000);
      var r := GetProcessCpuUsage(st, 7, Some((DataCollector.Filetime(0, 10), DataCollector.Filetime(0, 0))),
                                  Some((DataCollector.Filetime(0, 2000), DataCollector.Filetime(0, 0))), 1);
      r.0 == 100.0
  {
    var p := (DataCollector.Filetime(0, 10), DataCollector.Filetime(0, 0));
    var sys := (DataCollector.Filetime(0, 2000), DataCollector.Filetime(0, 0));
    assert DataCollector.BusyTime(p.0, p.1) == 10;
    assert DataCollector.BusyTime(sys.0, sys.1) == 2000;
    assert ProcessTimeDiff(10, CpuRecord(1000, 0, 0)) == TWO_64 - 990;
  }

  /** A pid's process and system times at its last reading. */
  datatype PidBaseline = PidBaseline(processTime: u64, systemTime: u64)

  /**
   The reading the cache is meant to give: each pid measured against its
   own previous reading of both clocks, with a clock that went backwards
   counting as no time, clamped to [0, 100].
   */
  function GetProcessCpuUsageCorrected(st: map<u32, PidBaseline>, pid: u32,
                                       procTimes: Option<(DataCollector.Filetime, DataCollector.Filetime)>,
                                       sysTimes: Option<(DataCollector.Filetime, DataCollector.Filetime)>): (r: (real, map<u32, PidBaseline>))
    ensures 0.0 <= r.0 <= 100.0
    ensures procTimes.None? || sysTimes.None? ==> r == (0.0, st)
    ensures procTimes.Some? && sysTimes.Some? ==>
      r.1 == st[pid := PidBaseline(DataCollector.BusyTime(procTimes.value.0, procTimes.value.1),
                                   DataCollector.BusyTime(sysTimes.value.0, sysTimes.value.1))]
    ensures pid !in st ==> r.0 == 0.0
    ensures procTimes.Some? && sysTimes.Some? && pid in st ==>
      IsClampedShare(r.0, DataCollector.Delta(DataCollector.BusyTime(procTimes.value.0, procTimes.value.1), st[pid].processTime),
                     DataCollector.Delta(DataCollector.BusyTime(sysTimes.value.0, sysTimes.value.1), st[pid].systemTime))
  {
    if procTimes.None? || sysTimes.None? then (0.0, st)
    else
      var current := DataCollector.BusyTime(procTimes.value.0, procTimes.value.1);
      var system := DataCollector.BusyTime(sysTimes.value.0, sysTimes.value.1);
      var usage := if pid in st then
          var dp := DataCollector.Delta(current, st[pid].processTime);
          var ds := DataCollector.Delta(system, st[pid].systemTime);
          ShareOfOne(dp, ds);
          DataCollector.Share(dp, ds, 1)
        else 0.0;
      (usage, st[pid := PidBaseline(current, system)])
  }

  /** Readings of other pids leave a pid's measurement alone: its baseline is its own. */
  lemma CorrectedIgnoresOtherPids(st: map<u32, PidBaseline>, a: u32, b: u32,
                                  pa: (DataCollector.Filetime, DataCollector.Filetime),
                                  pb: (DataCollector.Filetime, DataCollector.Filetime),
                                  sa: (DataCollector.Filetime, DataCollector.Filetime),
                                  sb: (DataCollector.Filetime, DataCollector.Filetime))
    requires a != b
    ensures var first := GetProcessCpuUsageCorrected(st, a, Some(pa), Some(sa));
      GetProcessCpuUsageCorrected(first.1, b, Some(pb), Some(sb)).0 == GetProcessCpuUsageCorrected(st, b, Some(pb), Some(sb)).0
  {
    var first := GetProcessCpuUsageCorrected(st, a, Some(pa), Some(sa));
    assert b in first.1 <==> b in st;
    if b in st {
      assert first.1[b] == st[b];
    }
  }

  /** A process time below the pid's baseline counts as no use. */
  lemma CorrectedReusedPidReportsZero(st: map<u32, PidBaseline>, pid: u32,
                                      p: (DataCollector.Filetime, DataCollector.Filetime),
                                      s: (DataCollector.Filetime, DataCollector.Filetime))
    requires pid in st && DataCollector.BusyTime(p.0, p.1) < st[pid].processTime
    ensures GetProcessCpuUsageCorrected(st, pid, Some(p), Some(s)).0 == 0.0
  {
  }
}
