/**
 `snapshot::DataCollector` (DataCollector.cpp): how a snapshot's registry
 values, disks and processes are gathered, and the per-process CPU cache
 behind `calculate_process_cpu_usage`.

 Every operating-system query is an input: the registry is a function from
 a hive and a path to the enumerated values (`None` when the key cannot be
 opened), a drive is what `GetDriveTypeA` and `GetDiskFreeSpaceExA` report
 for it, and process and system times arrive as optional pairs of FILETIME
 values (`None` when the process cannot be opened or the query fails).
 */
module DataCollector {
  import opened Common
  import Text
  import opened Bytes
  import RegistryModel
  import DiskMonitor
  import opened SystemSnapshot
  import SnapshotComparator

  // ---------------------------------------------------------------------
  // FILETIME

  /** `filetime_to_uint64`: the high half shifted up by 32 bits, or-ed with the low half. */
  function FiletimeToU64(high: u32, low: u32): (r: u64)
    ensures r / TWO_32 == high && r % TWO_32 == low
  {
    high * TWO_32 + low
  }

  /** Every 64-bit count splits back into the two halves it was packed from. */
  lemma FiletimeRoundTrip(v: u64)
    ensures v / TWO_32 < TWO_32
    ensures FiletimeToU64(v / TWO_32, v % TWO_32) == v
  {
  }

  /** A FILETIME as the two 32-bit words the API fills in. */
  datatype Filetime = Filetime(high: u32, low: u32)

  function Ticks(ft: Filetime): u64
  {
    FiletimeToU64(ft.high, ft.low)
  }

  /** Kernel plus user time, added in `uint64_t`. */
  function BusyTime(kernel: Filetime, user: Filetime): (r: u64)
    ensures Ticks(kernel) + Ticks(user) < TWO_64 ==> r == Ticks(kernel) + Ticks(user)
  {
    Add64(Ticks(kernel), Ticks(user))
  }

  // ---------------------------------------------------------------------
  // Registry

  datatype Hive = LocalMachine | CurrentUser

  /** The byte size of `collect_registry_key`'s data buffer. */
  const VALUE_BUFFER_SIZE: nat := 16383

  /** The fixed data buffer `RegEnumValueA` writes into; bytes past the value keep earlier contents. */
  type ValueBuffer = b: seq<byte> | |b| == VALUE_BUFFER_SIZE witness seq(VALUE_BUFFER_SIZE, _ => 0)

  /** One `RegEnumValueA` call before `ERROR_NO_MORE_ITEMS`: a value, or any other failure. */
  datatype EnumResult = EnumValue(name: string, valueType: u32, buffer: ValueBuffer) | EnumFailure

  /** What the registry answers for a hive and a path: the enumeration, or `None` when the key cannot be opened. */
  type Registry = (Hive, string) -> Option<seq<EnumResult>>

  /** The path after the first backslash; with none, `npos + 1` wraps to 0 and the whole path is kept. */
  function ActualPath(keyPath: string): (r: string)
    ensures '\\' !in keyPath ==> r == keyPath
    ensures '\\' in keyPath ==> exists i :: 0 <= i < |keyPath| && keyPath[i] == '\\' && '\\' !in keyPath[..i] && r == keyPath[i + 1..]
  {
    match Text.FindFirst(keyPath, '\\')
    case None => keyPath
    case Some(i) => keyPath[i + 1..]
  }

  /** The root key: the local machine when the path starts with its name, else the current user. */
  function RootOf(keyPath: string): (h: Hive)
    ensures h == LocalMachine <==> Text.StartsWith(keyPath, "HKEY_LOCAL_MACHINE")
  {
    if Text.StartsWith(keyPath, "HKEY_LOCAL_MACHINE") then LocalMachine else CurrentUser
  }

  const LOCAL_MACHINE_PREFIX: string := "HKEY_LOCAL_MACHINE\\"

  /** A path written as the local machine's name, a backslash and a relative path opens that relative path there. */
  lemma LocalMachinePathSplit(p: string)
    ensures RootOf(LOCAL_MACHINE_PREFIX + p) == LocalMachine
    ensures ActualPath(LOCAL_MACHINE_PREFIX + p) == p
  {
    var s := LOCAL_MACHINE_PREFIX + p;
    assert s[..18] == "HKEY_LOCAL_MACHINE";
    assert s[..18] == s[..|"HKEY_LOCAL_MACHINE"|];
    assert s[18] == '\\';
    assert '\\' !in s[..18];
    Text.FindFirstAt(s, '\\', 18);
    assert s[19..] == p;
  }

  /** The data text of one value: the C string for the string types, the decimal of the first four bytes for a DWORD. */
  function ValueData(valueType: u32, buffer: ValueBuffer): (r: string)
    ensures (valueType == RegistryModel.REG_SZ || valueType == RegistryModel.REG_EXPAND_SZ) ==>
      |r| <= |buffer| && (forall i :: 0 <= i < |r| ==> r[i] as int == buffer[i] && buffer[i] != 0)
      && (|r| < |buffer| ==> buffer[|r|] == 0)
    ensures valueType == RegistryModel.REG_DWORD ==> Text.AllDigits(r) && Text.DecimalValue(r) == LittleEndian(buffer[..4])
    ensures !(valueType in {RegistryModel.REG_SZ, RegistryModel.REG_EXPAND_SZ, RegistryModel.REG_DWORD}) ==> r == "[Binary Data]"
  {
    if valueType == RegistryModel.REG_SZ || valueType == RegistryModel.REG_EXPAND_SZ then
      AsChars(buffer[..StrnLen(buffer)])
    else if valueType == RegistryModel.REG_DWORD then
      Text.NatToString(LittleEndian(buffer[..4]))
    else "[Binary Data]"
  }

  /** A DWORD stored little-endian at the front of the buffer is printed as its own decimal. */
  lemma DwordValueData(v: u32, buffer: ValueBuffer)
    requires buffer[..4] == LeBytes(v, 4)
    ensures Text.DecimalValue(ValueData(RegistryModel.REG_DWORD, buffer)) == v
  {
    Pow256Values();
    LittleEndianOfLeBytes(v, 4);
  }

  /** The values of one enumeration, in order, failed calls skipped. */
  function ValuesOf(keyPath: string, results: seq<EnumResult>): (r: seq<RegistryValue>)
    ensures |r| <= |results|
    ensures forall v :: v in r ==> v.keyPath == keyPath
    ensures forall e :: e in results && e.EnumValue? ==> RegistryValue(keyPath, e.name, e.valueType, ValueData(e.valueType, e.buffer)) in r
    ensures forall v :: v in r ==>
      exists e :: e in results && e.EnumValue? && v == RegistryValue(keyPath, e.name, e.valueType, ValueData(e.valueType, e.buffer))
  {
    if |results| == 0 then []
    else
      var init := ValuesOf(keyPath, results[..|results| - 1]);
      var e := results[|results| - 1];
      assert forall x :: x in results ==> x in results[..|results| - 1] || x == e;
      match e
      case EnumFailure => init
      case EnumValue(name, t, buffer) => init + [RegistryValue(keyPath, name, t, ValueData(t, buffer))]
  }

  /** `collect_registry_key`: `None` is the exception thrown when the key cannot be opened. */
  function CollectRegistryKey(keyPath: string, registry: Registry): (r: Option<seq<RegistryValue>>)
    ensures r.None? <==> registry(RootOf(keyPath), ActualPath(keyPath)).None?
    ensures r.Some? ==> forall v :: v in r.value ==> v.keyPath == keyPath
    ensures r.Some? ==> r.value == ValuesOf(keyPath, registry(RootOf(keyPath), ActualPath(keyPath)).value)
    ensures r.Some? ==> forall e :: e in registry(RootOf(keyPath), ActualPath(keyPath)).value && e.EnumValue? ==>
      RegistryValue(keyPath, e.name, e.valueType, ValueData(e.valueType, e.buffer)) in r.value
  {
    match registry(RootOf(keyPath), ActualPath(keyPath))
    case None => None
    case Some(results) => Some(ValuesOf(keyPath, results))
  }

  /** The three keys `collect_registry_data` reads under the local machine. */
  const REGISTRY_KEY_PATHS: seq<string> := [
    "SOFTWARE\\Microsoft\\Windows\\CurrentVersion\\Run",
    "SYSTEM\\CurrentControlSet\\Services",
    "SOFTWARE\\Microsoft\\Windows\\CurrentVersion\\Uninstall"
  ]

  /** Values of the listed keys, each key's exception swallowed so it contributes nothing. */
  function CollectKeys(paths: seq<string>, registry: Registry): (r: seq<RegistryValue>)
    ensures forall v :: v in r ==> exists p :: p in paths && v.keyPath == LOCAL_MACHINE_PREFIX + p
  {
    if |paths| == 0 then []
    else
      var init := paths[..|paths| - 1];
      var p := paths[|paths| - 1];
      var last := match CollectRegistryKey(LOCAL_MACHINE_PREFIX + p, registry)
        case None => []
        case Some(vs) => vs;
      assert forall q :: q in init ==> q in paths;
      CollectKeys(init, registry) + last
  }

  /** Every value of a listed key that opens is collected. */
  lemma {:induction false} CollectKeysComplete(paths: seq<string>, registry: Registry, p: string, v: RegistryValue)
    requires p in paths && KeyValue(p, registry, v)
    ensures v in CollectKeys(paths, registry)
  {
    var init := paths[..|paths| - 1];
    var last := paths[|paths| - 1];
    assert paths == init + [last];
    if p != last {
      assert p in init;
      CollectKeysComplete(init, registry, p, v);
    }
  }

  /** `v` is one of the values `collect_registry_key` returns for the local-machine key at `p`. */
  predicate KeyValue(p: string, registry: Registry, v: RegistryValue)
  {
    var r := CollectRegistryKey(LOCAL_MACHINE_PREFIX + p, registry);
    r.Some? && v in r.value
  }

  /**
   `collect_registry_data`: every value comes from one of the three keys,
   each opened under the local machine, and every value of a key that
   opens is collected.
   */
  function CollectRegistryData(registry: Registry): (r: seq<RegistryValue>)
    ensures forall v :: v in r ==> exists p :: p in REGISTRY_KEY_PATHS && v.keyPath == LOCAL_MACHINE_PREFIX + p
    ensures forall p, v :: p in REGISTRY_KEY_PATHS && KeyValue(p, registry, v) ==> v in r
  {
    var r := CollectKeys(REGISTRY_KEY_PATHS, registry);
    assert forall p, v :: p in REGISTRY_KEY_PATHS && KeyValue(p, registry, v) ==> v in r by {
      forall p, v | p in REGISTRY_KEY_PATHS && KeyValue(p, registry, v) ensures v in r {
        CollectKeysComplete(REGISTRY_KEY_PATHS, registry, p, v);
      }
    }
    r
  }

  /** Each of the three keys is looked up under the local machine at exactly its relative path. */
  lemma RegistryDataOpensLocalMachine(i: nat)
    requires i < |REGISTRY_KEY_PATHS|
    ensures RootOf(LOCAL_MACHINE_PREFIX + REGISTRY_KEY_PATHS[i]) == LocalMachine
    ensures ActualPath(LOCAL_MACHINE_PREFIX + REGISTRY_KEY_PATHS[i]) == REGISTRY_KEY_PATHS[i]
  {
    LocalMachinePathSplit(REGISTRY_KEY_PATHS[i]);
  }

  // ---------------------------------------------------------------------
  // Disks

  /** What the API reports for one root path: its type and, when the query succeeds, total and free bytes. */
  datatype DiskProbe = DiskProbe(driveType: DiskMonitor.DriveType, space: Option<(u64, u64)>)

  /** The record for one letter: fixed or removable drives whose space query succeeded. */
  function DiskFor(letter: char, probe: DiskProbe): (r: Option<DiskInfo>)
    ensures r.Some? <==> !probe.driveType.OtherDrive? && probe.space.Some?
    ensures r.Some? ==> (r.value.driveLetter == [letter] && r.value.totalSize == probe.space.value.0
                         && r.value.freeSpace == probe.space.value.1
                         && r.value.usedSpace == Sub64(probe.space.value.0, probe.space.value.1))
  {
    if probe.driveType.OtherDrive? then None
    else match probe.space
      case None => None
      case Some((total, free)) => Some(DiskInfo([letter], total, free, Sub64(total, free)))
  }

  function DisksOf(letters: seq<char>, probe: char -> DiskProbe): (r: seq<DiskInfo>)
    ensures |r| <= |letters|
    ensures forall d :: d in r ==> (|d.driveLetter| == 1 && d.driveLetter[0] in letters
                                    && DiskFor(d.driveLetter[0], probe(d.driveLetter[0])) == Some(d))
  {
    if |letters| == 0 then []
    else
      var init := letters[..|letters| - 1];
      var c := letters[|letters| - 1];
      assert forall x :: x in init ==> x in letters;
      match DiskFor(c, probe(c))
      case None => DisksOf(init, probe)
      case Some(d) => DisksOf(init, probe) + [d]
  }

  /** Every drive of the list that qualifies is reported. */
  lemma {:induction false} DisksOfComplete(letters: seq<char>, probe: char -> DiskProbe, c: char)
    requires c in letters && DiskFor(c, probe(c)).Some?
    ensures DiskFor(c, probe(c)).value in DisksOf(letters, probe)
  {
    var init := letters[..|letters| - 1];
    if c != letters[|letters| - 1] {
      assert letters == init + [letters[|letters| - 1]];
      DisksOfComplete(init, probe, c);
    }
  }

  /** Single-letter records in strictly ascending letter order. */
  predicate AscendingLetters(r: seq<DiskInfo>)
  {
    (forall d :: d in r ==> |d.driveLetter| == 1)
    && forall j, k :: 0 <= j < k < |r| ==> r[j].driveLetter[0] < r[k].driveLetter[0]
  }

  /** Ascending letters give records in ascending letter order. */
  lemma {:induction false} DisksOfAscending(letters: seq<char>, probe: char -> DiskProbe)
    requires forall j, k :: 0 <= j < k < |letters| ==> letters[j] < letters[k]
    ensures AscendingLetters(DisksOf(letters, probe))
  {
    if |letters| > 0 {
      var init := letters[..|letters| - 1];
      var c := letters[|letters| - 1];
      DisksOfAscending(init, probe);
      var prev := DisksOf(init, probe);
      LettersBelowLast(letters, probe);
      match DiskFor(c, probe(c))
      case None =>
        assert DisksOf(letters, probe) == prev;
      case Some(d) =>
        assert DisksOf(letters, probe) == prev + [d];
        AscendingSnoc(prev, d, c);
    }
  }

  /** With ascending letters, the records of all but the last letter are below it. */
  lemma LettersBelowLast(letters: seq<char>, probe: char -> DiskProbe)
    requires |letters| > 0
    requires forall j, k :: 0 <= j < k < |letters| ==> letters[j] < letters[k]
    ensures forall e :: e in DisksOf(letters[..|letters| - 1], probe) ==> e.driveLetter[0] < letters[|letters| - 1]
  {
    var init := letters[..|letters| - 1];
    forall e | e in DisksOf(init, probe) ensures e.driveLetter[0] < letters[|letters| - 1] {
      var j :| 0 <= j < |init| && init[j] == e.driveLetter[0];
      assert letters[j] < letters[|letters| - 1];
    }
  }

  /** A record whose letter is above all others can be appended. */
  lemma AscendingSnoc(prev: seq<DiskInfo>, d: DiskInfo, c: char)
    requires AscendingLetters(prev) && d.driveLetter == [c]
    requires forall e :: e in prev ==> e.driveLetter[0] < c
    ensures AscendingLetters(prev + [d])
  {
    var r := prev + [d];
    forall j, k | 0 <= j < k < |r| ensures r[j].driveLetter[0] < r[k].driveLetter[0] {
      if k == |prev| {
        assert r[j] in prev;
      }
    }
  }

  lemma AscendingDistinct(r: seq<DiskInfo>)
    requires AscendingLetters(r)
    ensures SnapshotComparator.DistinctLetters(r)
  {
    forall j, k | 0 <= j < k < |r| ensures r[j].driveLetter != r[k].driveLetter {
      assert r[j] in r && r[k] in r;
      assert r[j].driveLetter[0] != r[k].driveLetter[0];
    }
  }

  /**
   `collect_disk_info`: one record per fixed or removable drive of the mask
   whose space query succeeds, in letter order, `used` = total − free
   wrapped in `uint64_t`.
   */
  function CollectDiskInfo(mask: u32, probe: char -> DiskProbe): (r: seq<DiskInfo>)
    ensures |r| <= 26
    ensures forall d :: d in r ==> (|d.driveLetter| == 1 && 'A' <= d.driveLetter[0] <= 'Z'
                                    && Bit(mask, d.driveLetter[0] as int - 'A' as int)
                                    && d.usedSpace == Sub64(d.totalSize, d.freeSpace))
    ensures SnapshotComparator.DistinctLetters(r)
  {
    var letters := DiskMonitor.DriveLetters(mask);
    DisksOfAscending(letters, probe);
    AscendingDistinct(DisksOf(letters, probe));
    DisksOf(letters, probe)
  }

  /** Every fixed or removable drive of the mask whose space query succeeds is reported. */
  lemma CollectDiskInfoComplete(mask: u32, probe: char -> DiskProbe, c: char)
    requires 'A' <= c <= 'Z' && Bit(mask, c as int - 'A' as int) && DiskFor(c, probe(c)).Some?
    ensures DiskFor(c, probe(c)).value in CollectDiskInfo(mask, probe)
  {
    DisksOfComplete(DiskMonitor.DriveLetters(mask), probe, c);
  }

  // ---------------------------------------------------------------------
  // Per-process CPU usage

  /** A cached pair: the process's busy time and the system's busy time at that sample. */
  datatype CpuSample = CpuSample(procTime: u64, systemTime: u64)

  /** The collector's state: the processor count and the per-pid cache. */
  datatype Collector = Collector(lastSystemCpuTime: u64, processorCount: u32, cache: map<u32, CpuSample>)

  /** The ceiling of the clamp: 100 % per processor. */
  function MaxUsage(processors: u32): real
  {
    100.0 * processors as real
  }

  /** `now - prev` when the counter did not go backwards, else 0. */
  function Delta(now: u64, prev: u64): (d: u64)
    ensures now >= prev ==> d + prev == now
    ensures now < prev ==> d == 0
  {
    if now >= prev then now - prev else 0
  }

  /** The share of the system's busy time the process used, scaled to the processors, clamped. */
  function Share(deltaProc: u64, deltaSys: u64, processors: u32): (r: real)
    ensures 0.0 <= r <= MaxUsage(processors)
    ensures deltaSys == 0 ==> r == 0.0
    ensures deltaSys > 0 && deltaProc <= deltaSys ==>
      r * deltaSys as real == deltaProc as real * MaxUsage(processors)
    ensures deltaSys > 0 && deltaProc >= deltaSys ==> r == MaxUsage(processors)
  {
    if deltaSys == 0 then 0.0 else ClampedShare(deltaProc as real, deltaSys as real, MaxUsage(processors))
  }

  /** `p / s * m` clamped to `[0, m]`: the clamp only bites when `p` exceeds `s`. */
  function ClampedShare(p: real, s: real, m: real): (r: real)
    requires p >= 0.0 && s > 0.0 && m >= 0.0
    ensures 0.0 <= r <= m
    ensures p <= s ==> r * s == p * m
    ensures p >= s ==> r == m
  {
    var raw := p / s * m;
    ShareBounds(p, s, m);
    ClampCases(raw, m, p <= s, p >= s);
    Clamp(raw, 0.0, m)
  }

  /** The clamp to `[0, m]` of a value known to lie inside, or at or above the ceiling. */
  lemma ClampCases(x: real, m: real, inside: bool, above: bool)
    requires 0.0 <= x && 0.0 <= m
    requires inside ==> x <= m
    requires above ==> x >= m
    ensures inside ==> Clamp(x, 0.0, m) == x
    ensures above ==> Clamp(x, 0.0, m) == m
  {
  }

  /** The raw share `p / s * m`: not negative, at most `m` exactly when `p <= s`, and `s` times it is `p * m`. */
  lemma ShareBounds(p: real, s: real, m: real)
    requires p >= 0.0 && s > 0.0 && m >= 0.0
    ensures 0.0 <= p / s * m
    ensures p <= s ==> p / s * m <= m
    ensures p >= s ==> p / s * m >= m
    ensures (p / s * m) * s == p * m
  {
    var q := p / s;
    assert q * s == p;
    if q < 0.0 {
      RealMulPositive(-q, s);
      assert false;
    }
    RealMulNonnegative(q, m);
    assert (q * m) * s == (q * s) * m;
    if p <= s {
      if q > 1.0 {
        RealMulPositive(q - 1.0, s);
        assert false;
      }
      RealMulNonnegative(1.0 - q, m);
    }
    if p >= s {
      if q < 1.0 {
        RealMulPositive(1.0 - q, s);
        assert false;
      }
      RealMulNonnegative(q - 1.0, m);
    }
  }

  lemma RealMulNonnegative(a: real, b: real)
    requires a >= 0.0 && b >= 0.0
    ensures a * b >= 0.0
  {
  }

  lemma RealMulPositive(a: real, b: real)
    requires a > 0.0 && b > 0.0
    ensures a * b > 0.0
  {
  }

  /**
   `calculate_process_cpu_usage`: with the process's and the system's
   kernel and user times, a pid seen before yields its share of the system
   time since the cached sample, a new pid is cached and yields 0, and
   either way the cache now holds this sample. A failed query changes nothing.
   */
  function CalculateProcessCpuUsage(c: Collector, pid: u32, procTimes: Option<(Filetime, Filetime)>,
                                    sysTimes: Option<(Filetime, Filetime)>): (r: (real, Collector))
    ensures 0.0 <= r.0 <= MaxUsage(c.processorCount)
    ensures r.1.processorCount == c.processorCount && r.1.lastSystemCpuTime == c.lastSystemCpuTime
    ensures procTimes.None? || sysTimes.None? ==> r == (0.0, c)
    ensures procTimes.Some? && sysTimes.Some? ==>
      r.1.cache == c.cache[pid := CpuSample(BusyTime(procTimes.value.0, procTimes.value.1),
                                            BusyTime(sysTimes.value.0, sysTimes.value.1))]
    ensures pid !in c.cache ==> r.0 == 0.0
  {
    if procTimes.None? || sysTimes.None? then (0.0, c)
    else
      var procTime := BusyTime(procTimes.value.0, procTimes.value.1);
      var sysTime := BusyTime(sysTimes.value.0, sysTimes.value.1);
      var usage := if pid in c.cache then
          Share(Delta(procTime, c.cache[pid].procTime), Delta(sysTime, c.cache[pid].systemTime), c.processorCount)
        else 0.0;
      (usage, c.(cache := c.cache[pid := CpuSample(procTime, sysTime)]))
  }

  /**
   Two calls for a new pid: the first only records its sample, the second
   reports the share of the system time between the two samples (0 when
   the system counter did not advance, all processors when the process
   advanced at least as much).
   */
  lemma SecondSampleMeasuresDelta(c: Collector, pid: u32, p1: (Filetime, Filetime), s1: (Filetime, Filetime),
                                  p2: (Filetime, Filetime), s2: (Filetime, Filetime))
    requires pid !in c.cache
    ensures var first := CalculateProcessCpuUsage(c, pid, Some(p1), Some(s1));
      var second := CalculateProcessCpuUsage(first.1, pid, Some(p2), Some(s2));
      first.0 == 0.0
      && second.0 == Share(Delta(BusyTime(p2.0, p2.1), BusyTime(p1.0, p1.1)),
                           Delta(BusyTime(s2.0, s2.1), BusyTime(s1.0, s1.1)), c.processorCount)
  {
  }

  /** A process that used no time since its last sample reports 0. */
  lemma IdleProcessReportsZero(c: Collector, pid: u32, p: (Filetime, Filetime), s: (Filetime, Filetime))
    requires pid in c.cache && c.cache[pid].procTime == BusyTime(p.0, p.1)
    ensures CalculateProcessCpuUsage(c, pid, Some(p), Some(s)).0 == 0.0
  {
  }

  /** One process as the snapshot enumerates it for `initialize_cpu_counters`: its pid and, if readable, its times. */
  datatype ProcessTimes = ProcessTimes(pid: u32, times: Option<(Filetime, Filetime)>)

  /** The cache seeded from an enumeration, a later entry for the same pid replacing an earlier one. */
  function SeedCache(entries: seq<ProcessTimes>, systemTime: u64): (m: map<u32, CpuSample>)
    ensures forall pid :: pid in m <==> exists e :: e in entries && e.pid == pid && e.times.Some?
    ensures forall pid :: pid in m ==> m[pid].systemTime == systemTime
  {
    if |entries| == 0 then map[]
    else
      var init := entries[..|entries| - 1];
      var e := entries[|entries| - 1];
      var prev := SeedCache(init, systemTime);
      assert forall x :: x in entries <==> x in init || x == e;
      match e.times
      case None => prev
      case Some((kt, ut)) => prev[e.pid := CpuSample(BusyTime(kt, ut), systemTime)]
  }

  /**
   `initialize_cpu_counters`: the cache is cleared, the system time is
   kernel + user (0 when the query fails), and every readable process of the
   enumeration (none when the enumeration fails) is cached against it.
   */
  method InitializeCpuCounters(c: Collector, sysTimes: Option<(Filetime, Filetime)>,
                               processes: Option<seq<ProcessTimes>>) returns (r: Collector)
    ensures r.processorCount == c.processorCount
    ensures r.lastSystemCpuTime == (if sysTimes.Some? then BusyTime(sysTimes.value.0, sysTimes.value.1) else 0)
    ensures processes.None? ==> r.cache == map[]
    ensures processes.Some? ==> r.cache == SeedCache(processes.value, r.lastSystemCpuTime)
  {
    var last := if sysTimes.Some? then BusyTime(sysTimes.value.0, sysTimes.value.1) else 0;
    var cache: map<u32, CpuSample> := map[];
    if processes.Some? {
      var ps := processes.value;
      var i := 0;
      while i < |ps|
        invariant 0 <= i <= |ps|
        invariant cache == SeedCache(ps[..i], last)
      {
        assert ps[..i + 1][..i] == ps[..i];
        if ps[i].times.Some? {
          cache := cache[ps[i].pid := CpuSample(BusyTime(ps[i].times.value.0, ps[i].times.value.1), last)];
        }
        i := i + 1;
      }
      assert ps[..i] == ps;
    }
    r := Collector(last, c.processorCount, cache);
  }

  /**
   After seeding, a seeded pid is measured at once: its first reading is its
   share of the system time since the seed, not the first-sighting 0.
   */
  lemma SeededPidMeasuresAtOnce(entries: seq<ProcessTimes>, systemTime: u64, processors: u32, pid: u32,
                                p: (Filetime, Filetime), s: (Filetime, Filetime))
    requires exists e :: e in entries && e.pid == pid && e.times.Some?
    ensures var seeded := SeedCache(entries, systemTime);
      pid in seeded
      && CalculateProcessCpuUsage(Collector(systemTime, processors, seeded), pid, Some(p), Some(s)).0 ==
         Share(Delta(BusyTime(p.0, p.1), seeded[pid].procTime), Delta(BusyTime(s.0, s.1), systemTime), processors)
  {
  }

  // ---------------------------------------------------------------------
  // Processes

  /**
   One process of the enumeration: its pid and executable name, whether
   `OpenProcess` succeeded, the working set with the private usage if
   readable, the times `calculate_process_cpu_usage` reads and the image path.
   */
  datatype ProcessEntry = ProcessEntry(
    pid: u32, exeFile: string, canOpen: bool,
    memory: Option<(u64, Option<u64>)>,
    times: Option<(Filetime, Filetime)>,
    sysTimes: Option<(Filetime, Filetime)>,
    path: Option<string>)

  /** The record for one entry; fields that are never written keep their zero or empty defaults. */
  function ProcessRecord(e: ProcessEntry, cpu: real): (p: ProcessInfo)
    ensures p.pid == e.pid && p.name == e.exeFile
    ensures e.canOpen ==> p.cpuUsage == cpu
    ensures e.canOpen && e.memory.Some? ==> p.memoryUsage == e.memory.value.0
    ensures e.canOpen && e.memory.Some? && e.memory.value.1.Some? ==> p.privateBytes == e.memory.value.1.value
    ensures e.canOpen && e.memory.Some? && e.memory.value.1.None? ==> p.privateBytes == 0
    ensures e.canOpen && e.path.Some? ==> p.executablePath == e.path.value
  {
    if !e.canOpen then ProcessInfo(e.pid, e.exeFile, 0.0, 0, 0, "")
    else
      var (ws, priv) := match e.memory
        case None => (0, 0)
        case Some((w, pr)) => (w, match pr case None => 0 case Some(v) => v);
      ProcessInfo(e.pid, e.exeFile, cpu, ws, priv, match e.path case None => "" case Some(x) => x)
  }

  /**
   `collect_process_info`: one record per enumerated process, in order,
   with the CPU share measured only for processes that could be opened;
   a failed enumeration gives no records.
   */
  method CollectProcessInfo(c: Collector, entries: Option<seq<ProcessEntry>>) returns (ps: seq<ProcessInfo>, r: Collector)
    ensures entries.None? ==> ps == [] && r == c
    ensures entries.Some? ==> |ps| == |entries.value|
    ensures entries.Some? ==> forall i :: 0 <= i < |ps| ==>
      ps[i].pid == entries.value[i].pid && ps[i].name == entries.value[i].exeFile
      && 0.0 <= ps[i].cpuUsage <= MaxUsage(c.processorCount)
      && (!entries.value[i].canOpen ==> ps[i].cpuUsage == 0.0 && ps[i].executablePath == "")
    ensures r.processorCount == c.processorCount && r.lastSystemCpuTime == c.lastSystemCpuTime
    ensures r.cache.Keys >= c.cache.Keys
  {
    ps := [];
    r := c;
    if entries.None? {
      return;
    }
    var es := entries.value;
    var i := 0;
    while i < |es|
      invariant 0 <= i <= |es|
      invariant |ps| == i
      invariant forall j :: 0 <= j < i ==>
        ps[j].pid == es[j].pid && ps[j].name == es[j].exeFile
        && 0.0 <= ps[j].cpuUsage <= MaxUsage(c.processorCount)
        && (!es[j].canOpen ==> ps[j].cpuUsage == 0.0 && ps[j].executablePath == "")
      invariant r.processorCount == c.processorCount && r.lastSystemCpuTime == c.lastSystemCpuTime
      invariant r.cache.Keys >= c.cache.Keys
    {
      var e := es[i];
      var cpu := 0.0;
      if e.canOpen {
        var step := CalculateProcessCpuUsage(r, e.pid, e.times, e.sysTimes);
        cpu := step.0;
        r := step.1;
      }
      ps := ps + [ProcessRecord(e, cpu)];
      i := i + 1;
    }
  }

  // ---------------------------------------------------------------------
  // The whole snapshot

  /**
   `collect_snapshot`: registry values, disks, then the CPU counters are
   seeded and the processes read against them. Its disks have distinct
   letters and its processes follow the enumeration.
   */
  method CollectSnapshot(name: string, c: Collector, registry: Registry, mask: u32, probe: char -> DiskProbe,
                         sysTimes: Option<(Filetime, Filetime)>, seedEntries: Option<seq<ProcessTimes>>,
                         entries: Option<seq<ProcessEntry>>) returns (s: Snapshot, r: Collector)
    ensures s.name == name
    ensures s.registryData == CollectRegistryData(registry)
    ensures s.diskInfo == CollectDiskInfo(mask, probe) && SnapshotComparator.DistinctLetters(s.diskInfo)
    ensures entries.Some? ==> |s.processInfo| == |entries.value|
    ensures r.processorCount == c.processorCount
  {
    var seeded := InitializeCpuCounters(c, sysTimes, seedEntries);
    var processes;
    processes, r := CollectProcessInfo(seeded, entries);
    s := Snapshot(name, CollectRegistryData(registry), CollectDiskInfo(mask, probe), processes);
  }
}
