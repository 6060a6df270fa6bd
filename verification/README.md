# SysMinitor core, modelled in Dafny

SysMinitor is a Windows system monitor. Its C++ back end samples CPU, memory, disks, processes, kernel drivers and the registry. It turns these readings into snapshots, compares snapshots, and serves them as JSON over HTTP. A JavaScript web client renders the process table, the performance trend charts and the status cards.

This project models the logic of that core as pure Dafny functions and short methods. It covers:

- **Registry.** Values and keys, their text rendering and escaping (`registry_monitor`, `registry_encode`), and UTF-8 validation and repair (`encode`).
- **Disks.** The drive, partition and SMART records built from the Win32 answers, and the merge of the API list with the WMI list (`disk_monitor`).
- **Drivers.** The driver records built from the service control manager's answers, their categorisation and statistics, and lookup by name (`driver_monitor`).
- **CPU and memory.** Usage from the system time counters, per-core usage, and memory usage percentages (`cpu_monitor`, `memory_monitor`).
- **Process CPU.** Per-process CPU shares (`process_monitor`, `DataCollector`).
- **Snapshots.** Snapshot collection, equality and text forms (`DataCollector`, `SystemSnapshot`), and snapshot comparison (`SnapshotComparator`).
- **Web server snapshot store.** Saving, listing, comparing and deleting registry snapshots, and the JSON to registry-key parsing with its safe string conversion (`WebServer`).
- **Logger.** Log levels and line formatting, file-name extraction, and retention of old log files (`AsyncLogger`).
- **Windows time.** FILETIME to Unix milliseconds (`util_time`).
- **Web client.** Process filtering and sorting, the memory-text parser, trend downsampling, uptime formatting and the status thresholds (`main.js`).

Everything the code asks of the operating system is a parameter of the model. This includes Win32, WMI, PDH, the service control manager, registry reads, the clock and codepage conversions. Each operation is therefore a function of the answers it receives. C++ unsigned arithmetic is written out as explicit wrap-around (`Common.Sub64`, `Common.Add64`, `Common.Wrap32`). Floating-point percentages are exact reals.

The modules follow the source files:

| module | source |
|---|---|
| `Common`, `Text`, `Bytes` | shared arithmetic, decimal text and byte buffers |
| `Utf8`, `Encoding` | `src/utils/encode.cpp` |
| `RegistryModel`, `RegistryRender`, `RegistryMonitor` | `src/core/Register/`, `src/utils/registry_encode.cpp` |
| `SortedMap`, `WebServer` | `src/server/WebServer.cpp` |
| `DiskMonitor`, `DriverMonitor`, `CpuMonitor`, `MemoryMonitor`, `ProcessMonitor` | `src/core/*/` |
| `DataCollector`, `SystemSnapshot`, `SnapshotComparator` | `src/core/` |
| `Logger`, `TimeUtil` | `src/utils/AsyncLogger.h`, `src/utils/util_time.h` |
| `ProcessList`, `Trend`, `Dashboard` | `webclient/main.js` |

## Model

| member | source | states |
|---|---|---|
| Bytes.LittleEndianOfLeBytes | src/utils/registry_encode.cpp:44-55 | reading back the n little-endian bytes stored for any value below 256^n gives that value |
| Bytes.LeBytesOfLittleEndian | src/utils/registry_encode.cpp:44-55 | every byte buffer is the little-endian storage of the number read from it, so the read loses nothing |
| Bytes.HexByteRoundTrip | src/utils/registry_encode.cpp:105-108 | the two zero-padded hex digits printed for a byte read back as that byte |
| Bytes.StrnLen | src/utils/registry_encode.cpp:39-40 | the length is at most the buffer size, no byte before it is NUL, and when it stops short of the size the byte there is NUL |
| Bytes.WideUnits | src/utils/registry_encode.cpp:77-78 | the buffer holds size / 2 UTF-16 units, each the little-endian pair of bytes at its position and below 2^16 |
| SnapshotComparator.CompareRegistry | src/core/SnapshotComparator.cpp:69-92 | added is exactly the current values, in order, that have no equal value in the baseline, and removed the baseline values with none in the current list; modified stays empty |
| SnapshotComparator.Find | src/core/SnapshotComparator.cpp:77 | the search succeeds exactly when the list holds an equal value |
| SnapshotComparator.RegistryAddedMeaning | src/core/SnapshotComparator.cpp:76-81 | a value is added exactly when it is current and not in the baseline, and then it is reported as often as it occurs |
| SnapshotComparator.FirstWithLetter | src/core/SnapshotComparator.cpp:101-107 | no disk is found exactly when none has the letter; otherwise the first disk with it is found |
| SnapshotComparator.CompareDisks | src/core/SnapshotComparator.cpp:94-112 | the changed disks are exactly the current disks, in order, whose first baseline disk with the same letter differs from them |
| SnapshotComparator.ScanBaseline | src/core/SnapshotComparator.cpp:101-108 | the inner loop reports a disk exactly when the first baseline disk with its letter differs from it |
| SnapshotComparator.DisksChangedMeaning | src/core/SnapshotComparator.cpp:100-109 | a disk is reported exactly when it is current and some baseline disk with its letter, the first one, differs from it; a disk whose letter the baseline lacks is never reported |
| SnapshotComparator.FirstWithPid | src/core/SnapshotComparator.cpp:122-123 | no process is found exactly when none has the pid; otherwise the first process with it is found |
| SnapshotComparator.ProcessesModified | src/core/SnapshotComparator.cpp:131-148 | at most one pair per baseline process, each pairing a baseline process with a current process of the same pid |
| SnapshotComparator.CompareProcesses | src/core/SnapshotComparator.cpp:114-151 | added is the current processes whose pid the baseline lacks, removed the baseline processes whose pid the current list lacks, and modified the baseline processes paired with their first current namesake whenever the change test holds |
| SnapshotComparator.AddedPass | src/core/SnapshotComparator.cpp:121-128 | the first loop collects exactly the current processes whose pid the baseline lacks, in order |
| SnapshotComparator.BaselinePass | src/core/SnapshotComparator.cpp:131-148 | the second loop collects exactly the vanished baseline processes and the changed pairs, in order |
| SnapshotComparator.ProcessesAddedMeaning | src/core/SnapshotComparator.cpp:121-128 | a process is added exactly when it is current and no baseline process has its pid |
| SnapshotComparator.Compare | src/core/SnapshotComparator.cpp:36-67 | corrected: a missing snapshot gives the empty result, which has no changes; two present snapshots give the registry, disk and process comparisons |
| SnapshotComparator.Diff | src/core/SnapshotComparator.cpp:50-56 | the comparison of two snapshots never reports a modified registry value |
| SnapshotComparator.CompareAsWritten | src/core/SnapshotComparator.cpp:41-48 | as written: a result exists exactly when both snapshots are present, because the opening log line reads both names before the null check; when it exists it is the corrected comparison |
| SnapshotComparator.MissingSnapshotIsDereferenced | src/core/SnapshotComparator.cpp:41-47 | a missing baseline fails at the log line instead of reaching the empty result the null check returns |
| SnapshotComparator.HasChangesCounts | src/core/SnapshotComparator.cpp:8-31 | a result has changes exactly when one of the seven counts its text prints is positive |
| SnapshotComparator.CompareSelfUnchanged | src/core/SnapshotComparator.cpp:36-151 | a snapshot with distinct drive letters compared with itself reports no registry value, no disk and no added or removed process |
| SnapshotComparator.CompareSelf | src/core/SnapshotComparator.cpp:131-148 | with distinct pids as well, and a change test that no process paired with itself meets, comparing a snapshot with itself reports no change at all |
| SnapshotComparator.NoDiskChangedFromSelf | src/core/SnapshotComparator.cpp:100-109 | with distinct letters, no disk differs from itself |
| SnapshotComparator.LineInjective | src/core/SnapshotComparator.cpp:19-28 | two lines under one label agree only when their counts and what follows agree |
| SnapshotComparator.ComparisonToStringCounts | src/core/SnapshotComparator.cpp:14-31 | the text of a result determines all seven of its counts |
| CpuMonitor.ShiftCountIsBits | src/core/CPUInfo/cpu_monitor.cpp:17-23 | for any value below 2^n, shifting right and adding each low bit counts exactly the set bits below position n |
| CpuMonitor.CountSetBits | src/core/CPUInfo/cpu_monitor.cpp:17-23 | the count equals the number of set bits among the 64 positions of the mask, is at most 64, and is 0 exactly for the empty mask |
| CpuMonitor.WrappedShare | src/core/CPUInfo/cpu_monitor.cpp:212-223 | the result lies in [0, 100]; when idle advanced no more than the total it is the busy share (result · Δtotal = 100 · (Δtotal − Δidle)); when idle advanced more, the uint64 subtraction wraps and the clamp yields 100 |
| CpuMonitor.SignedShare | src/core/CPUInfo/cpu_monitor.cpp:107-112 | the result lies in [0, 100]; it is the busy share when idle advanced no more than the total, and 0 when idle advanced at least as much |
| CpuMonitor.CalculateUsage | src/core/CPUInfo/cpu_monitor.cpp:187-223 | a failed query returns −1 and changes nothing; a successful one always replaces both baselines with the sample and returns a value in [0, 100], which is 0 on a zero baseline or an empty interval and otherwise the uint64 subtract-then-clamp share of the interval (WrappedShare) |
| CpuMonitor.CoreUsage | src/core/CPUInfo/cpu_monitor.cpp:161-173 | a core's usage lies in [0, 100] and is 0 on its first sample, when both baselines are 0 |
| CpuMonitor.ResetIfResized | src/core/CPUInfo/cpu_monitor.cpp:148-152 | the baselines always have the current core count; when the count is unchanged they are kept as they were |
| CpuMonitor.UpdateCores | src/core/CPUInfo/cpu_monitor.cpp:145-178 | a failed query changes nothing; a successful one gives every core a usage in [0, 100] and makes its sample its baseline, and after a change in core count every core reports 0 |
| CpuMonitor.UpdateUsageData | src/core/CPUInfo/cpu_monitor.cpp:88-185 | returns true exactly when GetSystemTimes succeeds, leaves the state alone otherwise, replaces both baselines, stores a usage that is 0 on a zero baseline or an empty interval and otherwise the double-subtraction share clamped to [0, 100] (SignedShare), and keeps one usage in [0, 100] per core |
| CpuMonitor.GetCurrentUsage | src/core/CPUInfo/cpu_monitor.cpp:68-85 | the usage is −1 with no core usages exactly when the update fails; otherwise it is in [0, 100] and the core usages are the stored ones |
| CpuMonitor.IdleOvershootDisagrees | src/core/CPUInfo/cpu_monitor.cpp:107-112 | from the same baselines and the same counters, when idle advanced more than the total, CalculateUsage returns 100 while UpdateUsageData stores 0 |
| CpuMonitor.SharesAgree | src/core/CPUInfo/cpu_monitor.cpp:212-223 | whenever idle advanced no more than the total, the two computations give the same usage |
| CpuMonitor.ArchitectureTable | src/core/CPUInfo/cpu_monitor.cpp:235-249 | exactly the four listed architecture codes get distinct names that map back to them; every other code is "Unknown" |
| Dashboard.SplitUptime | webclient/main.js:693-698 | days, hours, minutes and seconds add back up to the uptime, with hours below 24 and minutes and seconds below 60 |
| Dashboard.Pad2 | webclient/main.js:700 | every number below 100 is shown as exactly two digits whose decimal value is that number |
| Dashboard.FormatUptimeInjective | webclient/main.js:693-700 | two different uptimes never produce the same `D天 HH:MM:SS` text |
| Dashboard.StatusMonotone | webclient/main.js:703-730 | the CPU and memory indicators only get worse as usage rises, memory is never milder than CPU at the same usage, and each is good exactly at or below its warning threshold (80 for CPU, 75 for memory) |
| Dashboard.WorstBy | webclient/main.js:374-412 | the worst status over the disks is critical exactly when some disk is critical, and good exactly when every disk is good |
| Dashboard.FlagPass | webclient/main.js:385-392 | after one pass over the disks the critical flag is set exactly when some disk is critical, and the warning flag exactly when some disk is at warning |
| Dashboard.DiskOverallStatus | webclient/main.js:374-412 | an empty list changes nothing; otherwise the shown status is the worst space status, unless every disk's space is good, in which case it is the worst IO status |
| Dashboard.SpaceWarningHidesIo | webclient/main.js:395-403 | when some disk's space is at warning and none is critical, the space verdict is a warning, so the IO speeds are never consulted |
| DataCollector.FiletimeToU64 | src/core/DataCollector.cpp:17-19 | the packed count divides back into the high half and leaves the low half as remainder |
| DataCollector.FiletimeRoundTrip | src/core/DataCollector.cpp:17-19 | every 64-bit count is the packing of its own two 32-bit halves |
| DataCollector.BusyTime | src/core/DataCollector.cpp:263-272 | kernel plus user time, exact whenever the sum stays below 2^64 |
| DataCollector.ActualPath | src/core/DataCollector.cpp:92 | without a backslash the whole path is kept, because the not-found position plus one wraps to 0; otherwise the path is what follows the first backslash |
| DataCollector.RootOf | src/core/DataCollector.cpp:93 | the root is the local machine exactly when the path starts with its name, and the current user otherwise |
| DataCollector.LocalMachinePathSplit | src/core/DataCollector.cpp:81-93 | a path built from the local machine's name, a backslash and a relative path opens that relative path under the local machine |
| DataCollector.ValueData | src/core/DataCollector.cpp:125-132 | a string value is the buffer's bytes up to the first NUL; a DWORD prints the decimal of its first four bytes read little-endian; every other type prints "[Binary Data]" |
| DataCollector.DwordValueData | src/core/DataCollector.cpp:127-129 | a DWORD stored little-endian prints as its own decimal |
| DataCollector.ValuesOf | src/core/DataCollector.cpp:107-139 | every successful enumeration is recorded with the key's path, its name, type and data text; every record is such a successful enumeration, so failed calls add nothing; there are never more records than calls |
| DataCollector.CollectRegistryKey | src/core/DataCollector.cpp:90-142 | a key that cannot be opened fails; otherwise the result is the enumeration's values in order with failed calls skipped (ValuesOf), every successful enumeration appears with the key's full path, name, type and data text |
| DataCollector.CollectKeys | src/core/DataCollector.cpp:78-85 | the values collected from a list of keys come from those keys only, each under the local machine |
| DataCollector.CollectKeysComplete | src/core/DataCollector.cpp:78-85 | every value of a listed key that opens is collected |
| DataCollector.CollectRegistryData | src/core/DataCollector.cpp:67-88 | every value collected comes from one of the three fixed keys under the local machine, and every value of each of those keys that opens is collected; a key that cannot be opened contributes nothing |
| DataCollector.RegistryDataOpensLocalMachine | src/core/DataCollector.cpp:72-93 | each of the three keys is opened under the local machine at exactly its relative path |
| DataCollector.DiskFor | src/core/DataCollector.cpp:150-168 | a drive is recorded exactly when it is fixed or removable and its space query succeeds, with its letter, total, free, and used = total − free modulo 2^64 |
| DataCollector.DisksOfComplete | src/core/DataCollector.cpp:149-170 | every letter of the list whose drive qualifies is reported |
| DataCollector.DisksOfAscending | src/core/DataCollector.cpp:149 | letters visited in ascending order give records in ascending letter order |
| DataCollector.CollectDiskInfo | src/core/DataCollector.cpp:144-175 | at most 26 records, each for a letter A–Z whose bit is set in the drive mask, with used = total − free modulo 2^64, and no letter twice |
| DataCollector.CollectDiskInfoComplete | src/core/DataCollector.cpp:149-170 | every fixed or removable drive of the mask whose space query succeeds is reported |
| DataCollector.Delta | src/core/DataCollector.cpp:287-288 | a counter that advanced gives the exact advance; one that went backwards gives 0 |
| DataCollector.ClampedShare | src/core/DataCollector.cpp:294-317 | the clamped share lies in [0, m]; it is p/s·m exactly when p ≤ s, and m when p ≥ s |
| DataCollector.Share | src/core/DataCollector.cpp:290-317 | the usage lies between 0 and 100 per processor; no system advance gives 0; otherwise it is the process's share of the system advance times 100 per processor, capped when the process advanced at least as much |
| DataCollector.CalculateProcessCpuUsage | src/core/DataCollector.cpp:253-320 | the usage lies between 0 and 100 per processor; a failed query gives 0 and changes nothing; a successful one stores the pid's process and system busy times; a pid not yet cached gives 0 |
| DataCollector.SecondSampleMeasuresDelta | src/core/DataCollector.cpp:280-308 | a new pid reports 0 the first time and, the second time, its share of the system time between the two samples |
| DataCollector.IdleProcessReportsZero | src/core/DataCollector.cpp:285-297 | a cached process that used no time since its sample reports 0 |
| DataCollector.SeedCache | src/core/DataCollector.cpp:343-363 | exactly the pids with readable times are seeded, each against the given system time |
| DataCollector.InitializeCpuCounters | src/core/DataCollector.cpp:322-366 | the cache is rebuilt from scratch; the system time is kernel plus user, or 0 when the query fails; every readable process is seeded against it, and none when the enumeration fails |
| DataCollector.SeededPidMeasuresAtOnce | src/core/DataCollector.cpp:322-366 | after seeding, a seeded pid's first reading is its share of the system time since the seed rather than the first-sighting 0 |
| DataCollector.ProcessRecord | src/core/DataCollector.cpp:198-216 | every record keeps the entry's pid and executable name; for a process that opens it holds the measured CPU share, the working set and private usage when the memory query succeeds (private usage 0 when only the extended query fails) and the image path when that query succeeds |
| DataCollector.CollectProcessInfo | src/core/DataCollector.cpp:177-238 | a failed enumeration gives no records; otherwise one record per enumerated process in order, with its pid and name, a CPU figure between 0 and 100 per processor, and 0 with an empty path for a process that cannot be opened; no cached pid is dropped |
| DataCollector.CollectSnapshot | src/core/DataCollector.cpp:29-65 | the snapshot carries its name, the registry values and disks as collected, disks with distinct letters, and one process record per enumerated process |
| DiskMonitor.LettersFrom | src/core/Disk/disk_monitor.cpp:298-299 | from a starting letter on, a letter is listed exactly when its bit is set in the mask, in strictly ascending order |
| DiskMonitor.DriveLetters | src/core/Disk/disk_monitor.cpp:298-299 | letter 'A'+i is examined exactly when bit i of the mask is set, in ascending order, at most 26 letters |
| DiskMonitor.LettersBound | src/core/Disk/disk_monitor.cpp:298 | strictly ascending capital letters number at most 26 |
| DiskMonitor.RootPath | src/core/Disk/disk_monitor.cpp:300 | the root path is three characters long and starts with the drive letter |
| DiskMonitor.LocalSafeString | src/core/Disk/disk_monitor.cpp:45-50 | an empty name converts to the empty string |
| DiskMonitor.ApiDrive | src/core/Disk/disk_monitor.cpp:300-330 | a drive is listed exactly when it is fixed or removable, under its root path; a successful space query gives its total size; a failed volume query marks model and status "Unknown"; a successful one marks it "Healthy" with 512-byte sectors and the interface named after the drive type |
| DiskMonitor.ApiDrives | src/core/Disk/disk_monitor.cpp:298-332 | no more drives than letters, each under the root path of one of the letters |
| DiskMonitor.GetDrivesViaApi | src/core/Disk/disk_monitor.cpp:289-335 | at most 26 drives, each under the root path of a letter whose bit is set in the mask; a zero mask, the failure value, gives none |
| DiskMonitor.Supplement | src/core/Disk/disk_monitor.cpp:249-263 | a supplemented drive keeps its device id, total size and status |
| DiskMonitor.SupplementIdempotent | src/core/Disk/disk_monitor.cpp:249-263 | supplementing twice with the same WMI drive changes nothing more, and a WMI drive with no usable detail changes nothing at all |
| DiskMonitor.FirstSame | src/core/Disk/disk_monitor.cpp:243-247 | no drive is found exactly when none has the WMI drive's device id or total size; otherwise the first such drive is found |
| DiskMonitor.MergeOne | src/core/Disk/disk_monitor.cpp:241-270 | a WMI drive matching nothing is appended; otherwise the first match is supplemented and every other drive is unchanged |
| DiskMonitor.MergeDrives | src/core/Disk/disk_monitor.cpp:237-271 | the list never shrinks below the API drives nor grows beyond API plus WMI drives, and the API drives keep their place, device id, total size and status |
| DiskMonitor.MergeAppendsUnmatched | src/core/Disk/disk_monitor.cpp:265-267 | a WMI drive that matches no listed drive is appended unchanged |
| DiskMonitor.SafeDrive | src/core/Disk/disk_monitor.cpp:276-283 | after the pass, model, interface, media type, status and device id are never empty, and the sizes are untouched |
| DiskMonitor.GetDiskDrives | src/core/Disk/disk_monitor.cpp:231-287 | when the WMI query fails there are exactly the API drives, otherwise between the API count and the API plus WMI count; every drive has a non-empty model, device id and status, and the API drives keep their total size |
| DiskMonitor.UsagePercentage | src/core/Disk/disk_monitor.cpp:380-384 | an empty volume is 0 % used, a full one 100 %, and any volume with used ≤ total lies in [0, 100] |
| DiskMonitor.PartitionLabel | src/core/Disk/disk_monitor.cpp:400-409 | the label is never empty; a failed volume query or an empty volume name gives "Local Disk" |
| DiskMonitor.ApiPartition | src/core/Disk/disk_monitor.cpp:367-414 | a partition is listed exactly when the root is fixed or removable, with the root's first two characters and a non-empty label; a failed space query zeroes all four space fields; otherwise total and free are as queried, used + free = total with a usage in [0, 100] when free ≤ total, and used wraps modulo 2^64 when free exceeds total |
| DiskMonitor.GetPartitions | src/core/Disk/disk_monitor.cpp:339-355 | no more partitions than roots, each with a non-empty letter, label and file system |
| DiskMonitor.OverallHealth | src/core/Disk/disk_monitor.cpp:670-672 | "Excellent" exactly above 80, "Good" exactly in (60, 80], "Warning" exactly in (40, 60], "Bad" exactly at or below 40 |
| DiskMonitor.SmartRecord | src/core/Disk/disk_monitor.cpp:658-672 | the health status is 0 or 100 and the overall health is its bucket |
| DiskMonitor.SmartHealthTwoBuckets | src/core/Disk/disk_monitor.cpp:658-672 | a predicted failure gives "Bad" and otherwise "Excellent": "Good" and "Warning" never occur |
| DriverMonitor.StartTypeTable | src/core/Driver/driver_monitor.cpp:115-133 | each start-type code 0–4 has its own name and reads back to itself; every other code is "Unknown" |
| DriverMonitor.ServiceTypeTable | src/core/Driver/driver_monitor.cpp:137-150 | codes 1 and 2 name the kernel and file-system types and read back to themselves; every other code is "Unknown" in both names |
| DriverMonitor.ErrorControlTable | src/core/Driver/driver_monitor.cpp:153-168 | each error-control code 0–3 has its own name and reads back to itself; every other code is "Unknown" |
| DriverMonitor.StateTable | src/core/Driver/driver_monitor.cpp:181-204 | each state code 1–7 has its own name and reads back to itself; every other code is "Unknown" |
| DriverMonitor.DriverFromService | src/core/Driver/driver_monitor.cpp:93-213 | names come from the enumeration, a null pointer giving ""; without the configuration query the start type, driver type and path stay empty, with it the start type encodes its code when that is 0–4; without the status query the state is empty, with it the state is set and the exit code is the decimal of the wait hint; the driver type is one of "", "Kernel", "FileSystem", "Unknown" |
| DriverMonitor.FilterDisjointCount | src/core/Driver/driver_monitor.cpp:253-256 | the kernel drivers plus the file-system drivers are exactly the drivers counted in the total: no driver is both, and other types are not counted |
| DriverMonitor.PlaceAppends | src/core/Driver/driver_monitor.cpp:225-250 | one iteration appends the driver to exactly the lists whose tests it meets |
| DriverMonitor.TypeBuckets | src/core/Driver/driver_monitor.cpp:227-231 | the kernel and file-system lists hold exactly the drivers of that type, in input order |
| DriverMonitor.StateBuckets | src/core/Driver/driver_monitor.cpp:234-238 | the running and stopped lists hold exactly the drivers in that state, in input order |
| DriverMonitor.StartAndOriginBuckets | src/core/Driver/driver_monitor.cpp:241-249 | the auto-start list holds exactly the Auto, Boot and System drivers, and the third-party list exactly those whose path mentions neither "Microsoft" nor "Windows", in input order |
| DriverMonitor.CategorizeDrivers | src/core/Driver/driver_monitor.cpp:224-251 | each of the six lists is exactly the input drivers meeting its test, in input order |
| DriverMonitor.CalculateStatistics | src/core/Driver/driver_monitor.cpp:253-263 | the total is the kernel count plus the file-system count, and every count is its list's length |
| DriverMonitor.Safe | src/core/Driver/driver_monitor.h:32 | a converted field is never empty |
| DriverMonitor.ConvertToUtf8 | src/core/Driver/driver_monitor.h:31-48 | all fifteen text fields become non-empty, and the pid and install time are untouched |
| DriverMonitor.ConvertKeepsPrintable | src/core/Driver/driver_monitor.h:31-48 | a field that is already non-empty printable ASCII survives the conversion unchanged |
| DriverMonitor.ConvertAll | src/core/Driver/driver_monitor.cpp:265-279 | every driver of a list is converted in place, none added or removed |
| DriverMonitor.AllDrivers | src/core/Driver/driver_monitor.cpp:93-213 | one record per enumerated entry, in order |
| DriverMonitor.ConvertAllMembers | src/core/Driver/driver_monitor.cpp:265-279 | the converted list holds exactly the conversions of the list's drivers |
| DriverMonitor.GetDriverSnapshot | src/core/Driver/driver_monitor.cpp:17-44 | a snapshot whose enumeration fails holds no drivers; otherwise each of the six lists is exactly the converted drivers of the enumeration that meet its test, in enumeration order, the total counts kernel and file-system drivers and never exceeds the enumeration |
| DriverMonitor.FindInList | src/core/Driver/driver_monitor.cpp:296-300 | nothing is found exactly when no driver's converted name equals the converted query; otherwise the first such driver is found |
| DriverMonitor.FindInCategories | src/core/Driver/driver_monitor.cpp:295-304 | nothing is found exactly when no list holds a match; otherwise the driver found sits at the first match of the search: no earlier list holds a match and nothing before it in its own list matches |
| DriverMonitor.GetDriverDetail | src/core/Driver/driver_monitor.cpp:281-307 | the search fails exactly when none of the six lists holds a driver whose converted name equals the converted query; otherwise it returns the driver at the first match in the order kernel, file system, running, stopped, auto-start, third-party |
| DriverMonitor.IsDriverRunning | src/core/Driver/driver_monitor.cpp:309-316 | true exactly when the search finds a driver and the driver at the first match in search order has the state "Running"; a failed search answers false |
| DriverMonitor.FirstMatchUnique | src/core/Driver/driver_monitor.cpp:295-304 | the first match in search order is a single position |
| DriverMonitor.FirstMatchIsFound | src/core/Driver/driver_monitor.cpp:281-307 | whichever driver sits at the first match in search order is the one returned, so a match in an earlier list beats any in a later list |
| DriverMonitor.UncategorisedNotFound | src/core/Driver/driver_monitor.cpp:224-307 | a snapshot of drivers that fall in no category answers every lookup with "not found" and reports nothing running |
| DriverMonitor.EmptySnapshotNotFound | src/core/Driver/driver_monitor.cpp:281-316 | six empty lists find nothing and report nothing running |
| Encoding.IsValidUtf8 | src/utils/encode.cpp:28-63 | the byte loop accepts a string exactly when it is structurally valid UTF-8 (the lead-byte classes and continuation-byte rule, without overlong or surrogate checks) |
| Encoding.RunAt | src/utils/encode.cpp:30-60 | one step of the loop either rejects a string that is indeed invalid, or advances past one well-formed run so that validity of the whole equals validity of the rest |
| Encoding.GbCounts | src/utils/encode.cpp:75-107 | the GB2312 pair count never exceeds the character count, which never exceeds the byte count |
| Encoding.IsGb2312 | src/utils/encode.cpp:75-107 | the byte loop answers true exactly when there is at least one character and GB2312 pairs make up at least half of them; the empty string is never GB2312 |
| Encoding.AsciiNotGb2312 | src/utils/encode.cpp:75-107 | a non-empty ASCII string counts one character per byte and no GB2312 pair, so it is never taken for GB2312 |
| Encoding.DetectEncoding | src/utils/encode.cpp:12-25 | the answer is "UTF-8" exactly for valid UTF-8 (the empty string included), "GB2312" exactly for invalid UTF-8 that looks like GB2312, and "UNKNOWN" only for non-empty text that does not |
| Encoding.Collapse | src/utils/encode.cpp:191-211 | the character loop never lengthens its input and leaves only printable ASCII |
| Encoding.TrimFront | src/utils/encode.cpp:214-216 | the result is a suffix of the input that does not start with a space |
| Encoding.TrimBack | src/utils/encode.cpp:219-220 | the result is a prefix of the input that does not end with a space |
| Encoding.SanitizeString | src/utils/encode.cpp:183-221 | the result is no longer than the input, is printable ASCII, and starts and ends with a non-space |
| Encoding.CollapseRun | src/utils/encode.cpp:200-205 | a run of control whitespace becomes a single space, or nothing when the character before the run was itself control whitespace turned into a space; a literal space clears that flag |
| Encoding.CollapseKeepsSpaces | src/utils/encode.cpp:195-198 | literal spaces are printable and pass the loop unchanged, however many there are |
| Encoding.SanitizeStringIdempotent | src/utils/encode.cpp:183-221 | sanitising an already sanitised string changes nothing |
| Encoding.SanitizeStringKeeps | src/utils/encode.cpp:183-221 | printable text with no space at either end is left exactly as it was |
| Encoding.PrintableWellFormed | src/utils/encode.cpp:28-63 | every printable ASCII string passes the UTF-8 test |
| Encoding.ToUtf8 | src/utils/encode.cpp:166-181 | the empty string and valid UTF-8 come back unchanged, GB2312 goes through the code-page conversion, and anything else is sanitised |
| Encoding.ToUtf8WellFormed | src/utils/encode.cpp:166-181 | outside the GB2312 branch the conversion never fails and always yields valid UTF-8 |
| Encoding.SafeString | src/utils/encode.cpp:223-232 | the default replaces a conversion that throws or gives the empty string; any other conversion result is returned; a non-empty default makes the result non-empty |
| Encoding.SafeStringKeeps | src/utils/encode.cpp:223-232 | non-empty valid UTF-8 passes unchanged |
| Encoding.SafeStringKeepsPrintable | src/utils/encode.cpp:223-232 | non-empty printable ASCII passes unchanged |
| Logger.GateMonotone | src/utils/AsyncLogger.h:17-22 | every level passes a gate set to itself, raising the current level only drops messages, and errors always pass while a debug gate lets everything through |
| Logger.WarningGate | src/utils/AsyncLogger.h:27 | at the warning level exactly warnings and errors are written; at the default info level everything but debug is |
| Logger.LevelName | src/utils/AsyncLogger.h:155-163 | each level's name is at least four characters and holds no closing bracket |
| Logger.LevelNameRoundTrip | src/utils/AsyncLogger.h:155-163 | every level's name reads back to that level, so no two levels share a name |
| Logger.CString | src/utils/AsyncLogger.h:192 | the C string is the longest prefix without a NUL: the whole text when it has none |
| Logger.FileNameStart | src/utils/AsyncLogger.h:192-196 | the file name starts right after a separator, or at 0, and holds no separator |
| Logger.ExtractFileName | src/utils/AsyncLogger.h:190-198 | the result is the C string's tail after its last separator, contains no separator, and is the whole C string when that has none |
| Logger.FormatLine | src/utils/AsyncLogger.h:304-307 | a line starts with the time and the level name in brackets and ends with the message |
| Logger.FormatThenParse | src/utils/AsyncLogger.h:304-307 | the level can be read back from a formatted line whenever the time stamp holds no closing bracket |
| Logger.ParseHeader | src/utils/AsyncLogger.h:304-305 | the text in a line's second bracket is read back whole, whatever follows the header |
| Logger.Log | src/utils/AsyncLogger.h:292-307 | a line is written exactly when the message's level is at least the current level |
| Logger.Extension | src/utils/AsyncLogger.h:124 | the extension is empty or a dot followed by no other dot, and it is a proper suffix of the file name |
| Logger.OwnFilesAreCounted | src/utils/AsyncLogger.h:79-88 | every file the logger itself names is one its clean-up counts, because the time stamp has no dot |
| Logger.SortByTime | src/utils/AsyncLogger.h:133-137 | the files come out oldest first, as a permutation of the input |
| Logger.RetentionLimit | src/utils/AsyncLogger.h:131 | a non-negative file limit is kept, and a negative one converts to a number of at least 2^64 − 2^31 |
| Logger.CleanupOldFiles | src/utils/AsyncLogger.h:117-148 | the counted files split into deleted and kept, kept holds exactly the limit when there are more files than that and all of them otherwise, nothing is deleted when the count is within the limit, and no deleted file is newer than a kept one |
| Logger.SortedCut | src/utils/AsyncLogger.h:140-143 | cutting a time-ordered list keeps every file, and nothing before the cut is newer than anything after it |
| Logger.DeletesOnlyCounted | src/utils/AsyncLogger.h:121-143 | only regular .log files whose path contains the base name are ever deleted |
| Logger.NegativeLimitKeepsAll | src/utils/AsyncLogger.h:131 | a negative limit deletes nothing |
| MemoryMonitor.UsedBytes | src/core/Memory/memory_monitor.cpp:73 | used bytes never exceed the total; when the available bytes are at most the total, used plus available is the total; otherwise used is 0 |
| MemoryMonitor.UsedPercent | src/core/Memory/memory_monitor.cpp:74-78 | the percentage lies in [0, 100], is 0 for a zero total, and when used ≤ total it is exactly the used share (percent · total = 100 · used) |
| MemoryMonitor.UpdateUsageData | src/core/Memory/memory_monitor.cpp:64-93 | returns true exactly when the status query succeeds; a failed query leaves the state unchanged; a successful one stores total, available, used and the tick together with a percentage in [0, 100] that equals the atomic copy, is 0 for a zero total and otherwise is exactly the used share (percent · total = 100 · used) |
| MemoryMonitor.PercentIsUsedShare | src/core/Memory/memory_monitor.cpp:71-78 | the clamp never changes the value: percent · total = 100 · used, and the percentage is 0 exactly when available ≥ total |
| MemoryMonitor.UpdateForgetsPrevious | src/core/Memory/memory_monitor.cpp:82-90 | a successful reading replaces every field, so its result does not depend on the state before it |
| ProcessList.FirstMatch | webclient/main.js:823 | the regular expression's leftmost match: nothing is found exactly when no position starts a run of digits and dots followed by a capital letter; otherwise the position found starts such a run and no earlier position does |
| ProcessList.ParseFloat | webclient/main.js:827 | a non-empty string of digits is read as the whole number it writes |
| ProcessList.ParseMemoryValue | webclient/main.js:822-835 | a string with no number followed by a capital unit is worth 0 |
| ProcessList.NumberThenUnit | webclient/main.js:822-835 | a whole number written directly before a capital unit is read as that number scaled by the unit |
| ProcessList.UnitsScale | webclient/main.js:830-834 | n GB is 1024·n megabytes, n MB is n, n KB is n/1024, and an unknown unit such as B leaves n as it is |
| ProcessList.UnmatchedIsZero | webclient/main.js:823-824 | a number followed by a lower-case unit, or separated from its unit by a space, is worth 0 |
| ProcessList.FilterProcesses | webclient/main.js:748-753 | the user and system filters keep exactly the rows of that kind; any other filter keeps the whole list as it is |
| ProcessList.SortToggle | webclient/main.js:1148-1157 | clicking the active column reverses its direction and clicking it twice restores the state; a new column always starts descending |
| ProcessList.ColumnKeysOfOneKind | webclient/main.js:759-779 | within one column every key is of the same kind, so without NaN the comparator's keys are consistent |
| ProcessList.KeyLessAsymmetric | webclient/main.js:781-786 | a key below another is not also above it, and is different from it |
| ProcessList.KeyNotLessTransitive | webclient/main.js:781-786 | for keys of one kind without NaN, "not below" is transitive |
| ProcessList.NotBeforeTransitive | webclient/main.js:781-786 | in either direction, "does not go before" is transitive for consistent keys |
| ProcessList.BeforeAsymmetric | webclient/main.js:781-786 | a row that goes before another does not also go after it, and their keys differ |
| ProcessList.Insert | webclient/main.js:756 | inserting a row gives a permutation of the list plus that row |
| ProcessList.SortBy | webclient/main.js:756-787 | the sort is a permutation of its input |
| ProcessList.InsertSorted | webclient/main.js:756-787 | inserting a consistent row into a sorted list keeps it sorted |
| ProcessList.SortBySorted | webclient/main.js:756-787 | sorting rows whose keys are consistent gives rows in comparator order: no row would go before an earlier one |
| ProcessList.InsertStable | webclient/main.js:756 | insertion keeps the relative order of the rows with any one key and puts the new row last among those with its key |
| ProcessList.SortByStable | webclient/main.js:756 | the sort is stable: the rows with any one key come out in the order they came in |
| ProcessList.ConstantKeyKeepsOrder | webclient/main.js:779-780 | when the comparator returns 0 for every pair the list is left exactly as it was |
| ProcessList.RenderedRows | webclient/main.js:746-787 | the rendered rows are a permutation of the filtered rows |
| ProcessList.ProcessesAfterRender | webclient/main.js:748-756 | the stored list stays a permutation of itself; with the user or system filter it is untouched, and without a filter it becomes the rendered order, because the sort then works on the array itself |
| ProcessList.RenderedRowsOrdered | webclient/main.js:746-787 | without NaN keys the rendered rows are in comparator order, and the rows with equal keys keep their filtered order |
| ProcessList.UnknownFieldKeepsOrder | webclient/main.js:759-780 | a column the comparator does not know renders the filtered rows in their original order |
| ProcessMonitor.GetProcessSnapshot | src/core/Process/process_monitor.cpp:36-52 | the snapshot keeps the enumerated list and the tick; its process count is the list's length modulo 2^32, and its thread total is the exact sum of the thread counts modulo 2^32 |
| ProcessMonitor.TotalThreadsExact | src/core/Process/process_monitor.cpp:46-49 | with non-negative thread counts summing below 2^32, the thread total is exactly the sum |
| ProcessMonitor.GetProcessInfo | src/core/Process/process_monitor.cpp:266-276 | a pid present in the list gives a record of the list with that pid; an absent pid gives the empty record |
| ProcessMonitor.GetProcessInfoFirst | src/core/Process/process_monitor.cpp:268-272 | of several records with the pid, the first is returned |
| ProcessMonitor.MissingPidLooksLikePidZero | src/core/Process/process_monitor.cpp:274-275 | a missing pid comes back as a record whose pid is 0, indistinguishable from a present pid 0 |
| ProcessMonitor.FindProcessesByName | src/core/Process/process_monitor.cpp:278-289 | a process is reported exactly when it is in the list and its whole name equals the query up to ASCII case; the result is no longer than the list |
| ProcessMonitor.FindProcessesByNameCounts | src/core/Process/process_monitor.cpp:282-286 | queries that differ only in ASCII case give the same result, and a matching record is reported as many times as it occurs in the list |
| ProcessMonitor.ShareOfOne | src/core/Process/process_monitor.cpp:245-249 | on one processor the share is 0 with no system advance, 100·Δp/Δs when the process used no more than the system, and clamped to 100 otherwise |
| ProcessMonitor.GetProcessCpuUsage | src/core/Process/process_monitor.cpp:205-263 | the usage lies in [0, 100]; a failed query changes nothing and gives 0; a successful one stores the pid's kernel and user times with the tick and replaces the shared system time; a pid without a record, or before any system time is stored, gives 0; otherwise, with Δp the uint64 process-time difference and Δs the uint64 advance of the shared system time, the usage is 0 when Δs is 0, satisfies usage · Δs = 100 · Δp when Δp ≤ Δs, and is 100 when Δp ≥ Δs |
| ProcessMonitor.SharedBaselineHidesUsage | src/core/Process/process_monitor.cpp:240-260 | reading a second pid right after a first, within one system-clock tick, reports 0 for the second however busy it was, because the system time is shared |
| ProcessMonitor.ReusedPidReportsFull | src/core/Process/process_monitor.cpp:243-250 | a process time below the pid's record wraps the unsigned difference and is reported as the full 100 |
| ProcessMonitor.GetProcessCpuUsageCorrected | src/core/Process/process_monitor.cpp:205-263 | the corrected reading lies in [0, 100], changes nothing on a failed query, keeps each pid's own process and system times, and gives 0 for a pid seen for the first time; for a known pid, with Δp and Δs the advances since that pid's own baseline (0 for a clock that went backwards), it is 0 when Δs is 0, satisfies usage · Δs = 100 · Δp when Δp ≤ Δs, and is 100 when Δp ≥ Δs |
| ProcessMonitor.CorrectedIgnoresOtherPids | src/core/Process/process_monitor.cpp:240-260 | in the corrected reading, measuring one pid does not change the next measurement of another |
| ProcessMonitor.CorrectedReusedPidReportsZero | src/core/Process/process_monitor.cpp:243-250 | in the corrected reading, a process time below the pid's baseline counts as no use |
| RegistryModel.ValueEqualsIsEquality | src/core/Register/registry_monitor.h:27-36 | two values compare equal exactly when name, type, data and size all agree, and `!=` is its negation |
| RegistryModel.KeyEqualsIgnoresTime | src/core/Register/registry_monitor.h:54-63 | two keys compare equal exactly when they agree on everything but the modification time, and `!=` is its negation |
| RegistryModel.KeyEqualsEquivalence | src/core/Register/registry_monitor.h:54-58 | key equality is reflexive, symmetric and transitive |
| RegistryModel.ConvertValue | src/core/Register/registry_monitor.h:39-44 | the conversion succeeds exactly when name, type and data all convert; it then replaces each with its converted text and keeps the size |
| RegistryModel.ConvertValues | src/core/Register/registry_monitor.h:69-71 | converting a key's values succeeds exactly when every value converts, and then keeps their number and order |
| RegistryModel.ConvertKey | src/core/Register/registry_monitor.h:65-79 | a key converts exactly when all its values do; the path and each subkey name become their non-empty safe strings, the counts are kept, and the modification time is untouched |
| RegistryModel.HiveName | src/core/Register/registry_monitor.cpp:256-263 | every root, known or not, gets a non-empty name without a backslash |
| RegistryModel.HiveNameRoundTrip | src/core/Register/registry_monitor.cpp:389-393 | naming a root and reading the name back gives the root, and every name that reads as a root is that root's name |
| RegistryModel.NamedHive | src/core/Register/registry_monitor.cpp:389-393 | a name that reads as a root is exactly that root's name |
| RegistryModel.TypeName | src/core/Register/registry_monitor.cpp:265-278 | every type code gets a non-empty name |
| RegistryModel.TypeNameTable | src/utils/registry_encode.cpp:17-29 | exactly the eight listed type codes get distinct names that read back to them; every other code is "UNKNOWN" |
| RegistryMonitor.MakeValue | src/core/Register/registry_monitor.cpp:217-221 | an empty value name becomes "(Default)", any other name is sanitised and keeps its length; the type is the name of the type code; the size is the byte count reported |
| RegistryMonitor.EnumeratedValues | src/core/Register/registry_monitor.cpp:198-231 | only values whose enumeration succeeded are recorded, in index order, and every recorded name is non-empty |
| RegistryMonitor.EnumeratedSubkeys | src/core/Register/registry_monitor.cpp:238-250 | only subkeys whose enumeration succeeded are recorded, in index order, each as well-formed UTF-8 |
| RegistryMonitor.EnumeratedValuesCount | src/core/Register/registry_monitor.cpp:198-231 | the number of recorded values is exactly the number of successful enumerations |
| RegistryMonitor.EnumeratedSubkeysCount | src/core/Register/registry_monitor.cpp:238-250 | the number of recorded subkeys is exactly the number of successful enumerations |
| RegistryMonitor.KeyPath | src/core/Register/registry_monitor.cpp:185 | the key path is the root's name, a backslash, then exactly the subkey path |
| RegistryMonitor.GetRegistryKey | src/core/Register/registry_monitor.cpp:183-254 | the path is always root name plus subkey; a key that cannot be opened has no values and no subkeys; otherwise it holds the enumerated values and subkeys |
| RegistryMonitor.GetRegistryKeyCounts | src/core/Register/registry_monitor.cpp:198-250 | an opened key holds one value per successful value enumeration and one subkey per successful subkey enumeration |
| RegistryMonitor.KeepNonEmpty | src/core/Register/registry_monitor.cpp:120-122 | the kept keys are exactly the input keys with a value or a subkey, in input order: none is lost, none is invented |
| RegistryMonitor.ReadKeys | src/core/Register/registry_monitor.cpp:116-119 | one key is read per configured path, in path order, each the key GetRegistryKey reads under the root at that path |
| RegistryMonitor.GetSystemInfoKeys | src/core/Register/registry_monitor.cpp:113-130 | at most the four configured keys are returned, under HKEY_LOCAL_MACHINE and in path order; each configured key is returned exactly when it has a value or a subkey |
| RegistryMonitor.ConvertAndKeep | src/core/Register/registry_monitor.cpp:167-178 | a key is returned exactly when some input key converts to it without throwing and it has content; the result keeps input order and every kept path is non-empty |
| RegistryMonitor.ConvertAndKeepCount | src/core/Register/registry_monitor.cpp:167-178 | when no conversion throws, converting before filtering keeps exactly as many keys as filtering alone |
| RegistryMonitor.GetInstalledSoftware | src/core/Register/registry_monitor.cpp:132-162 | a key is returned exactly when it is the conversion of one of the three machine-wide keys or the user's uninstall key and has content; machine-wide keys come first, in path order |
| RegistryMonitor.GetNetworkConfig | src/core/Register/registry_monitor.cpp:164-181 | a key is returned exactly when it is the conversion of one of the three configured keys and has content, in path order |
| RegistryMonitor.Converted | src/core/Register/registry_monitor.cpp:167-178 | the keys whose conversion does not throw, converted, in order: a key is present exactly when some input key converts to it |
| RegistryMonitor.KeptUnderRoot | src/core/Register/registry_monitor.cpp:116-122 | every key kept from one root lies under that root's name, and a configured key is kept exactly when it has content |
| RegistryMonitor.ParseValuePath | src/core/Register/registry_monitor.cpp:379-403 | an address without a backslash is rejected, and a parsed value name never contains a backslash |
| RegistryMonitor.ParseThenFormat | src/core/Register/registry_monitor.cpp:379-403 | a parsed address, printed back with backslashes, is the original text |
| RegistryMonitor.FormatThenParse | src/core/Register/registry_monitor.cpp:379-403 | printing a root, a key path and a value name without backslash parses back to the same three parts |
| RegistryMonitor.ParseAfterRoot | src/core/Register/registry_monitor.cpp:384-403 | a root name, a key path and a backslash-free value name joined by backslashes parse to that root, key path and value name, even when the key path itself contains backslashes |
| RegistryMonitor.SafeQueryValue | src/core/Register/registry_monitor.cpp:377-426 | a bad address answers false and leaves the value alone; an open or size-query failure answers false; a failed read after a good size query answers true but leaves the value alone; a read overwrites name, type, the data text of the bytes read and the byte count as size |
| RegistryRender.WideFallback | src/core/Register/registry_monitor.cpp:27-35 | the fallback gives one ASCII byte per UTF-16 unit: the unit itself exactly when it lies in 1..0x7F, '?' otherwise |
| RegistryRender.MonitorWideToUtf8 | src/core/Register/registry_monitor.cpp:12-36 | an empty wide string gives ""; a conversion that reports nothing or throws falls back to the one-byte-per-unit loop |
| RegistryRender.EncodeWideToUtf8 | src/utils/registry_encode.cpp:114-140 | an empty wide string gives "" |
| RegistryRender.WideToUtf8VariantsAgree | src/utils/registry_encode.cpp:130-139 | the extra `SafeString` in the encoding utility's fallback never changes anything, so both `WideToUTF8` variants agree on every input |
| RegistryRender.SegmentLength | src/core/Register/registry_monitor.cpp:315-318 | the inner loop stops at the first NUL unit or at the end, and no unit before that point is NUL |
| RegistryRender.Segments | src/core/Register/registry_monitor.cpp:314-329 | the MULTI_SZ walk visits only non-empty segments that contain no NUL unit |
| RegistryRender.TerminatedIsJoin | src/core/Register/registry_monitor.cpp:320-325 | accumulating each part followed by "; " gives the parts joined by "; " plus one trailing "; " |
| RegistryRender.DropLastSeparatorIsJoin | src/core/Register/registry_monitor.cpp:331-333 | removing the final two characters leaves exactly the parts joined by "; " (and "" for no parts) |
| RegistryRender.MapRender | src/core/Register/registry_monitor.cpp:321-323 | each segment is rendered on its own, in order |
| RegistryRender.MultiSzText | src/core/Register/registry_monitor.cpp:309-335 | the MULTI_SZ text is the rendered segments joined by "; " |
| RegistryRender.HexDump | src/core/Register/registry_monitor.cpp:341-343 | each byte shown takes exactly three characters |
| RegistryRender.HexDumpAt | src/core/Register/registry_monitor.cpp:341-343 | the k-th group of the dump is the byte's two hex digits followed by a space |
| RegistryRender.BinaryText | src/core/Register/registry_monitor.cpp:337-346 | at most 16 bytes are shown, three characters each, and "..." follows exactly when the buffer is longer than 16 |
| RegistryRender.BinaryTextDecodes | src/core/Register/registry_monitor.cpp:337-346 | every byte shown can be read back from its two hex digits, and a space follows each |
| RegistryRender.CString | src/core/Register/registry_monitor.cpp:290-291 | the string read is the bytes before the first NUL within the reported size, never longer than the buffer |
| RegistryRender.DataToString | src/core/Register/registry_monitor.cpp:280-357 | null or empty data gives ""; unknown types give "[Unsupported Type]"; short DWORD and QWORD buffers give "[Binary Data]"; DWORD and QWORD give the decimal digits of the little-endian value below 2^32 and 2^64; BINARY the hex dump; the string types the rendered C string; MULTI_SZ the rendered segments joined by "; " |
| RegistryRender.MonitorDataToString | src/core/Register/registry_monitor.cpp:285-293 | a string value is as long as its C string and always well-formed UTF-8 after the sanitizer |
| RegistryRender.EncodeDataToString | src/utils/registry_encode.cpp:31-73 | a string value never renders empty; a buffer that starts with NUL renders as the `SafeString` default |
| RegistryRender.DwordRoundTrip | src/core/Register/registry_monitor.cpp:295-300 | a DWORD stored as four little-endian bytes renders as the decimal digits of that number, whatever follows the four bytes |
| RegistryRender.QwordRoundTrip | src/core/Register/registry_monitor.cpp:302-307 | a QWORD stored as eight little-endian bytes renders as the decimal digits of that number, whatever follows the eight bytes |
| SortedMap.Get | src/server/WebServer.cpp:1050-1070 | a lookup succeeds exactly when the key is present, and then returns the value stored under that key |
| SortedMap.GetEntry | src/server/WebServer.cpp:1069-1070 | in a map with ascending distinct keys, every entry is found under its own key |
| SortedMap.Put | src/server/WebServer.cpp:667 | `m[k] = v` keeps the keys ascending and distinct, adds exactly the key k to the key set, stores (k, v), and keeps every other entry from the old map |
| SortedMap.GetPut | src/server/WebServer.cpp:667 | after `m[k] = v` the key k reads v and every other key reads what it read before |
| SortedMap.Erase | src/server/WebServer.cpp:1139 | `erase(k)` keeps the keys ascending, removes exactly the key k, and keeps only entries of the old map |
| SortedMap.GetErase | src/server/WebServer.cpp:1139 | after `erase(k)` the key k is absent and every other key reads what it read before |
| SortedMap.IncreasingUnique | src/server/WebServer.cpp:972 | two ascending key lists with the same members are the same list, so a map walk's order is determined by its key set |
| SortedMap.SelectKeys | src/server/WebServer.cpp:972-1010 | the keys picked in a map walk are ascending and are exactly those whose entries pass the test |
| SortedMap.SelectKeysGet | src/server/WebServer.cpp:972-1010 | a key is picked exactly when it is present and its stored entry passes the test |
| SystemSnapshot.RegistryValueEqualsIsIdentity | src/core/SystemSnapshot.cpp:12-17 | registry values compare on every field, so equality is identity |
| SystemSnapshot.DiskInfoEqualsIgnoresUsed | src/core/SystemSnapshot.cpp:26-30 | two disks are equal exactly when they differ at most in the used space |
| SystemSnapshot.ProcessInfoEqualsIgnoresUsage | src/core/SystemSnapshot.cpp:39-41 | two processes are equal exactly when they differ at most in CPU, memory, private bytes and path |
| SystemSnapshot.Gibibytes | src/core/SystemSnapshot.cpp:34-35 | the size in whole gibibytes, rounded down |
| SystemSnapshot.Mebibytes | src/core/SystemSnapshot.cpp:46 | the size in whole mebibytes, rounded down |
| SystemSnapshot.DiskInfoToStringRespectsEquality | src/core/SystemSnapshot.cpp:26-36 | equal disks print the same text |
| SystemSnapshot.After | src/core/SystemSnapshot.cpp:19-23 | a rest is found exactly when the text starts with the prefix, and then the text is the prefix followed by it |
| SystemSnapshot.CutAtComma | src/core/SystemSnapshot.cpp:19-23 | a text without a comma does not split; otherwise the split is at its first comma |
| SystemSnapshot.ParseRegistryValueText | src/core/SystemSnapshot.cpp:19-23 | a value read back from text has a path and a name without commas |
| SystemSnapshot.RegistryValueTextRoundTrip | src/core/SystemSnapshot.cpp:19-23 | the text of a registry value whose path and name hold no comma reads back to the same value |
| TimeUtil.DaysFrom1601To1970 | src/utils/util_time.h:12 | the Gregorian calendar has 134774 days from 1601-01-01 to 1970-01-01 (89 leap years; 1700, 1800 and 1900 are not leap years) |
| TimeUtil.EpochDifferenceIsCalendar | src/utils/util_time.h:12 | the constant 116444736000000000 is exactly those days in seconds (11644473600 s) times 10^7 ticks per second |
| TimeUtil.MillisSinceEpoch | src/utils/util_time.h:11-21 | from 1970 on, the result is the tick difference in whole milliseconds, rounded down; before 1970 the uint64 subtraction wraps by 2^64 before the division |
| TimeUtil.MillisMonotone | src/utils/util_time.h:21 | for readings at or after the constant, a later reading never gives a smaller result |
| TimeUtil.MillisWrapsAbove | src/utils/util_time.h:21 | every reading before the constant wraps to a result at least as large as that of any reading after it |
| Trend.RangeTables | webclient/main.js:936-952 | points per range times the refresh interval is exactly the range's length, an unknown range takes both values of 1h, and every range has at least 60 points |
| Trend.At | webclient/main.js:964-967 | an array read inside the array gives its element, and `undefined` outside |
| Trend.PickAt | webclient/main.js:964-967 | element k of the picked samples is the array read at the k-th index |
| Trend.Ceil | webclient/main.js:960 | the ceiling of a/b: the least number whose multiple of b reaches a |
| Trend.PickedShape | webclient/main.js:963-972 | the walk keeps min(left, ⌊top/step⌋ + 1) indices, step apart, oldest first, ending at top, never above it |
| Trend.CeilOfCeil | webclient/main.js:960-972 | walking down in steps of ⌈L/n⌉ meets at most n indices |
| Trend.DownsampleCount | webclient/main.js:955-972 | a trace longer than the point budget keeps ⌈L/step⌉ points, never more than the budget, so the budget cut-off only stops the walk at its natural end |
| Trend.OneHourOf150Samples | webclient/main.js:938-972 | 150 samples at the 1h range give 50 points, not 60, because the step is 3 |
| Trend.FilterPerformanceData | webclient/main.js:927-976 | a trace within the point budget comes back unchanged; a longer one keeps, in all four arrays, the samples at the same picked indices, oldest first, between 1 and the budget of them, the newest sample always last |
| Trend.WalkBack | webclient/main.js:963-972 | the loop prepends, in all four arrays, the samples at the indices from the last one down by the step, at most the budget of them |
| Utf8.LeadMasks | src/server/WebServer.cpp:896-915 | each bit-mask test of the loop selects exactly one byte range: continuation 0x80-0xBF, two-byte lead 0xC0-0xDF, three-byte lead 0xE0-0xEF, four-byte lead 0xF0-0xF7 |
| Utf8.LeadLength | src/server/WebServer.cpp:892-925 | a byte announces at most four bytes; it announces one exactly when it is ASCII, and none exactly when it is a continuation byte or 0xF8 and above |
| Utf8.RunLength | src/server/WebServer.cpp:892-925 | a run found at the front is the length its lead announces, fits in the string, and is followed by continuation bytes only; an ASCII byte is always a run of one |
| Utf8.AsciiWellFormed | src/utils/encode.cpp:28-63 | pure ASCII text is always well-formed |
| Utf8.RunLengthPrefix | src/server/WebServer.cpp:892-925 | whether a run is accepted depends only on its own bytes, never on what follows it |
| Utf8.Sanitize | src/server/WebServer.cpp:885-933 | the sanitised text has exactly as many bytes as the input |
| Utf8.SanitizeSubstitutesAll | src/server/WebServer.cpp:885-933 | the output is the input with some non-ASCII bytes replaced by '?', position by position; ASCII is never replaced |
| Utf8.SanitizeSubstitutes | src/server/WebServer.cpp:885-933 | each output byte is the input byte at the same position, or '?' standing for a non-ASCII byte |
| Utf8.SanitizeWellFormed | src/server/WebServer.cpp:885-933 | the output always passes the structural UTF-8 test |
| Utf8.SanitizeIdentity | src/server/WebServer.cpp:885-933 | sanitising changes nothing exactly when the input is already well-formed |
| Utf8.SanitizeIdempotent | src/server/WebServer.cpp:885-933 | sanitising twice is the same as sanitising once |
| Utf8.StepRun | src/server/WebServer.cpp:892-925 | the branch cascade of one loop step finds the same run as the reference definition |
| Utf8.SanitizeUtf8 | src/server/WebServer.cpp:885-933 | the byte loop computes the reference sanitiser (the registry monitor's copy at src/core/Register/registry_monitor.cpp:38-80 is the same loop) |
| Utf8.Filter | src/core/Disk/disk_monitor.cpp:82-126 | filtering never lengthens the text |
| Utf8.FilterSubsequence | src/core/Disk/disk_monitor.cpp:82-126 | the filter only deletes bytes: its output is a subsequence of its input |
| Utf8.FilterWellFormed | src/core/Disk/disk_monitor.cpp:82-126 | the output always passes the structural UTF-8 test |
| Utf8.FilterIdentity | src/core/Disk/disk_monitor.cpp:82-126 | filtering changes nothing exactly when the input is already well-formed |
| Utf8.FilterIdempotent | src/core/Disk/disk_monitor.cpp:82-126 | filtering twice is the same as filtering once |
| Utf8.FilterFromSuffix | src/core/Disk/disk_monitor.cpp:85-124 | reading the kept runs position by position from any index gives the filter of the suffix from there |
| Utf8.FilterToValidUtf8 | src/core/Disk/disk_monitor.cpp:82-126 | the byte loop computes the reference filter: well-formed runs kept, every other byte dropped |
| Utf8.FilterAt | src/core/Disk/disk_monitor.cpp:85-124 | one pass of the loop body advances by at least one byte and keeps what the loop has produced plus what is left to produce unchanged |
| WebServer.Trunc | src/server/WebServer.cpp:874 | converting a double to an integer truncates toward zero: the result is the integer at most one step from the value, on the side of zero |
| WebServer.Int64Of | src/server/WebServer.cpp:874 | a signed number is read as itself; an unsigned one is read modulo 2^64 into the signed 64-bit range, so values above 2^63 − 1 wrap to negatives |
| WebServer.U32Of | src/server/WebServer.cpp:830 | storing a number into the 32-bit size keeps it modulo 2^32, so sizes below 2^32 are stored unchanged |
| WebServer.IntTextWellFormed | src/server/WebServer.cpp:874 | the decimal text of any integer is valid UTF-8 |
| WebServer.SafeJsonToString | src/server/WebServer.cpp:858-882 | null gives ""; a string keeps its length and is returned unchanged exactly when it is valid UTF-8; a boolean gives "true" or "false" according to its value; an array or object gives "[Unsupported Type]"; a number gives the decimal text of its signed 64-bit value; every result is valid UTF-8 |
| WebServer.StringText | src/server/WebServer.cpp:864-867 | a JSON string comes back at the same length and valid UTF-8, and unchanged exactly when it already was valid UTF-8 |
| WebServer.NumberText | src/server/WebServer.cpp:873-875 | a number, read as a signed 64-bit integer, becomes its decimal text (a leading '-' for negatives), which is valid UTF-8 |
| WebServer.LiteralsWellFormed | src/server/WebServer.cpp:858-882 | the fixed replies "", "true", "false" and "[Unsupported Type]" are valid UTF-8 |
| WebServer.SafeJsonStringIdentity | src/server/WebServer.cpp:863-866 | on a string the conversion is the identity exactly when the string is valid UTF-8, and applying it twice is the same as once |
| WebServer.ParseValue | src/server/WebServer.cpp:818-833 | name and type are read only from strings and sanitised; data from any member that is not null; size from a numeric member, modulo 2^32 |
| WebServer.StringItems | src/server/WebServer.cpp:838-844 | only string elements become subkeys, in order and sanitised, each valid UTF-8; an all-string array gives one subkey per element |
| WebServer.ParseKey | src/server/WebServer.cpp:808-846 | the path comes from a string member; "values" and "subkeys" are read only when they are arrays, one value per element and one subkey per string element, in order |
| WebServer.ParseRegistryKeysFromJson | src/server/WebServer.cpp:799-855 | a non-array gives no keys; an array gives exactly one key per element, in order |
| WebServer.ParsedKeysWellFormed | src/server/WebServer.cpp:799-855 | whatever the input, every string of every parsed key is valid UTF-8 |
| WebServer.ParseValueToJson | src/server/WebServer.cpp:541-547 | a value rendered as JSON and parsed back keeps its size and gets its three strings sanitised |
| WebServer.ValueMember | src/server/WebServer.cpp:541-547 | each of the four members of a rendered value is found under its own name |
| WebServer.ParseKeyToJson | src/server/WebServer.cpp:536-553 | a key rendered as JSON and parsed back is the key with every string sanitised and without its modification time |
| WebServer.KeyMembers | src/server/WebServer.cpp:537-550 | path, subkeys and values of a rendered key are found under their names |
| WebServer.KeyRoundTrip | src/server/WebServer.cpp:536-553 | a key whose strings are all valid UTF-8 survives rendering and parsing unchanged, apart from its modification time |
| WebServer.Paths | src/server/WebServer.cpp:974-980 | the paths are read one per key, in order |
| WebServer.PathIndex | src/server/WebServer.cpp:972-980 | indexing a list by path gives a map with ascending distinct paths |
| WebServer.LastWithPath | src/server/WebServer.cpp:974-980 | a path is found exactly when some key carries it, and then the key found is a key of the list with that path |
| WebServer.PathIndexGet | src/server/WebServer.cpp:974-980 | the index maps each path to the last key of the list with that path: later duplicates win |
| WebServer.CompareRegistrySnapshots | src/server/WebServer.cpp:966-1006 | each of the three lists is strictly ascending; added holds exactly the paths only in the second list, removed exactly those only in the first, modified exactly the paths in both whose last keys differ in values or subkeys |
| WebServer.CompareSelf | src/server/WebServer.cpp:983-1004 | a list compared with itself gives three empty lists |
| WebServer.CompareSwap | src/server/WebServer.cpp:983-1004 | swapping the two lists swaps added and removed and leaves modified unchanged |
| WebServer.BlankKeys | src/server/WebServer.cpp:654-664 | resizing to n gives n value-initialised keys |
| WebServer.SnapshotName | src/server/WebServer.cpp:641-647 | the name is never empty: it is the request's name when that is a non-empty string, and "snapshot_" plus the tick otherwise |
| WebServer.HandleSaveRegistrySnapshot | src/server/WebServer.cpp:616-690 | a body that does not parse is rejected with 400; otherwise the snapshot is stored under its name, replacing an older one, every other name keeps its snapshot, and only the three array sizes are kept, as blank keys |
| WebServer.HandleGetSavedSnapshots | src/server/WebServer.cpp:934-960 | one summary per stored snapshot, in strictly ascending name order |
| WebServer.SaveThenList | src/server/WebServer.cpp:616-960 | after a save, the listing contains the saved name with its timestamp and the three array sizes it was saved from |
| WebServer.CompareStatus | src/server/WebServer.cpp:1040-1066 | the answer is 200 exactly for a comparison and 404 exactly for a missing snapshot |
| WebServer.HandleCompareSnapshots | src/server/WebServer.cpp:1009-1096 | a body that does not parse or lacks a name gives 400; a name reported missing is not stored; a comparison happens exactly when both names are given and stored, and then compares the three categories of the two stored snapshots |
| WebServer.CompareBlank | src/server/WebServer.cpp:654-664 | two saved snapshots can only differ by the empty path being added or removed, never by a modification, because saving keeps only blank keys |
| WebServer.BlankPaths | src/server/WebServer.cpp:654-664 | the only path among blank keys is the empty one, present exactly when there is at least one key |
| WebServer.SaveThenCompareSelf | src/server/WebServer.cpp:616-1096 | a saved snapshot compared with itself is found and reports no change in any category |
| WebServer.DeleteStatus | src/server/WebServer.cpp:1098-1175 | the answer is 200 exactly when a snapshot was erased and 404 exactly when none matched |
| WebServer.FirstMatch | src/server/WebServer.cpp:1127-1135 | no name is found exactly when no stored name sanitises to the request; otherwise the found name is the first in map order that does |
| WebServer.HandleDeleteSnapshot | src/server/WebServer.cpp:1098-1175 | a missing or empty name gives 400; a 404 means no stored name sanitises like the request; a deletion erases exactly the first match and leaves every other name untouched |
| WebServer.SaveKeepsNamesWellFormed | src/server/WebServer.cpp:641-667 | saving a parsed body keeps every stored name valid UTF-8 |
| WebServer.TickNameWellFormed | src/server/WebServer.cpp:646 | the default name is valid UTF-8 |
| WebServer.DeleteErasesSanitizedName | src/server/WebServer.cpp:1114-1145 | while every stored name is valid UTF-8, a delete erases exactly the snapshot named by the sanitised request, and answers 404 exactly when that name is not stored |

## Left out

- Operating-system queries: the Win32 API, WMI, PDH, the service control manager and registry reads are not called. Their answers are parameters (probe records, `Option` values for failed calls, function-typed enumerations).
- Codepage conversion: `MultiByteToWideChar`/`WideCharToMultiByte` and the ANSI code page are function-typed parameters (`acp`, the wide converter). Only what the code does with their results is modelled.
- Floating point: `double` percentages and ratios are exact reals, so rounding and NaN from IEEE arithmetic are not modelled.
- Concurrency: threads, mutexes, atomics, the logger's worker thread and the server's request threads are not modelled. Each operation is one sequential step on an explicit state.
- JSON text: parsing and dumping with nlohmann::json are left out. Parsed JSON is the `Json` datatype, and the server's JSON output is modelled as that datatype.
- WebServer store: the declaration of `registrySnapshots_` is not part of this model. Its use (ordered iteration, `find`, `operator[]`) is read as a `std::map` keyed by name in byte order, and it is modelled as the sorted association list `SortedMap`.
- `SnapshotManager` and the server's `GetRegistrySnapshot` collection path are context outside the core and are not modelled.
- Logger I/O: file writes, the clock behind timestamps and file rotation are left out. Formatting, level gating and the choice of files to delete are modelled.
- Web client presentation: the DOM, charts, `fetch` and timers are left out. The client is modelled through the values it computes.
- Disk monitor: `GetDrivesViaWMI`, `GetPartitionsViaWMI`, the performance (PDH) counters and the IO monitoring are left out. The WMI drive list enters the merge as a parameter.
- Disk monitor: the `SafeString` pass over the SMART records in `GetDiskSnapshot` is not modelled.
- Disk monitor: the walk over the `GetLogicalDriveStringsA` buffer is taken as a list of root letters.
- Memory monitor: `collect_system_memory_info` and the 300 ms sleep in the collector are left out.
- SnapshotComparator.CompareProcesses: the "modified" thresholds and the unsigned memory difference are abstracted as the predicate parameter `changed`, so the numeric thresholds are not modelled.
- ProcessList.SortBy: a comparator that meets NaN keys is inconsistent in JavaScript, and the resulting order is engine-defined. The model promises ordering only for keys without NaN.
- ProcessList.Key: JavaScript `toLowerCase` is Unicode-wide, and strings are UTF-16. The model takes the lowering function as the parameter `lower`, and a `char` stands for one UTF-16 code unit. The model does not promise which Unicode case mapping is used.
- ProcessList.ProcessesAfterRender: without a filter, the sort also reorders the client's stored `processes` array. The model states this, and later renders start from the reordered array.
- DiskMonitor.ApiDrive: `totalSize` is left uninitialised in C++ when `GetDiskFreeSpaceExA` fails, and so is `bytesPerSector` when the volume query fails. The model shows 0 for both, so it promises nothing about those indeterminate values.
- DiskMonitor.SmartRecord: when the WMI `PredictFailure` property cannot be read, C++ leaves `healthStatus` uninitialised and derives `overallHealth` from that indeterminate value. The model takes the property as an always-present boolean, so it promises nothing for that case.
- WebServer.ParseValue: a value without a numeric `size` member keeps C++'s uninitialised `size`. The model shows 0.
- WebServer.ParseKey: `lastModified` is never written by the parser and is uninitialised in C++. The model shows 0.
- RegistryMonitor.GetRegistryKey: `lastModified` is never written, so it is indeterminate in C++. The model shows 0.
- DriverMonitor.DriverFromService: `pid` is assigned only when the status query succeeds; when it fails the field is indeterminate in C++. The model shows 0.
- DataCollector.ProcessRecord: when the process cannot be opened, or `GetProcessMemoryInfo` fails, the C++ record keeps indeterminate `memory_usage`, `private_bytes` and `cpu_usage`. The model shows 0 for them and "" for an unread path.
- DriverMonitor.GetDriverSnapshot: when the enumeration throws, the C++ statistics keep whatever the default constructor leaves. The model shows them as 0.
- WebServer.U32Of: a JSON float whose truncation is negative or at least 2^32 makes the C++ conversion to `uint32_t` undefined behaviour. The model gives the truncation modulo 2^32, so it promises nothing for such floats.
- WebServer.Int64Of: a JSON float whose truncation lies outside the signed 64-bit range makes the C++ conversion to `int64_t` undefined behaviour. The model keeps the unbounded truncation, so it promises nothing for such floats.
- DataCollector.ValueData: for `REG_SZ` and `REG_EXPAND_SZ` the C++ reads the buffer as a C string up to the first NUL. That is undefined behaviour when the data holds no NUL. The model stops at the end of the buffer instead, so it does not describe the overrun.

## Findings

| source | as written | input that shows it | evidently intended | confidence | as-written member | corrected member |
|---|---|---|---|---|---|---|
| src/core/Process/process_monitor.cpp:240-260 | one `lastSystemTime_` is shared by all pids, so each call measures against the system time of the previous call for any pid | two pids sampled back to back within one tick: the first reads 50, the second reads 0 although it was equally busy | each pid measured against the system time of its own previous sample | not executed | ProcessMonitor.SharedBaselineHidesUsage | ProcessMonitor.CorrectedIgnoresOtherPids |
| src/core/Process/process_monitor.cpp:243-250 | the process-time difference is an unsigned subtraction, so a pid reused by a new process with less CPU time wraps to a huge value | baseline 1000 ticks, new process 10 ticks: the share clamps to 100 | a smaller process time means a new process, so it counts as no use | not executed | ProcessMonitor.ReusedPidReportsFull | ProcessMonitor.CorrectedReusedPidReportsZero |
| src/core/SnapshotComparator.cpp:41-47 | the opening log line reads both snapshots' names before the null check | `compare(nullptr, current)` dereferences null at the log line | missing snapshots give the empty comparison the null check returns | not executed | SnapshotComparator.MissingSnapshotIsDereferenced | SnapshotComparator.Compare |
| src/core/CPUInfo/cpu_monitor.cpp:212-223 | `CalculateUsage` subtracts the idle difference from the total difference in `uint64_t`, so an idle advance larger than the total wraps and clamps to 100 | Δtotal 100, Δidle 200: reports 100 % busy | the same clamp to 0 that `UpdateUsageData` (lines 107-112) applies to the signed difference | not executed; low, since Windows normally counts idle time inside kernel time | CpuMonitor.IdleOvershootDisagrees | CpuMonitor.SignedShare |
