/**
 `DriverMonitor` (driver_monitor.cpp / driver_monitor.h): the record the
 service control manager's answers are turned into, the code-to-name
 tables, the categorisation of the driver list into six lists, the
 statistics, the `SafeString` pass, and the name search behind
 `GetDriverDetail` and `IsDriverRunning`.

 The enumeration itself (`OpenSCManager`, `EnumServicesStatusEx`,
 `QueryServiceConfig`, `QueryServiceStatusEx`) is an input: one
 `ServiceEntry` per enumerated driver, `None` where a query failed.
 */
module DriverMonitor {
  import opened Common
  import Text
  import Encoding

  datatype DriverDetail = DriverDetail(
    name: string,
    displayName: string,
    description: string,
    state: string,
    startType: string,
    binaryPath: string,
    serviceType: string,
    errorControl: string,
    account: string,
    group: string,
    tagId: string,
    driverType: string,
    pid: u32,
    exitCode: string,
    win32ExitCode: string,
    serviceSpecificExitCode: string,
    installTime: int)

  datatype Stats = Stats(
    totalDrivers: nat,
    runningCount: nat,
    stoppedCount: nat,
    kernelCount: nat,
    fileSystemCount: nat,
    autoStartCount: nat,
    thirdPartyCount: nat)

  datatype DriverSnapshot = DriverSnapshot(
    timestamp: u64,
    kernelDrivers: seq<DriverDetail>,
    fileSystemDrivers: seq<DriverDetail>,
    runningDrivers: seq<DriverDetail>,
    stoppedDrivers: seq<DriverDetail>,
    autoStartDrivers: seq<DriverDetail>,
    thirdPartyDrivers: seq<DriverDetail>,
    stats: Stats)

  /** `DriverDetail::operator==`: drivers are equal when their names are. */
  predicate SameDriver(a: DriverDetail, b: DriverDetail)
  {
    a.name == b.name
  }

  // ---------------------------------------------------------------------
  // Code tables (winsvc.h values)

  /** `dwStartType`: boot 0, system 1, auto 2, demand 3, disabled 4. */
  function StartTypeName(code: u32): string
  {
    if code == 0 then "Boot"
    else if code == 1 then "System"
    else if code == 2 then "Auto"
    else if code == 3 then "Manual"
    else if code == 4 then "Disabled"
    else "Unknown"
  }

  /** The inverse of `StartTypeName` on its fixed names. */
  function StartTypeCode(name: string): Option<u32>
  {
    match name
    case "Boot" => Some(0)
    case "System" => Some(1)
    case "Auto" => Some(2)
    case "Manual" => Some(3)
    case "Disabled" => Some(4)
    case _ => None
  }

  /** Each start-type code has its own name, and every other code reads "Unknown". */
  lemma StartTypeTable(code: u32, name: string)
    ensures StartTypeName(code) == "Unknown" <==> code > 4
    ensures StartTypeCode(name) == Some(code) <==> StartTypeName(code) == name && name != "Unknown"
  {
  }

  /** `dwServiceType`: kernel driver 1, file-system driver 2; (serviceType, driverType). */
  function ServiceTypeNames(code: u32): (string, string)
  {
    if code == 1 then ("Kernel Driver", "Kernel")
    else if code == 2 then ("File System Driver", "FileSystem")
    else ("Unknown", "Unknown")
  }

  function ServiceTypeCode(driverType: string): Option<u32>
  {
    match driverType
    case "Kernel" => Some(1)
    case "FileSystem" => Some(2)
    case _ => None
  }

  lemma ServiceTypeTable(code: u32, driverType: string)
    ensures ServiceTypeNames(code).1 == "Unknown" <==> code != 1 && code != 2
    ensures ServiceTypeNames(code).0 == "Unknown" <==> ServiceTypeNames(code).1 == "Unknown"
    ensures ServiceTypeCode(driverType) == Some(code) <==> ServiceTypeNames(code).1 == driverType && driverType != "Unknown"
  {
  }

  /** `dwErrorControl`: ignore 0, normal 1, severe 2, critical 3. */
  function ErrorControlName(code: u32): string
  {
    if code == 0 then "Ignore"
    else if code == 1 then "Normal"
    else if code == 2 then "Severe"
    else if code == 3 then "Critical"
    else "Unknown"
  }

  function ErrorControlCode(name: string): Option<u32>
  {
    match name
    case "Ignore" => Some(0)
    case "Normal" => Some(1)
    case "Severe" => Some(2)
    case "Critical" => Some(3)
    case _ => None
  }

  lemma ErrorControlTable(code: u32, name: string)
    ensures ErrorControlName(code) == "Unknown" <==> code > 3
    ensures ErrorControlCode(name) == Some(code) <==> ErrorControlName(code) == name && name != "Unknown"
  {
  }

  /**
   `dwCurrentState`: stopped 1, start pending 2, stop pending 3, running 4,
   continue pending 5, pause pending 6, paused 7.
   */
  function StateName(code: u32): string
  {
    if code == 1 then "Stopped"
    else if code == 2 then "Start Pending"
    else if code == 3 then "Stop Pending"
    else if code == 4 then "Running"
    else if code == 5 then "Continue Pending"
    else if code == 6 then "Pause Pending"
    else if code == 7 then "Paused"
    else "Unknown"
  }

  function StateCode(name: string): Option<u32>
  {
    match name
    case "Stopped" => Some(1)
    case "Start Pending" => Some(2)
    case "Stop Pending" => Some(3)
    case "Running" => Some(4)
    case "Continue Pending" => Some(5)
    case "Pause Pending" => Some(6)
    case "Paused" => Some(7)
    case _ => None
  }

  lemma StateTable(code: u32, name: string)
    ensures StateName(code) == "Unknown" <==> code < 1 || code > 7
    ensures StateCode(name) == Some(code) <==> StateName(code) == name && name != "Unknown"
  {
  }

  // ---------------------------------------------------------------------
  // Building a record from the service control manager's answers

  datatype ServiceConfig = ServiceConfig(
    binaryPath: Option<string>, startName: Option<string>,
    startType: u32, serviceType: u32, errorControl: u32)

  datatype ServiceStatus = ServiceStatus(
    processId: u32, currentState: u32,
    win32ExitCode: u32, serviceSpecificExitCode: u32, waitHint: u32)

  /** One enumerated driver: its names (null pointers are `None`) and the two queries. */
  datatype ServiceEntry = ServiceEntry(
    serviceName: Option<string>, displayName: Option<string>,
    config: Option<ServiceConfig>, status: Option<ServiceStatus>)

  function OrEmpty(s: Option<string>): string
  {
    if s.Some? then s.value else ""
  }

  /**
   The record `GetAllDriversViaSCM` pushes for one entry. Fields no query
   fills stay empty; the uninitialised `pid` of a failed status query is 0.
   */
  function DriverFromService(e: ServiceEntry): (d: DriverDetail)
    ensures d.name == OrEmpty(e.serviceName) && d.displayName == OrEmpty(e.displayName)
    ensures d.description == "" && d.group == "" && d.tagId == ""
    ensures e.config.None? ==> d.startType == "" && d.driverType == "" && d.binaryPath == ""
    ensures e.config.Some? ==>
      StartTypeCode(d.startType) == (if e.config.value.startType <= 4 then Some(e.config.value.startType) else None)
    ensures e.status.None? ==> d.state == "" && d.pid == 0
    ensures e.status.Some? ==> d.state != "" && Text.AllDigits(d.exitCode) && Text.DecimalValue(d.exitCode) == e.status.value.waitHint
    ensures d.driverType in {"", "Kernel", "FileSystem", "Unknown"}
  {
    var base := DriverDetail(OrEmpty(e.serviceName), OrEmpty(e.displayName), "", "", "", "", "", "", "", "", "", "", 0, "", "", "", 0);
    var withConfig := (match e.config
      case None => base
      case Some(c) =>
        base.(binaryPath := OrEmpty(c.binaryPath), account := OrEmpty(c.startName),
              startType := StartTypeName(c.startType),
              serviceType := ServiceTypeNames(c.serviceType).0, driverType := ServiceTypeNames(c.serviceType).1,
              errorControl := ErrorControlName(c.errorControl)));
    match e.status
    case None => withConfig
    case Some(st) =>
      withConfig.(pid := st.processId, state := StateName(st.currentState),
                  win32ExitCode := Text.NatToString(st.win32ExitCode),
                  serviceSpecificExitCode := Text.NatToString(st.serviceSpecificExitCode),
                  exitCode := Text.NatToString(st.waitHint))
  }

  // ---------------------------------------------------------------------
  // Categorisation

  predicate IsKernel(d: DriverDetail) { d.driverType == "Kernel" }
  predicate IsFileSystem(d: DriverDetail) { d.driverType == "FileSystem" }
  predicate IsRunning(d: DriverDetail) { d.state == "Running" }
  predicate IsStopped(d: DriverDetail) { d.state == "Stopped" }
  predicate IsAutoStart(d: DriverDetail) { d.startType == "Auto" || d.startType == "Boot" || d.startType == "System" }

  /** The third-party test: the binary path mentions neither "Microsoft" nor "Windows" (case-sensitive). */
  predicate IsThirdParty(d: DriverDetail)
  {
    !Text.Contains(d.binaryPath, "Microsoft") && !Text.Contains(d.binaryPath, "Windows")
  }

  /**
   Counting by two disjoint predicates counts by their disjunction: the
   total of `CalculateStatistics` is the number of kernel or file-system
   drivers, and drivers of any other type are not counted.
   */
  lemma {:induction false} FilterDisjointCount(ds: seq<DriverDetail>)
    ensures |Filter(ds, IsKernel)| + |Filter(ds, IsFileSystem)|
         == |Filter(ds, IsCounted)|
  {
    if |ds| > 0 {
      FilterDisjointCount(ds[..|ds| - 1]);
    }
  }

  /** The drivers `CalculateStatistics` counts in its total. */
  predicate IsCounted(d: DriverDetail) { IsKernel(d) || IsFileSystem(d) }

  /** The six lists `CategorizeDrivers` appends to. */
  datatype Buckets = Buckets(kernel: seq<DriverDetail>, fileSystem: seq<DriverDetail>, running: seq<DriverDetail>,
                             stopped: seq<DriverDetail>, autoStart: seq<DriverDetail>, thirdParty: seq<DriverDetail>)

  /** One iteration of `CategorizeDrivers`' loop: the driver joins every list whose test it meets. */
  function Place(b: Buckets, d: DriverDetail): Buckets
  {
    var b1 := if d.driverType == "Kernel" then b.(kernel := b.kernel + [d])
              else if d.driverType == "FileSystem" then b.(fileSystem := b.fileSystem + [d])
              else b;
    var b2 := if d.state == "Running" then b1.(running := b1.running + [d])
              else if d.state == "Stopped" then b1.(stopped := b1.stopped + [d])
              else b1;
    var b3 := if d.startType == "Auto" || d.startType == "Boot" || d.startType == "System"
              then b2.(autoStart := b2.autoStart + [d]) else b2;
    var ms := Text.Contains(d.binaryPath, "Microsoft");
    var win := Text.Contains(d.binaryPath, "Windows");
    if !ms && !win then b3.(thirdParty := b3.thirdParty + [d]) else b3
  }

  /** What one iteration adds to each list: the driver itself, when it meets that list's test. */
  lemma PlaceAppends(b: Buckets, d: DriverDetail)
    ensures Place(b, d).kernel == b.kernel + (if IsKernel(d) then [d] else [])
    ensures Place(b, d).fileSystem == b.fileSystem + (if IsFileSystem(d) then [d] else [])
    ensures Place(b, d).running == b.running + (if IsRunning(d) then [d] else [])
    ensures Place(b, d).stopped == b.stopped + (if IsStopped(d) then [d] else [])
    ensures Place(b, d).autoStart == b.autoStart + (if IsAutoStart(d) then [d] else [])
    ensures Place(b, d).thirdParty == b.thirdParty + (if IsThirdParty(d) then [d] else [])
  {
  }

  /** The lists after the loop has run over `ds`. */
  function Bucketed(ds: seq<DriverDetail>): Buckets
  {
    if |ds| == 0 then Buckets([], [], [], [], [], [])
    else Place(Bucketed(ds[..|ds| - 1]), ds[|ds| - 1])
  }

  /** The type lists are the kernel and the file-system drivers, in input order. */
  lemma {:induction false} TypeBuckets(ds: seq<DriverDetail>)
    ensures Bucketed(ds).kernel == Filter(ds, IsKernel) && Bucketed(ds).fileSystem == Filter(ds, IsFileSystem)
  {
    if |ds| > 0 {
      var init, d := ds[..|ds| - 1], ds[|ds| - 1];
      TypeBuckets(init);
      PlaceAppends(Bucketed(init), d);
      assert ds == init + [d];
      FilterSnoc(init, d, IsKernel);
      FilterSnoc(init, d, IsFileSystem);
    }
  }

  /** The state lists are the running and the stopped drivers, in input order. */
  lemma {:induction false} StateBuckets(ds: seq<DriverDetail>)
    ensures Bucketed(ds).running == Filter(ds, IsRunning) && Bucketed(ds).stopped == Filter(ds, IsStopped)
  {
    if |ds| > 0 {
      var init, d := ds[..|ds| - 1], ds[|ds| - 1];
      StateBuckets(init);
      PlaceAppends(Bucketed(init), d);
      assert ds == init + [d];
      FilterSnoc(init, d, IsRunning);
      FilterSnoc(init, d, IsStopped);
    }
  }

  /** The last two lists are the auto-start and the third-party drivers, in input order. */
  lemma {:induction false} StartAndOriginBuckets(ds: seq<DriverDetail>)
    ensures Bucketed(ds).autoStart == Filter(ds, IsAutoStart) && Bucketed(ds).thirdParty == Filter(ds, IsThirdParty)
  {
    if |ds| > 0 {
      var init, d := ds[..|ds| - 1], ds[|ds| - 1];
      StartAndOriginBuckets(init);
      PlaceAppends(Bucketed(init), d);
      assert ds == init + [d];
      FilterSnoc(init, d, IsAutoStart);
      FilterSnoc(init, d, IsThirdParty);
    }
  }

  /** `CategorizeDrivers`: one loop over the drivers, each list the drivers meeting its test, in input order. */
  method CategorizeDrivers(all: seq<DriverDetail>)
    returns (kernel: seq<DriverDetail>, fileSystem: seq<DriverDetail>, running: seq<DriverDetail>,
             stopped: seq<DriverDetail>, autoStart: seq<DriverDetail>, thirdParty: seq<DriverDetail>)
    ensures kernel == Filter(all, IsKernel) && fileSystem == Filter(all, IsFileSystem)
    ensures running == Filter(all, IsRunning) && stopped == Filter(all, IsStopped)
    ensures autoStart == Filter(all, IsAutoStart) && thirdParty == Filter(all, IsThirdParty)
  {
    var b := Buckets([], [], [], [], [], []);
    var i := 0;
    while i < |all|
      invariant 0 <= i <= |all|
      invariant b == Bucketed(all[..i])
    {
      assert all[..i + 1][..i] == all[..i];
      b := Place(b, all[i]);
      i := i + 1;
    }
    assert all[..i] == all;
    TypeBuckets(all);
    StateBuckets(all);
    StartAndOriginBuckets(all);
    kernel, fileSystem, running, stopped, autoStart, thirdParty := b.kernel, b.fileSystem, b.running, b.stopped, b.autoStart, b.thirdParty;
  }


  /** `CalculateStatistics`: the total is kernel plus file-system drivers; each count is its list's length. */
  function CalculateStatistics(kernel: seq<DriverDetail>, fileSystem: seq<DriverDetail>, running: seq<DriverDetail>,
                               stopped: seq<DriverDetail>, autoStart: seq<DriverDetail>, thirdParty: seq<DriverDetail>): (s: Stats)
    ensures s.totalDrivers == s.kernelCount + s.fileSystemCount
    ensures s.kernelCount == |kernel| && s.fileSystemCount == |fileSystem| && s.runningCount == |running|
    ensures s.stoppedCount == |stopped| && s.autoStartCount == |autoStart| && s.thirdPartyCount == |thirdParty|
  {
    Stats(|kernel| + |fileSystem|, |running|, |stopped|, |kernel|, |fileSystem|, |autoStart|, |thirdParty|)
  }

  // ---------------------------------------------------------------------
  // Encoding pass

  function Safe(s: string, cp: Encoding.Codepage): (r: string)
    ensures |r| > 0
  {
    Encoding.SafeString(s, Encoding.DEFAULT_SAFE, cp)
  }

  /** `convertToUTF8`: the fifteen text fields through `SafeString`; `pid` and `installTime` untouched. */
  function ConvertToUtf8(d: DriverDetail, cp: Encoding.Codepage): (r: DriverDetail)
    ensures r.pid == d.pid && r.installTime == d.installTime
    ensures |r.name| > 0 && |r.displayName| > 0 && |r.description| > 0 && |r.state| > 0 && |r.startType| > 0
    ensures |r.binaryPath| > 0 && |r.serviceType| > 0 && |r.errorControl| > 0 && |r.account| > 0 && |r.group| > 0
    ensures |r.tagId| > 0 && |r.driverType| > 0 && |r.exitCode| > 0 && |r.win32ExitCode| > 0
    ensures |r.serviceSpecificExitCode| > 0
  {
    d.(name := Safe(d.name, cp), displayName := Safe(d.displayName, cp), description := Safe(d.description, cp),
       state := Safe(d.state, cp), startType := Safe(d.startType, cp), binaryPath := Safe(d.binaryPath, cp),
       serviceType := Safe(d.serviceType, cp), errorControl := Safe(d.errorControl, cp), account := Safe(d.account, cp),
       group := Safe(d.group, cp), tagId := Safe(d.tagId, cp), driverType := Safe(d.driverType, cp),
       exitCode := Safe(d.exitCode, cp), win32ExitCode := Safe(d.win32ExitCode, cp),
       serviceSpecificExitCode := Safe(d.serviceSpecificExitCode, cp))
  }

  predicate NonEmptyPrintable(s: string) { |s| > 0 && Encoding.AllPrintable(s) }

  /** A field that is non-empty printable ASCII survives the conversion unchanged. */
  lemma ConvertKeepsPrintable(d: DriverDetail, cp: Encoding.Codepage)
    ensures NonEmptyPrintable(d.name) ==> ConvertToUtf8(d, cp).name == d.name
    ensures NonEmptyPrintable(d.state) ==> ConvertToUtf8(d, cp).state == d.state
    ensures NonEmptyPrintable(d.startType) ==> ConvertToUtf8(d, cp).startType == d.startType
    ensures NonEmptyPrintable(d.driverType) ==> ConvertToUtf8(d, cp).driverType == d.driverType
    ensures NonEmptyPrintable(d.binaryPath) ==> ConvertToUtf8(d, cp).binaryPath == d.binaryPath
  {
    if NonEmptyPrintable(d.name) { Encoding.SafeStringKeepsPrintable(d.name, Encoding.DEFAULT_SAFE, cp); }
    if NonEmptyPrintable(d.state) { Encoding.SafeStringKeepsPrintable(d.state, Encoding.DEFAULT_SAFE, cp); }
    if NonEmptyPrintable(d.startType) { Encoding.SafeStringKeepsPrintable(d.startType, Encoding.DEFAULT_SAFE, cp); }
    if NonEmptyPrintable(d.driverType) { Encoding.SafeStringKeepsPrintable(d.driverType, Encoding.DEFAULT_SAFE, cp); }
    if NonEmptyPrintable(d.binaryPath) { Encoding.SafeStringKeepsPrintable(d.binaryPath, Encoding.DEFAULT_SAFE, cp); }
  }

  function ConvertAll(ds: seq<DriverDetail>, cp: Encoding.Codepage): (r: seq<DriverDetail>)
    ensures |r| == |ds|
    ensures forall j :: 0 <= j < |ds| ==> r[j] == ConvertToUtf8(ds[j], cp)
  {
    seq(|ds|, j requires 0 <= j < |ds| => ConvertToUtf8(ds[j], cp))
  }

  /** The records `GetAllDriversViaSCM` returns, one per enumerated entry. */
  function AllDrivers(entries: seq<ServiceEntry>): (all: seq<DriverDetail>)
    ensures |all| == |entries|
    ensures forall j :: 0 <= j < |entries| ==> all[j] == DriverFromService(entries[j])
  {
    seq(|entries|, j requires 0 <= j < |entries| => DriverFromService(entries[j]))
  }

  /** The converted list holds exactly the conversions of the list's drivers. */
  lemma ConvertAllMembers(ds: seq<DriverDetail>, cp: Encoding.Codepage)
    ensures forall d :: d in ConvertAll(ds, cp) <==> exists e :: e in ds && d == ConvertToUtf8(e, cp)
  {
    var ck := ConvertAll(ds, cp);
    forall d ensures d in ck <==> exists e :: e in ds && d == ConvertToUtf8(e, cp) {
      if d in ck {
        var j :| 0 <= j < |ck| && ck[j] == d;
        assert ds[j] in ds;
      }
      if exists e :: e in ds && d == ConvertToUtf8(e, cp) {
        var e :| e in ds && d == ConvertToUtf8(e, cp);
        var j :| 0 <= j < |ds| && ds[j] == e;
        assert ck[j] == d;
      }
    }
  }

  /**
   `GetDriverSnapshot`: enumerate (`None` when the manager cannot be
   opened, which the snapshot's `catch` swallows), categorise as
   `CategorizeDrivers` does, count, then convert every list. The
   statistics are left at 0 when the enumeration throws.
   */
  function GetDriverSnapshot(entries: Option<seq<ServiceEntry>>, timestamp: u64, cp: Encoding.Codepage): (snap: DriverSnapshot)
    ensures snap.timestamp == timestamp
    ensures entries.None? ==> snap == DriverSnapshot(timestamp, [], [], [], [], [], [], Stats(0, 0, 0, 0, 0, 0, 0))
    ensures entries.Some? ==>
      var all := AllDrivers(entries.value);
      && snap.stats.totalDrivers == |Filter(all, IsCounted)|
      && snap.stats.totalDrivers <= |all|
      && snap.stats.runningCount == |snap.runningDrivers|
      && |snap.kernelDrivers| == |Filter(all, IsKernel)| && |snap.fileSystemDrivers| == |Filter(all, IsFileSystem)|
      && |snap.runningDrivers| == |Filter(all, IsRunning)| && |snap.stoppedDrivers| == |Filter(all, IsStopped)|
      && |snap.autoStartDrivers| == |Filter(all, IsAutoStart)| && |snap.thirdPartyDrivers| == |Filter(all, IsThirdParty)|
      && (forall d :: d in snap.kernelDrivers <==> exists e :: e in all && IsKernel(e) && d == ConvertToUtf8(e, cp))
      && snap.kernelDrivers == ConvertAll(Filter(all, IsKernel), cp)
      && snap.fileSystemDrivers == ConvertAll(Filter(all, IsFileSystem), cp)
      && snap.runningDrivers == ConvertAll(Filter(all, IsRunning), cp)
      && snap.stoppedDrivers == ConvertAll(Filter(all, IsStopped), cp)
      && snap.autoStartDrivers == ConvertAll(Filter(all, IsAutoStart), cp)
      && snap.thirdPartyDrivers == ConvertAll(Filter(all, IsThirdParty), cp)
  {
    if entries.None? then DriverSnapshot(timestamp, [], [], [], [], [], [], Stats(0, 0, 0, 0, 0, 0, 0))
    else
      var all := AllDrivers(entries.value);
      var kernel := Filter(all, IsKernel);
      var fileSystem := Filter(all, IsFileSystem);
      var running := Filter(all, IsRunning);
      var stopped := Filter(all, IsStopped);
      var autoStart := Filter(all, IsAutoStart);
      var thirdParty := Filter(all, IsThirdParty);
      FilterDisjointCount(all);
      var stats := CalculateStatistics(kernel, fileSystem, running, stopped, autoStart, thirdParty);
      var ck := ConvertAll(kernel, cp);
      ConvertAllMembers(kernel, cp);
      DriverSnapshot(timestamp,
        ck, ConvertAll(fileSystem, cp), ConvertAll(running, cp),
        ConvertAll(stopped, cp), ConvertAll(autoStart, cp), ConvertAll(thirdParty, cp), stats)
  }

  /** A driver that is kernel, file-system, running, stopped, auto-start or third-party is listed. */
  predicate Categorised(d: DriverDetail)
  {
    IsKernel(d) || IsFileSystem(d) || IsRunning(d) || IsStopped(d) || IsAutoStart(d) || IsThirdParty(d)
  }

  // ---------------------------------------------------------------------
  // Lookup

  /** The six lists in `GetDriverDetail`'s search order. */
  function Categories(snap: DriverSnapshot): seq<seq<DriverDetail>>
  {
    [snap.kernelDrivers, snap.fileSystemDrivers, snap.runningDrivers,
     snap.stoppedDrivers, snap.autoStartDrivers, snap.thirdPartyDrivers]
  }

  predicate NameMatches(d: DriverDetail, safeName: string, cp: Encoding.Codepage)
  {
    Safe(d.name, cp) == safeName
  }

  /** `std::find_if` over one list. */
  function FindInList(ds: seq<DriverDetail>, safeName: string, cp: Encoding.Codepage): (r: Option<nat>)
    ensures r.None? <==> forall j :: 0 <= j < |ds| ==> !NameMatches(ds[j], safeName, cp)
    ensures r.Some? ==> (r.value < |ds| && NameMatches(ds[r.value], safeName, cp)
                         && forall j :: 0 <= j < r.value ==> !NameMatches(ds[j], safeName, cp))
  {
    FirstFrom(ds, (d: DriverDetail) => NameMatches(d, safeName, cp), 0)
  }

  /**
   Position (c, j) is the first match of the search: the driver there
   matches, no earlier list holds a match, and nothing before it in its own
   list matches.
   */
  predicate FirstMatchAt(cats: seq<seq<DriverDetail>>, c: int, j: int, safeName: string, cp: Encoding.Codepage)
  {
    && 0 <= c < |cats| && 0 <= j < |cats[c]| && NameMatches(cats[c][j], safeName, cp)
    && (forall c2, j2 :: 0 <= c2 < c && 0 <= j2 < |cats[c2]| ==> !NameMatches(cats[c2][j2], safeName, cp))
    && (forall j2 :: 0 <= j2 < j ==> !NameMatches(cats[c][j2], safeName, cp))
  }

  /** At most one position is the first match. */
  lemma FirstMatchUnique(cats: seq<seq<DriverDetail>>, c: int, j: int, c2: int, j2: int, safeName: string, cp: Encoding.Codepage)
    requires FirstMatchAt(cats, c, j, safeName, cp) && FirstMatchAt(cats, c2, j2, safeName, cp)
    ensures c == c2 && j == j2
  {
  }

  /** A first list without a match moves the first match one list on. */
  lemma FirstMatchSkipsHead(cats: seq<seq<DriverDetail>>, c: int, j: int, safeName: string, cp: Encoding.Codepage)
    requires |cats| > 0 && forall k :: 0 <= k < |cats[0]| ==> !NameMatches(cats[0][k], safeName, cp)
    requires FirstMatchAt(cats[1..], c, j, safeName, cp)
    ensures FirstMatchAt(cats, c + 1, j, safeName, cp)
  {
    assert forall c2 :: 0 < c2 < |cats| ==> cats[c2] == cats[1..][c2 - 1];
  }

  /** The search over the lists in order: the first list holding a match decides, and within it the first match. */
  function FindInCategories(cats: seq<seq<DriverDetail>>, safeName: string, cp: Encoding.Codepage): (r: Option<DriverDetail>)
    ensures r.None? <==> forall c, j :: 0 <= c < |cats| && 0 <= j < |cats[c]| ==> !NameMatches(cats[c][j], safeName, cp)
    ensures r.Some? ==> NameMatches(r.value, safeName, cp) && exists c :: 0 <= c < |cats| && r.value in cats[c]
    ensures r.Some? ==> exists c, j :: FirstMatchAt(cats, c, j, safeName, cp) && r.value == cats[c][j]
  {
    if |cats| == 0 then None
    else
      match FindInList(cats[0], safeName, cp)
      case Some(k) =>
        assert FirstMatchAt(cats, 0, k, safeName, cp);
        Some(cats[0][k])
      case None =>
        var r := FindInCategories(cats[1..], safeName, cp);
        assert forall c :: 0 < c < |cats| ==> cats[c] == cats[1..][c - 1];
        assert r.Some? ==> exists c, j :: FirstMatchAt(cats, c, j, safeName, cp) && r.value == cats[c][j] by {
          if r.Some? {
            var c, j :| FirstMatchAt(cats[1..], c, j, safeName, cp) && r.value == cats[1..][c][j];
            FirstMatchSkipsHead(cats, c, j, safeName, cp);
            assert r.value == cats[c + 1][j];
          }
        }
        r
  }

  /**
   `GetDriverDetail` on a snapshot: the first driver, searching the lists
   in order, whose `SafeString` name equals that of `driverName`; `None`
   stands for the `runtime_error` thrown when there is none.
   */
  function GetDriverDetail(snap: DriverSnapshot, driverName: string, cp: Encoding.Codepage): (r: Option<DriverDetail>)
    ensures r.None? <==> forall c, j :: 0 <= c < 6 && 0 <= j < |Categories(snap)[c]| ==>
                           !NameMatches(Categories(snap)[c][j], Safe(driverName, cp), cp)
    ensures r.Some? ==> Safe(r.value.name, cp) == Safe(driverName, cp)
    ensures r.Some? ==> exists c, j :: FirstMatchAt(Categories(snap), c, j, Safe(driverName, cp), cp) && r.value == Categories(snap)[c][j]
    ensures |snap.kernelDrivers| > 0 && NameMatches(snap.kernelDrivers[0], Safe(driverName, cp), cp)
            ==> r == Some(snap.kernelDrivers[0])
  {
    FindInCategories(Categories(snap), Safe(driverName, cp), cp)
  }

  /** Whatever position is the first match in search order, the lookup returns the driver there. */
  lemma {:induction false} FirstMatchIsFound(snap: DriverSnapshot, driverName: string, cp: Encoding.Codepage, c: int, j: int)
    requires FirstMatchAt(Categories(snap), c, j, Safe(driverName, cp), cp)
    ensures GetDriverDetail(snap, driverName, cp) == Some(Categories(snap)[c][j])
  {
    var r := GetDriverDetail(snap, driverName, cp);
    assert r.Some?;
    var c2, j2 :| FirstMatchAt(Categories(snap), c2, j2, Safe(driverName, cp), cp) && r.value == Categories(snap)[c2][j2];
    FirstMatchUnique(Categories(snap), c, j, c2, j2, Safe(driverName, cp), cp);
  }

  /** `IsDriverRunning`: the found driver's state is "Running"; false when the search throws. */
  function IsDriverRunning(snap: DriverSnapshot, driverName: string, cp: Encoding.Codepage): (b: bool)
    ensures b ==> GetDriverDetail(snap, driverName, cp).Some?
    ensures b <==> exists c, j :: FirstMatchAt(Categories(snap), c, j, Safe(driverName, cp), cp) && Categories(snap)[c][j].state == "Running"
  {
    match GetDriverDetail(snap, driverName, cp)
    case None => false
    case Some(d) =>
      assert d.state == "Running" <==> exists c, j :: FirstMatchAt(Categories(snap), c, j, Safe(driverName, cp), cp) && Categories(snap)[c][j].state == "Running" by {
        var c, j :| FirstMatchAt(Categories(snap), c, j, Safe(driverName, cp), cp) && d == Categories(snap)[c][j];
        forall c2, j2 | FirstMatchAt(Categories(snap), c2, j2, Safe(driverName, cp), cp) ensures c2 == c && j2 == j {
          FirstMatchUnique(Categories(snap), c, j, c2, j2, Safe(driverName, cp), cp);
        }
      }
      d.state == "Running"
  }

  /**
   A driver that falls in none of the six categories (an unknown type, a
   state other than running or stopped, a manual or disabled start and a
   Microsoft or Windows path) is in no list, so a snapshot of only such
   drivers answers every lookup with the "not found" error.
   */
  lemma UncategorisedNotFound(entries: seq<ServiceEntry>, timestamp: u64, cp: Encoding.Codepage, driverName: string)
    requires forall j :: 0 <= j < |entries| ==> !Categorised(DriverFromService(entries[j]))
    ensures GetDriverDetail(GetDriverSnapshot(Some(entries), timestamp, cp), driverName, cp).None?
    ensures !IsDriverRunning(GetDriverSnapshot(Some(entries), timestamp, cp), driverName, cp)
  {
    var all := AllDrivers(entries);
    forall d | d in all ensures !Categorised(d) {
      var j :| 0 <= j < |all| && all[j] == d;
    }
    FilterNone(all, IsKernel);
    FilterNone(all, IsFileSystem);
    FilterNone(all, IsRunning);
    FilterNone(all, IsStopped);
    FilterNone(all, IsAutoStart);
    FilterNone(all, IsThirdParty);
    EmptySnapshotNotFound(GetDriverSnapshot(Some(entries), timestamp, cp), driverName, cp);
  }

  /** A snapshot with six empty lists finds nothing. */
  lemma EmptySnapshotNotFound(snap: DriverSnapshot, driverName: string, cp: Encoding.Codepage)
    requires |snap.kernelDrivers| == 0 && |snap.fileSystemDrivers| == 0 && |snap.runningDrivers| == 0
    requires |snap.stoppedDrivers| == 0 && |snap.autoStartDrivers| == 0 && |snap.thirdPartyDrivers| == 0
    ensures GetDriverDetail(snap, driverName, cp).None?
    ensures !IsDriverRunning(snap, driverName, cp)
  {
    assert Categories(snap) == [[], [], [], [], [], []];
  }
}
