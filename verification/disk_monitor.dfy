/**
 The pure part of `DiskMonitor` (disk_monitor.cpp): the logical-drive mask
 scan, the merge of the Windows-API drive list with the WMI one, partition
 space arithmetic and labels, the SMART health buckets, and the
 `SafeString` pass over every record.

 Every Windows query is an input: `probe` answers, for a root path such as
 "C:\\", the drive type, the space query and the volume query; the ANSI
 code-page conversion behind the file's local `SafeString(const char*)` is
 the parameter `acp`.
 */
module DiskMonitor {
  import opened Common
  import Encoding

  datatype DiskDriveInfo = DiskDriveInfo(
    model: string,
    serialNumber: string,
    interfaceType: string,
    mediaType: string,
    totalSize: u64,
    bytesPerSector: u64,
    status: string,
    deviceId: string)

  datatype PartitionInfo = PartitionInfo(
    driveLetter: string,
    volumeLabel: string,
    fileSystem: string,
    totalSize: u64,
    freeSpace: u64,
    usedSpace: u64,
    usagePercentage: real,
    serialNumber: u32)

  datatype DiskSmartData = DiskSmartData(
    deviceId: string,
    temperature: int,
    healthStatus: int,
    powerOnHours: u64,
    powerOnCount: u64,
    badSectors: u64,
    readErrorCount: u64,
    writeErrorCount: u64,
    overallHealth: string)

  /** `GetDriveTypeA`, reduced to the two answers the monitor keeps. */
  datatype DriveType = Fixed | Removable | OtherDrive

  /** `GetVolumeInformationA`'s outputs. */
  datatype VolumeInfo = VolumeInfo(volumeName: string, fileSystem: string, serialNumber: u32)

  /**
   The answers for one root path: its type, `GetDiskFreeSpaceExA` as
   (total, free) or `None` when it fails, and the volume query.
   */
  datatype DriveProbe = DriveProbe(driveType: DriveType, space: Option<(u64, u64)>, volume: Option<VolumeInfo>)

  // ---------------------------------------------------------------------
  // The logical-drive mask

  /** The letters from 'A' + `i` to 'Z' whose bit is set in `mask`, in order. */
  function LettersFrom(mask: nat, i: nat): (r: seq<char>)
    requires i <= 26
    ensures forall c :: c in r <==> 'A' as int + i <= c as int <= 'Z' as int && Bit(mask, c as int - 'A' as int)
    ensures forall j :: 0 <= j < |r| ==> 'A' as int + i <= r[j] as int
    ensures forall j, k :: 0 <= j < k < |r| ==> r[j] < r[k]
    decreases 26 - i
  {
    if i == 26 then []
    else
      var rest := LettersFrom(mask, i + 1);
      if Bit(mask, i) then [('A' as int + i) as char] + rest else rest
  }

  /** The letters the scan of `GetLogicalDrives`' mask examines: 'A' + i exactly when bit i is set. */
  function DriveLetters(mask: u32): (r: seq<char>)
    ensures forall c :: c in r <==> 'A' <= c <= 'Z' && Bit(mask, c as int - 'A' as int)
    ensures forall j, k :: 0 <= j < k < |r| ==> r[j] < r[k]
    ensures |r| <= 26
  {
    var r := LettersFrom(mask, 0);
    LettersBound(r);
    r
  }

  /** Strictly increasing capital letters number at most 26. */
  lemma LettersBound(r: seq<char>)
    requires forall c :: c in r ==> 'A' <= c <= 'Z'
    requires forall j, k :: 0 <= j < k < |r| ==> r[j] < r[k]
    ensures |r| <= 26
  {
    if |r| > 0 {
      LetterAtLeast(r, |r| - 1);
      assert r[|r| - 1] in r;
    }
  }

  lemma {:induction false} LetterAtLeast(r: seq<char>, j: nat)
    requires forall c :: c in r ==> 'A' <= c <= 'Z'
    requires forall a, b :: 0 <= a < b < |r| ==> r[a] < r[b]
    requires j < |r|
    ensures r[j] as int >= 'A' as int + j
  {
    if j == 0 {
      assert r[0] in r;
    } else {
      LetterAtLeast(r, j - 1);
    }
  }

  /** The root path the scan builds for a letter. */
  function RootPath(letter: char): (r: string)
    ensures |r| == 3 && r[0] == letter
  {
    [letter] + ":\\"
  }

  /** The file's local `SafeString(const char*)`: "" for an empty name, else the code-page conversion. */
  function LocalSafeString(s: string, acp: string -> string): (r: string)
    ensures |s| == 0 ==> r == ""
  {
    if |s| == 0 then "" else acp(s)
  }

  /**
   One drive of `GetDrivesViaAPI`; `None` unless the drive is fixed or
   removable. A failed space query leaves the size at 0, a failed volume
   query marks model and status "Unknown".
   */
  function ApiDrive(letter: char, probe: DriveProbe, acp: string -> string): (d: Option<DiskDriveInfo>)
    ensures d.Some? <==> probe.driveType != OtherDrive
    ensures d.Some? ==> d.value.deviceId == RootPath(letter)
    ensures d.Some? && probe.space.Some? ==> d.value.totalSize == probe.space.value.0
    ensures d.Some? && probe.volume.None? ==> d.value.model == "Unknown" && d.value.status == "Unknown"
    ensures d.Some? && probe.volume.Some? ==>
      d.value.status == "Healthy" && d.value.bytesPerSector == 512
      && d.value.interfaceType == (if probe.driveType == Fixed then "Fixed" else "Removable")
  {
    if probe.driveType == OtherDrive then None
    else
      var total := if probe.space.Some? then probe.space.value.0 else 0;
      match probe.volume
      case Some(v) =>
        Some(DiskDriveInfo(LocalSafeString(v.volumeName, acp), "",
          if probe.driveType == Fixed then "Fixed" else "Removable",
          "Unknown", total, 512, "Healthy", RootPath(letter)))
      case None =>
        Some(DiskDriveInfo("Unknown", "", "", "", total, 0, "Unknown", RootPath(letter)))
  }

  /** The drives of the letters in `letters`, in order. */
  function ApiDrives(letters: seq<char>, probe: string -> DriveProbe, acp: string -> string): (ds: seq<DiskDriveInfo>)
    ensures |ds| <= |letters|
    ensures forall j :: 0 <= j < |ds| ==> |ds[j].deviceId| == 3 && ds[j].deviceId == RootPath(ds[j].deviceId[0]) && ds[j].deviceId[0] in letters
  {
    if |letters| == 0 then []
    else
      var rest := ApiDrives(letters[1..], probe, acp);
      assert forall c :: c in letters[1..] ==> c in letters;
      match ApiDrive(letters[0], probe(RootPath(letters[0])), acp)
      case None => rest
      case Some(d) =>
        var r := [d] + rest;
        assert forall j :: 0 < j < |r| ==> r[j] == rest[j - 1];
        assert letters[0] in letters;
        r
  }

  /** `GetDrivesViaAPI`: a zero mask (the failure value) gives no drives. */
  function GetDrivesViaApi(mask: u32, probe: string -> DriveProbe, acp: string -> string): (ds: seq<DiskDriveInfo>)
    ensures |ds| <= 26
    ensures forall j :: 0 <= j < |ds| ==>
      |ds[j].deviceId| == 3 &&
      var c := ds[j].deviceId[0];
      ds[j].deviceId == RootPath(c) && 'A' <= c <= 'Z' && Bit(mask, c as int - 'A' as int)
    ensures mask == 0 ==> ds == []
  {
    if mask == 0 then []
    else ApiDrives(DriveLetters(mask), probe, acp)
  }

  // ---------------------------------------------------------------------
  // Merging the WMI drives

  /** The merge's match: same device id or same total size. */
  predicate SameDrive(a: DiskDriveInfo, w: DiskDriveInfo)
  {
    a.deviceId == w.deviceId || a.totalSize == w.totalSize
  }

  /** The fields a matching WMI drive may supplement; identity and status are kept. */
  function Supplement(a: DiskDriveInfo, w: DiskDriveInfo): (r: DiskDriveInfo)
    ensures r.deviceId == a.deviceId && r.totalSize == a.totalSize && r.status == a.status
  {
    a.(
      model := if |w.model| > 0 && w.model != "Unknown" then w.model else a.model,
      serialNumber := if |w.serialNumber| > 0 then w.serialNumber else a.serialNumber,
      interfaceType := if |w.interfaceType| > 0 then w.interfaceType else a.interfaceType,
      mediaType := if |w.mediaType| > 0 then w.mediaType else a.mediaType,
      bytesPerSector := if w.bytesPerSector > 0 then w.bytesPerSector else a.bytesPerSector)
  }

  /**
   Supplementing with the same WMI record twice changes nothing more, and a
   WMI record without any usable detail changes nothing at all.
   */
  lemma SupplementIdempotent(a: DiskDriveInfo, w: DiskDriveInfo)
    ensures Supplement(Supplement(a, w), w) == Supplement(a, w)
    ensures ((|w.model| == 0 || w.model == "Unknown") && w.serialNumber == "" && w.interfaceType == ""
             && w.mediaType == "" && w.bytesPerSector == 0) ==> Supplement(a, w) == a
  {
  }

  /** The first drive of the list the WMI drive matches. */
  function FirstSame(drives: seq<DiskDriveInfo>, w: DiskDriveInfo): (r: Option<nat>)
    ensures r.None? <==> forall j :: 0 <= j < |drives| ==> !SameDrive(drives[j], w)
    ensures r.Some? ==> (r.value < |drives| && SameDrive(drives[r.value], w)
                         && forall j :: 0 <= j < r.value ==> !SameDrive(drives[j], w))
  {
    if |drives| == 0 then None
    else if SameDrive(drives[0], w) then Some(0)
    else
      match FirstSame(drives[1..], w)
      case None => None
      case Some(k) => Some(k + 1)
  }

  /** One iteration of the merge loop: supplement the first match, or append. */
  function MergeOne(drives: seq<DiskDriveInfo>, w: DiskDriveInfo): (r: seq<DiskDriveInfo>)
    ensures FirstSame(drives, w).None? ==> r == drives + [w]
    ensures FirstSame(drives, w).Some? ==>
      var i := FirstSame(drives, w).value;
      |r| == |drives| && r[i] == Supplement(drives[i], w)
      && forall j :: 0 <= j < |drives| && j != i ==> r[j] == drives[j]
  {
    match FirstSame(drives, w)
    case None => drives + [w]
    case Some(i) => drives[i := Supplement(drives[i], w)]
  }

  /**
   The merge of `GetDiskDrives`: the API drives come first and keep their
   identity and status; every WMI drive either supplements one of the
   drives already listed or is appended.
   */
  function MergeDrives(api: seq<DiskDriveInfo>, wmi: seq<DiskDriveInfo>): (r: seq<DiskDriveInfo>)
    ensures |api| <= |r| <= |api| + |wmi|
    ensures forall j :: 0 <= j < |api| ==>
      r[j].deviceId == api[j].deviceId && r[j].totalSize == api[j].totalSize && r[j].status == api[j].status
  {
    if |wmi| == 0 then api
    else
      var prev := MergeDrives(api, wmi[..|wmi| - 1]);
      var r := MergeOne(prev, wmi[|wmi| - 1]);
      assert forall j :: 0 <= j < |prev| ==>
        r[j].deviceId == prev[j].deviceId && r[j].totalSize == prev[j].totalSize && r[j].status == prev[j].status;
      r
  }

  /** A WMI drive that matches nothing is appended unchanged. */
  lemma MergeAppendsUnmatched(api: seq<DiskDriveInfo>, wmi: seq<DiskDriveInfo>, w: DiskDriveInfo)
    requires forall j :: 0 <= j < |MergeDrives(api, wmi)| ==> !SameDrive(MergeDrives(api, wmi)[j], w)
    ensures MergeDrives(api, wmi + [w]) == MergeDrives(api, wmi) + [w]
  {
    assert (wmi + [w])[..|wmi|] == wmi;
  }

  /** `SafeString` over the drive's text fields, with the defaults of `GetDiskDrives`. */
  function SafeDrive(d: DiskDriveInfo, cp: Encoding.Codepage): (r: DiskDriveInfo)
    ensures |r.model| > 0 && |r.interfaceType| > 0 && |r.mediaType| > 0 && |r.status| > 0 && |r.deviceId| > 0
    ensures r.totalSize == d.totalSize && r.bytesPerSector == d.bytesPerSector
  {
    d.(
      model := Encoding.SafeString(d.model, "Unknown", cp),
      serialNumber := Encoding.SafeString(d.serialNumber, "", cp),
      interfaceType := Encoding.SafeString(d.interfaceType, "Unknown", cp),
      mediaType := Encoding.SafeString(d.mediaType, "Unknown", cp),
      status := Encoding.SafeString(d.status, "Unknown", cp),
      deviceId := Encoding.SafeString(d.deviceId, "Unknown", cp))
  }

  /**
   `GetDiskDrives`: the API drives, merged with the WMI drives unless that
   query threw (`None`), then every text field through `SafeString`.
   */
  function GetDiskDrives(api: seq<DiskDriveInfo>, wmi: Option<seq<DiskDriveInfo>>, cp: Encoding.Codepage): (r: seq<DiskDriveInfo>)
    ensures wmi.None? ==> |r| == |api|
    ensures wmi.Some? ==> |api| <= |r| <= |api| + |wmi.value|
    ensures forall j :: 0 <= j < |r| ==> |r[j].model| > 0 && |r[j].deviceId| > 0 && |r[j].status| > 0
    ensures forall j :: 0 <= j < |api| ==> r[j].totalSize == api[j].totalSize
  {
    var merged := if wmi.Some? then MergeDrives(api, wmi.value) else api;
    seq(|merged|, j requires 0 <= j < |merged| => SafeDrive(merged[j], cp))
  }

  // ---------------------------------------------------------------------
  // Partitions

  /** `100.0 * used / total`, and 0 for an empty volume. */
  function UsagePercentage(used: u64, total: u64): (p: real)
    ensures total == 0 ==> p == 0.0
    ensures total > 0 && used <= total ==> 0.0 <= p <= 100.0
    ensures total > 0 && used == total ==> p == 100.0
  {
    if total > 0 then (100.0 * used as real) / total as real else 0.0
  }

  /** `partition.label` after the volume query: never empty. */
  function PartitionLabel(volume: Option<VolumeInfo>, acp: string -> string): (l: string)
    ensures |l| > 0
    ensures volume.None? ==> l == "Local Disk"
    ensures volume.Some? && LocalSafeString(volume.value.volumeName, acp) == "" ==> l == "Local Disk"
  {
    match volume
    case None => "Local Disk"
    case Some(v) =>
      var l := LocalSafeString(v.volumeName, acp);
      if |l| == 0 then "Local Disk" else l
  }

  /**
   One partition of `GetPartitionsViaAPI`, for a fixed or removable root.
   The used space is `total - free` in `uint64_t`; a failed space query
   zeroes all four space fields.
   */
  function ApiPartition(root: string, probe: DriveProbe, acp: string -> string): (p: Option<PartitionInfo>)
    ensures p.Some? <==> probe.driveType != OtherDrive
    ensures p.Some? ==> p.value.driveLetter == root[..if |root| < 2 then |root| else 2] && |p.value.volumeLabel| > 0
    ensures p.Some? && probe.space.None? ==>
      p.value.totalSize == 0 && p.value.freeSpace == 0 && p.value.usedSpace == 0 && p.value.usagePercentage == 0.0
    ensures p.Some? && probe.space.Some? ==>
      var (total, free) := probe.space.value;
      && p.value.totalSize == total && p.value.freeSpace == free
      && (free <= total ==> p.value.usedSpace + p.value.freeSpace == p.value.totalSize
                            && 0.0 <= p.value.usagePercentage <= 100.0)
      && (free > total ==> p.value.usedSpace == total - free + TWO_64)
  {
    if probe.driveType == OtherDrive then None
    else
      var (total, free, used, pct) := match probe.space
        case Some((t, f)) => (t, f, Sub64(t, f), UsagePercentage(Sub64(t, f), t))
        case None => (0, 0, 0, 0.0);
      var (fs, serial) := match probe.volume
        case Some(v) => (LocalSafeString(v.fileSystem, acp), v.serialNumber)
        case None => ("Unknown", 0);
      Some(PartitionInfo(root[..if |root| < 2 then |root| else 2], PartitionLabel(probe.volume, acp), fs,
        total, free, used, pct, serial))
  }

  /**
   `GetPartitions`: the roots `GetLogicalDriveStringsA` lists, the fixed and
   removable ones kept, then the text fields through `SafeString` with the
   defaults "Unknown", "Local Disk" and "Unknown".
   */
  function GetPartitions(roots: seq<string>, probe: string -> DriveProbe, acp: string -> string, cp: Encoding.Codepage): (ps: seq<PartitionInfo>)
    ensures |ps| <= |roots|
    ensures forall j :: 0 <= j < |ps| ==> |ps[j].driveLetter| > 0 && |ps[j].volumeLabel| > 0 && |ps[j].fileSystem| > 0
  {
    if |roots| == 0 then []
    else
      var rest := GetPartitions(roots[1..], probe, acp, cp);
      match ApiPartition(roots[0], probe(roots[0]), acp)
      case None => rest
      case Some(p) =>
        var q := p.(
          driveLetter := Encoding.SafeString(p.driveLetter, "Unknown", cp),
          volumeLabel := Encoding.SafeString(p.volumeLabel, "Local Disk", cp),
          fileSystem := Encoding.SafeString(p.fileSystem, "Unknown", cp));
        var r := [q] + rest;
        assert forall j :: 0 < j < |r| ==> r[j] == rest[j - 1];
        r
  }

  // ---------------------------------------------------------------------
  // SMART health

  /** `healthStatus`: 0 when the drive predicts a failure, else 100. */
  function HealthStatus(predictFailure: bool): int
  {
    if predictFailure then 0 else 100
  }

  /** The `overallHealth` buckets: above 80, above 60, above 40, else. */
  function OverallHealth(h: int): (s: string)
    ensures s == "Excellent" <==> h > 80
    ensures s == "Good" <==> 60 < h <= 80
    ensures s == "Warning" <==> 40 < h <= 60
    ensures s == "Bad" <==> h <= 40
  {
    if h > 80 then "Excellent" else if h > 60 then "Good" else if h > 40 then "Warning" else "Bad"
  }

  /** One record of `GetSMARTData`; every counter is 0. */
  function SmartRecord(deviceId: string, predictFailure: bool): (d: DiskSmartData)
    ensures d.healthStatus == 0 || d.healthStatus == 100
    ensures d.overallHealth == OverallHealth(d.healthStatus)
  {
    var h := HealthStatus(predictFailure);
    DiskSmartData(deviceId, 0, h, 0, 0, 0, 0, 0, OverallHealth(h))
  }

  /** With a health status of 0 or 100, only "Excellent" and "Bad" ever occur. */
  lemma SmartHealthTwoBuckets(deviceId: string, predictFailure: bool)
    ensures SmartRecord(deviceId, predictFailure).overallHealth == if predictFailure then "Bad" else "Excellent"
    ensures SmartRecord(deviceId, predictFailure).overallHealth != "Good"
    ensures SmartRecord(deviceId, predictFailure).overallHealth != "Warning"
  {
  }
}
