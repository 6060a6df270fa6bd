/**
 The list-based snapshot records of the `snapshot` namespace
 (SystemSnapshot.cpp): a registry value, a disk and a process as the data
 collector records them, their `operator==` and their `to_string`.

 The header declaring these records is not part of this model; the fields
 are the ones the collector and the comparator use. `type` holds the
 registry value's numeric type, printed in decimal.
 */
module SystemSnapshot {
  import opened Common
  import Text

  datatype RegistryValue = RegistryValue(keyPath: string, valueName: string, valueType: u32, data: string)

  datatype DiskInfo = DiskInfo(driveLetter: string, totalSize: u64, freeSpace: u64, usedSpace: u64)

  datatype ProcessInfo = ProcessInfo(
    pid: u32, name: string, cpuUsage: real, memoryUsage: u64, privateBytes: u64, executablePath: string)

  /** The data part of a `snapshot::SystemSnapshot`. */
  datatype Snapshot = Snapshot(
    name: string,
    registryData: seq<RegistryValue>,
    diskInfo: seq<DiskInfo>,
    processInfo: seq<ProcessInfo>)

  // ---------------------------------------------------------------------
  // Equality

  /** `RegistryValue::operator==`: path, name, type and data. */
  predicate RegistryValueEquals(a: RegistryValue, b: RegistryValue)
  {
    a.keyPath == b.keyPath && a.valueName == b.valueName && a.valueType == b.valueType && a.data == b.data
  }

  /** Registry values compare on every field, so `operator==` is identity. */
  lemma RegistryValueEqualsIsIdentity(a: RegistryValue, b: RegistryValue)
    ensures RegistryValueEquals(a, b) <==> a == b
  {
  }

  /** `DiskInfo::operator==`: letter, total and free space. */
  predicate DiskInfoEquals(a: DiskInfo, b: DiskInfo)
  {
    a.driveLetter == b.driveLetter && a.totalSize == b.totalSize && a.freeSpace == b.freeSpace
  }

  /** Disks that differ only in the used space are equal. */
  lemma DiskInfoEqualsIgnoresUsed(a: DiskInfo, b: DiskInfo)
    ensures DiskInfoEquals(a, b) <==> a.(usedSpace := b.usedSpace) == b
  {
  }

  /** `ProcessInfo::operator==`: pid and name. */
  predicate ProcessInfoEquals(a: ProcessInfo, b: ProcessInfo)
  {
    a.pid == b.pid && a.name == b.name
  }

  /** Processes that differ only in usage figures and path are equal. */
  lemma ProcessInfoEqualsIgnoresUsage(a: ProcessInfo, b: ProcessInfo)
    ensures ProcessInfoEquals(a, b) <==>
      a.(cpuUsage := b.cpuUsage, memoryUsage := b.memoryUsage, privateBytes := b.privateBytes,
         executablePath := b.executablePath) == b
  {
  }

  // ---------------------------------------------------------------------
  // Text forms

  const GIB: nat := 1073741824
  const MIB: nat := 1048576

  /** `n / (1024*1024*1024)`: whole gibibytes, rounded down. */
  function Gibibytes(n: u64): (g: nat)
    ensures g * GIB <= n < (g + 1) * GIB
  {
    n / GIB
  }

  /** `n / (1024*1024)`: whole mebibytes, rounded down. */
  function Mebibytes(n: u64): (m: nat)
    ensures m * MIB <= n < (m + 1) * MIB
  {
    n / MIB
  }

  /** `RegistryValue::to_string`. */
  function RegistryValueToString(v: RegistryValue): string
  {
    "Registry[Path=" + (v.keyPath + (", Name=" + (v.valueName + (", Type=" + (Text.NatToString(v.valueType)
      + (", Data=" + (v.data + "]")))))))
  }

  /** `DiskInfo::to_string`: the sizes in whole gibibytes. */
  function DiskInfoToString(d: DiskInfo): string
  {
    "Disk[Drive=" + d.driveLetter + ", Total=" + Text.NatToString(Gibibytes(d.totalSize))
      + "GB, Free=" + Text.NatToString(Gibibytes(d.freeSpace)) + "GB]"
  }

  /** `ProcessInfo::to_string`; `formatReal` is the stream's rendering of a `double`. */
  function ProcessInfoToString(p: ProcessInfo, formatReal: real -> string): string
  {
    "Process[PID=" + Text.NatToString(p.pid) + ", Name=" + p.name + ", CPU=" + formatReal(p.cpuUsage)
      + "%, Memory=" + Text.NatToString(Mebibytes(p.memoryUsage)) + "MB]"
  }

  /** Equal disks print the same: the text ignores the used space too. */
  lemma DiskInfoToStringRespectsEquality(a: DiskInfo, b: DiskInfo)
    requires DiskInfoEquals(a, b)
    ensures DiskInfoToString(a) == DiskInfoToString(b)
  {
  }

  // ---------------------------------------------------------------------
  // Reading the registry text back

  /** The rest of `s` after `prefix`, if `s` starts with it. */
  function After(s: string, prefix: string): (r: Option<string>)
    ensures r.Some? <==> Text.StartsWith(s, prefix)
    ensures r.Some? ==> s == prefix + r.value
  {
    if Text.StartsWith(s, prefix) then
      assert s == s[..|prefix|] + s[|prefix|..];
      Some(s[|prefix|..])
    else None
  }

  /** `s` split before its first comma. */
  function CutAtComma(s: string): (r: Option<(string, string)>)
    ensures r.None? <==> ',' !in s
    ensures r.Some? ==> s == r.value.0 + r.value.1 && ',' !in r.value.0 && |r.value.1| > 0 && r.value.1[0] == ','
  {
    match Text.FindFirst(s, ',')
    case None => None
    case Some(i) =>
      assert s == s[..i] + s[i..];
      Some((s[..i], s[i..]))
  }

  lemma CutAtCommaOf(a: string, b: string)
    requires ',' !in a && |b| > 0 && b[0] == ','
    ensures CutAtComma(a + b) == Some((a, b))
  {
    assert (a + b)[..|a|] == a;
    assert (a + b)[|a|..] == b;
    Text.FindFirstAt(a + b, ',', |a|);
  }

  lemma AfterOf(prefix: string, rest: string)
    ensures After(prefix + rest, prefix) == Some(rest)
  {
    assert (prefix + rest)[..|prefix|] == prefix;
    assert (prefix + rest)[|prefix|..] == rest;
  }

  /** The type and data at the end of a registry text: "<decimal>, Data=<data>]". */
  function ParseTypeAndData(r: string): Option<(u32, string)>
  {
    match CutAtComma(r)
    case None => None
    case Some((ty, rest)) =>
      if |ty| == 0 || !Text.AllDigits(ty) || Text.DecimalValue(ty) >= TWO_32 then None
      else
        match After(rest, ", Data=")
        case None => None
        case Some(d) =>
          if |d| > 0 && d[|d| - 1] == ']' then Some((Text.DecimalValue(ty), d[..|d| - 1])) else None
  }

  /** The field text up to the next comma, and what follows the next label. */
  function ParseField(r: string, nextLabel: string): (f: Option<(string, string)>)
    ensures f.Some? ==> ',' !in f.value.0
  {
    match CutAtComma(r)
    case None => None
    case Some((field, rest)) =>
      match After(rest, nextLabel)
      case None => None
      case Some(r') => Some((field, r'))
  }

  /**
   Reads a registry value back from its text: path and name end at the
   next comma, the type is a decimal below 2^32, and the data is the rest
   up to the closing bracket.
   */
  function ParseRegistryValueText(s: string): (r: Option<RegistryValue>)
    ensures r.Some? ==> ',' !in r.value.keyPath && ',' !in r.value.valueName
  {
    match After(s, "Registry[Path=")
    case None => None
    case Some(r1) =>
      match ParseField(r1, ", Name=")
      case None => None
      case Some((path, r2)) =>
        match ParseField(r2, ", Type=")
        case None => None
        case Some((name, r3)) =>
          match ParseTypeAndData(r3)
          case None => None
          case Some((ty, data)) => Some(RegistryValue(path, name, ty, data))
  }

  lemma ParseFieldOf(field: string, tag: string, rest: string)
    requires ',' !in field && |tag| > 0 && tag[0] == ','
    ensures ParseField(field + (tag + rest), tag) == Some((field, rest))
  {
    CutAtCommaOf(field, tag + rest);
    AfterOf(tag, rest);
  }

  lemma ParseTypeAndDataOf(t: u32, data: string)
    ensures ParseTypeAndData(Text.NatToString(t) + (", Data=" + (data + "]"))) == Some((t, data))
  {
    var ts := Text.NatToString(t);
    assert ',' !in ts by {
      forall i | 0 <= i < |ts| ensures ts[i] != ',' {
        assert Text.IsDigit(ts[i]);
      }
    }
    CutAtCommaOf(ts, ", Data=" + (data + "]"));
    AfterOf(", Data=", data + "]");
    assert (data + "]")[..|data|] == data;
  }

  /**
   The text of a registry value reads back to the same value whenever its
   path and name hold no comma: `to_string` then loses nothing.
   */
  lemma RegistryValueTextRoundTrip(v: RegistryValue)
    requires ',' !in v.keyPath && ',' !in v.valueName
    ensures ParseRegistryValueText(RegistryValueToString(v)) == Some(v)
  {
    var r3 := Text.NatToString(v.valueType) + (", Data=" + (v.data + "]"));
    var r2 := v.valueName + (", Type=" + r3);
    var r1 := v.keyPath + (", Name=" + r2);
    AfterOf("Registry[Path=", r1);
    ParseFieldOf(v.keyPath, ", Name=", r2);
    ParseFieldOf(v.valueName, ", Type=", r3);
    ParseTypeAndDataOf(v.valueType, v.data);
  }
}
