/**
 `RegistryMonitor` (registry_monitor.cpp): assembling a `RegistryKey` from
 what the registry API enumerates, the three key collections with their
 keep-filter, and the path parsing of `SafeQueryValue`.

 The registry itself is a parameter: for every key path it yields a
 `KeyListing`, for every value path a `QueryOutcome`.
 */
module RegistryMonitor {
  import opened Common
  import opened Bytes
  import Text
  import Utf8
  import Encoding
  import opened RegistryModel
  import opened RegistryRender

  /** One value as `RegEnumValueA` reports it: the name up to its NUL, the type code and the data. */
  datatype RawValue = RawValue(name: string, valueType: u32, data: seq<byte>)

  /**
   What the registry yields for one key: `NotOpened` when `RegOpenKeyExA`
   fails, else one entry per enumeration index, `None` where that index
   failed.
   */
  datatype KeyListing =
    | NotOpened
    | Opened(values: seq<Option<RawValue>>, subkeys: seq<Option<string>>)

  const DEFAULT_VALUE_NAME: string := "(Default)"

  /** Byte counts reported by the API are DWORDs. */
  function SizeOf(data: seq<byte>): u32
  {
    Wrap32(|data|)
  }

  /** One enumerated value as `GetRegistryKey` records it. */
  function MakeValue(raw: RawValue, conv: WideConverter): (v: RegistryValue)
    ensures |raw.name| == 0 ==> v.name == DEFAULT_VALUE_NAME
    ensures |raw.name| > 0 ==> v.name == Utf8.Sanitize(raw.name) && |v.name| == |raw.name|
    ensures v.valueType == TypeName(raw.valueType)
    ensures |raw.data| < TWO_32 ==> v.size == |raw.data|
  {
    RegistryValue(
      if |raw.name| == 0 then DEFAULT_VALUE_NAME else Utf8.Sanitize(raw.name),
      TypeName(raw.valueType),
      MonitorDataToString(Some(raw.data), raw.valueType, conv),
      SizeOf(raw.data))
  }

  /** The values whose enumeration succeeded, in index order. */
  function EnumeratedValues(entries: seq<Option<RawValue>>, conv: WideConverter): (vs: seq<RegistryValue>)
    ensures |vs| <= |entries|
    ensures forall i :: 0 <= i < |vs| ==> |vs[i].name| > 0
  {
    if |entries| == 0 then []
    else
      var rest := EnumeratedValues(entries[1..], conv);
      match entries[0]
      case None => rest
      case Some(raw) => [MakeValue(raw, conv)] + rest
  }

  /** The subkey names whose enumeration succeeded, sanitized, in index order. */
  function EnumeratedSubkeys(entries: seq<Option<string>>): (ks: seq<string>)
    ensures |ks| <= |entries|
    ensures forall i :: 0 <= i < |ks| ==> Utf8.WellFormed(ks[i])
  {
    if |entries| == 0 then []
    else
      var rest := EnumeratedSubkeys(entries[1..]);
      match entries[0]
      case None => rest
      case Some(name) => Utf8.SanitizeWellFormed(name); [Utf8.Sanitize(name)] + rest
  }

  function CountPresent<T>(entries: seq<Option<T>>): (n: nat)
    ensures n <= |entries|
  {
    if |entries| == 0 then 0 else (if entries[0].Some? then 1 else 0) + CountPresent(entries[1..])
  }

  lemma {:induction false} EnumeratedValuesCount(entries: seq<Option<RawValue>>, conv: WideConverter)
    ensures |EnumeratedValues(entries, conv)| == CountPresent(entries)
  {
    if |entries| > 0 {
      EnumeratedValuesCount(entries[1..], conv);
    }
  }

  lemma {:induction false} EnumeratedSubkeysCount(entries: seq<Option<string>>)
    ensures |EnumeratedSubkeys(entries)| == CountPresent(entries)
  {
    if |entries| > 0 {
      EnumeratedSubkeysCount(entries[1..]);
    }
  }

  /** The path `GetRegistryKey` records: root name, a backslash, the subkey path. */
  function KeyPath(root: Hive, subKey: string): (p: string)
    ensures Text.StartsWith(p, HiveName(Some(root)) + "\\")
    ensures p[|HiveName(Some(root))| + 1..] == subKey
  {
    HiveName(Some(root)) + "\\" + subKey
  }

  /** `GetRegistryKey`: an unopenable key is returned with its path and nothing else. */
  function GetRegistryKey(root: Hive, subKey: string, listing: KeyListing, conv: WideConverter): (k: RegistryKey)
    ensures k.path == KeyPath(root, subKey)
    ensures listing.NotOpened? ==> k.values == [] && k.subkeys == []
    ensures listing.Opened? ==>
      k.values == EnumeratedValues(listing.values, conv) && k.subkeys == EnumeratedSubkeys(listing.subkeys)
    ensures k.lastModified == 0
  {
    match listing
    case NotOpened => RegistryKey(KeyPath(root, subKey), [], [], 0)
    case Opened(vs, ks) => RegistryKey(KeyPath(root, subKey), EnumeratedValues(vs, conv), EnumeratedSubkeys(ks), 0)
  }

  /** The number of values and of subkeys is the number of successful enumerations. */
  lemma GetRegistryKeyCounts(root: Hive, subKey: string, listing: KeyListing, conv: WideConverter)
    requires listing.Opened?
    ensures |GetRegistryKey(root, subKey, listing, conv).values| == CountPresent(listing.values)
    ensures |GetRegistryKey(root, subKey, listing, conv).subkeys| == CountPresent(listing.subkeys)
  {
    EnumeratedValuesCount(listing.values, conv);
    EnumeratedSubkeysCount(listing.subkeys);
  }

  predicate HasContent(k: RegistryKey)
  {
    |k.values| > 0 || |k.subkeys| > 0
  }

  /** The keep-filter of the collectors: keys with a value or a subkey, in order. */
  function KeepNonEmpty(keys: seq<RegistryKey>): (r: seq<RegistryKey>)
    ensures |r| <= |keys|
    ensures forall i :: 0 <= i < |r| ==> HasContent(r[i]) && r[i] in keys
    ensures forall k :: k in keys && HasContent(k) ==> k in r
    ensures r == Filter(keys, HasContent)
  {
    if |keys| == 0 then []
    else
      var rest := KeepNonEmpty(keys[1..]);
      assert keys == [keys[0]] + keys[1..];
      FilterCons(keys[0], keys[1..], HasContent);
      var r := if HasContent(keys[0]) then [keys[0]] + rest else rest;
      assert r == Filter(keys, HasContent);
      r
  }

  /** A registry as the collectors see it: a listing for each key path of a root. */
  datatype Registry = Registry(listing: (Hive, string) -> KeyListing)

  /** One key as `GetRegistryKey` reads it from the registry. */
  function ReadKey(root: Hive, path: string, reg: Registry, conv: WideConverter): RegistryKey
  {
    GetRegistryKey(root, path, reg.listing(root, path), conv)
  }

  function ReadKeys(root: Hive, paths: seq<string>, reg: Registry, conv: WideConverter): (ks: seq<RegistryKey>)
    ensures |ks| == |paths|
    ensures forall i :: 0 <= i < |paths| ==> ks[i].path == KeyPath(root, paths[i])
    ensures forall i :: 0 <= i < |paths| ==> ks[i] == ReadKey(root, paths[i], reg, conv)
  {
    var ks := seq(|paths|, i requires 0 <= i < |paths| => GetRegistryKey(root, paths[i], reg.listing(root, paths[i]), conv));
    assert forall i :: 0 <= i < |paths| ==> ks[i] == GetRegistryKey(root, paths[i], reg.listing(root, paths[i]), conv);
    ks
  }

  /**
   `GetSystemInfoKeys`: the filter sees the unconverted key, and the
   conversion afterwards acts on a local copy, so it neither changes nor
   drops what was kept.
   */
  function GetSystemInfoKeys(reg: Registry, conv: WideConverter): (ks: seq<RegistryKey>)
    ensures |ks| <= |SYSTEM_INFO_PATHS|
    ensures forall i :: 0 <= i < |ks| ==>
      HasContent(ks[i]) && Text.StartsWith(ks[i].path, "HKEY_LOCAL_MACHINE\\")
    ensures forall i :: 0 <= i < |SYSTEM_INFO_PATHS| ==>
      (ReadKey(LocalMachine, SYSTEM_INFO_PATHS[i], reg, conv) in ks <==> HasContent(ReadKey(LocalMachine, SYSTEM_INFO_PATHS[i], reg, conv)))
    ensures ks == Filter(ReadKeys(LocalMachine, SYSTEM_INFO_PATHS, reg, conv), HasContent)
  {
    var kept := KeepNonEmpty(ReadKeys(LocalMachine, SYSTEM_INFO_PATHS, reg, conv));
    KeptUnderRoot(LocalMachine, SYSTEM_INFO_PATHS, reg, conv);
    assert HiveName(Some(LocalMachine)) + "\\" == "HKEY_LOCAL_MACHINE\\";
    kept
  }

  /** The keys kept from one root lie under it, and a configured key is kept exactly when it has content. */
  lemma KeptUnderRoot(root: Hive, paths: seq<string>, reg: Registry, conv: WideConverter)
    ensures var kept := KeepNonEmpty(ReadKeys(root, paths, reg, conv));
      && (forall i :: 0 <= i < |kept| ==> Text.StartsWith(kept[i].path, HiveName(Some(root)) + "\\"))
      && (forall i :: 0 <= i < |paths| ==>
            (ReadKey(root, paths[i], reg, conv) in kept <==> HasContent(ReadKey(root, paths[i], reg, conv))))
  {
    var all := ReadKeys(root, paths, reg, conv);
    var kept := KeepNonEmpty(all);
    forall i | 0 <= i < |paths|
      ensures ReadKey(root, paths[i], reg, conv) in kept <==> HasContent(ReadKey(root, paths[i], reg, conv))
    {
      assert all[i] in all;
    }
    forall i | 0 <= i < |kept|
      ensures Text.StartsWith(kept[i].path, HiveName(Some(root)) + "\\")
    {
      var j :| 0 <= j < |all| && kept[i] == all[j];
    }
  }

  /**
   The collectors that convert first: a key whose conversion throws is
   skipped by the `catch` inside the loop; the filter sees the converted key.
   */
  function ConvertAndKeep(keys: seq<RegistryKey>, cp: Encoding.Codepage): (r: seq<RegistryKey>)
    ensures |r| <= |keys|
    ensures forall i :: 0 <= i < |r| ==> HasContent(r[i]) && |r[i].path| > 0
    ensures r == Filter(Converted(keys, cp), HasContent)
    ensures forall k :: k in r <==> HasContent(k) && ConvertsTo(keys, cp, k)
  {
    if |keys| == 0 then []
    else
      var rest := ConvertAndKeep(keys[1..], cp);
      var tail := Converted(keys[1..], cp);
      match ConvertKey(keys[0], cp)
      case None =>
        assert Converted(keys, cp) == tail;
        rest
      case Some(k) =>
        assert Converted(keys, cp) == [k] + tail;
        FilterCons(k, tail, HasContent);
        var r := if HasContent(k) then [k] + rest else rest;
        assert r == Filter(Converted(keys, cp), HasContent);
        r
  }

  /** Some key of `keys` converts to `k`. */
  predicate ConvertsTo(keys: seq<RegistryKey>, cp: Encoding.Codepage, k: RegistryKey)
  {
    exists i :: 0 <= i < |keys| && ConvertKey(keys[i], cp) == Some(k)
  }

  /** The keys whose conversion succeeds, converted, in order: a throwing key is skipped. */
  function Converted(keys: seq<RegistryKey>, cp: Encoding.Codepage): (r: seq<RegistryKey>)
    ensures |r| <= |keys|
    ensures forall k :: k in r <==> ConvertsTo(keys, cp, k)
  {
    if |keys| == 0 then []
    else
      var rest := Converted(keys[1..], cp);
      assert forall k :: ConvertsTo(keys, cp, k) <==> ConvertKey(keys[0], cp) == Some(k) || ConvertsTo(keys[1..], cp, k) by {
        forall k ensures ConvertsTo(keys, cp, k) <==> ConvertKey(keys[0], cp) == Some(k) || ConvertsTo(keys[1..], cp, k) {
          if ConvertsTo(keys[1..], cp, k) {
            var i :| 0 <= i < |keys[1..]| && ConvertKey(keys[1..][i], cp) == Some(k);
            assert ConvertKey(keys[i + 1], cp) == Some(k);
          }
          if ConvertsTo(keys, cp, k) {
            var i :| 0 <= i < |keys| && ConvertKey(keys[i], cp) == Some(k);
            if i > 0 { assert ConvertKey(keys[1..][i - 1], cp) == Some(k); }
          }
          if ConvertKey(keys[0], cp) == Some(k) { assert ConvertsTo(keys, cp, k); }
        }
      }
      match ConvertKey(keys[0], cp)
      case None => rest
      case Some(k) => [k] + rest
  }

  /** Conversion keeps the counts, so with a converter that never throws the filter agrees. */
  lemma {:induction false} ConvertAndKeepCount(keys: seq<RegistryKey>, cp: Encoding.Codepage)
    requires forall i :: 0 <= i < |keys| ==> ConvertKey(keys[i], cp).Some?
    ensures |ConvertAndKeep(keys, cp)| == |KeepNonEmpty(keys)|
  {
    if |keys| > 0 {
      ConvertAndKeepCount(keys[1..], cp);
      assert forall i :: 0 <= i < |keys[1..]| ==> keys[1..][i] == keys[i + 1];
      assert HasContent(ConvertKey(keys[0], cp).value) == HasContent(keys[0]);
    }
  }

  /** `GetInstalledSoftware`: the three machine-wide paths, then the current user's uninstall list. */
  function GetInstalledSoftware(reg: Registry, conv: WideConverter, cp: Encoding.Codepage): (ks: seq<RegistryKey>)
    ensures |ks| <= |SOFTWARE_PATHS| + 1
    ensures forall i :: 0 <= i < |ks| ==> HasContent(ks[i])
    ensures var read := ReadKeys(LocalMachine, SOFTWARE_PATHS, reg, conv) + [ReadKey(CurrentUser, UNINSTALL_PATH, reg, conv)];
      && (forall k :: k in ks <==> HasContent(k) && ConvertsTo(read, cp, k))
      && ks == Filter(Converted(read, cp), HasContent)
  {
    assert ReadKeys(CurrentUser, [UNINSTALL_PATH], reg, conv) == [ReadKey(CurrentUser, UNINSTALL_PATH, reg, conv)];
    ConvertAndKeep(ReadKeys(LocalMachine, SOFTWARE_PATHS, reg, conv) + ReadKeys(CurrentUser, [UNINSTALL_PATH], reg, conv), cp)
  }

  /** `GetNetworkConfig`. */
  function GetNetworkConfig(reg: Registry, conv: WideConverter, cp: Encoding.Codepage): (ks: seq<RegistryKey>)
    ensures |ks| <= |NETWORK_PATHS|
    ensures forall i :: 0 <= i < |ks| ==> HasContent(ks[i])
    ensures var read := ReadKeys(LocalMachine, NETWORK_PATHS, reg, conv);
      && (forall k :: k in ks <==> HasContent(k) && ConvertsTo(read, cp, k))
      && ks == Filter(Converted(read, cp), HasContent)
  {
    ConvertAndKeep(ReadKeys(LocalMachine, NETWORK_PATHS, reg, conv), cp)
  }

  const UNINSTALL_PATH: string := "SOFTWARE\\Microsoft\\Windows\\CurrentVersion\\Uninstall"

  const SYSTEM_INFO_PATHS: seq<string> := [
    "SOFTWARE\\Microsoft\\Windows NT\\CurrentVersion",
    "HARDWARE\\DESCRIPTION\\System",
    "SYSTEM\\CurrentControlSet\\Control\\ComputerName\\ComputerName",
    "SYSTEM\\CurrentControlSet\\Control\\TimeZoneInformation"]

  const SOFTWARE_PATHS: seq<string> := [
    UNINSTALL_PATH,
    "SOFTWARE\\Microsoft\\Windows\\CurrentVersion\\Run",
    "SOFTWARE\\Microsoft\\Windows\\CurrentVersion\\RunOnce"]

  const NETWORK_PATHS: seq<string> := [
    "SYSTEM\\CurrentControlSet\\Services\\Tcpip\\Parameters",
    "SYSTEM\\CurrentControlSet\\Services\\Tcpip\\Parameters\\Interfaces",
    "SOFTWARE\\Microsoft\\Windows NT\\CurrentVersion\\NetworkList\\Signatures\\Unmanaged"]

  /** A value address `ROOT\key\path\name` split into its three parts. */
  datatype ValuePath = ValuePath(root: Hive, keyPath: string, valueName: string)

  /**
   The parse of `SafeQueryValue`: the root is the text before the first
   backslash and must name one of the five roots; the rest splits at its
   last backslash into key path and value name.
   */
  function ParseValuePath(full: string): (r: Option<ValuePath>)
    ensures '\\' !in full ==> r.None?
    ensures r.Some? ==> '\\' !in r.value.valueName
  {
    match Text.FindFirst(full, '\\')
    case None => None
    case Some(p) =>
      match HiveFromName(full[..p])
      case None => None
      case Some(h) =>
        var rest := full[p + 1..];
        match Text.FindLast(rest, '\\')
        case None => None
        case Some(q) => Some(ValuePath(h, rest[..q], rest[q + 1..]))
  }

  function FormatValuePath(v: ValuePath): string
  {
    HiveName(Some(v.root)) + "\\" + v.keyPath + "\\" + v.valueName
  }

  /** Cutting at two backslashes and putting them back gives the original text. */
  lemma Reassemble(full: string, p: nat, q: nat)
    requires p < |full| && full[p] == '\\'
    requires q < |full| - p - 1 && full[p + 1..][q] == '\\'
    ensures full == full[..p] + "\\" + full[p + 1..][..q] + "\\" + full[p + 1..][q + 1..]
  {
    var rest := full[p + 1..];
    assert rest == rest[..q] + "\\" + rest[q + 1..];
    assert full == full[..p] + "\\" + rest;
  }

  /** A parsed address prints back to the input. */
  lemma ParseThenFormat(full: string)
    requires ParseValuePath(full).Some?
    ensures FormatValuePath(ParseValuePath(full).value) == full
  {
    var p := Text.FindFirst(full, '\\').value;
    var h := HiveFromName(full[..p]).value;
    var rest := full[p + 1..];
    var q := Text.FindLast(rest, '\\').value;
    assert ParseValuePath(full) == Some(ValuePath(h, rest[..q], rest[q + 1..]));
    NamedHive(full[..p], h);
    Reassemble(full, p, q);
  }

  /** Printing an address whose value name has no backslash parses back to it. */
  lemma FormatThenParse(v: ValuePath)
    requires '\\' !in v.valueName
    ensures ParseValuePath(FormatValuePath(v)) == Some(v)
  {
    HiveNameRoundTrip(v.root, "");
    ParseAfterRoot(HiveName(Some(v.root)), v.root, v.keyPath, v.valueName);
  }

  /** The parse of a root name, a key path and a value name joined by backslashes. */
  lemma ParseAfterRoot(name: string, h: Hive, keyPath: string, valueName: string)
    requires HiveFromName(name) == Some(h) && '\\' !in name && '\\' !in valueName
    ensures ParseValuePath(name + "\\" + keyPath + "\\" + valueName) == Some(ValuePath(h, keyPath, valueName))
  {
    var rest := keyPath + "\\" + valueName;
    var full := name + "\\" + keyPath + "\\" + valueName;
    assert full == name + ['\\'] + rest;
    Text.FirstCut(name, '\\', rest);
    Text.LastCut(keyPath, '\\', valueName);
    ParseCut(full, name, h, rest, keyPath, valueName);
  }

  /** The parse, given where the two cuts fall and that the first piece names a root. */
  lemma ParseCut(full: string, name: string, h: Hive, rest: string, keyPath: string, valueName: string)
    requires Text.FindFirst(full, '\\') == Some(|name|) && full[..|name|] == name && full[|name| + 1..] == rest
    requires HiveFromName(name) == Some(h)
    requires Text.FindLast(rest, '\\') == Some(|keyPath|) && rest[..|keyPath|] == keyPath && rest[|keyPath| + 1..] == valueName
    ensures ParseValuePath(full) == Some(ValuePath(h, keyPath, valueName))
  {
  }

  /**
   What the registry does with a parsed address: the key cannot be opened,
   the size query fails, the read fails, or the value is read.
   */
  datatype QueryOutcome =
    | OpenFailed
    | SizeQueryFailed
    | ReadFailed
    | Read(valueType: u32, data: seq<byte>)

  /**
   `SafeQueryValue`: the answer and the value after the call. The value is
   overwritten only when the read succeeds; a failed read after a
   successful size query still answers true.
   */
  function SafeQueryValue(full: string, value: RegistryValue, query: ValuePath -> QueryOutcome, conv: WideConverter)
    : (r: (bool, RegistryValue))
    ensures ParseValuePath(full).None? ==> r == (false, value)
    ensures ParseValuePath(full).Some? ==>
      var o := query(ParseValuePath(full).value);
      && (r.0 <==> o.ReadFailed? || o.Read?)
      && (!o.Read? ==> r.1 == value)
      && (o.Read? ==> r.1.name == ParseValuePath(full).value.valueName && r.1.valueType == TypeName(o.valueType))
      && (o.Read? ==> r.1.data == MonitorDataToString(Some(o.data), o.valueType, conv))
      && (o.Read? && |o.data| < TWO_32 ==> r.1.size == |o.data|)
  {
    match ParseValuePath(full)
    case None => (false, value)
    case Some(vp) =>
      match query(vp)
      case OpenFailed => (false, value)
      case SizeQueryFailed => (false, value)
      case ReadFailed => (true, value)
      case Read(t, data) =>
        (true, RegistryValue(vp.valueName, TypeName(t), MonitorDataToString(Some(data), t, conv), SizeOf(data)))
  }
}
