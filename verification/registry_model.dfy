/**
 The registry records of `registry_monitor.h` (`RegistryValue`,
 `RegistryKey`, `RegistrySnapshot`), their equality operators and
 `convertToUTF8`, and the two lookup tables both registry components share:
 root-key names (`HKEYToString`) and value-type names
 (`RegistryTypeToString`).
 */
module RegistryModel {
  import opened Common
  import Encoding

  /** A rendered registry value; `size` is the byte count reported by the API. */
  datatype RegistryValue = RegistryValue(name: string, valueType: string, data: string, size: u32)

  /** A registry key with its values and subkey names. */
  datatype RegistryKey = RegistryKey(path: string, values: seq<RegistryValue>, subkeys: seq<string>, lastModified: u64)

  datatype RegistrySnapshot = RegistrySnapshot(
    systemInfoKeys: seq<RegistryKey>,
    softwareKeys: seq<RegistryKey>,
    networkKeys: seq<RegistryKey>,
    timestamp: u64)

  /** `RegistryValue::operator==`: all four fields. */
  predicate ValueEquals(a: RegistryValue, b: RegistryValue)
  {
    a.name == b.name && a.valueType == b.valueType && a.data == b.data && a.size == b.size
  }

  predicate ValueDiffers(a: RegistryValue, b: RegistryValue)
  {
    !ValueEquals(a, b)
  }

  /** `RegistryKey::operator==`: path, values in order and subkeys in order. */
  predicate KeyEquals(a: RegistryKey, b: RegistryKey)
  {
    a.path == b.path && a.values == b.values && a.subkeys == b.subkeys
  }

  predicate KeyDiffers(a: RegistryKey, b: RegistryKey)
  {
    !KeyEquals(a, b)
  }

  /** Value equality is structural equality of the record. */
  lemma ValueEqualsIsEquality(a: RegistryValue, b: RegistryValue)
    ensures ValueEquals(a, b) <==> a == b
    ensures ValueDiffers(a, b) <==> a != b
  {
  }

  /** Key equality is structural equality once the modification time is forgotten. */
  lemma KeyEqualsIgnoresTime(a: RegistryKey, b: RegistryKey)
    ensures KeyEquals(a, b) <==> a.(lastModified := 0) == b.(lastModified := 0)
    ensures KeyDiffers(a, b) <==> !KeyEquals(a, b)
  {
    if a.(lastModified := 0) == b.(lastModified := 0) {
      assert a.(lastModified := 0).path == b.(lastModified := 0).path;
      assert a.(lastModified := 0).values == b.(lastModified := 0).values;
      assert a.(lastModified := 0).subkeys == b.(lastModified := 0).subkeys;
    }
  }

  lemma KeyEqualsEquivalence(a: RegistryKey, b: RegistryKey, c: RegistryKey)
    ensures KeyEquals(a, a)
    ensures KeyEquals(a, b) ==> KeyEquals(b, a)
    ensures KeyEquals(a, b) && KeyEquals(b, c) ==> KeyEquals(a, c)
  {
  }

  /** `RegistryValue::convertToUTF8`; `None` when a conversion throws. */
  function ConvertValue(v: RegistryValue, cp: Encoding.Codepage): (r: Option<RegistryValue>)
    ensures r.Some? <==>
      Encoding.ToUtf8(v.name, cp).Some? && Encoding.ToUtf8(v.valueType, cp).Some? && Encoding.ToUtf8(v.data, cp).Some?
    ensures r.Some? ==>
      && r.value.size == v.size
      && r.value.name == Encoding.ToUtf8(v.name, cp).value
      && r.value.valueType == Encoding.ToUtf8(v.valueType, cp).value
      && r.value.data == Encoding.ToUtf8(v.data, cp).value
  {
    match (Encoding.ToUtf8(v.name, cp), Encoding.ToUtf8(v.valueType, cp), Encoding.ToUtf8(v.data, cp))
    case (Some(n), Some(t), Some(d)) => Some(RegistryValue(n, t, d, v.size))
    case _ => None
  }

  /** Converts the values in order; the first value whose conversion throws aborts the loop. */
  function ConvertValues(vs: seq<RegistryValue>, cp: Encoding.Codepage): (r: Option<seq<RegistryValue>>)
    ensures r.Some? <==> forall i :: 0 <= i < |vs| ==> ConvertValue(vs[i], cp).Some?
    ensures r.Some? ==> |r.value| == |vs| && forall i :: 0 <= i < |vs| ==> r.value[i] == ConvertValue(vs[i], cp).value
  {
    if |vs| == 0 then Some([])
    else
      var head := ConvertValue(vs[0], cp);
      var tail := ConvertValues(vs[1..], cp);
      assert forall i :: 1 <= i < |vs| ==> vs[1..][i - 1] == vs[i];
      if head.None? || tail.None? then None
      else Some([head.value] + tail.value)
  }

  /** `RegistryKey::convertToUTF8`: path and subkeys through `SafeString`, values converted. */
  function ConvertKey(k: RegistryKey, cp: Encoding.Codepage): (r: Option<RegistryKey>)
    ensures r.Some? <==> ConvertValues(k.values, cp).Some?
    ensures r.Some? ==>
      && r.value.path == Encoding.SafeString(k.path, Encoding.DEFAULT_SAFE, cp)
      && |r.value.path| > 0
      && |r.value.values| == |k.values|
      && |r.value.subkeys| == |k.subkeys|
      && (forall i :: 0 <= i < |k.subkeys| ==>
            r.value.subkeys[i] == Encoding.SafeString(k.subkeys[i], Encoding.DEFAULT_SAFE, cp)
            && |r.value.subkeys[i]| > 0)
      && r.value.lastModified == k.lastModified
  {
    match ConvertValues(k.values, cp)
    case None => None
    case Some(vs) =>
      var subs := seq(|k.subkeys|, i requires 0 <= i < |k.subkeys| =>
        Encoding.SafeString(k.subkeys[i], Encoding.DEFAULT_SAFE, cp));
      Some(RegistryKey(Encoding.SafeString(k.path, Encoding.DEFAULT_SAFE, cp), vs, subs, k.lastModified))
  }

  /** The predefined root keys. */
  datatype Hive = ClassesRoot | CurrentUser | LocalMachine | Users | CurrentConfig

  /** `HKEYToString`; `None` stands for a handle that is none of the five roots. */
  function HiveName(h: Option<Hive>): (s: string)
    ensures |s| > 0 && '\\' !in s
  {
    match h
    case Some(ClassesRoot) => "HKEY_CLASSES_ROOT"
    case Some(CurrentUser) => "HKEY_CURRENT_USER"
    case Some(LocalMachine) => "HKEY_LOCAL_MACHINE"
    case Some(Users) => "HKEY_USERS"
    case Some(CurrentConfig) => "HKEY_CURRENT_CONFIG"
    case None => "UNKNOWN"
  }

  /** The comparisons of `SafeQueryValue` that turn a root name back into a key. */
  function HiveFromName(s: string): (h: Option<Hive>)
  {
    if s == "HKEY_LOCAL_MACHINE" then Some(LocalMachine)
    else if s == "HKEY_CURRENT_USER" then Some(CurrentUser)
    else if s == "HKEY_CLASSES_ROOT" then Some(ClassesRoot)
    else if s == "HKEY_USERS" then Some(Users)
    else if s == "HKEY_CURRENT_CONFIG" then Some(CurrentConfig)
    else None
  }

  /** Naming a root and reading the name back are inverse. */
  lemma HiveNameRoundTrip(h: Hive, s: string)
    ensures HiveFromName(HiveName(Some(h))) == Some(h)
    ensures HiveFromName(s).Some? ==> HiveName(HiveFromName(s)) == s
  {
  }

  /** A name that reads as a root is that root's name. */
  lemma NamedHive(s: string, h: Hive)
    requires HiveFromName(s) == Some(h)
    ensures HiveName(Some(h)) == s
  {
  }

  /** Registry value type codes (winnt.h). */
  const REG_NONE: u32 := 0
  const REG_SZ: u32 := 1
  const REG_EXPAND_SZ: u32 := 2
  const REG_BINARY: u32 := 3
  const REG_DWORD: u32 := 4
  const REG_DWORD_BIG_ENDIAN: u32 := 5
  const REG_LINK: u32 := 6
  const REG_MULTI_SZ: u32 := 7
  const REG_QWORD: u32 := 11

  /** `RegistryTypeToString` (the same table in both registry components). */
  function TypeName(t: u32): (s: string)
    ensures |s| > 0
  {
    if t == REG_SZ then "STRING"
    else if t == REG_EXPAND_SZ then "EXPAND_SZ"
    else if t == REG_BINARY then "BINARY"
    else if t == REG_DWORD then "DWORD"
    else if t == REG_DWORD_BIG_ENDIAN then "DWORD_BE"
    else if t == REG_LINK then "LINK"
    else if t == REG_MULTI_SZ then "MULTI_SZ"
    else if t == REG_QWORD then "QWORD"
    else "UNKNOWN"
  }

  predicate KnownType(t: u32)
  {
    t == REG_SZ || t == REG_EXPAND_SZ || t == REG_BINARY || t == REG_DWORD
    || t == REG_DWORD_BIG_ENDIAN || t == REG_LINK || t == REG_MULTI_SZ || t == REG_QWORD
  }

  /** Reads a type name back into its code. */
  function TypeCode(s: string): (t: Option<u32>)
  {
    if s == "STRING" then Some(REG_SZ)
    else if s == "EXPAND_SZ" then Some(REG_EXPAND_SZ)
    else if s == "BINARY" then Some(REG_BINARY)
    else if s == "DWORD" then Some(REG_DWORD)
    else if s == "DWORD_BE" then Some(REG_DWORD_BIG_ENDIAN)
    else if s == "LINK" then Some(REG_LINK)
    else if s == "MULTI_SZ" then Some(REG_MULTI_SZ)
    else if s == "QWORD" then Some(REG_QWORD)
    else None
  }

  /**
   The eight listed codes get distinct names that read back to the code;
   every other code is "UNKNOWN".
   */
  lemma TypeNameTable(t: u32)
    ensures KnownType(t) ==> TypeCode(TypeName(t)) == Some(t)
    ensures !KnownType(t) <==> TypeName(t) == "UNKNOWN"
  {
  }
}
