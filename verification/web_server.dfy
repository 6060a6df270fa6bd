/**
 The registry-snapshot part of `HttpServer` (WebServer.cpp): the JSON
 helpers `SafeJsonToString` and `ParseRegistryKeysFromJson`, the rendering
 of a key as JSON, `CompareRegistrySnapshots`, and the saved-snapshot store
 behind the save, list, compare and delete endpoints.

 A request body is given already parsed (`None` is a body the JSON parser
 rejects); the HTTP plumbing, headers and response texts are not modelled,
 only the status and the effect on the store.
 */
module WebServer {
  import opened Common
  import Text
  import Utf8
  import SortedMap
  import opened RegistryModel

  /**
   A parsed `nlohmann::json` value. The parser gives non-negative integers
   the unsigned representation and negative ones the signed one; an object
   keeps its members sorted by key (`std::map`).
   */
  datatype Json =
    | JNull
    | JBool(b: bool)
    | JInt(i: int)
    | JUnsigned(n: u64)
    | JFloat(f: real)
    | JString(s: string)
    | JArray(items: seq<Json>)
    | JObject(members: seq<(string, Json)>)

  /** `j.contains(key)` followed by `j[key]`; a non-object contains nothing. */
  function Member(j: Json, key: string): Option<Json>
  {
    if j.JObject? then SortedMap.Get(j.members, key) else None
  }

  /**
   Every string of a value the parser produced is valid UTF-8: the parser
   rejects a document with an ill-formed string.
   */
  predicate ParsedStrings(j: Json)
  {
    match j
    case JString(s) => Utf8.WellFormed(s)
    case JArray(items) => forall i :: 0 <= i < |items| ==> ParsedStrings(items[i])
    case JObject(members) =>
      forall i :: 0 <= i < |members| ==>
        Utf8.WellFormed(members[i].0) && ParsedStrings(members[i].1)
    case _ => true
  }

  predicate IsNumber(j: Json) { j.JInt? || j.JUnsigned? || j.JFloat? }

  const TWO_63: int := 0x8000_0000_0000_0000

  /** Conversion of a double to an integer: truncation toward zero. */
  function Trunc(f: real): (r: int)
    ensures 0.0 <= f ==> r as real <= f < r as real + 1.0
    ensures f < 0.0 ==> r as real - 1.0 < f <= r as real
  {
    if f >= 0.0 then f.Floor else -((-f).Floor)
  }

  /** `j.get<int64_t>()` on a number; an unsigned value above 2^63 - 1 wraps. */
  function Int64Of(j: Json): (r: int)
    requires IsNumber(j)
    ensures j.JUnsigned? ==> -TWO_63 <= r < TWO_63 && (r - j.n) % TWO_64 == 0
    ensures j.JInt? ==> r == j.i
  {
    match j
    case JInt(i) => i
    case JUnsigned(n) => if n < TWO_63 then n as int else n as int - TWO_64 as int
    case JFloat(f) => Trunc(f)
  }

  /** `j.get<uint32_t>()` on a number: the value modulo 2^32. */
  function U32Of(j: Json): (r: u32)
    requires IsNumber(j)
    ensures j.JUnsigned? ==> r == j.n % TWO_32
    ensures j.JUnsigned? && j.n < TWO_32 ==> r == j.n
  {
    Int64Of(j) % TWO_32
  }

  const UNSUPPORTED_TYPE: string := "[Unsupported Type]"

  /** `r` is the decimal text of `v`, with a leading '-' when it is negative. */
  predicate DecimalText(r: string, v: int)
  {
    if v >= 0 then |r| > 0 && Text.AllDigits(r) && Text.DecimalValue(r) == v
    else |r| > 1 && r[0] == '-' && Text.AllDigits(r[1..]) && Text.DecimalValue(r[1..]) == -v
  }

  /** Decimal text is ASCII, hence valid UTF-8. */
  lemma IntTextWellFormed(v: int)
    ensures Utf8.WellFormed(Text.IntToString(v))
  {
    var r := Text.IntToString(v);
    assert forall i :: 0 <= i < |r| ==> Utf8.IsAscii(r[i]) by {
      forall i | 0 <= i < |r| ensures Utf8.IsAscii(r[i]) {
        if v < 0 && i > 0 {
          assert r[i] == r[1..][i - 1];
        }
      }
    }
    Utf8.AsciiWellFormed(r);
  }

  /**
   `SafeJsonToString`: null is "", a string is passed through `SanitizeUTF8`,
   a number is printed as a signed 64-bit integer, a boolean as
   "true"/"false", anything else as "[Unsupported Type]". Whatever the
   input, the result is valid UTF-8.
   */
  function SafeJsonToString(j: Json): (r: string)
    ensures j.JNull? ==> r == ""
    ensures j.JString? ==> |r| == |j.s| && (r == j.s <==> Utf8.WellFormed(j.s))
    ensures j.JBool? ==> (r == "true" <==> j.b) && (r == "false" <==> !j.b)
    ensures j.JArray? || j.JObject? ==> r == UNSUPPORTED_TYPE
    ensures IsNumber(j) ==> DecimalText(r, Int64Of(j))
    ensures Utf8.WellFormed(r)
  {
    LiteralsWellFormed();
    match j
    case JNull => ""
    case JString(s) => StringText(s)
    case JBool(b) => if b then "true" else "false"
    case JArray(_) => UNSUPPORTED_TYPE
    case JObject(_) => UNSUPPORTED_TYPE
    case _ => NumberText(j)
  }

  /** The fixed texts `SafeJsonToString` can return are ASCII, hence valid UTF-8. */
  lemma LiteralsWellFormed()
    ensures Utf8.WellFormed("") && Utf8.WellFormed("true") && Utf8.WellFormed("false")
    ensures Utf8.WellFormed(UNSUPPORTED_TYPE)
  {
    Utf8.AsciiWellFormed("");
    Utf8.AsciiWellFormed("true");
    Utf8.AsciiWellFormed("false");
    Utf8.AsciiWellFormed(UNSUPPORTED_TYPE);
  }

  /** A string with every invalid UTF-8 sequence replaced; valid text is kept as is. */
  function StringText(s: string): (r: string)
    ensures |r| == |s|
    ensures r == s <==> Utf8.WellFormed(s)
    ensures Utf8.WellFormed(r)
  {
    Utf8.SanitizeWellFormed(s);
    Utf8.SanitizeIdentity(s);
    Utf8.Sanitize(s)
  }

  /** A number as `std::to_string` of its `int64_t` value. */
  function NumberText(j: Json): (r: string)
    requires IsNumber(j)
    ensures DecimalText(r, Int64Of(j))
    ensures Utf8.WellFormed(r)
  {
    var v := Int64Of(j);
    IntTextWellFormed(v);
    Text.IntToString(v)
  }

  /** On a string, `SafeJsonToString` is the identity exactly when the string is valid UTF-8. */
  lemma SafeJsonStringIdentity(s: string)
    ensures SafeJsonToString(JString(s)) == s <==> Utf8.WellFormed(s)
    ensures SafeJsonToString(JString(SafeJsonToString(JString(s)))) == SafeJsonToString(JString(s))
  {
    Utf8.SanitizeIdentity(s);
    Utf8.SanitizeIdempotent(s);
  }

  /** The string member `key` through `SafeJsonToString`, or "" when it is absent or not a string. */
  function StringField(j: Json, key: string): string
  {
    match Member(j, key)
    case Some(JString(s)) => SafeJsonToString(JString(s))
    case _ => ""
  }

  /** One element of a key's "values" array. */
  function ParseValue(vj: Json): (v: RegistryValue)
    ensures v.name == StringField(vj, "name") && v.valueType == StringField(vj, "type")
    ensures Member(vj, "data").Some? ==> v.data == SafeJsonToString(Member(vj, "data").value)
    ensures Member(vj, "data").None? ==> v.data == ""
    ensures Member(vj, "size").Some? && IsNumber(Member(vj, "size").value) ==> v.size == U32Of(Member(vj, "size").value)
    ensures Member(vj, "size").None? ==> v.size == 0
  {
    var data := match Member(vj, "data")
      case Some(d) => if d.JNull? then "" else SafeJsonToString(d)
      case None => "";
    var size := match Member(vj, "size")
      case Some(n) => if IsNumber(n) then U32Of(n) else 0
      case None => 0;
    RegistryValue(StringField(vj, "name"), StringField(vj, "type"), data, size)
  }

  /** The string elements of an array, in order, through `SafeJsonToString`; others are skipped. */
  function StringItems(items: seq<Json>): (r: seq<string>)
    ensures |r| <= |items|
    ensures forall i :: 0 <= i < |r| ==> Utf8.WellFormed(r[i])
    ensures (forall i :: 0 <= i < |items| ==> items[i].JString?) ==>
      |r| == |items| && forall i :: 0 <= i < |r| ==> r[i] == Utf8.Sanitize(items[i].s)
  {
    if |items| == 0 then []
    else
      var t := StringItems(items[1..]);
      assert forall i :: 0 < i < |items| ==> items[1..][i - 1] == items[i];
      if items[0].JString? then [SafeJsonToString(items[0])] + t else t
  }

  /** One element of the array `ParseRegistryKeysFromJson` reads. */
  function ParseKey(item: Json): (k: RegistryKey)
    ensures k.path == StringField(item, "path")
    ensures k.lastModified == 0
    ensures Member(item, "values").Some? && Member(item, "values").value.JArray? ==>
      var vs := Member(item, "values").value.items;
      |k.values| == |vs| && forall i :: 0 <= i < |vs| ==> k.values[i] == ParseValue(vs[i])
    ensures !(Member(item, "values").Some? && Member(item, "values").value.JArray?) ==> k.values == []
    ensures Member(item, "subkeys").Some? && Member(item, "subkeys").value.JArray? ==>
      k.subkeys == StringItems(Member(item, "subkeys").value.items)
    ensures !(Member(item, "subkeys").Some? && Member(item, "subkeys").value.JArray?) ==> k.subkeys == []
  {
    var values := match Member(item, "values")
      case Some(JArray(vs)) => seq(|vs|, i requires 0 <= i < |vs| => ParseValue(vs[i]))
      case _ => [];
    var subkeys := match Member(item, "subkeys")
      case Some(JArray(ss)) => StringItems(ss)
      case _ => [];
    RegistryKey(StringField(item, "path"), values, subkeys, 0)
  }

  /** `ParseRegistryKeysFromJson`: one key per array element; not an array gives none. */
  function ParseRegistryKeysFromJson(j: Json): (keys: seq<RegistryKey>)
    ensures !j.JArray? ==> keys == []
    ensures j.JArray? ==> |keys| == |j.items| && forall i :: 0 <= i < |keys| ==> keys[i] == ParseKey(j.items[i])
  {
    if j.JArray? then seq(|j.items|, i requires 0 <= i < |j.items| => ParseKey(j.items[i])) else []
  }

  /** Every string of a key is valid UTF-8. */
  predicate KeyWellFormed(k: RegistryKey)
  {
    && Utf8.WellFormed(k.path)
    && (forall i :: 0 <= i < |k.subkeys| ==> Utf8.WellFormed(k.subkeys[i]))
    && (forall i :: 0 <= i < |k.values| ==>
          Utf8.WellFormed(k.values[i].name) && Utf8.WellFormed(k.values[i].valueType)
          && Utf8.WellFormed(k.values[i].data))
  }

  /** Whatever the input, every parsed key is valid UTF-8 throughout. */
  lemma ParsedKeysWellFormed(j: Json)
    ensures forall k :: k in ParseRegistryKeysFromJson(j) ==> KeyWellFormed(k)
  {
    forall k | k in ParseRegistryKeysFromJson(j) ensures KeyWellFormed(k) {
      forall i | 0 <= i < |k.values|
        ensures Utf8.WellFormed(k.values[i].name) && Utf8.WellFormed(k.values[i].valueType)
          && Utf8.WellFormed(k.values[i].data)
      {
        if k.values[i].data == "" {
          Utf8.AsciiWellFormed("");
        }
      }
      if k.path == "" {
        Utf8.AsciiWellFormed("");
      }
    }
  }

  /** The JSON object `HandleGetRegistrySnapshot` writes for a value. */
  function ValueToJson(v: RegistryValue): Json
  {
    JObject([("data", JString(v.data)), ("name", JString(v.name)), ("size", JUnsigned(v.size)), ("type", JString(v.valueType))])
  }

  /** The JSON object `HandleGetRegistrySnapshot` writes for a key. */
  function KeyToJson(k: RegistryKey): Json
  {
    JObject([
      ("path", JString(k.path)),
      ("subkeys", JArray(seq(|k.subkeys|, i requires 0 <= i < |k.subkeys| => JString(k.subkeys[i])))),
      ("values", JArray(seq(|k.values|, i requires 0 <= i < |k.values| => ValueToJson(k.values[i]))))])
  }

  /** The key with every string through `SanitizeUTF8` and no modification time. */
  function SanitizeKey(k: RegistryKey): RegistryKey
  {
    RegistryKey(
      Utf8.Sanitize(k.path),
      seq(|k.values|, i requires 0 <= i < |k.values| =>
        RegistryValue(Utf8.Sanitize(k.values[i].name), Utf8.Sanitize(k.values[i].valueType),
          Utf8.Sanitize(k.values[i].data), k.values[i].size)),
      seq(|k.subkeys|, i requires 0 <= i < |k.subkeys| => Utf8.Sanitize(k.subkeys[i])),
      0)
  }

  lemma ParseValueToJson(v: RegistryValue)
    ensures ParseValue(ValueToJson(v))
      == RegistryValue(Utf8.Sanitize(v.name), Utf8.Sanitize(v.valueType), Utf8.Sanitize(v.data), v.size)
  {
    var j := ValueToJson(v);
    ValueMember(v, 0);
    ValueMember(v, 1);
    ValueMember(v, 2);
    ValueMember(v, 3);
    var p := ParseValue(j);
    assert p.name == Utf8.Sanitize(v.name);
    assert p.valueType == Utf8.Sanitize(v.valueType);
    assert p.data == Utf8.Sanitize(v.data);
    assert p.size == v.size;
  }

  /** Member `i` of a rendered value is found under its key. */
  lemma ValueMember(v: RegistryValue, i: nat)
    requires i < 4
    ensures Member(ValueToJson(v), ValueToJson(v).members[i].0) == Some(ValueToJson(v).members[i].1)
  {
    var m := ValueToJson(v).members;
    GetSkipping(m, m[i].0, i);
  }

  /** A lookup that passes over the first `n` entries finds what the rest holds under the key. */
  lemma {:induction false} GetSkipping(m: seq<(string, Json)>, k: string, n: nat)
    requires n <= |m| && forall i :: 0 <= i < n ==> m[i].0 != k
    ensures SortedMap.Get(m, k) == SortedMap.Get(m[n..], k)
  {
    if n > 0 {
      GetSkipping(m[1..], k, n - 1);
      assert m[1..][n - 1..] == m[n..];
    }
  }

  /**
   Reading back a key the server rendered gives the key with its strings
   sanitized and the modification time dropped.
   */
  lemma ParseKeyToJson(k: RegistryKey)
    ensures ParseKey(KeyToJson(k)) == SanitizeKey(k)
  {
    var j := KeyToJson(k);
    KeyMembers(k);
    var r := ParseKey(j);
    var s := SanitizeKey(k);
    forall i | 0 <= i < |k.values| ensures r.values[i] == s.values[i] {
      ParseValueToJson(k.values[i]);
    }
    assert r.values == s.values;
    assert r.subkeys == s.subkeys;
  }

  /** The three members of a rendered key, found by key. */
  lemma KeyMembers(k: RegistryKey)
    ensures Member(KeyToJson(k), "path") == Some(JString(k.path))
    ensures Member(KeyToJson(k), "subkeys") == Some(KeyToJson(k).members[1].1)
    ensures Member(KeyToJson(k), "values") == Some(KeyToJson(k).members[2].1)
  {
    var m := KeyToJson(k).members;
    assert SortedMap.Get(m, "subkeys") == SortedMap.Get(m[1..], "subkeys");
    assert SortedMap.Get(m, "values") == SortedMap.Get(m[1..], "values") == SortedMap.Get(m[2..], "values");
  }

  /** A key whose strings are valid UTF-8 survives rendering and parsing, bar its modification time. */
  lemma KeyRoundTrip(k: RegistryKey)
    requires KeyWellFormed(k)
    ensures ParseKey(KeyToJson(k)) == k.(lastModified := 0)
  {
    ParseKeyToJson(k);
    Utf8.SanitizeIdentity(k.path);
    forall i | 0 <= i < |k.subkeys| ensures Utf8.Sanitize(k.subkeys[i]) == k.subkeys[i] {
      Utf8.SanitizeIdentity(k.subkeys[i]);
    }
    forall i | 0 <= i < |k.values|
      ensures SanitizeKey(k).values[i] == k.values[i]
    {
      Utf8.SanitizeIdentity(k.values[i].name);
      Utf8.SanitizeIdentity(k.values[i].valueType);
      Utf8.SanitizeIdentity(k.values[i].data);
    }
    assert SanitizeKey(k).values == k.values;
    assert SanitizeKey(k).subkeys == k.subkeys;
  }

  // ---------------------------------------------------------------------
  // CompareRegistrySnapshots

  function Paths(keys: seq<RegistryKey>): (ps: seq<string>)
    ensures |ps| == |keys| && forall i :: 0 <= i < |keys| ==> ps[i] == keys[i].path
  {
    seq(|keys|, i requires 0 <= i < |keys| => keys[i].path)
  }

  /** `map[key.path] = key` over the list: one entry per path, a later key replacing an earlier one. */
  function PathIndex(keys: seq<RegistryKey>): (m: seq<(string, RegistryKey)>)
    ensures SortedMap.Valid(m)
  {
    if |keys| == 0 then []
    else SortedMap.Put(PathIndex(keys[..|keys| - 1]), keys[|keys| - 1].path, keys[|keys| - 1])
  }

  /** Reference definition: the last key of the list with path `p`. */
  function LastWithPath(keys: seq<RegistryKey>, p: string): (r: Option<RegistryKey>)
    ensures r.None? <==> p !in Paths(keys)
    ensures r.Some? ==> r.value.path == p && r.value in keys
  {
    if |keys| == 0 then None
    else if keys[|keys| - 1].path == p then Some(keys[|keys| - 1])
    else
      var prev := keys[..|keys| - 1];
      assert Paths(keys) == Paths(prev) + [keys[|keys| - 1].path];
      assert forall e :: e in prev ==> e in keys;
      LastWithPath(prev, p)
  }

  /** The index maps each path to the last key with that path: later keys win. */
  lemma {:induction false} PathIndexGet(keys: seq<RegistryKey>, p: string)
    ensures SortedMap.Get(PathIndex(keys), p) == LastWithPath(keys, p)
  {
    if |keys| > 0 {
      var n := |keys| - 1;
      SortedMap.GetPut(PathIndex(keys[..n]), keys[n].path, keys[n], p);
      PathIndexGet(keys[..n], p);
    }
  }

  /** The condition for a path to be reported as modified: values or subkeys differ. */
  predicate Modified(k1: RegistryKey, k2: RegistryKey)
  {
    k1.values != k2.values || k1.subkeys != k2.subkeys
  }

  datatype Changes = Changes(added: seq<string>, removed: seq<string>, modified: seq<string>)

  /**
   `CompareRegistrySnapshots`: paths only in the second list are added, paths
   only in the first removed, and paths in both whose last keys differ in
   values or subkeys modified; each list ascending, as the map walk yields it.
   */
  function CompareRegistrySnapshots(keys1: seq<RegistryKey>, keys2: seq<RegistryKey>): (c: Changes)
    ensures SortedMap.Increasing(c.added) && SortedMap.Increasing(c.removed) && SortedMap.Increasing(c.modified)
    ensures forall p :: p in c.added <==> p in Paths(keys2) && p !in Paths(keys1)
    ensures forall p :: p in c.removed <==> p in Paths(keys1) && p !in Paths(keys2)
    ensures forall p :: p in c.modified <==> ModifiedPath(keys1, keys2, p)
  {
    var m1 := PathIndex(keys1);
    var m2 := PathIndex(keys2);
    var onlyIn2 := (p: string, k: RegistryKey) => !SortedMap.HasKey(m1, p);
    var onlyIn1 := (p: string, k: RegistryKey) => !SortedMap.HasKey(m2, p);
    var changed := (p: string, k: RegistryKey) =>
      SortedMap.Get(m2, p).Some? && Modified(k, SortedMap.Get(m2, p).value);
    var added := SortedMap.SelectKeys(m2, onlyIn2);
    var removed := SortedMap.SelectKeys(m1, onlyIn1);
    var modified := SortedMap.SelectKeys(m1, changed);
    assert forall p ::
      && (p in added <==> p in Paths(keys2) && p !in Paths(keys1))
      && (p in removed <==> p in Paths(keys1) && p !in Paths(keys2))
      && (p in modified <==> ModifiedPath(keys1, keys2, p))
    by {
      forall p
        ensures p in added <==> p in Paths(keys2) && p !in Paths(keys1)
        ensures p in removed <==> p in Paths(keys1) && p !in Paths(keys2)
        ensures p in modified <==> ModifiedPath(keys1, keys2, p)
      {
        PathIndexGet(keys1, p);
        PathIndexGet(keys2, p);
        SortedMap.SelectKeysGet(m2, onlyIn2, p);
        SortedMap.SelectKeysGet(m1, onlyIn1, p);
        SortedMap.SelectKeysGet(m1, changed, p);
      }
    }
    Changes(added, removed, modified)
  }

  /** A path in both lists whose last keys differ. */
  predicate ModifiedPath(keys1: seq<RegistryKey>, keys2: seq<RegistryKey>, p: string)
  {
    LastWithPath(keys1, p).Some? && LastWithPath(keys2, p).Some?
    && Modified(LastWithPath(keys1, p).value, LastWithPath(keys2, p).value)
  }

  lemma EmptyWhenNoElement(s: seq<string>)
    ensures (forall p :: p !in s) ==> s == []
  {
    if |s| > 0 {
      assert s[0] in s;
    }
  }

  /** A list compared with itself has no changes. */
  lemma CompareSelf(keys: seq<RegistryKey>)
    ensures CompareRegistrySnapshots(keys, keys) == Changes([], [], [])
  {
    var c := CompareRegistrySnapshots(keys, keys);
    EmptyWhenNoElement(c.added);
    EmptyWhenNoElement(c.removed);
    EmptyWhenNoElement(c.modified);
  }

  /** Swapping the lists swaps added and removed and keeps modified. */
  lemma CompareSwap(keys1: seq<RegistryKey>, keys2: seq<RegistryKey>)
    ensures var c := CompareRegistrySnapshots(keys1, keys2);
      CompareRegistrySnapshots(keys2, keys1) == Changes(c.removed, c.added, c.modified)
  {
    var c := CompareRegistrySnapshots(keys1, keys2);
    var d := CompareRegistrySnapshots(keys2, keys1);
    SortedMap.IncreasingUnique(d.added, c.removed);
    SortedMap.IncreasingUnique(d.removed, c.added);
    SortedMap.IncreasingUnique(d.modified, c.modified);
  }

  // ---------------------------------------------------------------------
  // The saved-snapshot store

  /** `registrySnapshots_`: snapshots by name. */
  type Store = seq<(string, RegistrySnapshot)>

  /** What `resize` puts in a vector of keys: value-initialised keys. */
  function BlankKeys(n: nat): (ks: seq<RegistryKey>)
    ensures |ks| == n && forall i :: 0 <= i < n ==> ks[i] == RegistryKey("", [], [], 0)
  {
    seq(n, _ => RegistryKey("", [], [], 0))
  }

  /** The size of the array member `key`, or 0 when it is absent or not an array. */
  function ArrayLength(body: Json, key: string): nat
  {
    match Member(body, key)
    case Some(JArray(items)) => |items|
    case _ => 0
  }

  /** The name under which a snapshot is saved: the request's, else "snapshot_<tick>". */
  function SnapshotName(body: Json, tick: u64): (name: string)
    ensures |name| > 0
    ensures (match Member(body, "snapshotName") case Some(JString(s)) => |s| > 0 case _ => false) ==>
      name == Member(body, "snapshotName").value.s
    ensures !(match Member(body, "snapshotName") case Some(JString(s)) => |s| > 0 case _ => false) ==>
      name == "snapshot_" + Text.NatToString(tick)
  {
    match Member(body, "snapshotName")
    case Some(JString(s)) => if |s| > 0 then s else "snapshot_" + Text.NatToString(tick)
    case _ => "snapshot_" + Text.NatToString(tick)
  }

  datatype SaveOutcome =
    | SaveBadJson
    | Saved(name: string, snapshot: RegistrySnapshot, store: Store)

  /**
   `HandleSaveRegistrySnapshot`: 400 for a body that is not JSON; otherwise
   only the sizes of the three arrays are kept, as blank keys, and the
   snapshot is stored under its name, replacing any earlier one.
   */
  function HandleSaveRegistrySnapshot(store: Store, body: Option<Json>, nameTick: u64, timestamp: u64): (r: SaveOutcome)
    requires SortedMap.Valid(store)
    ensures body.None? <==> r.SaveBadJson?
    ensures r.Saved? ==>
      && SortedMap.Valid(r.store)
      && r.name == SnapshotName(body.value, nameTick)
      && SortedMap.Get(r.store, r.name) == Some(r.snapshot)
      && (forall x :: x != r.name ==> SortedMap.Get(r.store, x) == SortedMap.Get(store, x))
      && r.snapshot.systemInfoKeys == BlankKeys(ArrayLength(body.value, "systemInfo"))
      && r.snapshot.softwareKeys == BlankKeys(ArrayLength(body.value, "software"))
      && r.snapshot.networkKeys == BlankKeys(ArrayLength(body.value, "network"))
      && r.snapshot.timestamp == timestamp
  {
    match body
    case None => SaveBadJson
    case Some(j) =>
      var name := SnapshotName(j, nameTick);
      var snap := RegistrySnapshot(
        BlankKeys(ArrayLength(j, "systemInfo")),
        BlankKeys(ArrayLength(j, "software")),
        BlankKeys(ArrayLength(j, "network")),
        timestamp);
      var next := SortedMap.Put(store, name, snap);
      assert forall x :: SortedMap.Get(next, x) == if x == name then Some(snap) else SortedMap.Get(store, x) by {
        forall x ensures SortedMap.Get(next, x) == if x == name then Some(snap) else SortedMap.Get(store, x) {
          SortedMap.GetPut(store, name, snap, x);
        }
      }
      Saved(name, snap, next)
  }

  /** One element of the list `HandleGetSavedSnapshots` returns. */
  datatype SnapshotSummary = SnapshotSummary(name: string, timestamp: u64, systemInfoCount: nat, softwareCount: nat, networkCount: nat)

  function Summary(name: string, s: RegistrySnapshot): SnapshotSummary
  {
    SnapshotSummary(name, s.timestamp, |s.systemInfoKeys|, |s.softwareKeys|, |s.networkKeys|)
  }

  /** `HandleGetSavedSnapshots`: one summary per stored snapshot, in name order. */
  function HandleGetSavedSnapshots(store: Store): (r: seq<SnapshotSummary>)
    requires SortedMap.Valid(store)
    ensures |r| == |store|
    ensures forall i, j :: 0 <= i < j < |r| ==> Text.Less(r[i].name, r[j].name)
    ensures forall i :: 0 <= i < |r| ==> r[i] == Summary(store[i].0, store[i].1)
  {
    var r := seq(|store|, i requires 0 <= i < |store| => Summary(store[i].0, store[i].1));
    assert forall i, j :: 0 <= i < j < |r| ==> Text.Less(SortedMap.KeysOf(store)[i], SortedMap.KeysOf(store)[j]);
    r
  }

  /** A saved snapshot is listed, under its name, with the sizes of the arrays it was saved from. */
  lemma SaveThenList(store: Store, j: Json, nameTick: u64, timestamp: u64)
    requires SortedMap.Valid(store)
    ensures var r := HandleSaveRegistrySnapshot(store, Some(j), nameTick, timestamp);
      SnapshotSummary(r.name, timestamp, ArrayLength(j, "systemInfo"), ArrayLength(j, "software"), ArrayLength(j, "network"))
        in HandleGetSavedSnapshots(r.store)
  {
    var r := HandleSaveRegistrySnapshot(store, Some(j), nameTick, timestamp);
    var i :| 0 <= i < |r.store| && r.store[i] == (r.name, r.snapshot);
    assert HandleGetSavedSnapshots(r.store)[i] == Summary(r.name, r.snapshot);
  }

  datatype CompareOutcome =
    | CompareBadJson
    | CompareMissingName
    | CompareNotFound(missing: string)
    | Compared(timestamp1: u64, timestamp2: u64, systemInfo: Changes, software: Changes, network: Changes)

  /** The HTTP status of a compare outcome. */
  function CompareStatus(r: CompareOutcome): (status: nat)
    ensures status == 200 <==> r.Compared?
    ensures status == 404 <==> r.CompareNotFound?
  {
    match r
    case CompareBadJson => 400
    case CompareMissingName => 400
    case CompareNotFound(_) => 404
    case Compared(_, _, _, _, _) => 200
  }

  /** The string member `key` as the handler reads it, or "" when absent or not a string. */
  function NameField(body: Json, key: string): string
  {
    match Member(body, key)
    case Some(JString(s)) => s
    case _ => ""
  }

  /**
   `HandleCompareSnapshots`: 400 for a body that is not JSON or lacks one of
   the names, 404 for the first name not stored, otherwise the three
   categories compared.
   */
  function HandleCompareSnapshots(store: Store, body: Option<Json>): (r: CompareOutcome)
    ensures body.None? ==> r == CompareBadJson
    ensures body.Some? && (NameField(body.value, "snapshot1") == "" || NameField(body.value, "snapshot2") == "") ==>
      r == CompareMissingName
    ensures r.CompareNotFound? ==> SortedMap.Get(store, r.missing).None?
    ensures r.Compared? <==>
      body.Some? && NameField(body.value, "snapshot1") != "" && NameField(body.value, "snapshot2") != ""
      && SortedMap.HasKey(store, NameField(body.value, "snapshot1"))
      && SortedMap.HasKey(store, NameField(body.value, "snapshot2"))
    ensures r.Compared? ==>
      var s1 := SortedMap.Get(store, NameField(body.value, "snapshot1")).value;
      var s2 := SortedMap.Get(store, NameField(body.value, "snapshot2")).value;
      && r.timestamp1 == s1.timestamp && r.timestamp2 == s2.timestamp
      && r.systemInfo == CompareRegistrySnapshots(s1.systemInfoKeys, s2.systemInfoKeys)
      && r.software == CompareRegistrySnapshots(s1.softwareKeys, s2.softwareKeys)
      && r.network == CompareRegistrySnapshots(s1.networkKeys, s2.networkKeys)
  {
    match body
    case None => CompareBadJson
    case Some(j) =>
      var n1 := NameField(j, "snapshot1");
      var n2 := NameField(j, "snapshot2");
      if n1 == "" || n2 == "" then CompareMissingName
      else
        match (SortedMap.Get(store, n1), SortedMap.Get(store, n2))
        case (None, _) => CompareNotFound(n1)
        case (_, None) => CompareNotFound(n2)
        case (Some(s1), Some(s2)) =>
          Compared(s1.timestamp, s2.timestamp,
            CompareRegistrySnapshots(s1.systemInfoKeys, s2.systemInfoKeys),
            CompareRegistrySnapshots(s1.softwareKeys, s2.softwareKeys),
            CompareRegistrySnapshots(s1.networkKeys, s2.networkKeys))
  }

  /**
   Saved snapshots hold blank keys, all with the empty path, so comparing two
   of them can only report the empty path as added or removed, and never a
   modification.
   */
  lemma CompareBlank(a: nat, b: nat)
    ensures CompareRegistrySnapshots(BlankKeys(a), BlankKeys(b))
      == Changes(if a == 0 && b > 0 then [""] else [], if b == 0 && a > 0 then [""] else [], [])
  {
    var c := CompareRegistrySnapshots(BlankKeys(a), BlankKeys(b));
    BlankPaths(a);
    BlankPaths(b);
    SortedMap.IncreasingUnique(c.added, if a == 0 && b > 0 then [""] else []);
    SortedMap.IncreasingUnique(c.removed, if b == 0 && a > 0 then [""] else []);
    EmptyWhenNoElement(c.modified);
  }

  lemma BlankPaths(n: nat)
    ensures forall p :: p in Paths(BlankKeys(n)) <==> n > 0 && p == ""
  {
    assert n > 0 ==> Paths(BlankKeys(n))[0] == "";
  }

  /** Comparing a saved snapshot with itself reports no change in any category. */
  lemma SaveThenCompareSelf(store: Store, j: Json, nameTick: u64, timestamp: u64, request: Json)
    requires SortedMap.Valid(store)
    requires var r := HandleSaveRegistrySnapshot(store, Some(j), nameTick, timestamp);
      NameField(request, "snapshot1") == r.name && NameField(request, "snapshot2") == r.name
    ensures var r := HandleSaveRegistrySnapshot(store, Some(j), nameTick, timestamp);
      var s := r.snapshot;
      HandleCompareSnapshots(r.store, Some(request))
        == Compared(timestamp, timestamp, Changes([], [], []), Changes([], [], []), Changes([], [], []))
  {
    var r := HandleSaveRegistrySnapshot(store, Some(j), nameTick, timestamp);
    CompareSelf(r.snapshot.systemInfoKeys);
    CompareSelf(r.snapshot.softwareKeys);
    CompareSelf(r.snapshot.networkKeys);
  }

  datatype DeleteOutcome =
    | DeleteMissingName
    | DeleteNotFound(cleanName: string)
    | Deleted(name: string, store: Store)

  function DeleteStatus(r: DeleteOutcome): (status: nat)
    ensures status == 200 <==> r.Deleted?
    ensures status == 404 <==> r.DeleteNotFound?
  {
    match r
    case DeleteMissingName => 400
    case DeleteNotFound(_) => 404
    case Deleted(_, _) => 200
  }

  /** The first stored name, in map order, whose `SanitizeUTF8` form is `clean`. */
  function FirstMatch(store: Store, clean: string): (r: Option<string>)
    ensures r.None? <==> forall i :: 0 <= i < |store| ==> Utf8.Sanitize(store[i].0) != clean
    ensures r.Some? ==>
      exists i :: (0 <= i < |store| && store[i].0 == r.value && Utf8.Sanitize(r.value) == clean
        && forall j :: 0 <= j < i ==> Utf8.Sanitize(store[j].0) != clean)
  {
    if |store| == 0 then None
    else if Utf8.Sanitize(store[0].0) == clean then
      assert store[0].0 == store[0].0;
      Some(store[0].0)
    else
      var r := FirstMatch(store[1..], clean);
      assert forall i :: 0 < i < |store| ==> store[1..][i - 1] == store[i];
      if r.Some? then
        var i :| 0 <= i < |store[1..]| && store[1..][i].0 == r.value
          && Utf8.Sanitize(r.value) == clean
          && forall j :: 0 <= j < i ==> Utf8.Sanitize(store[1..][j].0) != clean;
        assert store[i + 1].0 == r.value;
        r
      else r
  }

  /**
   `HandleDeleteSnapshot`: 400 without a non-empty name; otherwise the first
   stored name that sanitizes like the requested one is erased, and 404 when
   there is none.
   */
  function HandleDeleteSnapshot(store: Store, name: Option<string>): (r: DeleteOutcome)
    requires SortedMap.Valid(store)
    ensures r.DeleteMissingName? <==> name.None? || name == Some("")
    ensures r.DeleteNotFound? ==>
      r.cleanName == Utf8.Sanitize(name.value)
      && forall i :: 0 <= i < |store| ==> Utf8.Sanitize(store[i].0) != r.cleanName
    ensures r.Deleted? ==>
      && name.Some? && FirstMatch(store, Utf8.Sanitize(name.value)) == Some(r.name)
      && SortedMap.Valid(r.store)
      && SortedMap.Get(r.store, r.name).None?
      && SortedMap.HasKey(store, r.name)
      && forall x :: x != r.name ==> SortedMap.Get(r.store, x) == SortedMap.Get(store, x)
  {
    match name
    case None => DeleteMissingName
    case Some(n) =>
      if n == "" then DeleteMissingName
      else
        var clean := Utf8.Sanitize(n);
        match FirstMatch(store, clean)
        case None => DeleteNotFound(clean)
        case Some(actual) =>
          var next := SortedMap.Erase(store, actual);
          assert forall x :: SortedMap.Get(next, x) == if x == actual then None else SortedMap.Get(store, x) by {
            forall x ensures SortedMap.Get(next, x) == if x == actual then None else SortedMap.Get(store, x) {
              SortedMap.GetErase(store, actual, x);
            }
          }
          Deleted(actual, next)
  }

  /** Every stored name is valid UTF-8. */
  predicate NamesWellFormed(store: Store)
  {
    forall i :: 0 <= i < |store| ==> Utf8.WellFormed(store[i].0)
  }

  /** A body the parser produced keeps the store's names valid UTF-8. */
  lemma SaveKeepsNamesWellFormed(store: Store, j: Json, nameTick: u64, timestamp: u64)
    requires SortedMap.Valid(store) && NamesWellFormed(store) && ParsedStrings(j)
    ensures NamesWellFormed(HandleSaveRegistrySnapshot(store, Some(j), nameTick, timestamp).store)
  {
    var r := HandleSaveRegistrySnapshot(store, Some(j), nameTick, timestamp);
    assert Utf8.WellFormed(r.name) by {
      match Member(j, "snapshotName")
      case Some(JString(s)) =>
        if |s| > 0 {
          var i :| 0 <= i < |j.members| && j.members[i] == ("snapshotName", JString(s));
        } else {
          TickNameWellFormed(nameTick);
        }
      case _ => TickNameWellFormed(nameTick);
    }
    forall i | 0 <= i < |r.store| ensures Utf8.WellFormed(r.store[i].0) {
      if r.store[i].0 != r.name {
        var e := r.store[i];
        assert e in store;
      }
    }
  }

  lemma TickNameWellFormed(tick: u64)
    ensures Utf8.WellFormed("snapshot_" + Text.NatToString(tick))
  {
    var s := "snapshot_" + Text.NatToString(tick);
    assert forall i :: 9 <= i < |s| ==> s[i] == Text.NatToString(tick)[i - 9];
    Utf8.AsciiWellFormed(s);
  }

  /**
   While every stored name is valid UTF-8, a delete request erases exactly
   the snapshot named by the sanitized request, and answers 404 when that
   name is not stored.
   */
  lemma DeleteErasesSanitizedName(store: Store, n: string)
    requires SortedMap.Valid(store) && NamesWellFormed(store) && n != ""
    ensures var r := HandleDeleteSnapshot(store, Some(n));
      && (r.Deleted? <==> SortedMap.HasKey(store, Utf8.Sanitize(n)))
      && (r.Deleted? ==> r.name == Utf8.Sanitize(n))
  {
    var clean := Utf8.Sanitize(n);
    Utf8.SanitizeWellFormed(n);
    forall i | 0 <= i < |store| ensures Utf8.Sanitize(store[i].0) == clean <==> store[i].0 == clean {
      Utf8.SanitizeIdentity(store[i].0);
      Utf8.SanitizeIdentity(clean);
    }
    if SortedMap.HasKey(store, clean) {
      var i :| 0 <= i < |store| && SortedMap.KeysOf(store)[i] == clean;
    }
  }
}
