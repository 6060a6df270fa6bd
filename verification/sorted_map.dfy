/**
 `std::map<std::string, V>` as an association list kept strictly ascending
 in the byte-wise order of `std::string::operator<`. Iterating a
 `std::map` visits its entries in this order, which fixes the order of
 every list the server builds by walking one.
 */
module SortedMap {
  import opened Common
  import Text

  /** Strictly ascending strings. */
  predicate Increasing(s: seq<string>)
  {
    forall i, j :: 0 <= i < j < |s| ==> Text.Less(s[i], s[j])
  }

  function KeysOf<V>(m: seq<(string, V)>): (ks: seq<string>)
    ensures |ks| == |m|
    ensures forall i :: 0 <= i < |m| ==> ks[i] == m[i].0
  {
    seq(|m|, i requires 0 <= i < |m| => m[i].0)
  }

  /** A well-formed map: keys strictly ascending, hence distinct. */
  predicate Valid<V>(m: seq<(string, V)>)
  {
    Increasing(KeysOf(m))
  }

  predicate HasKey<V>(m: seq<(string, V)>, k: string)
  {
    k in KeysOf(m)
  }

  /** `m.find(k)`. */
  function Get<V>(m: seq<(string, V)>, k: string): (r: Option<V>)
    ensures r.Some? <==> HasKey(m, k)
    ensures r.Some? ==> exists i :: 0 <= i < |m| && m[i] == (k, r.value)
  {
    if |m| == 0 then None
    else if m[0].0 == k then Some(m[0].1)
    else
      var r := Get(m[1..], k);
      assert KeysOf(m) == [m[0].0] + KeysOf(m[1..]);
      assert r.Some? ==> exists i :: 0 <= i < |m[1..]| && m[1..][i] == (k, r.value);
      r
  }

  /** In a valid map an entry is found under its own key. */
  lemma {:induction false} GetEntry<V>(m: seq<(string, V)>, i: nat)
    requires Valid(m) && i < |m|
    ensures Get(m, m[i].0) == Some(m[i].1)
  {
    if i > 0 {
      ValidTail(m);
      assert m[1..][i - 1] == m[i];
      Text.LessIrreflexive(m[0].0);
      assert m[0].0 != m[i].0;
      GetEntry(m[1..], i - 1);
    }
  }

  lemma ValidTail<V>(m: seq<(string, V)>)
    requires Valid(m) && |m| > 0
    ensures Valid(m[1..])
    ensures forall j :: 0 <= j < |m| - 1 ==> Text.Less(m[0].0, m[1..][j].0)
  {
    forall i, j | 0 <= i < j < |m| - 1
      ensures Text.Less(KeysOf(m[1..])[i], KeysOf(m[1..])[j])
    {
      assert Text.Less(KeysOf(m)[i + 1], KeysOf(m)[j + 1]);
    }
    forall j | 0 <= j < |m| - 1
      ensures Text.Less(m[0].0, m[1..][j].0)
    {
      assert Text.Less(KeysOf(m)[0], KeysOf(m)[j + 1]);
    }
  }

  /** An entry below every key of a valid map can go in front of it. */
  lemma ValidCons<V>(e: (string, V), t: seq<(string, V)>)
    requires Valid(t)
    requires forall j :: 0 <= j < |t| ==> Text.Less(e.0, t[j].0)
    ensures Valid([e] + t)
    ensures KeysOf([e] + t) == [e.0] + KeysOf(t)
  {
    var r := [e] + t;
    assert KeysOf(r) == [e.0] + KeysOf(t);
    forall i, j | 0 <= i < j < |r|
      ensures Text.Less(KeysOf(r)[i], KeysOf(r)[j])
    {
      if i == 0 {
        assert KeysOf(r)[j] == t[j - 1].0;
      } else {
        assert KeysOf(r)[i] == KeysOf(t)[i - 1] && KeysOf(r)[j] == KeysOf(t)[j - 1];
      }
    }
  }

  /** `m[k] = v`: insert, or overwrite the entry already under `k`. */
  function Put<V>(m: seq<(string, V)>, k: string, v: V): (r: seq<(string, V)>)
    requires Valid(m)
    ensures Valid(r)
    ensures forall x :: HasKey(r, x) <==> HasKey(m, x) || x == k
    ensures forall i :: 0 <= i < |r| ==> r[i] == (k, v) || r[i] in m
    ensures (k, v) in r
  {
    if |m| == 0 then
      assert KeysOf([(k, v)]) == [k];
      [(k, v)]
    else if m[0].0 == k then
      ValidTail(m);
      ValidCons((k, v), m[1..]);
      assert KeysOf(m) == [m[0].0] + KeysOf(m[1..]);
      [(k, v)] + m[1..]
    else if Text.Less(k, m[0].0) then
      ValidTail(m);
      forall j | 0 <= j < |m|
        ensures Text.Less(k, m[j].0)
      {
        if j > 0 {
          Text.LessTransitive(k, m[0].0, m[j].0);
        }
      }
      ValidCons((k, v), m);
      [(k, v)] + m
    else
      Text.LessTotal(k, m[0].0);
      ValidTail(m);
      var t := Put(m[1..], k, v);
      PutBehindHead(m, k, v, t);
      [m[0]] + t
  }

  /** The last case of `Put`: the new entry goes somewhere behind the head. */
  lemma PutBehindHead<V>(m: seq<(string, V)>, k: string, v: V, t: seq<(string, V)>)
    requires Valid(m) && |m| > 0 && Text.Less(m[0].0, k)
    requires Valid(t)
    requires forall x :: HasKey(t, x) <==> HasKey(m[1..], x) || x == k
    requires forall i :: 0 <= i < |t| ==> t[i] == (k, v) || t[i] in m[1..]
    requires (k, v) in t
    ensures Valid([m[0]] + t)
    ensures forall x :: HasKey([m[0]] + t, x) <==> HasKey(m, x) || x == k
    ensures forall i :: 0 <= i < |t| + 1 ==> ([m[0]] + t)[i] == (k, v) || ([m[0]] + t)[i] in m
    ensures (k, v) in [m[0]] + t
  {
    HeadBelowRest(m, k, v, t);
    ValidCons(m[0], t);
    ConsMembers(m, k, v, t);
    HasKeyCons(m[0], t);
    assert m == [m[0]] + m[1..];
    HasKeyCons(m[0], m[1..]);
  }

  /** The head of a valid map is below every key of a list drawn from its tail and a larger key. */
  lemma HeadBelowRest<V>(m: seq<(string, V)>, k: string, v: V, t: seq<(string, V)>)
    requires Valid(m) && |m| > 0 && Text.Less(m[0].0, k)
    requires forall i :: 0 <= i < |t| ==> t[i] == (k, v) || t[i] in m[1..]
    ensures forall j :: 0 <= j < |t| ==> Text.Less(m[0].0, t[j].0)
  {
    ValidTail(m);
    forall j | 0 <= j < |t|
      ensures Text.Less(m[0].0, t[j].0)
    {
      if t[j] != (k, v) {
        assert t[j] in m[1..];
        var i :| 0 <= i < |m| - 1 && m[1..][i] == t[j];
      }
    }
  }

  /** Putting the head back in front keeps every entry drawn from the map or the new pair. */
  lemma ConsMembers<V>(m: seq<(string, V)>, k: string, v: V, t: seq<(string, V)>)
    requires |m| > 0
    requires forall i :: 0 <= i < |t| ==> t[i] == (k, v) || t[i] in m[1..]
    ensures forall i :: 0 <= i < |t| + 1 ==> ([m[0]] + t)[i] == (k, v) || ([m[0]] + t)[i] in m
  {
    var r := [m[0]] + t;
    forall i | 0 <= i < |r|
      ensures r[i] == (k, v) || r[i] in m
    {
      if i > 0 && r[i] != (k, v) {
        assert r[i] == t[i - 1] && t[i - 1] in m[1..];
      }
    }
  }

  /** Reading back after `m[k] = v`. */
  lemma {:induction false} GetPut<V>(m: seq<(string, V)>, k: string, v: V, x: string)
    requires Valid(m)
    ensures Get(Put(m, k, v), x) == if x == k then Some(v) else Get(m, x)
  {
    if |m| > 0 && m[0].0 != k && !Text.Less(k, m[0].0) {
      ValidTail(m);
      GetPut(m[1..], k, v, x);
    } else if |m| > 0 && m[0].0 != k {
      Text.LessIrreflexive(k);
    }
  }

  /** `m.erase(k)`. */
  function Erase<V>(m: seq<(string, V)>, k: string): (r: seq<(string, V)>)
    requires Valid(m)
    ensures Valid(r)
    ensures forall x :: HasKey(r, x) <==> HasKey(m, x) && x != k
    ensures forall i :: 0 <= i < |r| ==> r[i] in m
  {
    if |m| == 0 then []
    else
      ValidTail(m);
      assert KeysOf(m) == [m[0].0] + KeysOf(m[1..]);
      if m[0].0 == k then
        Text.LessIrreflexive(k);
        assert !HasKey(m[1..], k);
        m[1..]
      else
        var t := Erase(m[1..], k);
        KeepHead(m, t);
        [m[0]] + t
  }

  /** The head of a valid map in front of a valid map drawn from its tail. */
  lemma KeepHead<V>(m: seq<(string, V)>, t: seq<(string, V)>)
    requires Valid(m) && |m| > 0 && Valid(t)
    requires forall i :: 0 <= i < |t| ==> t[i] in m[1..]
    ensures Valid([m[0]] + t)
    ensures forall i :: 0 <= i < |t| + 1 ==> ([m[0]] + t)[i] in m
    ensures forall x :: HasKey([m[0]] + t, x) <==> x == m[0].0 || HasKey(t, x)
    ensures forall x :: HasKey(m, x) <==> x == m[0].0 || HasKey(m[1..], x)
  {
    ValidTail(m);
    forall j | 0 <= j < |t|
      ensures Text.Less(m[0].0, t[j].0)
    {
      assert t[j] in m[1..];
      var i :| 0 <= i < |m| - 1 && m[1..][i] == t[j];
    }
    ValidCons(m[0], t);
    var r := [m[0]] + t;
    forall i | 0 <= i < |r|
      ensures r[i] in m
    {
      if i > 0 {
        assert r[i] == t[i - 1] && t[i - 1] in m[1..];
      }
    }
    HasKeyCons(m[0], t);
    assert m == [m[0]] + m[1..];
    HasKeyCons(m[0], m[1..]);
  }

  lemma HasKeyCons<V>(e: (string, V), t: seq<(string, V)>)
    ensures forall x :: HasKey([e] + t, x) <==> x == e.0 || HasKey(t, x)
  {
    assert KeysOf([e] + t) == [e.0] + KeysOf(t);
  }

  /** Erasing touches no other key. */
  lemma {:induction false} GetErase<V>(m: seq<(string, V)>, k: string, x: string)
    requires Valid(m)
    ensures Get(Erase(m, k), x) == if x == k then None else Get(m, x)
  {
    if |m| > 0 && m[0].0 != k {
      ValidTail(m);
      GetErase(m[1..], k, x);
    }
  }

  /**
   Two ascending sequences with the same elements are equal: the order a
   `std::map` walk produces depends only on the key set.
   */
  lemma {:induction false} IncreasingUnique(a: seq<string>, b: seq<string>)
    requires Increasing(a) && Increasing(b)
    requires forall x :: x in a <==> x in b
    ensures a == b
  {
    assert |a| > 0 ==> a[0] in b;
    assert |b| > 0 ==> b[0] in a;
    if |a| > 0 && |b| > 0 {
      if a[0] != b[0] {
        var i :| 0 <= i < |a| && a[i] == b[0];
        var j :| 0 <= j < |b| && b[j] == a[0];
        assert i > 0 && j > 0;
        assert Text.Less(a[0], b[0]) && Text.Less(b[0], a[0]);
        Text.LessAsymmetric(a[0], b[0]);
      }
      forall x ensures x in a[1..] <==> x in b[1..] {
        if x in a[1..] {
          var i :| 0 <= i < |a[1..]| && a[1..][i] == x;
          assert Text.Less(a[0], x);
          Text.LessIrreflexive(x);
        }
        if x in b[1..] {
          var i :| 0 <= i < |b[1..]| && b[1..][i] == x;
          assert Text.Less(b[0], x);
          Text.LessIrreflexive(x);
        }
        assert x in a ==> x == a[0] || x in a[1..];
        assert x in b ==> x == b[0] || x in b[1..];
      }
      IncreasingUnique(a[1..], b[1..]);
    }
  }

  /** The keys of the entries that satisfy `keep`, in map order. */
  function SelectKeys<V>(m: seq<(string, V)>, keep: (string, V) -> bool): (r: seq<string>)
    requires Valid(m)
    ensures Increasing(r)
    ensures forall x :: x in r <==> exists i :: 0 <= i < |m| && m[i].0 == x && keep(m[i].0, m[i].1)
  {
    if |m| == 0 then []
    else
      ValidTail(m);
      var t := SelectKeys(m[1..], keep);
      assert forall x :: x in t ==> Text.Less(m[0].0, x);
      assert forall i :: 0 <= i < |m| - 1 ==> m[1..][i] == m[i + 1];
      if keep(m[0].0, m[0].1) then
        var r := [m[0].0] + t;
        assert forall j :: 0 < j < |r| ==> r[j] in t;
        r
      else t
  }

  /** Lookup through `SelectKeys`: in a valid map, a key is selected iff its entry passes. */
  lemma SelectKeysGet<V>(m: seq<(string, V)>, keep: (string, V) -> bool, x: string)
    requires Valid(m)
    ensures x in SelectKeys(m, keep) <==> Get(m, x).Some? && keep(x, Get(m, x).value)
  {
    if x in SelectKeys(m, keep) {
      var i :| 0 <= i < |m| && m[i].0 == x && keep(m[i].0, m[i].1);
      GetEntry(m, i);
    }
    if Get(m, x).Some? {
      var i :| 0 <= i < |m| && m[i] == (x, Get(m, x).value);
    }
  }
}
