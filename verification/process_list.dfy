/**
 The process table of the dashboard (webclient/main.js): parsing the
 memory column for sorting, the user/system filter, the sort by a chosen
 column and direction, and the header click that picks the column.
 `Array.prototype.sort` is stable, so the sort is modelled as a stable
 insertion sort. A NaN parsed from a memory string makes the comparator
 inconsistent, and then JavaScript leaves the order to the engine; the
 ordering promises below are stated for keys without NaN.

 A JavaScript string is a sequence of UTF-16 code units; here each `char`
 of a name stands for one code unit. `toLowerCase` folds all of Unicode,
 so it is the parameter `lower` rather than a fixed table.
 */
module ProcessList {
  import opened Common
  import opened Text

  // ---------------------------------------------------------------------
  // parseMemoryValue

  predicate IsNumChar(c: char) { IsDigit(c) || c == '.' }

  /** The end of the run of characters meeting `p` that starts at `from`. */
  function RunEnd(s: string, from: nat, p: char -> bool): (e: nat)
    requires from <= |s|
    ensures from <= e <= |s|
    ensures forall k :: from <= k < e ==> p(s[k])
    ensures e == |s| || !p(s[e])
    decreases |s| - from
  {
    if from < |s| && p(s[from]) then RunEnd(s, from + 1, p) else from
  }

  /** A run is determined by where it stops. */
  lemma {:induction false} RunEndAt(s: string, from: nat, p: char -> bool, k: nat)
    requires from <= k <= |s|
    requires forall j :: from <= j < k ==> p(s[j])
    requires k == |s| || !p(s[k])
    ensures RunEnd(s, from, p) == k
    decreases k - from
  {
    if from < k {
      RunEndAt(s, from + 1, p, k);
    }
  }

  /**
   `/([\d.]+)([A-Z]+)/` matches at `p`: a run of digits and dots starts
   there and a capital letter follows its greedy end. A shorter run would
   be followed by a digit or a dot, so backtracking never finds more.
   */
  predicate MatchesAt(s: string, p: nat)
  {
    p < |s| && IsNumChar(s[p]) && RunEnd(s, p, IsNumChar) < |s| && IsUpper(s[RunEnd(s, p, IsNumChar)])
  }

  /** The leftmost match at or after `from`, skipping a failed run as a whole. */
  function FirstMatch(s: string, from: nat): (r: Option<nat>)
    requires from <= |s|
    ensures r.None? ==> forall p :: from <= p < |s| ==> !MatchesAt(s, p)
    ensures r.Some? ==> from <= r.value < |s| && MatchesAt(s, r.value)
    ensures r.Some? ==> forall p :: from <= p < r.value ==> !MatchesAt(s, p)
    decreases |s| - from
  {
    if from == |s| then None
    else if !IsNumChar(s[from]) then FirstMatch(s, from + 1)
    else
      var e := RunEnd(s, from, IsNumChar);
      if e < |s| && IsUpper(s[e]) then Some(from)
      else
        assert forall p :: from <= p < e ==> !MatchesAt(s, p) by {
          forall p | from <= p < e
            ensures !MatchesAt(s, p)
          {
            RunEndAt(s, p, IsNumChar, e);
          }
        }
        FirstMatch(s, e)
  }

  /** The two groups of the match at `p`: the number and the unit. */
  function Groups(s: string, p: nat): (g: (string, string))
    requires MatchesAt(s, p)
    ensures |g.0| > 0 && |g.1| > 0
  {
    var e := RunEnd(s, p, IsNumChar);
    (s[p..e], s[e..RunEnd(s, e, IsUpper)])
  }

  function Pow10(n: nat): (r: nat)
    ensures r >= 1
  {
    if n == 0 then 1 else 10 * Pow10(n - 1)
  }

  /**
   `parseFloat` of a string of digits and dots: the digits before the
   first dot and those right after it; NaN (`None`) when neither part has
   a digit.
   */
  function ParseFloat(num: string): (r: Option<real>)
    ensures AllDigits(num) && |num| > 0 ==> r == Some(DecimalValue(num) as real)
  {
    var intEnd := RunEnd(num, 0, IsDigit);
    var fracEnd := if intEnd < |num| && num[intEnd] == '.' then RunEnd(num, intEnd + 1, IsDigit) else intEnd;
    var fracDigits := if fracEnd > intEnd then num[intEnd + 1..fracEnd] else "";
    if AllDigits(num) && |num| > 0 then
      RunEndAt(num, 0, IsDigit, |num|);
      assert num[..intEnd] == num;
      Some(DecimalValue(num) as real)
    else if intEnd == 0 && |fracDigits| == 0 then None
    else Some(DecimalValue(num[..intEnd]) as real + DecimalValue(fracDigits) as real / Pow10(|fracDigits|) as real)
  }

  /** The unit scale: KB divided by 1024, MB as is, GB times 1024, any other capital unit as is. */
  function ScaleToMegabytes(v: real, unit: string): real
  {
    if unit == "KB" then v / 1024.0
    else if unit == "MB" then v
    else if unit == "GB" then v * 1024.0
    else v
  }

  /** `parseMemoryValue`: 0 when nothing matches, NaN (`None`) when the matched number has no digit. */
  function ParseMemoryValue(s: string): (r: Option<real>)
    ensures (forall p :: 0 <= p < |s| ==> !MatchesAt(s, p)) ==> r == Some(0.0)
  {
    match FirstMatch(s, 0)
    case None => Some(0.0)
    case Some(p) =>
      var (num, unit) := Groups(s, p);
      match ParseFloat(num)
      case None => None
      case Some(v) => Some(ScaleToMegabytes(v, unit))
  }

  /** A whole number written right before a capital unit is found at the start, with that unit. */
  lemma NumberThenUnit(n: nat, unit: string)
    requires |unit| > 0 && forall k :: 0 <= k < |unit| ==> IsUpper(unit[k])
    ensures ParseMemoryValue(NatToString(n) + unit) == Some(ScaleToMegabytes(n as real, unit))
  {
    var d := NatToString(n);
    var s := d + unit;
    assert forall k :: 0 <= k < |d| ==> s[k] == d[k] && IsDigit(d[k]);
    assert s[|d|] == unit[0];
    RunEndAt(s, 0, IsNumChar, |d|);
    assert forall k :: |d| <= k < |s| ==> s[k] == unit[k - |d|];
    RunEndAt(s, |d|, IsUpper, |s|);
    assert FirstMatch(s, 0) == Some(0);
    assert s[0..|d|] == d && s[|d|..|s|] == unit;
  }

  /** Memory strings compare in megabytes: the same number in GB, MB and KB scales by 1024 each step. */
  lemma UnitsScale(n: nat)
    ensures ParseMemoryValue(NatToString(n) + "GB") == Some(1024.0 * n as real)
    ensures ParseMemoryValue(NatToString(n) + "MB") == Some(n as real)
    ensures ParseMemoryValue(NatToString(n) + "KB") == Some(n as real / 1024.0)
    ensures ParseMemoryValue(NatToString(n) + "B") == Some(n as real)
  {
    UnitScale(n, "GB");
    UnitScale(n, "MB");
    UnitScale(n, "KB");
    UnitScale(n, "B");
  }

  lemma UnitScale(n: nat, unit: string)
    requires unit in ["GB", "MB", "KB", "B"]
    ensures ParseMemoryValue(NatToString(n) + unit) == Some(ScaleToMegabytes(n as real, unit))
    ensures ScaleToMegabytes(n as real, unit) ==
      if unit == "GB" then 1024.0 * n as real else if unit == "KB" then n as real / 1024.0 else n as real
  {
    AllUpper(unit);
    NumberThenUnit(n, unit);
  }

  lemma AllUpper(unit: string)
    requires unit in ["GB", "MB", "KB", "B"]
    ensures |unit| > 0 && forall k :: 0 <= k < |unit| ==> IsUpper(unit[k])
  {
  }

  /** A lower-case unit, or a space before the unit, leaves nothing to match: the value is 0. */
  lemma UnmatchedIsZero(n: nat, unit: string)
    requires forall k :: 0 <= k < |unit| ==> !IsUpper(unit[k]) && !IsNumChar(unit[k])
    ensures ParseMemoryValue(NatToString(n) + unit) == Some(0.0)
    ensures ParseMemoryValue(NatToString(n) + " " + unit) == Some(0.0)
  {
    NoMatch(NatToString(n), unit);
    NoMatch(NatToString(n), " " + unit);
  }

  lemma NoMatch(d: string, tail: string)
    requires AllDigits(d)
    requires forall k :: 0 <= k < |tail| ==> !IsUpper(tail[k]) && !IsNumChar(tail[k])
    ensures forall p :: 0 <= p < |d + tail| ==> !MatchesAt(d + tail, p)
  {
    var s := d + tail;
    forall p | 0 <= p < |s|
      ensures !MatchesAt(s, p)
    {
      if p < |d| {
        assert forall k :: p <= k < |d| ==> s[k] == d[k];
        if |tail| > 0 {
          assert s[|d|] == tail[0];
        }
        RunEndAt(s, p, IsNumChar, |d|);
      } else {
        assert s[p] == tail[p - |d|];
      }
    }
  }

  // ---------------------------------------------------------------------
  // Filter

  /** A row of the table. */
  datatype Process = Process(name: string, pid: int, cpu: real, memory: string, user: string)

  function UserIs(kind: string): Process -> bool
  {
    (p: Process) => p.user == kind
  }

  /** The filter buttons: "user" and "system" keep their kind, anything else keeps every row. */
  function FilterProcesses(ps: seq<Process>, filter: string): (r: seq<Process>)
    ensures filter == "user" || filter == "system" ==> forall p :: p in r <==> p in ps && p.user == filter
    ensures filter != "user" && filter != "system" ==> r == ps
  {
    if filter == "user" || filter == "system" then Filter(ps, UserIs(filter)) else ps
  }

  // ---------------------------------------------------------------------
  // Sorting

  datatype Direction = Asc | Desc

  datatype SortState = SortState(field: string, direction: Direction)

  /** The page's start: by CPU, descending. */
  const INITIAL_SORT: SortState := SortState("cpu", Desc)

  /** `sortProcesses`: the active column flips its direction, a new column starts descending. */
  function SortProcesses(st: SortState, field: string): (r: SortState)
    ensures r.field == field
  {
    if st.field == field then st.(direction := if st.direction == Asc then Desc else Asc)
    else SortState(field, Desc)
  }

  /** Clicking the active column twice restores it, and a new column always starts descending. */
  lemma SortToggle(st: SortState, field: string)
    ensures st.field == field ==> SortProcesses(SortProcesses(st, field), field) == st
    ensures st.field == field ==> SortProcesses(st, field).direction != st.direction
    ensures st.field != field ==> SortProcesses(st, field) == SortState(field, Desc)
  {
  }

  /** What the comparator compares for a column: lower-cased name, pid, cpu, parsed memory, or nothing. */
  datatype SortKey = TextKey(t: string) | NumKey(x: real) | NaNKey | NoKey

  function Key(p: Process, field: string, lower: string -> string): SortKey
  {
    if field == "name" then TextKey(lower(p.name))
    else if field == "pid" then NumKey(p.pid as real)
    else if field == "cpu" then NumKey(p.cpu)
    else if field == "memory" then
      match ParseMemoryValue(p.memory)
      case None => NaNKey
      case Some(v) => NumKey(v)
    else NoKey
  }

  function KeyOf(field: string, lower: string -> string): Process -> SortKey
  {
    (p: Process) => Key(p, field, lower)
  }

  /** JavaScript's `<` on two keys: strings by code unit, numbers by value; NaN is below and above nothing. */
  predicate KeyLess(a: SortKey, b: SortKey)
  {
    match (a, b)
    case (TextKey(s), TextKey(t)) => Less(s, t)
    case (NumKey(x), NumKey(y)) => x < y
    case _ => false
  }

  /**
   The comparator returns a negative number: `a` goes before `b`. The sort
   below is stated for any key function, so that its proofs do not depend
   on how a column's key is computed.
   */
  predicate Before(a: Process, b: Process, key: Process -> SortKey, dir: Direction)
  {
    if dir == Asc then KeyLess(key(a), key(b)) else KeyLess(key(b), key(a))
  }

  /** Two keys of one kind: both strings, both numbers, or both absent. */
  predicate SameKind(a: SortKey, b: SortKey)
  {
    a.TextKey? == b.TextKey? && a.NumKey? == b.NumKey? && a.NoKey? == b.NoKey?
  }

  /** No key is NaN, and the keys are all of one kind. */
  predicate Consistent(ps: seq<Process>, key: Process -> SortKey)
  {
    (forall p :: p in ps ==> !key(p).NaNKey?)
    && (forall p, q :: p in ps && q in ps ==> SameKind(key(p), key(q)))
  }

  predicate Sorted(s: seq<Process>, key: Process -> SortKey, dir: Direction)
  {
    forall i, j :: 0 <= i < j < |s| ==> !Before(s[j], s[i], key, dir)
  }

  /** Every column's keys are of one kind: all strings, or all numbers and NaN, or all absent. */
  lemma ColumnKeysOfOneKind(ps: seq<Process>, field: string, lower: string -> string)
    ensures (forall p :: p in ps ==> !Key(p, field, lower).NaNKey?) ==> Consistent(ps, KeyOf(field, lower))
  {
  }

  lemma KeyLessAsymmetric(a: SortKey, b: SortKey)
    requires KeyLess(a, b)
    ensures !KeyLess(b, a) && a != b
  {
    if a.TextKey? && b.TextKey? {
      LessAsymmetric(a.t, b.t);
      LessIrreflexive(a.t);
    }
  }

  /** Without NaN and without mixing kinds, "not less" is transitive. */
  lemma KeyNotLessTransitive(a: SortKey, b: SortKey, c: SortKey)
    requires !a.NaNKey? && !b.NaNKey? && !c.NaNKey?
    requires SameKind(a, b) && SameKind(b, c)
    requires !KeyLess(a, b) && !KeyLess(b, c)
    ensures !KeyLess(a, c)
  {
    if a.TextKey? {
      TextNotLessTransitive(a.t, b.t, c.t);
    }
  }

  lemma TextNotLessTransitive(a: string, b: string, c: string)
    requires !Less(a, b) && !Less(b, c)
    ensures !Less(a, c)
  {
    if Less(a, c) {
      if a != b {
        LessTotal(a, b);
        if b != c {
          LessTotal(b, c);
          LessTransitive(c, b, a);
          LessAsymmetric(a, c);
        }
      }
    }
  }

  lemma NotBeforeTransitive(a: Process, b: Process, c: Process, key: Process -> SortKey, dir: Direction)
    requires !key(a).NaNKey? && !key(b).NaNKey? && !key(c).NaNKey?
    requires SameKind(key(a), key(b)) && SameKind(key(b), key(c))
    requires !Before(a, b, key, dir) && !Before(b, c, key, dir)
    ensures !Before(a, c, key, dir)
  {
    if dir == Asc {
      KeyNotLessTransitive(key(a), key(b), key(c));
    } else {
      KeyNotLessTransitive(key(c), key(b), key(a));
    }
  }

  lemma BeforeAsymmetric(a: Process, b: Process, key: Process -> SortKey, dir: Direction)
    requires Before(a, b, key, dir)
    ensures !Before(b, a, key, dir)
    ensures key(a) != key(b)
  {
    if dir == Asc {
      KeyLessAsymmetric(key(a), key(b));
    } else {
      KeyLessAsymmetric(key(b), key(a));
    }
  }

  /** Insertion after every row that does not sort after `x`: equal keys keep their order. */
  function Insert(x: Process, t: seq<Process>, key: Process -> SortKey, dir: Direction): (r: seq<Process>)
    ensures multiset(r) == multiset(t) + multiset{x}
    ensures |r| == |t| + 1
    ensures forall k :: 0 <= k < |r| ==> r[k] == x || r[k] in t
  {
    if |t| == 0 then [x]
    else if !Before(x, t[|t| - 1], key, dir) then t + [x]
    else
      var init := t[..|t| - 1];
      assert t == init + [t[|t| - 1]];
      Insert(x, init, key, dir) + [t[|t| - 1]]
  }

  /** `x` before the last row: it is inserted into the rest and the last row stays last. */
  lemma InsertMoves(x: Process, t: seq<Process>, key: Process -> SortKey, dir: Direction)
    requires |t| > 0 && Before(x, t[|t| - 1], key, dir)
    ensures Insert(x, t, key, dir) == Insert(x, t[..|t| - 1], key, dir) + [t[|t| - 1]]
  {
  }

  /** The stable sort of the rows by a key and a direction. */
  function SortBy(s: seq<Process>, key: Process -> SortKey, dir: Direction): (r: seq<Process>)
    ensures multiset(r) == multiset(s)
    ensures |r| == |s|
  {
    if |s| == 0 then []
    else
      var init := s[..|s| - 1];
      assert s == init + [s[|s| - 1]];
      Insert(s[|s| - 1], SortBy(init, key, dir), key, dir)
  }

  lemma SortBySnoc(s: seq<Process>, key: Process -> SortKey, dir: Direction)
    requires |s| > 0
    ensures SortBy(s, key, dir) == Insert(s[|s| - 1], SortBy(s[..|s| - 1], key, dir), key, dir)
  {
  }

  lemma ConsistentPart(s: seq<Process>, t: seq<Process>, key: Process -> SortKey)
    requires Consistent(s, key)
    requires forall p :: p in t ==> p in s
    ensures Consistent(t, key)
  {
  }

  lemma {:induction false} InsertSorted(x: Process, t: seq<Process>, key: Process -> SortKey, dir: Direction)
    requires Sorted(t, key, dir) && Consistent(t + [x], key)
    ensures Sorted(Insert(x, t, key, dir), key, dir)
    decreases |t|
  {
    if |t| > 0 {
      var last := t[|t| - 1];
      var init := t[..|t| - 1];
      if !Before(x, last, key, dir) {
        AppendSorted(x, t, key, dir);
      } else {
        assert Sorted(init, key, dir);
        ConsistentPart(t + [x], init + [x], key);
        InsertSorted(x, init, key, dir);
        InsertMoves(x, t, key, dir);
        MovedSorted(x, t, key, dir);
      }
    }
  }

  /** A row that does not sort before the last one sorts after every row. */
  lemma AppendSorted(x: Process, t: seq<Process>, key: Process -> SortKey, dir: Direction)
    requires Sorted(t, key, dir) && Consistent(t + [x], key)
    requires |t| > 0 && !Before(x, t[|t| - 1], key, dir)
    ensures Sorted(t + [x], key, dir)
  {
    var last := t[|t| - 1];
    assert x in t + [x];
    assert last in t + [x];
    forall i | 0 <= i < |t|
      ensures !Before(x, t[i], key, dir)
    {
      assert t[i] in t + [x];
      if i < |t| - 1 {
        NotBeforeTransitive(x, last, t[i], key, dir);
      }
    }
  }

  /** The last row, put back behind the insertion into the rest, sorts after all of it. */
  lemma MovedSorted(x: Process, t: seq<Process>, key: Process -> SortKey, dir: Direction)
    requires Sorted(t, key, dir) && |t| > 0 && Before(x, t[|t| - 1], key, dir)
    requires Sorted(Insert(x, t[..|t| - 1], key, dir), key, dir)
    ensures Sorted(Insert(x, t[..|t| - 1], key, dir) + [t[|t| - 1]], key, dir)
  {
    var last := t[|t| - 1];
    var init := t[..|t| - 1];
    var u := Insert(x, init, key, dir);
    forall k | 0 <= k < |u|
      ensures !Before(last, u[k], key, dir)
    {
      if u[k] == x {
        BeforeAsymmetric(x, last, key, dir);
      } else {
        var m :| 0 <= m < |init| && init[m] == u[k];
        assert t[m] == u[k];
      }
    }
  }

  /** Sorting keys without NaN or mixed kinds gives rows in comparator order. */
  lemma {:induction false} SortBySorted(s: seq<Process>, key: Process -> SortKey, dir: Direction)
    requires Consistent(s, key)
    ensures Sorted(SortBy(s, key, dir), key, dir)
  {
    if |s| > 0 {
      var init := s[..|s| - 1];
      var x := s[|s| - 1];
      assert s == init + [x];
      ConsistentPart(s, init, key);
      SortBySorted(init, key, dir);
      var t := SortBy(init, key, dir);
      forall p | p in t + [x]
        ensures p in s
      {
        if p in t {
          assert p in multiset(t);
          assert p in init;
        }
      }
      ConsistentPart(s, t + [x], key);
      InsertSorted(x, t, key, dir);
    }
  }

  function KeyIs(key: Process -> SortKey, k: SortKey): Process -> bool
  {
    (p: Process) => key(p) == k
  }

  lemma {:induction false} InsertStable(x: Process, t: seq<Process>, key: Process -> SortKey, dir: Direction, k: SortKey)
    ensures Filter(Insert(x, t, key, dir), KeyIs(key, k)) == Filter(t, KeyIs(key, k)) + (if key(x) == k then [x] else [])
    decreases |t|
  {
    var p := KeyIs(key, k);
    if |t| == 0 {
      FilterSnoc([], x, p);
    } else if !Before(x, t[|t| - 1], key, dir) {
      FilterSnoc(t, x, p);
    } else {
      InsertStableMoved(x, t, key, dir, k);
    }
  }

  lemma {:induction false} InsertStableMoved(x: Process, t: seq<Process>, key: Process -> SortKey, dir: Direction, k: SortKey)
    requires |t| > 0 && Before(x, t[|t| - 1], key, dir)
    ensures Filter(Insert(x, t, key, dir), KeyIs(key, k)) == Filter(t, KeyIs(key, k)) + (if key(x) == k then [x] else [])
    decreases |t|, 0
  {
    var p := KeyIs(key, k);
    var last := t[|t| - 1];
    var init := t[..|t| - 1];
    assert t == init + [last];
    var xs: seq<Process> := if key(x) == k then [x] else [];
    var ls: seq<Process> := if key(last) == k then [last] else [];
    InsertStable(x, init, key, dir, k);
    InsertMoves(x, t, key, dir);
    FilterSnoc(Insert(x, init, key, dir), last, p);
    FilterSnoc(init, last, p);
    BeforeAsymmetric(x, last, key, dir);
    var f := Filter(init, p);
    assert Filter(Insert(x, t, key, dir), p) == f + xs + ls;
    assert Filter(t, p) == f + ls;
    SwapEmpty(f, xs, ls);
  }

  /** Two pieces of which one is empty can be appended in either order. */
  lemma SwapEmpty(f: seq<Process>, a: seq<Process>, b: seq<Process>)
    requires a == [] || b == []
    ensures f + a + b == f + b + a
  {
    if a == [] {
      assert f + a == f;
      assert f + b + a == f + b;
    } else {
      assert f + a + b == f + a;
      assert f + b == f;
    }
  }

  /** Stability: the rows with any one key come out in the order they came in. */
  lemma {:induction false} SortByStable(s: seq<Process>, key: Process -> SortKey, dir: Direction, k: SortKey)
    ensures Filter(SortBy(s, key, dir), KeyIs(key, k)) == Filter(s, KeyIs(key, k))
  {
    if |s| > 0 {
      var init := s[..|s| - 1];
      var x := s[|s| - 1];
      assert s == init + [x];
      SortBySnoc(s, key, dir);
      SortByStable(init, key, dir, k);
      InsertStable(x, SortBy(init, key, dir), key, dir, k);
      FilterSnoc(init, x, KeyIs(key, k));
    }
  }

  /** A key that is the same for every row makes the comparator return 0 always: the order is left as it was. */
  lemma {:induction false} ConstantKeyKeepsOrder(s: seq<Process>, key: Process -> SortKey, dir: Direction)
    requires forall p :: p in s ==> key(p) == NoKey
    ensures SortBy(s, key, dir) == s
  {
    if |s| > 0 {
      var init := s[..|s| - 1];
      var x := s[|s| - 1];
      assert s == init + [x];
      ConstantKeyKeepsOrder(init, key, dir);
      SortBySnoc(s, key, dir);
      NoKeyAppends(x, init, key, dir);
    }
  }

  /** With no key on either side, a row is never placed before the last one: it is appended. */
  lemma NoKeyAppends(x: Process, t: seq<Process>, key: Process -> SortKey, dir: Direction)
    requires key(x) == NoKey && forall p :: p in t ==> key(p) == NoKey
    ensures Insert(x, t, key, dir) == t + [x]
  {
    if |t| > 0 {
      assert t[|t| - 1] in t;
    }
  }

  /** `renderProcessList`'s rows: the filter, then the sort by the active column and direction. */
  function RenderedRows(ps: seq<Process>, filter: string, st: SortState, lower: string -> string): (r: seq<Process>)
    ensures multiset(r) == multiset(FilterProcesses(ps, filter))
  {
    SortBy(FilterProcesses(ps, filter), KeyOf(st.field, lower), st.direction)
  }

  /**
   `this.processes` after a render. With neither the user nor the system
   filter, `filteredProcesses` is the array itself and `sort` reorders it
   in place, so the next render's ties start from this order; with a
   filter the sort works on a copy.
   */
  function ProcessesAfterRender(ps: seq<Process>, filter: string, st: SortState, lower: string -> string): (r: seq<Process>)
    ensures multiset(r) == multiset(ps) && |r| == |ps|
    ensures filter == "user" || filter == "system" ==> r == ps
    ensures filter != "user" && filter != "system" ==> r == RenderedRows(ps, filter, st, lower)
  {
    if filter == "user" || filter == "system" then ps else RenderedRows(ps, filter, st, lower)
  }

  /**
   The rendered rows are the filtered rows in comparator order, equal keys
   in their original order; a column the comparator does not know leaves
   the filtered order as it is.
   */
  lemma RenderedRowsOrdered(ps: seq<Process>, filter: string, st: SortState, lower: string -> string, k: SortKey)
    requires forall p :: p in ps ==> !Key(p, st.field, lower).NaNKey?
    ensures Sorted(RenderedRows(ps, filter, st, lower), KeyOf(st.field, lower), st.direction)
    ensures Filter(RenderedRows(ps, filter, st, lower), KeyIs(KeyOf(st.field, lower), k)) == Filter(FilterProcesses(ps, filter), KeyIs(KeyOf(st.field, lower), k))
  {
    var f := FilterProcesses(ps, filter);
    ColumnKeysOfOneKind(f, st.field, lower);
    SortBySorted(f, KeyOf(st.field, lower), st.direction);
    SortByStable(f, KeyOf(st.field, lower), st.direction, k);
  }

  lemma UnknownFieldKeepsOrder(ps: seq<Process>, filter: string, st: SortState, lower: string -> string)
    requires st.field !in ["name", "pid", "cpu", "memory"]
    ensures RenderedRows(ps, filter, st, lower) == FilterProcesses(ps, filter)
  {
    ConstantKeyKeepsOrder(FilterProcesses(ps, filter), KeyOf(st.field, lower), st.direction);
  }
}
