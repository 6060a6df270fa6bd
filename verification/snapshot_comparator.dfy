/**
 `SnapshotComparator` (SnapshotComparator.cpp): the list-based comparison
 of two collected snapshots, its `has_changes` and its `to_string`.

 Each of the three comparisons is written as the loops of the original and
 proved equal to a reference built from `Filter`. Whether a matched pair of
 processes counts as modified depends on floating-point thresholds; it is
 the parameter `changed` here.
 */
module SnapshotComparator {
  import opened Common
  import Text
  import opened SystemSnapshot

  datatype RegistryDiff = RegistryDiff(
    added: seq<RegistryValue>, removed: seq<RegistryValue>, modified: seq<(RegistryValue, RegistryValue)>)

  datatype DiskDiff = DiskDiff(changed: seq<DiskInfo>)

  datatype ProcessDiff = ProcessDiff(
    added: seq<ProcessInfo>, removed: seq<ProcessInfo>, modified: seq<(ProcessInfo, ProcessInfo)>)

  datatype ComparisonResult = ComparisonResult(registryDiff: RegistryDiff, diskDiff: DiskDiff, processDiff: ProcessDiff)

  const EMPTY_RESULT: ComparisonResult :=
    ComparisonResult(RegistryDiff([], [], []), DiskDiff([]), ProcessDiff([], [], []))

  // ---------------------------------------------------------------------
  // Registry

  /** The test of `std::find(...) == end()`: no equal value in `s`. */
  function AbsentFrom(s: seq<RegistryValue>): RegistryValue -> bool
  {
    (v: RegistryValue) => v !in s
  }

  /** Values of `current` with no equal value in `baseline`, in order, duplicates kept. */
  function RegistryAdded(baseline: seq<RegistryValue>, current: seq<RegistryValue>): seq<RegistryValue>
  {
    Filter(current, AbsentFrom(baseline))
  }

  /** `compare_registry`: two scans with `std::find`; `modified` is never filled. */
  method CompareRegistry(baseline: seq<RegistryValue>, current: seq<RegistryValue>) returns (d: RegistryDiff)
    ensures d.added == RegistryAdded(baseline, current)
    ensures d.removed == RegistryAdded(current, baseline)
    ensures d.modified == []
  {
    var added := [];
    var i := 0;
    while i < |current|
      invariant 0 <= i <= |current|
      invariant added == RegistryAdded(baseline, current[..i])
    {
      assert current[..i + 1] == current[..i] + [current[i]];
      FilterSnoc(current[..i], current[i], AbsentFrom(baseline));
      var found := Find(baseline, current[i]);
      if !found {
        added := added + [current[i]];
      }
      i := i + 1;
    }
    assert current[..i] == current;
    var removed := [];
    i := 0;
    while i < |baseline|
      invariant 0 <= i <= |baseline|
      invariant removed == RegistryAdded(current, baseline[..i])
    {
      assert baseline[..i + 1] == baseline[..i] + [baseline[i]];
      FilterSnoc(baseline[..i], baseline[i], AbsentFrom(current));
      var found := Find(current, baseline[i]);
      if !found {
        removed := removed + [baseline[i]];
      }
      i := i + 1;
    }
    assert baseline[..i] == baseline;
    d := RegistryDiff(added, removed, []);
  }

  /** `std::find(s.begin(), s.end(), v) != s.end()` with `RegistryValue::operator==`. */
  method Find(s: seq<RegistryValue>, v: RegistryValue) returns (found: bool)
    ensures found <==> v in s
  {
    var j := 0;
    while j < |s|
      invariant 0 <= j <= |s|
      invariant v !in s[..j]
    {
      if RegistryValueEquals(s[j], v) {
        assert s[j] == v;
        return true;
      }
      assert s[..j + 1] == s[..j] + [s[j]];
      j := j + 1;
    }
    assert s[..j] == s;
    return false;
  }

  /** Added values are exactly the current ones missing from the baseline, each as often as it occurs. */
  lemma RegistryAddedMeaning(baseline: seq<RegistryValue>, current: seq<RegistryValue>, v: RegistryValue)
    ensures v in RegistryAdded(baseline, current) <==> v in current && v !in baseline
    ensures v !in baseline ==> multiset(RegistryAdded(baseline, current))[v] == multiset(current)[v]
  {
    FilterMultiplicity(current, AbsentFrom(baseline), v);
  }

  // ---------------------------------------------------------------------
  // Disks

  /** The first disk of `s` with the given letter: where the inner loop breaks. */
  function FirstWithLetter(s: seq<DiskInfo>, letter: string): (r: Option<nat>)
    ensures r.None? <==> forall j :: 0 <= j < |s| ==> s[j].driveLetter != letter
    ensures r.Some? ==> (r.value < |s| && s[r.value].driveLetter == letter
                         && forall j :: 0 <= j < r.value ==> s[j].driveLetter != letter)
  {
    if |s| == 0 then None
    else if s[0].driveLetter == letter then Some(0)
    else
      match FirstWithLetter(s[1..], letter)
      case None => None
      case Some(k) => Some(k + 1)
  }

  /** A current disk is reported when the first baseline disk with its letter differs from it. */
  function DiskChanged(baseline: seq<DiskInfo>): DiskInfo -> bool
  {
    (c: DiskInfo) => var m := FirstWithLetter(baseline, c.driveLetter);
         m.Some? && !DiskInfoEquals(c, baseline[m.value])
  }

  function DisksChanged(baseline: seq<DiskInfo>, current: seq<DiskInfo>): seq<DiskInfo>
  {
    Filter(current, DiskChanged(baseline))
  }

  /** `compare_disks`: for each current disk, scan the baseline until the first same letter. */
  method CompareDisks(baseline: seq<DiskInfo>, current: seq<DiskInfo>) returns (d: DiskDiff)
    ensures d.changed == DisksChanged(baseline, current)
  {
    var changed := [];
    var i := 0;
    while i < |current|
      invariant 0 <= i <= |current|
      invariant changed == DisksChanged(baseline, current[..i])
    {
      var c := current[i];
      assert current[..i + 1] == current[..i] + [c];
      FilterSnoc(current[..i], c, DiskChanged(baseline));
      var report := ScanBaseline(baseline, c);
      if report {
        changed := changed + [c];
      }
      i := i + 1;
    }
    assert current[..i] == current;
    d := DiskDiff(changed);
  }

  /** The inner loop of `compare_disks`: stop at the first baseline disk with the letter and compare. */
  method ScanBaseline(baseline: seq<DiskInfo>, c: DiskInfo) returns (report: bool)
    ensures report == DiskChanged(baseline)(c)
  {
    report := false;
    var j := 0;
    while j < |baseline|
      invariant 0 <= j <= |baseline|
      invariant forall k :: 0 <= k < j ==> baseline[k].driveLetter != c.driveLetter
      invariant !report
    {
      if c.driveLetter == baseline[j].driveLetter {
        report := !DiskInfoEquals(c, baseline[j]);
        break;
      }
      j := j + 1;
    }
  }

  /** A disk whose letter the baseline lacks, or that equals its match, is not reported. */
  lemma DisksChangedMeaning(baseline: seq<DiskInfo>, current: seq<DiskInfo>, c: DiskInfo)
    ensures c in DisksChanged(baseline, current) <==>
      c in current && (exists j :: 0 <= j < |baseline| && baseline[j].driveLetter == c.driveLetter
                         && (forall k :: 0 <= k < j ==> baseline[k].driveLetter != c.driveLetter)
                         && !DiskInfoEquals(c, baseline[j]))
  {
    var m := FirstWithLetter(baseline, c.driveLetter);
    assert c in DisksChanged(baseline, current) <==> c in current && DiskChanged(baseline)(c);
    assert DiskChanged(baseline)(c) <==> m.Some? && !DiskInfoEquals(c, baseline[m.value]);
    forall j | 0 <= j < |baseline| && baseline[j].driveLetter == c.driveLetter
                 && (forall k :: 0 <= k < j ==> baseline[k].driveLetter != c.driveLetter)
      ensures m == Some(j)
    {
    }
  }

  // ---------------------------------------------------------------------
  // Processes

  /** The first process of `s` with the pid. */
  function FirstWithPid(s: seq<ProcessInfo>, pid: u32): (r: Option<nat>)
    ensures r.None? <==> forall j :: 0 <= j < |s| ==> s[j].pid != pid
    ensures r.Some? ==> (r.value < |s| && s[r.value].pid == pid
                         && forall j :: 0 <= j < r.value ==> s[j].pid != pid)
  {
    if |s| == 0 then None
    else if s[0].pid == pid then Some(0)
    else
      match FirstWithPid(s[1..], pid)
      case None => None
      case Some(k) => Some(k + 1)
  }

  function PidAbsentFrom(s: seq<ProcessInfo>): ProcessInfo -> bool
  {
    (p: ProcessInfo) => FirstWithPid(s, p.pid).None?
  }

  /** Processes of `current` whose pid the baseline lacks. */
  function ProcessesAdded(baseline: seq<ProcessInfo>, current: seq<ProcessInfo>): seq<ProcessInfo>
  {
    Filter(current, PidAbsentFrom(baseline))
  }

  /** Each baseline process with its first current namesake by pid, when `changed` holds of the pair. */
  function ProcessesModified(baseline: seq<ProcessInfo>, current: seq<ProcessInfo>,
                             changed: (ProcessInfo, ProcessInfo) -> bool): (r: seq<(ProcessInfo, ProcessInfo)>)
    ensures |r| <= |baseline|
    ensures forall j :: 0 <= j < |r| ==> r[j].0 in baseline && r[j].1 in current && r[j].0.pid == r[j].1.pid
  {
    if |baseline| == 0 then []
    else
      var init := baseline[..|baseline| - 1];
      var b := baseline[|baseline| - 1];
      var prev := ProcessesModified(init, current, changed);
      assert forall x :: x in init ==> x in baseline;
      match FirstWithPid(current, b.pid)
      case None => prev
      case Some(k) => if changed(b, current[k]) then prev + [(b, current[k])] else prev
  }

  /** `compare_processes`: matching by pid only, one scan per direction. */
  method CompareProcesses(baseline: seq<ProcessInfo>, current: seq<ProcessInfo>,
                          changed: (ProcessInfo, ProcessInfo) -> bool) returns (d: ProcessDiff)
    ensures d.added == ProcessesAdded(baseline, current)
    ensures d.removed == ProcessesAdded(current, baseline)
    ensures d.modified == ProcessesModified(baseline, current, changed)
  {
    var added := AddedPass(baseline, current);
    var removed, modified := BaselinePass(baseline, current, changed);
    d := ProcessDiff(added, removed, modified);
  }

  /** The first loop: current processes whose pid the baseline lacks. */
  method AddedPass(baseline: seq<ProcessInfo>, current: seq<ProcessInfo>) returns (added: seq<ProcessInfo>)
    ensures added == ProcessesAdded(baseline, current)
  {
    added := [];
    var i := 0;
    while i < |current|
      invariant 0 <= i <= |current|
      invariant added == ProcessesAdded(baseline, current[..i])
    {
      assert current[..i + 1] == current[..i] + [current[i]];
      FilterSnoc(current[..i], current[i], PidAbsentFrom(baseline));
      if FirstWithPid(baseline, current[i].pid).None? {
        added := added + [current[i]];
      }
      i := i + 1;
    }
    assert current[..i] == current;
  }

  /** The second loop: baseline processes gone from the current list, and pairs reported as changed. */
  method BaselinePass(baseline: seq<ProcessInfo>, current: seq<ProcessInfo>,
                      changed: (ProcessInfo, ProcessInfo) -> bool)
    returns (removed: seq<ProcessInfo>, modified: seq<(ProcessInfo, ProcessInfo)>)
    ensures removed == ProcessesAdded(current, baseline)
    ensures modified == ProcessesModified(baseline, current, changed)
  {
    removed := [];
    modified := [];
    var i := 0;
    while i < |baseline|
      invariant 0 <= i <= |baseline|
      invariant removed == ProcessesAdded(current, baseline[..i])
      invariant modified == ProcessesModified(baseline[..i], current, changed)
    {
      assert baseline[..i + 1] == baseline[..i] + [baseline[i]];
      removed, modified := BaselineStep(baseline[..i], baseline[i], current, changed, removed, modified);
      i := i + 1;
    }
    assert baseline[..i] == baseline;
  }

  /** One iteration of the second loop: the baseline process `b` is looked up in the current list. */
  method BaselineStep(prefix: seq<ProcessInfo>, b: ProcessInfo, current: seq<ProcessInfo>,
                      changed: (ProcessInfo, ProcessInfo) -> bool,
                      removed: seq<ProcessInfo>, modified: seq<(ProcessInfo, ProcessInfo)>)
    returns (removed': seq<ProcessInfo>, modified': seq<(ProcessInfo, ProcessInfo)>)
    requires removed == ProcessesAdded(current, prefix)
    requires modified == ProcessesModified(prefix, current, changed)
    ensures removed' == ProcessesAdded(current, prefix + [b])
    ensures modified' == ProcessesModified(prefix + [b], current, changed)
  {
    FilterSnoc(prefix, b, PidAbsentFrom(current));
    ModifiedSnoc(prefix, b, current, changed);
    removed', modified' := removed, modified;
    var m := FirstWithPid(current, b.pid);
    if m.None? {
      removed' := removed + [b];
    } else if changed(b, current[m.value]) {
      modified' := modified + [(b, current[m.value])];
    }
  }

  /** One more baseline process adds at most its own pair. */
  lemma ModifiedSnoc(prefix: seq<ProcessInfo>, b: ProcessInfo, current: seq<ProcessInfo>,
                     changed: (ProcessInfo, ProcessInfo) -> bool)
    ensures var m := FirstWithPid(current, b.pid);
      ProcessesModified(prefix + [b], current, changed) ==
        if m.Some? && changed(b, current[m.value]) then ProcessesModified(prefix, current, changed) + [(b, current[m.value])]
        else ProcessesModified(prefix, current, changed)
  {
    assert (prefix + [b])[..|prefix|] == prefix;
  }

  /** Added processes are the current ones whose pid the baseline lacks. */
  lemma ProcessesAddedMeaning(baseline: seq<ProcessInfo>, current: seq<ProcessInfo>, p: ProcessInfo)
    ensures p in ProcessesAdded(baseline, current) <==> p in current && forall b :: b in baseline ==> b.pid != p.pid
  {
    if forall j :: 0 <= j < |baseline| ==> baseline[j].pid != p.pid {
      assert forall b :: b in baseline ==> b.pid != p.pid;
    }
  }

  // ---------------------------------------------------------------------
  // The whole comparison

  /**
   `compare` with its null check doing what it was written for: a missing
   snapshot gives the empty result, two present ones give the three
   comparisons.
   */
  function Compare(baseline: Option<Snapshot>, current: Option<Snapshot>,
                   changed: (ProcessInfo, ProcessInfo) -> bool): (r: ComparisonResult)
    ensures baseline.None? || current.None? ==> r == EMPTY_RESULT && !HasChanges(r)
    ensures baseline.Some? && current.Some? ==> r == Diff(baseline.value, current.value, changed)
  {
    if baseline.None? || current.None? then EMPTY_RESULT
    else Diff(baseline.value, current.value, changed)
  }

  /** The three comparisons of two present snapshots; the registry's `modified` stays empty. */
  function Diff(b: Snapshot, c: Snapshot, changed: (ProcessInfo, ProcessInfo) -> bool): (r: ComparisonResult)
    ensures r.registryDiff.modified == []
  {
    ComparisonResult(
      RegistryDiff(RegistryAdded(b.registryData, c.registryData), RegistryAdded(c.registryData, b.registryData), []),
      DiskDiff(DisksChanged(b.diskInfo, c.diskInfo)),
      ProcessDiff(ProcessesAdded(b.processInfo, c.processInfo), ProcessesAdded(c.processInfo, b.processInfo),
                  ProcessesModified(b.processInfo, c.processInfo, changed)))
  }

  /**
   `compare` as written: the opening log line reads both snapshots' names
   before the null check, so a missing snapshot is dereferenced (`None`
   here) and the empty result behind the check is never returned.
   */
  function CompareAsWritten(baseline: Option<Snapshot>, current: Option<Snapshot>,
                            changed: (ProcessInfo, ProcessInfo) -> bool): (r: Option<ComparisonResult>)
    ensures r.Some? <==> baseline.Some? && current.Some?
    ensures r.Some? ==> r.value == Compare(baseline, current, changed)
  {
    if baseline.None? || current.None? then None
    else Some(Diff(baseline.value, current.value, changed))
  }

  /** A missing baseline never reaches the guarded `return result;`: the call fails instead of reporting no change. */
  lemma MissingSnapshotIsDereferenced(current: Option<Snapshot>, changed: (ProcessInfo, ProcessInfo) -> bool)
    ensures CompareAsWritten(None, current, changed).None?
    ensures Compare(None, current, changed) == EMPTY_RESULT
  {
  }

  /** `has_changes`: some list of the result is non-empty. */
  predicate HasChanges(r: ComparisonResult)
  {
    |r.registryDiff.added| > 0 || |r.registryDiff.removed| > 0 || |r.registryDiff.modified| > 0
    || |r.diskDiff.changed| > 0
    || |r.processDiff.added| > 0 || |r.processDiff.removed| > 0 || |r.processDiff.modified| > 0
  }

  /** The seven list sizes in `to_string`'s order. */
  function Counts(r: ComparisonResult): (c: seq<nat>)
    ensures |c| == 7
  {
    [|r.registryDiff.added|, |r.registryDiff.removed|, |r.registryDiff.modified|, |r.diskDiff.changed|,
     |r.processDiff.added|, |r.processDiff.removed|, |r.processDiff.modified|]
  }

  /** A result has changes exactly when one of its counts is positive. */
  lemma HasChangesCounts(r: ComparisonResult)
    ensures HasChanges(r) <==> exists i :: 0 <= i < 7 && Counts(r)[i] > 0
  {
    if HasChanges(r) {
      if |r.registryDiff.added| > 0 { assert Counts(r)[0] > 0; }
      else if |r.registryDiff.removed| > 0 { assert Counts(r)[1] > 0; }
      else if |r.registryDiff.modified| > 0 { assert Counts(r)[2] > 0; }
      else if |r.diskDiff.changed| > 0 { assert Counts(r)[3] > 0; }
      else if |r.processDiff.added| > 0 { assert Counts(r)[4] > 0; }
      else if |r.processDiff.removed| > 0 { assert Counts(r)[5] > 0; }
      else { assert Counts(r)[6] > 0; }
    }
  }

  /** Drive letters are distinct, as `collect_disk_info` produces them. */
  predicate DistinctLetters(s: seq<DiskInfo>)
  {
    forall i, j :: 0 <= i < j < |s| ==> s[i].driveLetter != s[j].driveLetter
  }

  predicate DistinctPids(s: seq<ProcessInfo>)
  {
    forall i, j :: 0 <= i < j < |s| ==> s[i].pid != s[j].pid
  }

  /**
   Comparing a snapshot with itself reports no registry value, no disk and
   no added or removed process, given only that the drive letters are
   distinct.
   */
  lemma CompareSelfUnchanged(s: Snapshot, changed: (ProcessInfo, ProcessInfo) -> bool)
    requires DistinctLetters(s.diskInfo)
    ensures var r := Compare(Some(s), Some(s), changed);
      && r.registryDiff.added == [] && r.registryDiff.removed == [] && r.registryDiff.modified == []
      && r.diskDiff.changed == []
      && r.processDiff.added == [] && r.processDiff.removed == []
  {
    FilterNone(s.registryData, AbsentFrom(s.registryData));
    NoPidAbsentFromSelf(s.processInfo);
    NoDiskChangedFromSelf(s.diskInfo);
  }

  /**
   With distinct pids as well and a `changed` test that holds of no process
   paired with itself, comparing a snapshot with itself reports nothing at
   all.
   */
  lemma CompareSelf(s: Snapshot, changed: (ProcessInfo, ProcessInfo) -> bool)
    requires DistinctLetters(s.diskInfo) && DistinctPids(s.processInfo)
    requires forall p :: !changed(p, p)
    ensures !HasChanges(Compare(Some(s), Some(s), changed))
  {
    CompareSelfUnchanged(s, changed);
    ModifiedSelf(s.processInfo, s.processInfo, changed);
    var r := Compare(Some(s), Some(s), changed);
    assert r.processDiff.modified == [];
  }

  lemma NoPidAbsentFromSelf(ps: seq<ProcessInfo>)
    ensures ProcessesAdded(ps, ps) == []
  {
    forall c | c in ps ensures !PidAbsentFrom(ps)(c) {
      var j :| 0 <= j < |ps| && ps[j] == c;
    }
    FilterNone(ps, PidAbsentFrom(ps));
  }

  lemma NoDiskChangedFromSelf(ds: seq<DiskInfo>)
    requires DistinctLetters(ds)
    ensures DisksChanged(ds, ds) == []
  {
    forall c | c in ds ensures !DiskChanged(ds)(c) {
      var j :| 0 <= j < |ds| && ds[j] == c;
      var m := FirstWithLetter(ds, c.driveLetter);
      assert m.Some?;
      assert m.value == j;
    }
    FilterNone(ds, DiskChanged(ds));
  }

  /** Pairing a distinct-pid list with itself pairs each process with itself. */
  lemma {:induction false} ModifiedSelf(prefix: seq<ProcessInfo>, s: seq<ProcessInfo>, changed: (ProcessInfo, ProcessInfo) -> bool)
    requires DistinctPids(s) && |prefix| <= |s| && prefix == s[..|prefix|]
    requires forall p :: !changed(p, p)
    ensures ProcessesModified(prefix, s, changed) == []
  {
    if |prefix| > 0 {
      var n := |prefix| - 1;
      var b := prefix[n];
      assert b == s[n];
      var m := FirstWithPid(s, b.pid);
      assert m.Some?;
      assert m.value == n;
      assert prefix[..n] == s[..n];
      assert prefix == prefix[..n] + [b];
      ModifiedSnoc(prefix[..n], b, s, changed);
      ModifiedSelf(prefix[..n], s, changed);
    }
  }

  // ---------------------------------------------------------------------
  // The text form

  /** `tag`, a count, a newline, then the rest of the text. */
  function Line(tag: string, n: nat, rest: string): string
  {
    tag + (Text.NatToString(n) + ("\n" + rest))
  }

  /** `ComparisonResult::to_string`: the seven counts under fixed labels. */
  function ComparisonToString(r: ComparisonResult): string
  {
    var c := Counts(r);
    Line("Comparison Result:\nRegistry Changes:\n  Added: ", c[0],
    Line("  Removed: ", c[1],
    Line("  Modified: ", c[2],
    Line("Disk Changes: ", c[3],
    Line("Process Changes:\n  Added: ", c[4],
    Line("  Removed: ", c[5],
    Line("  Modified: ", c[6], "")))))))
  }

  /** Two lines under the same label agree only when their counts and their rests do. */
  lemma LineInjective(tag: string, x: nat, y: nat, r1: string, r2: string)
    requires Line(tag, x, r1) == Line(tag, y, r2)
    ensures x == y && r1 == r2
  {
    var s1 := Text.NatToString(x) + ("\n" + r1);
    var s2 := Text.NatToString(y) + ("\n" + r2);
    SplitAt(tag, s1, tag, s2);
    NewlineAfterDigits(x, r1);
    NewlineAfterDigits(y, r2);
    SplitAt(Text.NatToString(x), "\n" + r1, Text.NatToString(y), "\n" + r2);
    Text.NatToStringInjective(x, y);
    SplitAt("\n", r1, "\n", r2);
  }

  /** The first newline after a decimal is the one that ends it. */
  lemma NewlineAfterDigits(x: nat, r: string)
    ensures Text.FindFirst(Text.NatToString(x) + ("\n" + r), '\n') == Some(|Text.NatToString(x)|)
  {
    var d := Text.NatToString(x);
    var s := d + ("\n" + r);
    assert s[..|d|] == d;
    assert '\n' !in d by {
      forall i | 0 <= i < |d| ensures d[i] != '\n' {
        assert Text.IsDigit(d[i]);
      }
    }
    Text.FindFirstAt(s, '\n', |d|);
  }

  /** The text determines all seven counts. */
  lemma ComparisonToStringCounts(a: ComparisonResult, b: ComparisonResult)
    requires ComparisonToString(a) == ComparisonToString(b)
    ensures Counts(a) == Counts(b)
  {
    var c := Counts(a);
    var d := Counts(b);
    var a6 := Line("  Modified: ", c[6], "");
    var b6 := Line("  Modified: ", d[6], "");
    var a5 := Line("  Removed: ", c[5], a6);
    var b5 := Line("  Removed: ", d[5], b6);
    var a4 := Line("Process Changes:\n  Added: ", c[4], a5);
    var b4 := Line("Process Changes:\n  Added: ", d[4], b5);
    var a3 := Line("Disk Changes: ", c[3], a4);
    var b3 := Line("Disk Changes: ", d[3], b4);
    var a2 := Line("  Modified: ", c[2], a3);
    var b2 := Line("  Modified: ", d[2], b3);
    var a1 := Line("  Removed: ", c[1], a2);
    var b1 := Line("  Removed: ", d[1], b2);
    LineInjective("Comparison Result:\nRegistry Changes:\n  Added: ", c[0], d[0], a1, b1);
    LineInjective("  Removed: ", c[1], d[1], a2, b2);
    LineInjective("  Modified: ", c[2], d[2], a3, b3);
    LineInjective("Disk Changes: ", c[3], d[3], a4, b4);
    LineInjective("Process Changes:\n  Added: ", c[4], d[4], a5, b5);
    LineInjective("  Removed: ", c[5], d[5], a6, b6);
    LineInjective("  Modified: ", c[6], d[6], "", "");
  }
}
