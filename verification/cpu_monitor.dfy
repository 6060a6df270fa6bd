/**
 `CPUMonitor` and `SystemInfo` (cpu_monitor.cpp): the set-bit count, the
 two usage computations that share one pair of baseline counters, the
 per-core usages, the failure value of `GetCurrentUsage` and the
 architecture names.

 `GetSystemTimes` is the parameter `times` (idle, kernel, user; `None`
 when it fails) and the per-core `NtQuerySystemInformation` result is
 `cores` (`None` when the function is missing or the call fails).
 Percentages are exact reals.
 */
module CpuMonitor {
  import opened Common

  // ---------------------------------------------------------------------
  // Set bits

  /** The number of bits `i < n` set in `x`: the reference for the count. */
  function BitsBelow(x: nat, n: nat): nat
  {
    if n == 0 then 0 else BitsBelow(x, n - 1) + (if Bit(x, n - 1) then 1 else 0)
  }

  /** The count the shifting loop performs: the low bit, then the rest of the number. */
  function ShiftCount(x: nat): nat
  {
    if x == 0 then 0 else x % 2 + ShiftCount(x / 2)
  }

  lemma DivTwice(x: nat, p: nat)
    requires p >= 1
    ensures x / (2 * p) == (x / 2) / p
  {
    var q := (x / 2) / p;
    var r := (x / 2) % p;
    assert x / 2 == p * q + r;
    assert x == 2 * (x / 2) + x % 2;
    assert x == (2 * p) * q + (2 * r + x % 2);
    DivUnique(x, 2 * p, q, 2 * r + x % 2);
  }

  /** Bit `i + 1` of `x` is bit `i` of `x / 2`. */
  lemma BitOfHalf(x: nat, i: nat)
    ensures Bit(x, i + 1) == Bit(x / 2, i)
  {
    DivTwice(x, Pow2(i));
  }

  lemma {:induction false} ShiftCountIsBits(x: nat, n: nat)
    requires x < Pow2(n)
    ensures ShiftCount(x) == BitsBelow(x, n)
    decreases n
  {
    if n == 0 {
    } else if x == 0 {
      ZeroHasNoBits(n);
    } else {
      DivTwice(x, Pow2(n - 1));
      assert x / Pow2(n) == 0;
      ShiftCountIsBits(x / 2, n - 1);
      HalfBits(x, n - 1);
    }
  }

  lemma {:induction false} ZeroHasNoBits(n: nat)
    ensures BitsBelow(0, n) == 0
  {
    if n > 0 {
      ZeroHasNoBits(n - 1);
    }
  }

  /** The bits of `x` below `n + 1` are its low bit plus the bits of `x / 2` below `n`. */
  lemma {:induction false} HalfBits(x: nat, n: nat)
    ensures BitsBelow(x, n + 1) == x % 2 + BitsBelow(x / 2, n)
  {
    if n == 0 {
      assert Pow2(0) == 1;
      assert x / 1 == x;
    } else {
      HalfBits(x, n - 1);
      BitOfHalf(x, n - 1);
      assert BitsBelow(x, n + 1) == BitsBelow(x, n) + (if Bit(x, n) then 1 else 0);
      assert BitsBelow(x / 2, n) == BitsBelow(x / 2, n - 1) + (if Bit(x / 2, n - 1) then 1 else 0);
    }
  }

  /** `CountSetBits` on a 64-bit mask: shift right until nothing is left, adding each low bit. */
  method CountSetBits(mask: u64) returns (count: u32)
    ensures count == BitsBelow(mask, 64)
    ensures count <= 64
    ensures count == 0 <==> mask == 0
  {
    var m: nat := mask;
    var c := 0;
    Pow2Is64();
    ShiftCountIsBits(mask, 64);
    BitsBelowAtMost(mask, 64);
    while m != 0
      invariant c + ShiftCount(m) == ShiftCount(mask)
      decreases m
    {
      c := c + m % 2;
      m := m / 2;
    }
    ShiftCountPositive(mask);
    count := c;
  }

  lemma {:induction false} BitsBelowAtMost(x: nat, n: nat)
    ensures BitsBelow(x, n) <= n
  {
    if n > 0 {
      BitsBelowAtMost(x, n - 1);
    }
  }

  lemma Pow2Is64()
    ensures Pow2(64) == TWO_64
  {
    assert Pow2(2) == 4;
    Pow2Add(2, 2);
    Pow2Add(4, 4);
    assert Pow2(16) == 65536 by { Pow2Add(8, 8); }
    assert Pow2(32) == 0x1_0000_0000 by { Pow2Add(16, 16); }
    Pow2Add(32, 32);
  }

  lemma {:induction false} Pow2Add(a: nat, b: nat)
    ensures Pow2(a + b) == Pow2(a) * Pow2(b)
    decreases b
  {
    if b > 0 {
      Pow2Add(a, b - 1);
    }
  }

  lemma {:induction false} ShiftCountPositive(x: nat)
    ensures ShiftCount(x) == 0 <==> x == 0
  {
    if x > 0 {
      if x % 2 == 0 {
        assert x / 2 > 0;
        ShiftCountPositive(x / 2);
      }
    }
  }

  // ---------------------------------------------------------------------
  // Overall usage

  /** `GetSystemTimes`' three counters. */
  datatype SystemTimes = SystemTimes(idle: u64, kernel: u64, user: u64)

  /** The baselines `CalculateUsage` and `UpdateUsageData` share, and the atomic usage. */
  datatype CpuState = CpuState(lastTotalTime: u64, lastIdleTime: u64, currentUsage: real, cores: CoreState)

  /** Busy time: kernel plus user, in `uint64_t`. */
  function TotalTime(t: SystemTimes): u64
  {
    Add64(t.kernel, t.user)
  }

  /** The clamp of `CalculateUsage`: 100·(Δtotal − Δidle)/Δtotal with the subtraction in `uint64_t`. */
  function WrappedShare(totalDiff: u64, idleDiff: u64): (r: real)
    requires totalDiff > 0
    ensures 0.0 <= r <= 100.0
    ensures idleDiff <= totalDiff ==> r * totalDiff as real == 100.0 * (totalDiff - idleDiff) as real
    ensures idleDiff > totalDiff ==> r == 100.0
  {
    var busy := Sub64(totalDiff, idleDiff);
    if idleDiff > totalDiff then
      assert busy >= totalDiff;
      WholeAtLeast(busy as real, totalDiff as real);
      Clamp(100.0 * busy as real / totalDiff as real, 0.0, 100.0)
    else
      ShareBounds((totalDiff - idleDiff) as real, totalDiff as real);
      Clamp(100.0 * busy as real / totalDiff as real, 0.0, 100.0)
  }

  lemma WholeAtLeast(part: real, whole: real)
    requires part >= whole > 0.0
    ensures 100.0 * part / whole >= 100.0
  {
    assert part / whole >= 1.0;
  }

  lemma ShareBounds(part: real, whole: real)
    requires 0.0 <= part <= whole && whole > 0.0
    ensures 0.0 <= 100.0 * part / whole <= 100.0
    ensures (100.0 * part / whole) * whole == 100.0 * part
  {
    assert part / whole <= 1.0;
  }

  /** The clamp of `UpdateUsageData`: the same share with the subtraction done on doubles, so it never wraps. */
  function SignedShare(totalDiff: u64, idleDiff: u64): (r: real)
    requires totalDiff > 0
    ensures 0.0 <= r <= 100.0
    ensures idleDiff <= totalDiff ==> r * totalDiff as real == 100.0 * (totalDiff - idleDiff) as real
    ensures idleDiff >= totalDiff ==> r == 0.0
  {
    var raw := 100.0 * (totalDiff as real - idleDiff as real) / totalDiff as real;
    if idleDiff <= totalDiff then
      ShareBounds((totalDiff - idleDiff) as real, totalDiff as real);
      Clamp(raw, 0.0, 100.0)
    else
      assert totalDiff as real - idleDiff as real < 0.0;
      Clamp(raw, 0.0, 100.0)
  }

  /**
   `CalculateUsage`: a failed query gives −1 and changes nothing; a zero
   baseline records the sample and gives 0; otherwise the sample replaces
   the baselines and the usage is the busy share of the interval.
   */
  function CalculateUsage(st: CpuState, times: Option<SystemTimes>): (r: (real, CpuState))
    ensures times.None? ==> r == (-1.0, st)
    ensures times.Some? ==> r.1 == st.(lastTotalTime := TotalTime(times.value), lastIdleTime := times.value.idle)
    ensures times.Some? ==> 0.0 <= r.0 <= 100.0
    ensures times.Some? && (st.lastTotalTime == 0 || st.lastIdleTime == 0) ==> r.0 == 0.0
    ensures times.Some? && Sub64(TotalTime(times.value), st.lastTotalTime) == 0 ==> r.0 == 0.0
    ensures times.Some? && st.lastTotalTime != 0 && st.lastIdleTime != 0 && Sub64(TotalTime(times.value), st.lastTotalTime) > 0 ==>
      r.0 == WrappedShare(Sub64(TotalTime(times.value), st.lastTotalTime), Sub64(times.value.idle, st.lastIdleTime))
  {
    match times
    case None => (-1.0, st)
    case Some(t) =>
      var next := st.(lastTotalTime := TotalTime(t), lastIdleTime := t.idle);
      if st.lastTotalTime == 0 || st.lastIdleTime == 0 then (0.0, next)
      else
        var totalDiff := Sub64(TotalTime(t), st.lastTotalTime);
        var idleDiff := Sub64(t.idle, st.lastIdleTime);
        if totalDiff == 0 then (0.0, next) else (WrappedShare(totalDiff, idleDiff), next)
  }

  // ---------------------------------------------------------------------
  // Per-core usage

  /** The per-core baselines and usages, index-aligned. */
  datatype CoreState = CoreState(lastTotals: seq<u64>, lastIdles: seq<u64>, usages: seq<real>)

  /** One core's counters from `SYSTEM_PROCESSOR_PERFORMANCE_INFORMATION`. */
  datatype CoreTimes = CoreTimes(idle: u64, kernel: u64, user: u64)

  /** One core's usage: 0 on its first sample (both baselines 0) or an empty interval, else the clamped share. */
  function CoreUsage(lastTotal: u64, lastIdle: u64, c: CoreTimes): (r: real)
    ensures 0.0 <= r <= 100.0
    ensures lastTotal == 0 && lastIdle == 0 ==> r == 0.0
  {
    if lastTotal != 0 || lastIdle != 0 then
      var totalDiff := Sub64(Add64(c.kernel, c.user), lastTotal);
      if totalDiff > 0 then SignedShare(totalDiff, Sub64(c.idle, lastIdle)) else 0.0
    else 0.0
  }

  /** Baselines of the right length: kept when the count matches, else all zero. */
  function ResetIfResized(cs: CoreState, count: nat): (r: CoreState)
    ensures |r.lastTotals| == count && |r.lastIdles| == count
    ensures (|cs.lastTotals| == count && |cs.lastIdles| == count) ==> r.lastTotals == cs.lastTotals && r.lastIdles == cs.lastIdles
  {
    if |cs.lastTotals| != count then
      CoreState(seq(count, _ => 0), seq(count, _ => 0), seq(count, _ => 0.0))
    else if |cs.lastIdles| != count then
      // Never reached from a state this model builds: the two sequences are resized together.
      CoreState(cs.lastTotals, seq(count, _ => 0), seq(count, _ => 0.0))
    else cs
  }

  /**
   The per-core part of `UpdateUsageData`: after a successful query every
   core has a usage in [0, 100] and its sample becomes its baseline; a core
   count that changed resets the baselines first, so every core starts
   again at 0. A failed query leaves the cores alone.
   */
  method UpdateCores(cs: CoreState, count: nat, info: Option<seq<CoreTimes>>) returns (r: CoreState)
    requires info.Some? ==> |info.value| == count
    requires |cs.usages| == |cs.lastTotals| == |cs.lastIdles|
    ensures |r.usages| == |r.lastTotals| == |r.lastIdles|
    ensures info.None? ==> r == cs
    ensures info.Some? ==> |r.usages| == count
    ensures info.Some? ==> forall i :: 0 <= i < count ==>
      && 0.0 <= r.usages[i] <= 100.0
      && r.lastTotals[i] == Add64(info.value[i].kernel, info.value[i].user)
      && r.lastIdles[i] == info.value[i].idle
    ensures info.Some? && |cs.lastTotals| != count ==> forall i :: 0 <= i < count ==> r.usages[i] == 0.0
  {
    if info.None? {
      return cs;
    }
    var base := ResetIfResized(cs, count);
    var totals := base.lastTotals;
    var idles := base.lastIdles;
    var usages: seq<real> := [];
    var i := 0;
    while i < count
      invariant 0 <= i <= count
      invariant |totals| == count && |idles| == count && |usages| == i
      invariant forall j :: i <= j < count ==> totals[j] == base.lastTotals[j] && idles[j] == base.lastIdles[j]
      invariant forall j :: 0 <= j < i ==>
        && 0.0 <= usages[j] <= 100.0
        && totals[j] == Add64(info.value[j].kernel, info.value[j].user)
        && idles[j] == info.value[j].idle
      invariant |cs.lastTotals| != count ==> forall j :: 0 <= j < i ==> usages[j] == 0.0
    {
      var c := info.value[i];
      var u := CoreUsage(totals[i], idles[i], c);
      usages := usages + [u];
      totals := totals[i := Add64(c.kernel, c.user)];
      idles := idles[i := c.idle];
      i := i + 1;
    }
    r := CoreState(totals, idles, usages);
  }

  // ---------------------------------------------------------------------
  // UpdateUsageData and GetCurrentUsage

  /**
   `UpdateUsageData`: a failed `GetSystemTimes` returns false and changes
   nothing. Otherwise the overall usage is 0 on a zero baseline or an empty
   interval and the clamped busy share otherwise, the baselines are
   replaced, and the cores are updated from their own query.
   */
  method UpdateUsageData(st: CpuState, times: Option<SystemTimes>, coreCount: nat, info: Option<seq<CoreTimes>>)
    returns (ok: bool, r: CpuState)
    requires info.Some? ==> |info.value| == coreCount
    requires |st.cores.usages| == |st.cores.lastTotals| == |st.cores.lastIdles|
    ensures ok <==> times.Some?
    ensures !ok ==> r == st
    ensures ok ==> r.lastTotalTime == TotalTime(times.value) && r.lastIdleTime == times.value.idle
    ensures ok ==> 0.0 <= r.currentUsage <= 100.0
    ensures ok && (st.lastTotalTime == 0 || st.lastIdleTime == 0) ==> r.currentUsage == 0.0
    ensures ok && st.lastTotalTime != 0 && st.lastIdleTime != 0 ==>
      var totalDiff := Sub64(TotalTime(times.value), st.lastTotalTime);
      r.currentUsage == (if totalDiff == 0 then 0.0 else SignedShare(totalDiff, Sub64(times.value.idle, st.lastIdleTime)))
    ensures |r.cores.usages| == |r.cores.lastTotals| == |r.cores.lastIdles|
    ensures ok && info.Some? ==> |r.cores.usages| == coreCount && forall i :: 0 <= i < coreCount ==> 0.0 <= r.cores.usages[i] <= 100.0
  {
    if times.None? {
      return false, st;
    }
    var t := times.value;
    var usage := 0.0;
    if st.lastTotalTime != 0 && st.lastIdleTime != 0 {
      var totalDiff := Sub64(TotalTime(t), st.lastTotalTime);
      var idleDiff := Sub64(t.idle, st.lastIdleTime);
      if totalDiff > 0 {
        usage := SignedShare(totalDiff, idleDiff);
      }
    }
    var cores := UpdateCores(st.cores, coreCount, info);
    return true, CpuState(TotalTime(t), t.idle, usage, cores);
  }

  /** What `GetCurrentUsage` reports. */
  datatype CpuUsage = CpuUsage(totalUsage: real, coreUsages: seq<real>, timestamp: u64)

  /** `GetCurrentUsage`: −1 with no core usages when the update fails, else the stored usages. */
  method GetCurrentUsage(st: CpuState, now: u64, times: Option<SystemTimes>, coreCount: nat, info: Option<seq<CoreTimes>>)
    returns (u: CpuUsage, r: CpuState)
    requires info.Some? ==> |info.value| == coreCount
    requires |st.cores.usages| == |st.cores.lastTotals| == |st.cores.lastIdles|
    ensures u.timestamp == now
    ensures times.None? <==> u.totalUsage == -1.0
    ensures times.None? ==> u.coreUsages == [] && r == st
    ensures times.Some? ==> 0.0 <= u.totalUsage <= 100.0 && u.coreUsages == r.cores.usages
  {
    var ok;
    ok, r := UpdateUsageData(st, times, coreCount, info);
    if !ok {
      return CpuUsage(-1.0, [], now), r;
    }
    u := CpuUsage(r.currentUsage, r.cores.usages, now);
  }

  /**
   The two computations part ways when the idle counter advanced more than
   the busy one: `CalculateUsage` wraps to 100, `UpdateUsageData` clamps to 0.
   */
  method IdleOvershootDisagrees(st: CpuState, t: SystemTimes, coreCount: nat, info: Option<seq<CoreTimes>>)
    returns (calculated: real, stored: real)
    requires info.Some? ==> |info.value| == coreCount
    requires |st.cores.usages| == |st.cores.lastTotals| == |st.cores.lastIdles|
    requires st.lastTotalTime != 0 && st.lastIdleTime != 0
    requires 0 < Sub64(TotalTime(t), st.lastTotalTime) < Sub64(t.idle, st.lastIdleTime)
    ensures calculated == 100.0
    ensures stored == 0.0
  {
    calculated := CalculateUsage(st, Some(t)).0;
    var ok, r := UpdateUsageData(st, Some(t), coreCount, info);
    stored := r.currentUsage;
  }

  /** Whenever the idle counter advanced no more than the busy one, the two computations agree. */
  lemma SharesAgree(totalDiff: u64, idleDiff: u64)
    requires 0 < totalDiff && idleDiff <= totalDiff
    ensures WrappedShare(totalDiff, idleDiff) == SignedShare(totalDiff, idleDiff)
  {
    var w := WrappedShare(totalDiff, idleDiff);
    var s := SignedShare(totalDiff, idleDiff);
    assert w * totalDiff as real == s * totalDiff as real;
  }

  // ---------------------------------------------------------------------
  // Architecture

  const PROCESSOR_ARCHITECTURE_INTEL: nat := 0
  const PROCESSOR_ARCHITECTURE_ARM: nat := 5
  const PROCESSOR_ARCHITECTURE_IA64: nat := 6
  const PROCESSOR_ARCHITECTURE_AMD64: nat := 9

  /** The `switch` of `GetCPUInfo` on `wProcessorArchitecture`. */
  function ArchitectureName(code: nat): string
  {
    if code == PROCESSOR_ARCHITECTURE_AMD64 then "x64"
    else if code == PROCESSOR_ARCHITECTURE_ARM then "ARM"
    else if code == PROCESSOR_ARCHITECTURE_IA64 then "Intel Itanium"
    else if code == PROCESSOR_ARCHITECTURE_INTEL then "x86"
    else "Unknown"
  }

  /** The code a name stands for, the table read backwards. */
  function ArchitectureCode(name: string): Option<nat>
  {
    if name == "x64" then Some(PROCESSOR_ARCHITECTURE_AMD64)
    else if name == "ARM" then Some(PROCESSOR_ARCHITECTURE_ARM)
    else if name == "Intel Itanium" then Some(PROCESSOR_ARCHITECTURE_IA64)
    else if name == "x86" then Some(PROCESSOR_ARCHITECTURE_INTEL)
    else None
  }

  /** The four listed codes have distinct names that read back to them; every other code is "Unknown". */
  lemma ArchitectureTable(code: nat)
    ensures ArchitectureCode(ArchitectureName(code)) == Some(code) <==>
      code in {PROCESSOR_ARCHITECTURE_INTEL, PROCESSOR_ARCHITECTURE_ARM, PROCESSOR_ARCHITECTURE_IA64, PROCESSOR_ARCHITECTURE_AMD64}
    ensures ArchitectureCode(ArchitectureName(code)).None? <==> ArchitectureName(code) == "Unknown"
  {
  }
}
