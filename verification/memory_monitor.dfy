/**
 `MemoryMonitor::UpdateUsageData` (memory_monitor.cpp): one reading of
 the physical-memory counters turned into used bytes and a percentage.
 The reading of `GlobalMemoryStatusEx` is the parameter `status` (`None`
 when the call fails) and the tick count is `tick`.
 */
module MemoryMonitor {
  import opened Common

  datatype MemoryUsage = MemoryUsage(
    totalPhysical: u64, availablePhysical: u64, usedPhysical: u64, usedPercent: real, timestamp: u64)

  /** The guarded record and the atomic copy of the percentage. */
  datatype MemoryState = MemoryState(usage: MemoryUsage, currentUsage: real)

  /** The constructor's state: every field 0. */
  const INITIAL_STATE: MemoryState := MemoryState(MemoryUsage(0, 0, 0, 0.0, 0), 0.0)

  /** Used bytes: total − available when the total is larger, else 0. */
  function UsedBytes(total: u64, avail: u64): (used: u64)
    ensures used <= total
    ensures avail <= total ==> used + avail == total
    ensures total <= avail ==> used == 0
  {
    if total > avail then total - avail else 0
  }

  /** 100·used/total, 0 for a zero total, clamped to [0, 100]. */
  function UsedPercent(used: u64, total: u64): (p: real)
    ensures 0.0 <= p <= 100.0
    ensures total == 0 ==> p == 0.0
    ensures 0 < total && used <= total ==> p * total as real == 100.0 * used as real
  {
    var raw := if total != 0 then 100.0 * used as real / total as real else 0.0;
    assert total != 0 && used <= total ==> raw <= 100.0 by {
      if total != 0 && used <= total {
        FractionAtMostWhole(used as real, total as real);
      }
    }
    Clamp(raw, 0.0, 100.0)
  }

  lemma FractionAtMostWhole(part: real, whole: real)
    requires 0.0 <= part <= whole && whole > 0.0
    ensures 100.0 * part / whole <= 100.0
  {
    assert part / whole <= 1.0;
  }

  /**
   `UpdateUsageData`: a failed status query returns false and changes
   nothing; otherwise all five fields are replaced together and the atomic
   percentage is the stored one.
   */
  function UpdateUsageData(st: MemoryState, status: Option<(u64, u64)>, tick: u64): (r: (bool, MemoryState))
    ensures r.0 <==> status.Some?
    ensures status.None? ==> r.1 == st
    ensures status.Some? ==>
      var (total, avail) := status.value;
      && r.1.usage.totalPhysical == total && r.1.usage.availablePhysical == avail
      && r.1.usage.usedPhysical == UsedBytes(total, avail) && r.1.usage.timestamp == tick
      && r.1.currentUsage == r.1.usage.usedPercent
      && 0.0 <= r.1.usage.usedPercent <= 100.0
      && (total == 0 ==> r.1.usage.usedPercent == 0.0)
      && (total > 0 ==> r.1.usage.usedPercent * total as real == 100.0 * r.1.usage.usedPhysical as real)
  {
    match status
    case None => (false, st)
    case Some((total, avail)) =>
      var used := UsedBytes(total, avail);
      var percent := UsedPercent(used, total);
      (true, MemoryState(MemoryUsage(total, avail, used, percent, tick), percent))
  }

  /** The clamp never acts: used bytes never exceed the total, so the percentage is exactly the used share. */
  lemma PercentIsUsedShare(st: MemoryState, total: u64, avail: u64, tick: u64)
    requires total > 0
    ensures var s := UpdateUsageData(st, Some((total, avail)), tick).1;
      s.usage.usedPercent * total as real == 100.0 * s.usage.usedPhysical as real
      && (avail >= total <==> s.usage.usedPercent == 0.0)
  {
    var s := UpdateUsageData(st, Some((total, avail)), tick).1;
    if avail < total {
      assert s.usage.usedPhysical > 0;
      assert s.usage.usedPercent * total as real > 0.0;
    }
  }

  /** A reading replaces the whole record: the state before it does not matter. */
  lemma UpdateForgetsPrevious(a: MemoryState, b: MemoryState, status: (u64, u64), tick: u64)
    ensures UpdateUsageData(a, Some(status), tick) == UpdateUsageData(b, Some(status), tick)
  {
  }
}
