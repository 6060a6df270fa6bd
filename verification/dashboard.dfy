/**
 The dashboard's small displays (webclient/main.js): the server uptime
 as `D天 HH:MM:SS`, and the good / warning / critical indicators for CPU,
 memory and the disks.
 */
module Dashboard {
  import opened Common
  import opened Text

  // ---------------------------------------------------------------------
  // Uptime

  datatype Uptime = Uptime(days: nat, hours: nat, minutes: nat, secs: nat)

  /** The four parts of `updateUptimeFromServer`: whole days, then hours, minutes and seconds of the rest. */
  function SplitUptime(s: nat): (u: Uptime)
    ensures u.days * 86400 + u.hours * 3600 + u.minutes * 60 + u.secs == s
    ensures u.hours < 24 && u.minutes < 60 && u.secs < 60
  {
    UptimeArithmetic(s);
    Uptime(s / 86400, (s % 86400) / 3600, (s % 3600) / 60, s % 60)
  }

  /** The remainders by 3600 and 60 are those of the day's rest: the parts add back up to `s`. */
  lemma UptimeArithmetic(s: nat)
    ensures (s / 86400) * 86400 + ((s % 86400) / 3600) * 3600 + ((s % 3600) / 60) * 60 + s % 60 == s
    ensures (s % 86400) / 3600 < 24 && (s % 3600) / 60 < 60
  {
    var days, rest := s / 86400, s % 86400;
    var hours, inHour := rest / 3600, rest % 3600;
    assert s == 86400 * days + rest;
    assert rest == 3600 * hours + inHour;
    DivUnique(s, 3600, 24 * days + hours, inHour);
    var minutes, secs := inHour / 60, inHour % 60;
    assert inHour == 60 * minutes + secs;
    DivUnique(s, 60, 60 * (24 * days + hours) + minutes, secs);
  }

  /** `n.toString().padStart(2, '0')`. */
  function Pad2(n: nat): (r: string)
    ensures n < 100 ==> |r| == 2 && AllDigits(r) && DecimalValue(r) == n
  {
    var digits := NatToString(n);
    if |digits| < 2 then
      assert DecimalValue("0" + digits) == DecimalValue(digits) by {
        assert ("0" + digits)[..1] == "0";
      }
      "0" + digits
    else
      assert n < 100 ==> |digits| == 2 by {
        if n < 100 && |digits| > 2 {
          assert DecimalValue(digits) >= 100 by { DecimalAtLeast(digits); }
        }
      }
      digits
  }

  /** A shortest decimal of three or more digits is at least 100. */
  lemma DecimalAtLeast(s: string)
    requires |s| >= 3 && AllDigits(s) && s[0] != '0'
    ensures DecimalValue(s) >= 100
  {
    DecimalLowerBound(s, |s|);
  }

  lemma {:induction false} DecimalLowerBound(s: string, n: nat)
    requires n == |s| >= 1 && AllDigits(s) && s[0] != '0'
    ensures DecimalValue(s) >= Pow10(n - 1)
  {
    if n > 1 {
      var init := s[..|s| - 1];
      assert init[0] == s[0];
      DecimalLowerBound(init, n - 1);
    } else {
      assert s[0] != '0' && IsDigit(s[0]);
    }
  }

  function Pow10(n: nat): nat
  {
    if n == 0 then 1 else 10 * Pow10(n - 1)
  }

  /** The uptime text. */
  function FormatUptime(s: nat): string
  {
    var u := SplitUptime(s);
    NatToString(u.days) + "天 " + Pad2(u.hours) + ":" + Pad2(u.minutes) + ":" + Pad2(u.secs)
  }

  /** Different uptimes never display alike: the text determines the number of seconds. */
  lemma FormatUptimeInjective(a: nat, b: nat)
    requires FormatUptime(a) == FormatUptime(b)
    ensures a == b
  {
    var u, v := SplitUptime(a), SplitUptime(b);
    var du, dv := NatToString(u.days) + "天 ", NatToString(v.days) + "天 ";
    SplitAt(du + Pad2(u.hours) + ":" + Pad2(u.minutes) + ":", Pad2(u.secs), dv + Pad2(v.hours) + ":" + Pad2(v.minutes) + ":", Pad2(v.secs));
    SplitAt(du + Pad2(u.hours) + ":" + Pad2(u.minutes), ":", dv + Pad2(v.hours) + ":" + Pad2(v.minutes), ":");
    SplitAt(du + Pad2(u.hours) + ":", Pad2(u.minutes), dv + Pad2(v.hours) + ":", Pad2(v.minutes));
    SplitAt(du + Pad2(u.hours), ":", dv + Pad2(v.hours), ":");
    SplitAt(du, Pad2(u.hours), dv, Pad2(v.hours));
    SplitAt(NatToString(u.days), "天 ", NatToString(v.days), "天 ");
    NatToStringInjective(u.days, v.days);
    assert u == v;
  }

  // ---------------------------------------------------------------------
  // Status indicators

  datatype Status = Good | Warning | Critical

  function Severity(s: Status): nat
  {
    match s
    case Good => 0
    case Warning => 1
    case Critical => 2
  }

  /** `updateStatusIndicators`, CPU: above 95 critical, above 80 warning. */
  function CpuStatus(usage: real): Status
  {
    if usage > 95.0 then Critical else if usage > 80.0 then Warning else Good
  }

  /** `updateStatusIndicators`, memory: above 90 critical, above 75 warning. */
  function MemoryStatus(usage: real): Status
  {
    if usage > 90.0 then Critical else if usage > 75.0 then Warning else Good
  }

  /**
   Both indicators only get worse as usage rises, and memory is the
   stricter one: at any usage it is at least as severe as CPU.
   */
  lemma StatusMonotone(a: real, b: real)
    requires a <= b
    ensures Severity(CpuStatus(a)) <= Severity(CpuStatus(b))
    ensures Severity(MemoryStatus(a)) <= Severity(MemoryStatus(b))
    ensures Severity(CpuStatus(a)) <= Severity(MemoryStatus(a))
    ensures CpuStatus(a) == Good <==> a <= 80.0
    ensures MemoryStatus(a) == Good <==> a <= 75.0
  {
  }

  /** One disk row: the two sizes in bytes and the two speeds in MB/s. */
  datatype Disk = Disk(usedSpace: nat, totalSize: nat, readSpeed: real, writeSpeed: real)

  /**
   `Math.round(used / total * 100)` against 90 and 80. A zero total with
   used space divides to Infinity, which is above both; zero by zero is
   NaN, which is above neither.
   */
  function SpaceStatus(d: Disk): Status
  {
    if d.totalSize == 0 then (if d.usedSpace > 0 then Critical else Good)
    else
      var percent := (200 * d.usedSpace + d.totalSize) / (2 * d.totalSize);
      if percent > 90 then Critical else if percent > 80 then Warning else Good
  }

  /** The IO rule: read above 8 or write above 4 critical, read above 5 or write above 2 warning. */
  function IoStatus(d: Disk): Status
  {
    if d.readSpeed > 8.0 || d.writeSpeed > 4.0 then Critical
    else if d.readSpeed > 5.0 || d.writeSpeed > 2.0 then Warning
    else Good
  }

  function Worse(a: Status, b: Status): (r: Status)
    ensures Severity(r) == if Severity(a) >= Severity(b) then Severity(a) else Severity(b)
    ensures r == a || r == b
  {
    if Severity(a) >= Severity(b) then a else b
  }

  /** The worst status over the disks by one rule: critical if any disk is, else warning if any is. */
  function WorstBy(ds: seq<Disk>, rule: Disk -> Status): (r: Status)
    ensures r == Critical <==> exists i :: 0 <= i < |ds| && rule(ds[i]) == Critical
    ensures r == Good <==> forall i :: 0 <= i < |ds| ==> rule(ds[i]) == Good
  {
    if |ds| == 0 then Good
    else
      var init := ds[..|ds| - 1];
      var w := WorstBy(init, rule);
      assert forall i :: 0 <= i < |init| ==> init[i] == ds[i];
      Worse(w, rule(ds[|ds| - 1]))
  }

  /** One `forEach` pass: the critical flag and the warning flag it leaves set. */
  method FlagPass(ds: seq<Disk>, rule: Disk -> Status) returns (hasCritical: bool, hasWarning: bool)
    ensures hasCritical <==> exists j :: 0 <= j < |ds| && rule(ds[j]) == Critical
    ensures hasWarning <==> exists j :: 0 <= j < |ds| && rule(ds[j]) == Warning
  {
    hasCritical := false;
    hasWarning := false;
    var i := 0;
    while i < |ds|
      invariant 0 <= i <= |ds|
      invariant hasCritical <==> exists j :: 0 <= j < i && rule(ds[j]) == Critical
      invariant hasWarning <==> exists j :: 0 <= j < i && rule(ds[j]) == Warning
    {
      var s := rule(ds[i]);
      if s == Critical {
        hasCritical := true;
      } else if s == Warning {
        hasWarning := true;
      }
      i := i + 1;
    }
  }

  /**
   `updateDiskOverallStatus`: the space pass sets the two flags; only when
   it set neither does the IO pass run. An empty list changes nothing.
   */
  method DiskOverallStatus(ds: seq<Disk>) returns (r: Option<Status>)
    ensures |ds| == 0 <==> r.None?
    ensures r.Some? ==> r.value == if WorstBy(ds, SpaceStatus) != Good then WorstBy(ds, SpaceStatus) else WorstBy(ds, IoStatus)
  {
    if |ds| == 0 {
      return None;
    }
    var hasCritical, hasWarning := FlagPass(ds, SpaceStatus);
    if !hasCritical && !hasWarning {
      hasCritical, hasWarning := FlagPass(ds, IoStatus);
    }
    if hasCritical {
      r := Some(Critical);
    } else if hasWarning {
      r := Some(Warning);
    } else {
      r := Some(Good);
    }
  }

  /**
   Space outranks IO: once any disk's space is at warning level, the IO
   speeds are not looked at, however high they are.
   */
  lemma SpaceWarningHidesIo(ds: seq<Disk>, i: nat)
    requires i < |ds| && SpaceStatus(ds[i]) == Warning
    requires forall j :: 0 <= j < |ds| ==> SpaceStatus(ds[j]) != Critical
    ensures WorstBy(ds, SpaceStatus) == Warning
  {
  }
}
