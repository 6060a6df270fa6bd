/**
 The pure parts of `snapshot::Logger` (AsyncLogger.h): level order and
 gating, level names, the file-name part of `__FILE__`, the layout of a
 log line and the retention rule of `cleanupOldFiles`. The clock, the
 files, the console and the mutex are left out; the directory listing is
 the parameter `entries`.
 */
module Logger {
  import opened Common
  import opened Text

  // ---------------------------------------------------------------------
  // Levels

  datatype LogLevel = Debug | Info | Warning | Error

  /** The enumerator's value: the order `level < currentLevel_` compares. */
  function Rank(l: LogLevel): nat
  {
    match l
    case Debug => 0
    case Info => 1
    case Warning => 2
    case Error => 3
  }

  /** A message is written when its level is at least the current level. */
  predicate Emits(level: LogLevel, current: LogLevel)
  {
    !(Rank(level) < Rank(current))
  }

  /** The constructor's settings. */
  const DEFAULT_LEVEL: LogLevel := Info
  const DEFAULT_LOG_DIR: string := "logs"
  const DEFAULT_BASE_NAME: string := "app"
  const DEFAULT_MAX_FILE_SIZE: nat := 10 * 1024 * 1024
  const DEFAULT_MAX_FILES: int := 5

  /** The gate is a total order: every level passes itself, and raising the current level only removes messages. */
  lemma GateMonotone(level: LogLevel, lower: LogLevel, higher: LogLevel)
    requires Rank(lower) <= Rank(higher)
    ensures Emits(level, level)
    ensures Emits(level, higher) ==> Emits(level, lower)
    ensures Emits(Error, level) && Emits(level, Debug)
  {
  }

  /** Under WARNING the debug and info messages are dropped and the others kept; by default only DEBUG is dropped. */
  lemma WarningGate(level: LogLevel)
    ensures Emits(level, Warning) <==> level == Warning || level == Error
    ensures Emits(level, DEFAULT_LEVEL) <==> level != Debug
  {
  }

  /** `levelToString`. */
  function LevelName(l: LogLevel): (r: string)
    ensures |r| >= 4 && ']' !in r
  {
    match l
    case Debug => "DEBUG"
    case Info => "INFO"
    case Warning => "WARN"
    case Error => "ERROR"
  }

  /** The level a name stands for. */
  function LevelFromName(name: string): Option<LogLevel>
  {
    if name == "DEBUG" then Some(Debug)
    else if name == "INFO" then Some(Info)
    else if name == "WARN" then Some(Warning)
    else if name == "ERROR" then Some(Error)
    else None
  }

  /** Every level's name reads back to it, so no two levels share a name. */
  lemma LevelNameRoundTrip(l: LogLevel, m: LogLevel)
    ensures LevelFromName(LevelName(l)) == Some(l)
    ensures LevelName(l) == LevelName(m) ==> l == m
  {
  }

  // ---------------------------------------------------------------------
  // File names

  predicate IsSeparator(c: char) { c == '/' || c == '\\' }

  /** The characters of a C string: everything before the first NUL. */
  function CString(s: string): (r: string)
    ensures StartsWith(s, r) && '\0' !in r
    ensures '\0' !in s ==> r == s
  {
    match FindFirst(s, '\0')
    case None => s
    case Some(k) => s[..k]
  }

  /** Where the file name starts: just after the last separator, or 0 when there is none. */
  function FileNameStart(s: string): (r: nat)
    ensures r <= |s|
    ensures forall i :: r <= i < |s| ==> !IsSeparator(s[i])
    ensures r > 0 ==> IsSeparator(s[r - 1])
  {
    if |s| == 0 then 0
    else if IsSeparator(s[|s| - 1]) then |s|
    else FileNameStart(s[..|s| - 1])
  }

  /**
   `extractFileName`: scan the C string and remember the position after
   each separator. The result is the longest separator-free tail: the
   whole string when it has no separator.
   */
  method ExtractFileName(path: string) returns (name: string)
    ensures var c := CString(path); name == c[FileNameStart(c)..]
    ensures forall i :: 0 <= i < |name| ==> !IsSeparator(name[i])
    ensures var c := CString(path); (forall i :: 0 <= i < |c| ==> !IsSeparator(c[i])) ==> name == c
  {
    var start := 0;
    var i := 0;
    while i < |path| && path[i] != '\0'
      invariant 0 <= i <= |path|
      invariant '\0' !in path[..i]
      invariant start == FileNameStart(path[..i])
    {
      assert path[..i + 1][..i] == path[..i];
      if IsSeparator(path[i]) {
        start := i + 1;
      }
      i := i + 1;
    }
    var c := CString(path);
    if i < |path| {
      FindFirstAt(path, '\0', i);
    }
    assert c == path[..i];
    name := path[start..i];
    assert name == c[start..];
    if forall j :: 0 <= j < |c| ==> !IsSeparator(c[j]) {
      NoSeparatorStartsAtZero(c);
    }
  }

  lemma {:induction false} NoSeparatorStartsAtZero(s: string)
    requires forall i :: 0 <= i < |s| ==> !IsSeparator(s[i])
    ensures FileNameStart(s) == 0
  {
    if |s| > 0 {
      NoSeparatorStartsAtZero(s[..|s| - 1]);
    }
  }

  // ---------------------------------------------------------------------
  // Lines

  /** A formatted line: `[time][LEVEL][file:line] message`. */
  function FormatLine(time: string, level: LogLevel, fileName: string, line: int, message: string): (r: string)
    ensures StartsWith(r, "[" + time + "][" + LevelName(level) + "]")
    ensures |r| >= |message| && r[|r| - |message|..] == message
  {
    var head := "[" + time + "][" + LevelName(level) + "]";
    var r := head + "[" + fileName + ":" + IntToString(line) + "] " + message;
    assert r[..|head|] == head;
    assert r[|r| - |message|..] == message;
    r
  }

  /** The level written in a line's second bracket, when it names one. */
  function ParseLevel(line: string): Option<LogLevel>
  {
    match FindFirst(line, ']')
    case None => None
    case Some(i) =>
      if i + 2 <= |line| && line[i + 1] == '[' then
        var rest := line[i + 2..];
        match FindFirst(rest, ']')
        case None => None
        case Some(j) => LevelFromName(rest[..j])
      else None
  }

  /** A line's level can be read back from it, as long as the time stamp holds no ']'. */
  lemma FormatThenParse(time: string, level: LogLevel, fileName: string, line: int, message: string)
    requires ']' !in time
    ensures ParseLevel(FormatLine(time, level, fileName, line, message)) == Some(level)
  {
    HeaderParses(FormatLine(time, level, fileName, line, message), time, level);
  }

  lemma HeaderParses(r: string, time: string, level: LogLevel)
    requires ']' !in time
    requires StartsWith(r, "[" + time + "][" + LevelName(level) + "]")
    ensures ParseLevel(r) == Some(level)
  {
    var head := "[" + time + "][" + LevelName(level) + "]";
    assert r == head + r[|head|..];
    ParseHeader(time, LevelName(level), r[|head|..]);
    LevelNameRoundTrip(level, level);
  }

  /** The second bracket of a line is read back whole, whatever follows the header. */
  lemma ParseHeader(time: string, name: string, tail: string)
    requires ']' !in time && ']' !in name
    ensures ParseLevel("[" + time + "][" + name + "]" + tail) == LevelFromName(name)
  {
    var a := "[" + time;
    var rest := name + [']'] + tail;
    assert ']' !in a;
    HeaderPieces(time, name, tail);
    FirstCut(a, ']', ['['] + rest);
    FirstCut(name, ']', tail);
    SecondBracket("[" + time + "][" + name + "]" + tail, |a|, rest);
  }

  /** The header is the time's bracket, a ']' and the rest starting with '['. */
  lemma HeaderPieces(time: string, name: string, tail: string)
    ensures "[" + time + "][" + name + "]" + tail == ("[" + time) + [']'] + (['['] + (name + [']'] + tail))
  {
  }

  /** With the first ']' at `i` followed by '[', the level is read from the text up to the next ']'. */
  lemma SecondBracket(line: string, i: nat, rest: string)
    requires FindFirst(line, ']') == Some(i)
    requires line[i + 1..] == ['['] + rest
    requires ']' in rest
    ensures ParseLevel(line) == LevelFromName(rest[..FindFirst(rest, ']').value])
  {
    assert line[i + 1] == '[';
    assert line[i + 2..] == rest;
  }

  /** `log`: the line written for a message, or nothing when the level is below the current one. */
  function Log(current: LogLevel, time: string, level: LogLevel, file: string, line: int, message: string): (r: Option<string>)
    ensures r.Some? <==> Rank(level) >= Rank(current)
  {
    if Emits(level, current) then
      Some(FormatLine(time, level, CString(file)[FileNameStart(CString(file))..], line, message))
    else None
  }

  // ---------------------------------------------------------------------
  // Retention

  /** One entry of the log directory. */
  datatype DirEntry = DirEntry(path: string, fileName: string, regular: bool, writeTime: int)

  /** `path::extension` of a file name: from its last dot on, empty for dot-files, "." and "..". */
  function Extension(fileName: string): (r: string)
    ensures r == [] || (r[0] == '.' && '.' !in r[1..] && |r| < |fileName| && r == fileName[|fileName| - |r|..])
  {
    if fileName == ".." then ""
    else
      match FindLast(fileName, '.')
      case None => ""
      case Some(k) => if k == 0 then "" else fileName[k..]
  }

  /** The files `cleanupOldFiles` counts: regular `.log` files whose path contains the base name. */
  predicate IsRotatedLog(baseName: string, e: DirEntry)
  {
    e.regular && Extension(e.fileName) == ".log" && Contains(e.path, baseName)
  }

  function RotatedLog(baseName: string): DirEntry -> bool
  {
    (e: DirEntry) => IsRotatedLog(baseName, e)
  }

  /** The file `generateLogFilePath` names: `dir/base_stamp.log`. */
  function GeneratedLogPath(dir: string, baseName: string, stamp: string): (r: DirEntry)
  {
    var fileName := baseName + "_" + stamp + ".log";
    DirEntry(dir + "/" + fileName, fileName, true, 0)
  }

  /** Every file the logger creates is one its own clean-up counts, since the time stamp has no dot. */
  lemma OwnFilesAreCounted(dir: string, baseName: string, stamp: string)
    requires '.' !in stamp
    ensures IsRotatedLog(baseName, GeneratedLogPath(dir, baseName, stamp))
  {
    var e := GeneratedLogPath(dir, baseName, stamp);
    var f := e.fileName;
    var k := |f| - 4;
    assert f[k..] == ".log";
    assert f[k + 1..] == "log";
    assert f[k] == '.';
    FindLastAt(f, '.', k);
    assert OccursAt(e.path, baseName, |dir| + 1) by {
      assert e.path[|dir| + 1..|dir| + 1 + |baseName|] == baseName;
    }
  }

  predicate SortedByTime(s: seq<DirEntry>)
  {
    forall i, j :: 0 <= i < j < |s| ==> s[i].writeTime <= s[j].writeTime
  }

  function InsertByTime(e: DirEntry, s: seq<DirEntry>): (r: seq<DirEntry>)
    requires SortedByTime(s)
    ensures SortedByTime(r)
    ensures multiset(r) == multiset(s) + multiset{e}
    ensures |r| == |s| + 1
    ensures forall k :: 0 <= k < |r| ==> r[k] == e || r[k] in s
  {
    if |s| == 0 then [e]
    else if e.writeTime <= s[0].writeTime then [e] + s
    else
      var t := InsertByTime(e, s[1..]);
      InsertBehindHead(e, s, t);
      [s[0]] + t
  }

  /** The insertion into the tail, behind the head it does not precede. */
  lemma InsertBehindHead(e: DirEntry, s: seq<DirEntry>, t: seq<DirEntry>)
    requires SortedByTime(s) && |s| > 0 && s[0].writeTime < e.writeTime
    requires SortedByTime(t) && multiset(t) == multiset(s[1..]) + multiset{e} && |t| == |s|
    requires forall k :: 0 <= k < |t| ==> t[k] == e || t[k] in s[1..]
    ensures SortedByTime([s[0]] + t)
    ensures multiset([s[0]] + t) == multiset(s) + multiset{e}
    ensures forall k :: 0 <= k < |t| + 1 ==> ([s[0]] + t)[k] == e || ([s[0]] + t)[k] in s
  {
    assert s == [s[0]] + s[1..];
    forall k | 0 <= k < |t|
      ensures s[0].writeTime <= t[k].writeTime
    {
      if t[k] != e {
        var m :| 0 <= m < |s[1..]| && s[1..][m] == t[k];
        assert s[m + 1] == t[k];
      }
    }
    var r := [s[0]] + t;
    forall i, j | 0 <= i < j < |r|
      ensures r[i].writeTime <= r[j].writeTime
    {
      assert r[j] == t[j - 1];
      if i > 0 {
        assert r[i] == t[i - 1];
      }
    }
    forall k | 0 <= k < |r|
      ensures r[k] == e || r[k] in s
    {
      if k > 0 {
        assert r[k] == t[k - 1];
      }
    }
  }

  /** Oldest first; `std::sort` need not keep equal times in order, this sort happens to. */
  function SortByTime(s: seq<DirEntry>): (r: seq<DirEntry>)
    ensures SortedByTime(r)
    ensures multiset(r) == multiset(s) && |r| == |s|
  {
    if |s| == 0 then []
    else
      assert s == [s[0]] + s[1..];
      InsertByTime(s[0], SortByTime(s[1..]))
  }

  /** The limit as `static_cast<size_t>(maxFiles_)`: a negative count wraps to a huge one. */
  function RetentionLimit(maxFiles: int): (r: nat)
    requires -0x8000_0000 <= maxFiles < 0x8000_0000
    ensures maxFiles >= 0 ==> r == maxFiles
    ensures maxFiles < 0 ==> r >= TWO_64 - 0x8000_0000
  {
    if maxFiles >= 0 then maxFiles else TWO_64 + maxFiles
  }

  /**
   `cleanupOldFiles`: when more counted files exist than the limit, the
   oldest are deleted until exactly the limit remain. Returns the deleted
   files and the kept ones.
   */
  function CleanupOldFiles(entries: seq<DirEntry>, baseName: string, maxFiles: int): (r: (seq<DirEntry>, seq<DirEntry>))
    requires -0x8000_0000 <= maxFiles < 0x8000_0000
    ensures var files := Filter(entries, RotatedLog(baseName));
      && multiset(r.0) + multiset(r.1) == multiset(files)
      && |r.1| == (if |files| > RetentionLimit(maxFiles) then RetentionLimit(maxFiles) else |files|)
      && (|files| <= RetentionLimit(maxFiles) ==> r.0 == [])
    ensures forall i, j :: 0 <= i < |r.0| && 0 <= j < |r.1| ==> r.0[i].writeTime <= r.1[j].writeTime
  {
    var files := Filter(entries, RotatedLog(baseName));
    var limit := RetentionLimit(maxFiles);
    if |files| > limit then
      var sorted := SortByTime(files);
      var cut := |files| - limit;
      SortedCut(sorted, cut);
      (sorted[..cut], sorted[cut..])
    else
      ([], files)
  }

  /** Cutting a time-ordered list leaves everything before the cut no newer than anything after it. */
  lemma SortedCut(s: seq<DirEntry>, cut: nat)
    requires SortedByTime(s) && cut <= |s|
    ensures multiset(s[..cut]) + multiset(s[cut..]) == multiset(s)
    ensures forall i, j :: 0 <= i < |s[..cut]| && 0 <= j < |s[cut..]| ==> s[..cut][i].writeTime <= s[cut..][j].writeTime
  {
    assert s == s[..cut] + s[cut..];
    forall i, j | 0 <= i < |s[..cut]| && 0 <= j < |s[cut..]|
      ensures s[..cut][i].writeTime <= s[cut..][j].writeTime
    {
      assert s[..cut][i] == s[i] && s[cut..][j] == s[cut + j];
    }
  }

  /** Only counted files are ever deleted. */
  lemma DeletesOnlyCounted(entries: seq<DirEntry>, baseName: string, maxFiles: int, e: DirEntry)
    requires -0x8000_0000 <= maxFiles < 0x8000_0000
    requires e in CleanupOldFiles(entries, baseName, maxFiles).0
    ensures e in entries && IsRotatedLog(baseName, e)
  {
    var r := CleanupOldFiles(entries, baseName, maxFiles);
    var files := Filter(entries, RotatedLog(baseName));
    assert e in multiset(r.0);
    assert e in multiset(files);
  }

  /** A negative limit deletes nothing, however many files there are (fewer than 2^63 of them). */
  lemma NegativeLimitKeepsAll(entries: seq<DirEntry>, baseName: string, maxFiles: int)
    requires -0x8000_0000 <= maxFiles < 0
    requires |entries| < TWO_64 - 0x8000_0000
    ensures CleanupOldFiles(entries, baseName, maxFiles).0 == []
  {
  }
}
