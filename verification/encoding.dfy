/**
 `util::EncodingUtil` (encode.cpp): encoding detection, the UTF-8 validity
 test, the GB2312 heuristic, the printable-ASCII sanitizer and the
 `ToUTF8`/`SafeString` pipeline built from them.

 The Windows code-page conversion behind `GB2312ToUTF8` is not modelled; it
 is a parameter (`Codepage`) whose `None` stands for a conversion that
 throws.
 */
module Encoding {
  import opened Common
  import Utf8

  /** The three answers of `DetectEncoding`. */
  datatype EncodingName = Utf8Name | Gb2312Name | UnknownName

  function EncodingText(e: EncodingName): string
  {
    match e
    case Utf8Name => "UTF-8"
    case Gb2312Name => "GB2312"
    case UnknownName => "UNKNOWN"
  }

  /** The conversion `GB2312ToUTF8` performs through the Windows code pages. */
  datatype Codepage = Codepage(gbToUtf8: string -> Option<string>)

  /** `SafeString`'s default for `default_val`. */
  const DEFAULT_SAFE: string := "Unknown"

  /** `IsValidUTF8`'s byte loop: accepts exactly the structurally valid UTF-8. */
  method IsValidUtf8(s: string) returns (b: bool)
    ensures b <==> Utf8.WellFormed(s)
  {
    var i := 0;
    while i < |s|
      invariant 0 <= i <= |s|
      invariant Utf8.WellFormed(s) <==> Utf8.WellFormed(s[i..])
      decreases |s| - i
    {
      var ok, next := RunAt(s, i);
      if !ok {
        return false;
      }
      i := next;
    }
    assert s[i..] == [];
    return true;
  }

  /**
   One step of the `IsValidUTF8` loop: whether a run starts at `i`, and
   the index after it. When the whole string is well-formed exactly when
   its rest from `i` is, a bad run there rules it out, and a good one
   moves the question past the run.
   */
  method RunAt(s: string, i: nat) returns (ok: bool, next: nat)
    requires i < |s|
    requires Utf8.WellFormed(s) <==> Utf8.WellFormed(s[i..])
    ensures !ok ==> !Utf8.WellFormed(s)
    ensures ok ==> i < next <= |s| && (Utf8.WellFormed(s) <==> Utf8.WellFormed(s[next..]))
  {
    var n := Utf8.StepRun(s, i);
    ok, next := n > 0, i + n;
    if ok {
      Utf8.WellFormedSuffix(s, i, n);
    } else {
      Utf8.BadRunAt(s, i);
    }
  }

  /** `IsGB2312Char`: both bytes inside the GB2312 double-byte area. */
  predicate IsGb2312Char(b1: char, b2: char)
  {
    0xA1 <= b1 as int <= 0xF7 && 0xA1 <= b2 as int <= 0xFE
  }

  /**
   The counters of `IsGB2312`'s scan over `s`: `gb` double-byte characters
   inside the GB2312 area out of `total` characters, where an ASCII byte is
   one character, a high byte and its successor are one character, and a
   lone high byte at the end stops the scan.
   */
  function GbCounts(s: string): (c: (nat, nat))
    ensures c.0 <= c.1 <= |s|
    decreases |s|
  {
    if |s| == 0 then (0, 0)
    else if Utf8.IsAscii(s[0]) then
      var rest := GbCounts(s[1..]);
      (rest.0, rest.1 + 1)
    else if |s| >= 2 then
      var rest := GbCounts(s[2..]);
      (rest.0 + (if IsGb2312Char(s[0], s[1]) then 1 else 0), rest.1 + 1)
    else (0, 0)
  }

  predicate LooksGb2312(s: string)
  {
    var c := GbCounts(s);
    c.1 > 0 && c.0 * 2 >= c.1
  }

  /** `IsGB2312`'s byte loop: counts characters and GB2312 pairs in one pass. */
  method IsGb2312(s: string) returns (b: bool)
    ensures b <==> LooksGb2312(s)
    ensures |s| == 0 ==> !b
  {
    if |s| == 0 {
      return false;
    }
    var i := 0;
    var gb := 0;
    var total := 0;
    while i < |s|
      invariant 0 <= i <= |s|
      invariant gb + GbCounts(s[i..]).0 == GbCounts(s).0
      invariant total + GbCounts(s[i..]).1 == GbCounts(s).1
    {
      if Utf8.IsAscii(s[i]) {
        assert s[i..][1..] == s[i + 1..];
        i := i + 1;
        total := total + 1;
      } else if i + 1 < |s| {
        assert s[i..][2..] == s[i + 2..];
        if IsGb2312Char(s[i], s[i + 1]) {
          gb := gb + 1;
        }
        total := total + 1;
        i := i + 2;
      } else {
        break;
      }
    }
    assert i < |s| ==> GbCounts(s[i..]) == (0, 0);
    assert i == |s| ==> s[i..] == [];
    return total > 0 && gb * 2 >= total;
  }

  /** A non-empty ASCII string is never taken for GB2312. */
  lemma {:induction false} AsciiNotGb2312(s: string)
    requires |s| > 0
    requires forall i :: 0 <= i < |s| ==> Utf8.IsAscii(s[i])
    ensures GbCounts(s) == (0, |s|)
    ensures !LooksGb2312(s)
    decreases |s|
  {
    if |s| > 1 {
      AsciiNotGb2312(s[1..]);
    }
  }

  /** `DetectEncoding`. */
  function DetectEncoding(s: string): (e: EncodingName)
    ensures e == Utf8Name <==> Utf8.WellFormed(s)
    ensures e == Gb2312Name <==> !Utf8.WellFormed(s) && LooksGb2312(s)
    ensures e == UnknownName ==> |s| > 0 && !LooksGb2312(s)
  {
    if |s| == 0 then Utf8Name
    else if Utf8.WellFormed(s) then Utf8Name
    else if LooksGb2312(s) then Gb2312Name
    else UnknownName
  }

  /** C-locale `isspace` on the bytes that are not printable: tab, LF, VT, FF, CR. */
  predicate IsControlSpace(c: char) { 0x09 <= c as int <= 0x0D }

  predicate IsPrintable(c: char) { 0x20 <= c as int <= 0x7E }

  predicate AllPrintable(s: string) { forall i :: 0 <= i < |s| ==> IsPrintable(s[i]) }

  /**
   The character loop of `SanitizeString`: printable bytes kept, a run of
   control white space turned into one space, any other byte into '?'.
   `lastWasSpace` is true when the previous byte was control white space.
   */
  function Collapse(s: string, lastWasSpace: bool): (r: string)
    ensures |r| <= |s|
    ensures AllPrintable(r)
    decreases |s|
  {
    if |s| == 0 then ""
    else if IsPrintable(s[0]) then [s[0]] + Collapse(s[1..], false)
    else if IsControlSpace(s[0]) then
      (if lastWasSpace then "" else " ") + Collapse(s[1..], true)
    else "?" + Collapse(s[1..], false)
  }

  /** Strip spaces from the front. */
  function TrimFront(s: string): (r: string)
    ensures |r| <= |s|
    ensures |r| == 0 || r[0] != ' '
    ensures r == s[|s| - |r|..]
  {
    if |s| > 0 && s[0] == ' ' then TrimFront(s[1..]) else s
  }

  /** Strip spaces from the back. */
  function TrimBack(s: string): (r: string)
    ensures |r| <= |s|
    ensures |r| == 0 || r[|r| - 1] != ' '
    ensures r == s[..|r|]
  {
    if |s| > 0 && s[|s| - 1] == ' ' then TrimBack(s[..|s| - 1]) else s
  }

  /** `SanitizeString`. */
  function SanitizeString(s: string): (r: string)
    ensures |r| <= |s|
    ensures AllPrintable(r)
    ensures |r| > 0 ==> r[0] != ' ' && r[|r| - 1] != ' '
  {
    var c := Collapse(s, false);
    TrimmedEnds(c);
    TrimBack(TrimFront(c))
  }

  /** Trimming both ends keeps only bytes of the input and leaves no space at either end. */
  lemma TrimmedEnds(c: string)
    requires AllPrintable(c)
    ensures var b := TrimBack(TrimFront(c));
      |b| <= |c| && AllPrintable(b) && (|b| > 0 ==> b[0] != ' ' && b[|b| - 1] != ' ')
  {
    var f := TrimFront(c);
    PrintableSlices(c, |c| - |f|);
    PrintableSlices(f, |TrimBack(f)|);
  }

  /** A printable string's prefixes and suffixes are printable. */
  lemma PrintableSlices(c: string, k: nat)
    requires AllPrintable(c) && k <= |c|
    ensures AllPrintable(c[..k]) && AllPrintable(c[k..])
  {
    assert forall i :: 0 <= i < |c| - k ==> c[k..][i] == c[k + i];
  }

  /** Printable input passes the character loop unchanged, whatever the flag. */
  lemma {:induction false} CollapsePrintable(s: string, lastWasSpace: bool)
    requires AllPrintable(s)
    ensures Collapse(s, lastWasSpace) == s
    decreases |s|
  {
    if |s| > 0 {
      CollapsePrintable(s[1..], false);
    }
  }

  /**
   A maximal run of control white space becomes a single space (none when it
   continues a run), after which the loop goes on with the flag set.
   */
  lemma {:induction false} CollapseRun(w: string, t: string, lastWasSpace: bool)
    requires |w| > 0
    requires forall i :: 0 <= i < |w| ==> IsControlSpace(w[i])
    ensures Collapse(w + t, lastWasSpace) == (if lastWasSpace then "" else " ") + Collapse(t, true)
    decreases |w|
  {
    assert (w + t)[1..] == w[1..] + t;
    if |w| > 1 {
      CollapseRun(w[1..], t, true);
    } else {
      assert w[1..] + t == t;
    }
  }

  /** Literal spaces are printable and are never collapsed. */
  lemma CollapseKeepsSpaces(n: nat, lastWasSpace: bool)
    ensures Collapse(seq(n, _ => ' '), lastWasSpace) == seq(n, _ => ' ')
  {
    CollapsePrintable(seq(n, _ => ' '), lastWasSpace);
  }

  /** `SanitizeString` is idempotent. */
  lemma SanitizeStringIdempotent(s: string)
    ensures SanitizeString(SanitizeString(s)) == SanitizeString(s)
  {
    var r := SanitizeString(s);
    CollapsePrintable(r, false);
    assert TrimFront(r) == r;
    assert TrimBack(r) == r;
  }

  /** Non-empty printable text without edge spaces is left unchanged. */
  lemma SanitizeStringKeeps(s: string)
    requires AllPrintable(s)
    requires |s| > 0 ==> s[0] != ' ' && s[|s| - 1] != ' '
    ensures SanitizeString(s) == s
  {
    CollapsePrintable(s, false);
  }

  /** Printable ASCII is structurally valid UTF-8. */
  lemma PrintableWellFormed(s: string)
    requires AllPrintable(s)
    ensures Utf8.WellFormed(s)
  {
    Utf8.AsciiWellFormed(s);
  }

  /**
   `ToUTF8`: the empty string and valid UTF-8 unchanged, GB2312 through the
   code page, anything else through `SanitizeString`. `None` is an exception.
   */
  function ToUtf8(s: string, cp: Codepage): (r: Option<string>)
    ensures |s| == 0 ==> r == Some("")
    ensures DetectEncoding(s) == Utf8Name ==> r == Some(s)
    ensures DetectEncoding(s) == Gb2312Name ==> r == cp.gbToUtf8(s)
    ensures DetectEncoding(s) == UnknownName ==> r == Some(SanitizeString(s))
  {
    if |s| == 0 then Some(s)
    else
      match DetectEncoding(s)
      case Utf8Name => Some(s)
      case Gb2312Name => cp.gbToUtf8(s)
      case UnknownName => Some(SanitizeString(s))
  }

  /** Without the GB2312 branch the output of `ToUTF8` is valid UTF-8. */
  lemma ToUtf8WellFormed(s: string, cp: Codepage)
    requires DetectEncoding(s) != Gb2312Name
    ensures ToUtf8(s, cp).Some?
    ensures Utf8.WellFormed(ToUtf8(s, cp).value)
  {
    if DetectEncoding(s) == UnknownName {
      PrintableWellFormed(SanitizeString(s));
    }
  }

  /** `SafeString`: the default when `ToUTF8` throws or yields "". */
  function SafeString(s: string, default: string, cp: Codepage): (r: string)
    ensures ToUtf8(s, cp).None? || ToUtf8(s, cp) == Some("") ==> r == default
    ensures ToUtf8(s, cp).Some? && ToUtf8(s, cp) != Some("") ==> r == ToUtf8(s, cp).value
    ensures |default| > 0 ==> |r| > 0
  {
    match ToUtf8(s, cp)
    case None => default
    case Some(v) => if |v| == 0 then default else v
  }

  /** Non-empty valid UTF-8 passes `SafeString` unchanged. */
  lemma SafeStringKeeps(s: string, default: string, cp: Codepage)
    requires |s| > 0 && Utf8.WellFormed(s)
    ensures SafeString(s, default, cp) == s
  {
  }

  /** Non-empty printable ASCII passes `SafeString` unchanged. */
  lemma SafeStringKeepsPrintable(s: string, default: string, cp: Codepage)
    requires |s| > 0 && AllPrintable(s)
    ensures SafeString(s, default, cp) == s
  {
    PrintableWellFormed(s);
  }
}
