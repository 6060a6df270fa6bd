/**
 Rendering of raw registry data as text, in the two variants the program
 carries: `RegistryMonitor::RegistryDataToString` (registry_monitor.cpp,
 strings through the structural UTF-8 sanitizer) and
 `RegistryEncodingUtils::RegistryDataToString` (registry_encode.cpp,
 strings through `EncodingUtil::SafeString`).

 A buffer is `Option<seq<byte>>`: `None` is a null pointer, otherwise the
 sequence holds exactly the `size` bytes the API reported. The UTF-16 to
 UTF-8 conversion of `WideCharToMultiByte` is a parameter; `None` stands for
 a conversion that reports no output or throws, which selects the
 hand-written fallback.
 */
module RegistryRender {
  import opened Common
  import opened Bytes
  import Text
  import Utf8
  import Encoding
  import opened RegistryModel

  /** `WideCharToMultiByte(CP_UTF8, …)` on a non-empty wide string. */
  datatype WideConverter = WideConverter(toUtf8: seq<nat> -> Option<string>)

  const UNSUPPORTED: string := "[Unsupported Type]"
  const BINARY_DATA: string := "[Binary Data]"
  const SEPARATOR: string := "; "

  /** The fallback loop: a code unit 1..0x7F is kept as that byte, anything else is '?'. */
  function WideFallback(w: seq<nat>): (r: string)
    ensures |r| == |w|
    ensures forall i :: 0 <= i < |w| ==> Utf8.IsAscii(r[i])
    ensures forall i :: 0 <= i < |w| ==> (r[i] == '?' || r[i] as int == w[i])
    ensures forall i :: 0 <= i < |w| ==> (0 < w[i] <= 0x7F <==> r[i] as int == w[i])
  {
    seq(|w|, i requires 0 <= i < |w| => if 0 < w[i] <= 0x7F then w[i] as char else '?')
  }

  /** `RegistryMonitor::WideToUTF8`: the converter, else the fallback. */
  function MonitorWideToUtf8(w: seq<nat>, conv: WideConverter): (r: string)
    ensures |w| == 0 ==> r == ""
    ensures |w| > 0 && conv.toUtf8(w).None? ==> r == WideFallback(w)
  {
    if |w| == 0 then ""
    else
      match conv.toUtf8(w)
      case Some(s) => s
      case None => WideFallback(w)
  }

  /** `RegistryEncodingUtils::WideToUTF8`: the fallback goes through `SafeString` as well. */
  function EncodeWideToUtf8(w: seq<nat>, conv: WideConverter, cp: Encoding.Codepage): (r: string)
    ensures |w| == 0 ==> r == ""
  {
    if |w| == 0 then ""
    else
      match conv.toUtf8(w)
      case Some(s) => s
      case None => Encoding.SafeString(WideFallback(w), Encoding.DEFAULT_SAFE, cp)
  }

  /**
   The `SafeString` applied to the fallback output changes nothing: that
   output is non-empty ASCII and so already valid UTF-8. Both `WideToUTF8`
   variants therefore agree.
   */
  lemma WideToUtf8VariantsAgree(w: seq<nat>, conv: WideConverter, cp: Encoding.Codepage)
    ensures EncodeWideToUtf8(w, conv, cp) == MonitorWideToUtf8(w, conv)
  {
    if |w| > 0 && conv.toUtf8(w).None? {
      Utf8.AsciiWellFormed(WideFallback(w));
    }
  }

  /** The length of the first segment: the position of the first 0 unit, or the end. */
  function SegmentLength(w: seq<nat>): (n: nat)
    ensures n <= |w|
    ensures forall i :: 0 <= i < n ==> w[i] != 0
    ensures n < |w| ==> w[n] == 0
  {
    if |w| == 0 || w[0] == 0 then 0 else 1 + SegmentLength(w[1..])
  }

  /**
   The segments the MULTI_SZ loop visits: NUL-terminated runs, up to the
   first empty one (the double NUL) or the end of the buffer.
   */
  function Segments(w: seq<nat>): (segs: seq<seq<nat>>)
    ensures forall k :: 0 <= k < |segs| ==> |segs[k]| > 0 && 0 !in segs[k]
    decreases |w|
  {
    if |w| == 0 || w[0] == 0 then []
    else
      var n := SegmentLength(w);
      [w[..n]] + (if n < |w| then Segments(w[n + 1..]) else [])
  }

  /** Every part followed by "; ", as the loop accumulates them. */
  function Terminated(parts: seq<string>): string
  {
    if |parts| == 0 then "" else parts[0] + SEPARATOR + Terminated(parts[1..])
  }

  /** The final `substr(0, length() - 2)`. */
  function DropLastSeparator(s: string): string
  {
    if |s| >= 2 then s[..|s| - 2] else s
  }

  lemma {:induction false} TerminatedIsJoin(parts: seq<string>)
    requires |parts| > 0
    ensures Terminated(parts) == Text.Join(parts, SEPARATOR) + SEPARATOR
  {
    if |parts| > 1 {
      TerminatedIsJoin(parts[1..]);
    }
  }

  /** Removing the last separator leaves exactly the parts joined by "; ". */
  lemma DropLastSeparatorIsJoin(parts: seq<string>)
    ensures DropLastSeparator(Terminated(parts)) == Text.Join(parts, SEPARATOR)
  {
    if |parts| > 0 {
      TerminatedIsJoin(parts);
      var acc := Terminated(parts);
      assert acc[..|acc| - 2] == Text.Join(parts, SEPARATOR);
    }
  }

  function MapRender(segs: seq<seq<nat>>, render: seq<nat> -> string): (r: seq<string>)
    ensures |r| == |segs|
    ensures forall k :: 0 <= k < |segs| ==> r[k] == render(segs[k])
  {
    seq(|segs|, k requires 0 <= k < |segs| => render(segs[k]))
  }

  /**
   The MULTI_SZ rendering: each segment rendered, followed by "; ", and the
   last separator removed; the result is the segments joined by "; ".
   */
  function MultiSzText(w: seq<nat>, render: seq<nat> -> string): (r: string)
    ensures r == Text.Join(MapRender(Segments(w), render), SEPARATOR)
  {
    var parts := MapRender(Segments(w), render);
    DropLastSeparatorIsJoin(parts);
    DropLastSeparator(Terminated(parts))
  }

  /** Each of the bytes as two hex digits and a space. */
  function HexDump(b: seq<byte>): (r: string)
    ensures |r| == 3 * |b|
  {
    if |b| == 0 then "" else HexByte(b[0]) + " " + HexDump(b[1..])
  }

  lemma {:induction false} HexDumpAt(b: seq<byte>, k: nat)
    requires k < |b|
    ensures HexDump(b)[3 * k..3 * k + 2] == HexByte(b[k])
    ensures HexDump(b)[3 * k + 2] == ' '
  {
    if k > 0 {
      HexDumpAt(b[1..], k - 1);
      var r := HexDump(b);
      assert r[3..] == HexDump(b[1..]);
      assert r[3 * k..3 * k + 2] == r[3..][3 * (k - 1)..3 * (k - 1) + 2];
    }
  }

  function Min(a: nat, b: nat): nat { if a < b then a else b }

  /** `ProcessBinaryData` / the REG_BINARY case: at most 16 bytes shown, then "..." when cut. */
  function BinaryText(b: seq<byte>): (r: string)
    ensures |r| == 3 * Min(|b|, 16) + (if |b| > 16 then 3 else 0)
    ensures |b| > 16 ==> r[|r| - 3..] == "..."
  {
    var shown := Min(|b|, 16);
    HexDump(b[..shown]) + (if |b| > 16 then "..." else "")
  }

  /** Every shown byte can be read back from its two hex digits. */
  lemma BinaryTextDecodes(b: seq<byte>, k: nat)
    requires k < Min(|b|, 16)
    ensures var r := BinaryText(b);
      IsHexDigit(r[3 * k]) && IsHexDigit(r[3 * k + 1]) && r[3 * k + 2] == ' '
      && ParseHexByte(r[3 * k..3 * k + 2]) == b[k]
  {
    var shown := Min(|b|, 16);
    HexDumpAt(b[..shown], k);
    HexByteRoundTrip(b[k]);
    var r := BinaryText(b);
    assert r[..3 * shown] == HexDump(b[..shown]);
    assert r[3 * k..3 * k + 2] == HexDump(b[..shown])[3 * k..3 * k + 2];
  }

  /** The string at the front of the buffer: bytes before the first NUL within `size`. */
  function CString(b: seq<byte>): (s: string)
    ensures |s| <= |b|
    ensures forall i :: 0 <= i < |s| ==> s[i] as int == b[i] && b[i] != 0
  {
    AsChars(b[..StrnLen(b)])
  }

  const DWORD_BYTES: nat := 4
  const QWORD_BYTES: nat := 8

  /** The cases of the `switch` both variants share; only the string cases differ. */
  function DataToString(data: Option<seq<byte>>, t: u32, sz: string -> string, segment: seq<nat> -> string): (r: string)
    ensures data.None? || |data.value| == 0 ==> r == ""
    ensures data.Some? && |data.value| > 0 ==>
      && (!(t in {REG_SZ, REG_EXPAND_SZ, REG_DWORD, REG_QWORD, REG_MULTI_SZ, REG_BINARY}) ==> r == UNSUPPORTED)
      && (t == REG_DWORD && |data.value| < DWORD_BYTES ==> r == BINARY_DATA)
      && (t == REG_QWORD && |data.value| < QWORD_BYTES ==> r == BINARY_DATA)
      && (t == REG_DWORD && |data.value| >= DWORD_BYTES ==>
            Text.AllDigits(r) && Text.DecimalValue(r) == LittleEndian(data.value[..DWORD_BYTES]) < TWO_32)
      && (t == REG_QWORD && |data.value| >= QWORD_BYTES ==>
            Text.AllDigits(r) && Text.DecimalValue(r) == LittleEndian(data.value[..QWORD_BYTES]) < TWO_64)
      && (t == REG_BINARY ==> r == BinaryText(data.value))
      && (t == REG_SZ || t == REG_EXPAND_SZ ==> r == sz(CString(data.value)))
      && (t == REG_MULTI_SZ ==> r == Text.Join(MapRender(Segments(WideUnits(data.value)), segment), SEPARATOR))
  {
    Pow256Values();
    if data.None? || |data.value| == 0 then ""
    else
      var b := data.value;
      if t == REG_SZ || t == REG_EXPAND_SZ then sz(CString(b))
      else if t == REG_DWORD then
        (if |b| >= DWORD_BYTES then Text.NatToString(LittleEndian(b[..DWORD_BYTES])) else BINARY_DATA)
      else if t == REG_QWORD then
        (if |b| >= QWORD_BYTES then Text.NatToString(LittleEndian(b[..QWORD_BYTES])) else BINARY_DATA)
      else if t == REG_MULTI_SZ then MultiSzText(WideUnits(b), segment)
      else if t == REG_BINARY then BinaryText(b)
      else UNSUPPORTED
  }

  /** `RegistryMonitor::RegistryDataToString`. */
  function MonitorDataToString(data: Option<seq<byte>>, t: u32, conv: WideConverter): (r: string)
    ensures data.Some? && |data.value| > 0 && (t == REG_SZ || t == REG_EXPAND_SZ) ==>
      |r| == |CString(data.value)| && Utf8.WellFormed(r)
  {
    var r := DataToString(data, t, s => Utf8.Sanitize(s), w => Utf8.Sanitize(MonitorWideToUtf8(w, conv)));
    if data.Some? && |data.value| > 0 then Utf8.SanitizeWellFormed(CString(data.value)); r else r
  }

  /** `RegistryEncodingUtils::RegistryDataToString`. */
  function EncodeDataToString(data: Option<seq<byte>>, t: u32, conv: WideConverter, cp: Encoding.Codepage): (r: string)
    ensures data.Some? && |data.value| > 0 && (t == REG_SZ || t == REG_EXPAND_SZ) ==> |r| > 0
    ensures data.Some? && |data.value| > 0 && data.value[0] == 0 && (t == REG_SZ || t == REG_EXPAND_SZ) ==>
      r == Encoding.DEFAULT_SAFE
  {
    DataToString(data, t,
      s => Encoding.SafeString(s, Encoding.DEFAULT_SAFE, cp),
      w => Encoding.SafeString(EncodeWideToUtf8(w, conv, cp), Encoding.DEFAULT_SAFE, cp))
  }

  /**
   A DWORD rendering reads back as the value stored: rendering the four
   little-endian bytes of `v` gives the decimal digits of `v`.
   */
  lemma DwordRoundTrip(v: nat, rest: seq<byte>, conv: WideConverter)
    requires v < TWO_32
    ensures Pow256(4) == TWO_32
    ensures var r := MonitorDataToString(Some(LeBytes(v, 4) + rest), REG_DWORD, conv);
      r == Text.NatToString(v) && Text.DecimalValue(r) == v
  {
    Pow256Values();
    var b := LeBytes(v, 4) + rest;
    assert b[..4] == LeBytes(v, 4);
    LittleEndianOfLeBytes(v, 4);
  }

  /** The same for a QWORD and its eight bytes. */
  lemma QwordRoundTrip(v: nat, rest: seq<byte>, conv: WideConverter)
    requires v < TWO_64
    ensures Pow256(8) == TWO_64
    ensures var r := MonitorDataToString(Some(LeBytes(v, 8) + rest), REG_QWORD, conv);
      r == Text.NatToString(v) && Text.DecimalValue(r) == v
  {
    Pow256Values();
    var b := LeBytes(v, 8) + rest;
    assert b[..8] == LeBytes(v, 8);
    LittleEndianOfLeBytes(v, 8);
  }
}
