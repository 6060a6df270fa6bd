/**
 Raw byte buffers as the registry API hands them over: little-endian
 integers (`*reinterpret_cast<const DWORD*>(data)`), two-digit lowercase
 hex (`std::hex << std::setw(2) << std::setfill('0')`), NUL-terminated
 strings read with `strnlen`, and UTF-16 code units read from a byte
 buffer (`wchar_t` is two bytes on Windows).
 */
module Bytes {

  type byte = x: int | 0 <= x < 256

  function Pow256(n: nat): (r: nat)
    ensures r >= 1
  {
    if n == 0 then 1 else 256 * Pow256(n - 1)
  }

  /** The unsigned integer stored little-endian in `b`. */
  function LittleEndian(b: seq<byte>): (v: nat)
    ensures v < Pow256(|b|)
  {
    if |b| == 0 then 0 else b[0] + 256 * LittleEndian(b[1..])
  }

  /** The `n` little-endian bytes of `v`. */
  function LeBytes(v: nat, n: nat): (b: seq<byte>)
    requires v < Pow256(n)
    ensures |b| == n
  {
    if n == 0 then [] else [v % 256] + LeBytes(v / 256, n - 1)
  }

  lemma {:induction false} LittleEndianOfLeBytes(v: nat, n: nat)
    requires v < Pow256(n)
    ensures LittleEndian(LeBytes(v, n)) == v
  {
    if n > 0 {
      LittleEndianOfLeBytes(v / 256, n - 1);
      assert LeBytes(v, n)[1..] == LeBytes(v / 256, n - 1);
    }
  }

  lemma {:induction false} LeBytesOfLittleEndian(b: seq<byte>)
    ensures LeBytes(LittleEndian(b), |b|) == b
  {
    if |b| > 0 {
      var v := LittleEndian(b);
      var t := LittleEndian(b[1..]);
      assert v == 256 * t + b[0];
      DivMod256(v, t, b[0]);
      LeBytesOfLittleEndian(b[1..]);
      assert LeBytes(v, |b|) == [b[0]] + LeBytes(t, |b| - 1);
      assert b == [b[0]] + b[1..];
    }
  }

  lemma DivMod256(v: nat, q: nat, r: nat)
    requires v == 256 * q + r && r < 256
    ensures v / 256 == q && v % 256 == r
  {
  }

  lemma Pow256Values()
    ensures Pow256(4) == 0x1_0000_0000
    ensures Pow256(8) == 0x1_0000_0000_0000_0000
  {
    assert Pow256(2) == 0x1_0000;
  }

  /** One lowercase hexadecimal digit. */
  function HexDigit(d: nat): (c: char)
    requires d < 16
    ensures '0' <= c <= '9' || 'a' <= c <= 'f'
  {
    if d < 10 then (d + '0' as int) as char else (d - 10 + 'a' as int) as char
  }

  predicate IsHexDigit(c: char) { '0' <= c <= '9' || 'a' <= c <= 'f' }

  function HexDigitValue(c: char): (d: nat)
    requires IsHexDigit(c)
    ensures d < 16
  {
    if '0' <= c <= '9' then c as int - '0' as int else c as int - 'a' as int + 10
  }

  lemma HexDigitRoundTrip(d: nat)
    requires d < 16
    ensures HexDigitValue(HexDigit(d)) == d
  {
  }

  /** `std::setw(2) << std::hex << int(b)` with fill '0'. */
  function HexByte(b: byte): (s: string)
    ensures |s| == 2 && IsHexDigit(s[0]) && IsHexDigit(s[1])
  {
    [HexDigit(b / 16), HexDigit(b % 16)]
  }

  function ParseHexByte(s: string): (b: byte)
    requires |s| == 2 && IsHexDigit(s[0]) && IsHexDigit(s[1])
  {
    HexDigitValue(s[0]) * 16 + HexDigitValue(s[1])
  }

  lemma HexByteRoundTrip(b: byte)
    ensures ParseHexByte(HexByte(b)) == b
  {
    HexDigitRoundTrip(b / 16);
    HexDigitRoundTrip(b % 16);
  }

  /** The bytes as the characters of a `std::string`. */
  function AsChars(b: seq<byte>): (s: string)
    ensures |s| == |b|
    ensures forall i :: 0 <= i < |b| ==> s[i] as int == b[i]
  {
    seq(|b|, i requires 0 <= i < |b| => b[i] as char)
  }

  /** `strnlen(data, size)`: the position of the first NUL, or the size. */
  function StrnLen(b: seq<byte>): (n: nat)
    ensures n <= |b|
    ensures forall i :: 0 <= i < n ==> b[i] != 0
    ensures n < |b| ==> b[n] == 0
  {
    if |b| == 0 || b[0] == 0 then 0 else 1 + StrnLen(b[1..])
  }

  /** The UTF-16 code units of a buffer: `size / 2` units read little-endian. */
  function WideUnits(b: seq<byte>): (w: seq<nat>)
    ensures |w| == |b| / 2
    ensures forall i :: 0 <= i < |w| ==> w[i] == LittleEndian(b[2 * i .. 2 * i + 2]) && w[i] < 0x1_0000
  {
    var w := seq(|b| / 2, i requires 0 <= i < |b| / 2 => b[2 * i] as int + 256 * b[2 * i + 1] as int);
    assert forall i :: 0 <= i < |w| ==> w[i] == LittleEndian(b[2 * i .. 2 * i + 2]) by {
      forall i | 0 <= i < |w| ensures w[i] == LittleEndian(b[2 * i .. 2 * i + 2]) {
        var pair := b[2 * i .. 2 * i + 2];
        assert pair[1..][1..] == [];
      }
    }
    w
  }
}
