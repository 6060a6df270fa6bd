/**
 The structural UTF-8 test shared by the server's and the registry
 monitor's `SanitizeUTF8`, the disk monitor's `FilterToValidUtf8` and
 `EncodingUtil::IsValidUTF8`.

 The test looks only at bit patterns: a lead byte 0xxxxxxx, 110xxxxx,
 1110xxxx or 11110xxx announces a run of 1, 2, 3 or 4 bytes, and every
 byte after the lead must be 10xxxxxx. There is no overlong, surrogate or
 upper-bound check, so leads 0xF5..0xF7 are accepted. Bytes are the
 characters of a `string`; the mask tests of the C++ code are written as
 the byte ranges they select (see `LeadMasks`).
 */
module Utf8 {

  predicate IsAscii(c: char) { c as int <= 0x7F }

  /** `(c & 0xC0) == 0x80`. */
  predicate IsContinuation(c: char) { 0x80 <= c as int <= 0xBF }

  /** `(c & 0xE0) == 0xC0`. */
  predicate IsLead2(c: char) { 0xC0 <= c as int <= 0xDF }

  /** `(c & 0xF0) == 0xE0`. */
  predicate IsLead3(c: char) { 0xE0 <= c as int <= 0xEF }

  /** `(c & 0xF8) == 0xF0`. */
  predicate IsLead4(c: char) { 0xF0 <= c as int <= 0xF7 }

  /** The bit-mask tests of the C++ code select exactly these byte ranges. */
  lemma LeadMasks(b: bv8)
    ensures (b & 0xC0 == 0x80) <==> 0x80 <= b as int <= 0xBF
    ensures (b & 0xE0 == 0xC0) <==> 0xC0 <= b as int <= 0xDF
    ensures (b & 0xF0 == 0xE0) <==> 0xE0 <= b as int <= 0xEF
    ensures (b & 0xF8 == 0xF0) <==> 0xF0 <= b as int <= 0xF7
  {
  }

  /** The length a byte announces as a lead byte; 0 for a byte that cannot lead. */
  function LeadLength(c: char): (n: nat)
    ensures n <= 4
    ensures n == 1 <==> IsAscii(c)
    ensures n == 0 <==> IsContinuation(c) || 0xF8 <= c as int
  {
    if IsAscii(c) then 1
    else if IsLead2(c) then 2
    else if IsLead3(c) then 3
    else if IsLead4(c) then 4
    else 0
  }

  /** The `n - 1` bytes after the front of `s` (n <= 4) are continuation bytes. */
  predicate ContinuationsFollow(s: string, n: nat)
    requires n <= |s| && n <= 4
  {
    (n <= 1 || IsContinuation(s[1])) && (n <= 2 || IsContinuation(s[2])) && (n <= 3 || IsContinuation(s[3]))
  }

  /**
   The length of the well-formed run at the front of `s`, or 0 when the
   first byte does not start one (bad lead, run cut short by the end of
   the string, or a byte after the lead that is not a continuation).
   */
  function RunLength(s: string): (n: nat)
    requires |s| > 0
    ensures n <= |s| && n <= 4
    ensures n > 0 ==> n == LeadLength(s[0]) && ContinuationsFollow(s, n)
    ensures IsAscii(s[0]) ==> n == 1
  {
    var n := LeadLength(s[0]);
    if 0 < n <= |s| && ContinuationsFollow(s, n) then n else 0
  }

  /** `s` splits completely into well-formed runs. */
  predicate WellFormed(s: string)
    decreases |s|
  {
    |s| == 0 || (RunLength(s) > 0 && WellFormed(s[RunLength(s)..]))
  }

  /** ASCII text is well-formed: every byte is a run of one. */
  lemma {:induction false} AsciiWellFormed(s: string)
    requires forall i :: 0 <= i < |s| ==> IsAscii(s[i])
    ensures WellFormed(s)
    decreases |s|
  {
    if |s| > 0 {
      assert RunLength(s) == 1;
      AsciiWellFormed(s[1..]);
    }
  }

  /** A run at the front of `s` is unaffected by what follows it. */
  lemma RunLengthPrefix(s: string, t: string, n: nat)
    requires |s| > 0 && n == RunLength(s) && n > 0
    ensures RunLength(s[..n] + t) == n
    ensures (s[..n] + t)[n..] == t
  {
    var u := s[..n] + t;
    assert u[0] == s[0];
    assert n > 1 ==> u[1] == s[1];
    assert n > 2 ==> u[2] == s[2];
    assert n > 3 ==> u[3] == s[3];
  }

  /**
   Reference definition of `SanitizeUTF8`: a well-formed run is copied,
   any other byte is replaced by '?'.
   */
  function Sanitize(s: string): (r: string)
    ensures |r| == |s|
    decreases |s|
  {
    if |s| == 0 then []
    else
      var n := RunLength(s);
      if n > 0 then s[..n] + Sanitize(s[n..]) else "?" + Sanitize(s[1..])
  }

  /** `r` is `s` with some non-ASCII bytes replaced by '?'. */
  predicate Substitutes(r: string, s: string)
  {
    |r| == |s| && forall i :: 0 <= i < |s| ==> r[i] == s[i] || (r[i] == '?' && !IsAscii(s[i]))
  }

  lemma SubstitutesConcat(ra: string, a: string, rb: string, b: string)
    requires Substitutes(ra, a) && Substitutes(rb, b)
    ensures Substitutes(ra + rb, a + b)
  {
    forall i | 0 <= i < |a + b|
      ensures (ra + rb)[i] == (a + b)[i] || ((ra + rb)[i] == '?' && !IsAscii((a + b)[i]))
    {
      if i >= |a| {
        assert (ra + rb)[i] == rb[i - |a|] && (a + b)[i] == b[i - |a|];
      }
    }
  }

  /** The whole of `Sanitize(s)` keeps or replaces each byte of `s`. */
  lemma {:induction false} SanitizeSubstitutesAll(s: string)
    ensures Substitutes(Sanitize(s), s)
    decreases |s|
  {
    if |s| > 0 {
      var n := RunLength(s);
      var k := if n > 0 then n else 1;
      var head := if n > 0 then s[..n] else "?";
      assert Sanitize(s) == head + Sanitize(s[k..]);
      SanitizeSubstitutesAll(s[k..]);
      assert Substitutes(head, s[..k]);
      SubstitutesConcat(head, s[..k], Sanitize(s[k..]), s[k..]);
      assert s[..k] + s[k..] == s;
    }
  }

  /** Every byte is kept or replaced by '?', and ASCII bytes are always kept. */
  lemma SanitizeSubstitutes(s: string, i: nat)
    requires i < |s|
    ensures Sanitize(s)[i] == s[i] || (Sanitize(s)[i] == '?' && !IsAscii(s[i]))
  {
    SanitizeSubstitutesAll(s);
  }

  lemma {:induction false} SanitizeWellFormed(s: string)
    ensures WellFormed(Sanitize(s))
    decreases |s|
  {
    if |s| > 0 {
      var n := RunLength(s);
      if n > 0 {
        SanitizeWellFormed(s[n..]);
        RunLengthPrefix(s, Sanitize(s[n..]), n);
      } else {
        SanitizeWellFormed(s[1..]);
        var u := "?" + Sanitize(s[1..]);
        assert RunLength(u) == 1;
        assert u[1..] == Sanitize(s[1..]);
      }
    }
  }

  /** `SanitizeUTF8` changes nothing exactly when its input is well-formed. */
  lemma {:induction false} SanitizeIdentity(s: string)
    ensures Sanitize(s) == s <==> WellFormed(s)
    decreases |s|
  {
    if |s| > 0 {
      var n := RunLength(s);
      if n > 0 {
        SanitizeIdentity(s[n..]);
        assert s == s[..n] + s[n..];
        if Sanitize(s) == s {
          assert (s[..n] + Sanitize(s[n..]))[n..] == Sanitize(s[n..]);
        }
      } else {
        assert !WellFormed(s);
        assert Sanitize(s)[0] == '?';
        assert !IsAscii(s[0]);
      }
    }
  }

  lemma SanitizeIdempotent(s: string)
    ensures Sanitize(Sanitize(s)) == Sanitize(s)
  {
    SanitizeWellFormed(s);
    SanitizeIdentity(Sanitize(s));
  }

  /** The run test of one loop step, as the C++ branches write it. */
  function StepRun(s: string, i: nat): (n: nat)
    requires i < |s|
    ensures n == RunLength(s[i..])
  {
    var c := s[i];
    if IsAscii(c) then 1
    else if IsLead2(c) then
      (if i + 1 < |s| && IsContinuation(s[i + 1]) then 2 else 0)
    else if IsLead3(c) then
      (if i + 2 < |s| && IsContinuation(s[i + 1]) && IsContinuation(s[i + 2]) then 3 else 0)
    else if IsLead4(c) then
      (if i + 3 < |s| && IsContinuation(s[i + 1]) && IsContinuation(s[i + 2])
          && IsContinuation(s[i + 3]) then 4 else 0)
    else 0
  }

  lemma ConcatAssoc(a: string, b: string, c: string)
    ensures a + (b + c) == (a + b) + c
  {
  }

  /** One unfolding of `WellFormed` on the suffix from `i`, given the run length there. */
  lemma WellFormedSuffix(s: string, i: nat, n: nat)
    requires i < |s| && n == RunLength(s[i..]) && n > 0
    ensures i + n <= |s|
    ensures WellFormed(s[i..]) <==> WellFormed(s[i + n..])
  {
    var t := s[i..];
    assert WellFormed(t) <==> WellFormed(t[n..]);
    assert t[n..] == s[i + n..];
  }

  /** No run at `i`: the suffix from `i` is not well-formed. */
  lemma BadRunAt(s: string, i: nat)
    requires i < |s| && RunLength(s[i..]) == 0
    ensures !WellFormed(s[i..])
  {
  }

  /** One unfolding of `Sanitize` on the suffix from `i`, given the run length there. */
  lemma SanitizeSuffix(s: string, i: nat, n: nat)
    requires i < |s| && n == RunLength(s[i..])
    ensures i + n <= |s|
    ensures Sanitize(s[i..]) == if n > 0 then s[i..i + n] + Sanitize(s[i + n..]) else "?" + Sanitize(s[i + 1..])
  {
    var t := s[i..];
    assert t[..n] == s[i..i + n];
    assert t[n..] == s[i + n..];
    assert t[1..] == s[i + 1..];
  }

  /** `HttpServer::SanitizeUTF8` / `RegistryMonitor::SanitizeUTF8` as the byte loop. */
  method SanitizeUtf8(s: string) returns (r: string)
    ensures r == Sanitize(s)
  {
    r := "";
    var i := 0;
    while i < |s|
      invariant 0 <= i <= |s|
      invariant r + Sanitize(s[i..]) == Sanitize(s)
    {
      var n := StepRun(s, i);
      SanitizeSuffix(s, i, n);
      var chunk, next := if n > 0 then s[i..i + n] else "?", if n > 0 then i + n else i + 1;
      ghost var rest := Sanitize(s[next..]);
      assert Sanitize(s[i..]) == chunk + rest;
      ConcatAssoc(r, chunk, rest);
      r := r + chunk;
      i := next;
    }
  }

  /** `s` can be obtained from `t` by deleting bytes. */
  predicate SubsequenceOf(s: string, t: string)
    decreases |t|
  {
    |s| == 0 || (|t| > 0 && ((s[0] == t[0] && SubsequenceOf(s[1..], t[1..])) || SubsequenceOf(s, t[1..])))
  }

  lemma {:induction false} SubsequenceCons(p: string, s: string, t: string)
    requires SubsequenceOf(s, t)
    ensures SubsequenceOf(p + s, p + t)
    decreases |p|
  {
    if |p| > 0 {
      SubsequenceCons(p[1..], s, t);
      assert (p + s)[0] == (p + t)[0];
      assert (p + s)[1..] == p[1..] + s;
      assert (p + t)[1..] == p[1..] + t;
    } else {
      assert p + s == s && p + t == t;
    }
  }

  lemma {:induction false} SubsequenceLength(s: string, t: string)
    requires SubsequenceOf(s, t)
    ensures |s| <= |t|
    decreases |t|
  {
    if |s| > 0 {
      if s[0] == t[0] && SubsequenceOf(s[1..], t[1..]) {
        SubsequenceLength(s[1..], t[1..]);
      } else {
        SubsequenceLength(s, t[1..]);
      }
    }
  }

  /** Reference definition of `FilterToValidUtf8`: well-formed runs kept, other bytes dropped. */
  function Filter(s: string): (r: string)
    ensures |r| <= |s|
    decreases |s|
  {
    if |s| == 0 then []
    else
      var n := RunLength(s);
      if n > 0 then s[..n] + Filter(s[n..]) else Filter(s[1..])
  }

  /** The filter only deletes bytes. */
  lemma {:induction false} FilterSubsequence(s: string)
    ensures SubsequenceOf(Filter(s), s)
    decreases |s|
  {
    if |s| > 0 {
      var n := RunLength(s);
      if n > 0 {
        FilterSubsequence(s[n..]);
        SubsequenceCons(s[..n], Filter(s[n..]), s[n..]);
        assert s == s[..n] + s[n..];
      } else {
        FilterSubsequence(s[1..]);
        var f := Filter(s[1..]);
        assert |f| == 0 || SubsequenceOf(f, s[1..]);
      }
    }
  }

  lemma {:induction false} FilterWellFormed(s: string)
    ensures WellFormed(Filter(s))
    decreases |s|
  {
    if |s| > 0 {
      var n := RunLength(s);
      if n > 0 {
        FilterWellFormed(s[n..]);
        RunLengthPrefix(s, Filter(s[n..]), n);
      } else {
        FilterWellFormed(s[1..]);
      }
    }
  }

  /** `FilterToValidUtf8` changes nothing exactly when its input is well-formed. */
  lemma {:induction false} FilterIdentity(s: string)
    ensures Filter(s) == s <==> WellFormed(s)
    decreases |s|
  {
    if |s| > 0 {
      var n := RunLength(s);
      if n > 0 {
        FilterIdentity(s[n..]);
        assert s == s[..n] + s[n..];
        if Filter(s) == s {
          assert (s[..n] + Filter(s[n..]))[n..] == Filter(s[n..]);
        }
      } else {
        assert !WellFormed(s);
        assert |Filter(s)| <= |s[1..]| < |s|;
      }
    }
  }

  lemma FilterIdempotent(s: string)
    ensures Filter(Filter(s)) == Filter(s)
  {
    FilterWellFormed(s);
    FilterIdentity(Filter(s));
  }

  /** `Filter` read by position: the runs kept from index `i` on, a run length at a time. */
  function FilterFrom(s: string, i: nat): (r: string)
    requires i <= |s|
    decreases |s| - i
  {
    if i == |s| then []
    else
      var n := RunLength(s[i..]);
      if n > 0 then s[i..i + n] + FilterFrom(s, i + n) else FilterFrom(s, i + 1)
  }

  /** The positional reading of the suffix from `i` is `Filter` of that suffix. */
  predicate FilterAgrees(s: string, i: nat)
    requires i <= |s|
  {
    FilterFrom(s, i) == Filter(s[i..])
  }

  /** The positional reading agrees with `Filter` on every suffix. */
  lemma {:induction false} FilterFromSuffix(s: string, i: nat)
    requires i <= |s|
    ensures FilterAgrees(s, i)
    decreases |s| - i
  {
    if i == |s| {
      EndAgrees(s);
    } else {
      var n := RunLength(s[i..]);
      if n > 0 {
        FilterFromSuffix(s, i + n);
        KeptRunAgrees(s, i, n);
      } else {
        FilterFromSuffix(s, i + 1);
        SkippedByteAgrees(s, i);
      }
    }
  }

  /** Both readings are empty at the end of the string. */
  lemma EndAgrees(s: string)
    ensures FilterAgrees(s, |s|)
  {
    assert s[|s|..] == [];
  }

  /** Agreement carries back over a run that both readings keep. */
  lemma KeptRunAgrees(s: string, i: nat, n: nat)
    requires i < |s| && n == RunLength(s[i..]) && n > 0
    requires FilterAgrees(s, i + n)
    ensures FilterAgrees(s, i)
  {
    FilterKeepsRun(s, i, n);
    SameHeadSameTail(FilterFrom(s, i), Filter(s[i..]), s[i..i + n], FilterFrom(s, i + n), Filter(s[i + n..]));
  }

  /** Moving the head of `x` onto `r` leaves the concatenation unchanged. */
  lemma MoveHead(r: string, x: string, head: string, u: string)
    requires x == head + u
    ensures (r + head) + u == r + x
  {
  }

  lemma SameHeadSameTail(x: string, y: string, head: string, u: string, v: string)
    requires x == head + u && y == head + v && u == v
    ensures x == y
  {
  }

  /** `Filter` on the suffix from `i` keeps the run found there. */
  lemma FilterKeepsRun(s: string, i: nat, n: nat)
    requires i < |s| && n == RunLength(s[i..]) && n > 0
    ensures i + n <= |s| && Filter(s[i..]) == s[i..i + n] + Filter(s[i + n..])
  {
    var t := s[i..];
    assert t[..n] == s[i..i + n];
    assert t[n..] == s[i + n..];
  }

  /** Agreement carries back over a byte that both readings drop. */
  lemma SkippedByteAgrees(s: string, i: nat)
    requires i < |s| && RunLength(s[i..]) == 0
    requires FilterAgrees(s, i + 1)
    ensures FilterAgrees(s, i)
  {
    assert s[i..][1..] == s[i + 1..];
  }

  /** `FilterToValidUtf8` in `disk_monitor.cpp` as the byte loop. */
  method FilterToValidUtf8(s: string) returns (r: string)
    ensures r == Filter(s)
  {
    r := "";
    var i := 0;
    while i < |s|
      invariant 0 <= i <= |s|
      invariant r + FilterFrom(s, i) == FilterFrom(s, 0)
      decreases |s| - i
    {
      r, i := FilterAt(s, i, r);
    }
    FilterFromSuffix(s, 0);
    assert s[0..] == s;
  }

  /** One pass of the loop body: keep the run at `i`, or skip its byte. */
  method FilterAt(s: string, i: nat, r: string) returns (r': string, next: nat)
    requires i < |s|
    ensures i < next <= |s|
    ensures r' + FilterFrom(s, next) == r + FilterFrom(s, i)
  {
    var n := StepRun(s, i);
    if n > 0 {
      MoveHead(r, FilterFrom(s, i), s[i..i + n], FilterFrom(s, i + n));
      r', next := r + s[i..i + n], i + n;
    } else {
      r', next := r, i + 1;
    }
  }
}
