/** `Scanner.scanHexInt64` as used by the colour decoder: skip leading
    whitespace, then read the longest run of hexadecimal digits into an
    unsigned 64-bit integer. It succeeds when at least one digit is read; a
    value too large for 64 bits reads as the largest 64-bit value. The
    optional `0x` prefix the scanner also accepts is not modelled. */
module HexScanner {
  import opened Wrappers

  const UINT64_MAX: int := 0xFFFF_FFFF_FFFF_FFFF

  type UInt64 = x: int | 0 <= x <= UINT64_MAX

  /** The scanner's default skip set, restricted to ASCII whitespace. */
  predicate IsWhitespace(c: char) {
    c == ' ' || c == '\t' || c == '\n' || c == '\r' || c == '\U{B}' || c == '\U{C}'
  }

  predicate IsHexDigit(c: char) {
    ('0' <= c <= '9') || ('a' <= c <= 'f') || ('A' <= c <= 'F')
  }

  ghost predicate AllHexDigits(s: string) {
    forall k :: 0 <= k < |s| ==> IsHexDigit(s[k])
  }

  /** The value of one hexadecimal digit; both letter cases count the same. */
  function DigitValue(c: char): (d: nat)
    requires IsHexDigit(c)
    ensures d < 16
  {
    if '0' <= c <= '9' then c as int - '0' as int
    else if 'a' <= c <= 'f' then c as int - 'a' as int + 10
    else c as int - 'A' as int + 10
  }

  function Pow16(n: nat): (p: nat)
    ensures p >= 1
  {
    if n == 0 then 1 else 16 * Pow16(n - 1)
  }

  /** The unbounded value of a digit string, most significant digit first. */
  function HexValue(digits: string): (v: nat)
    requires AllHexDigits(digits)
    ensures v < Pow16(|digits|)
  {
    if |digits| == 0 then 0
    else HexValue(digits[..|digits| - 1]) * 16 + DigitValue(digits[|digits| - 1])
  }

  /** What a 64-bit accumulator holds after overflow: the largest value. */
  function Saturate(v: nat): (r: UInt64)
    ensures v <= UINT64_MAX ==> r == v
    ensures v > UINT64_MAX ==> r == UINT64_MAX
  {
    if v <= UINT64_MAX then v else UINT64_MAX
  }

  /** Number of leading whitespace characters. */
  function LeadingWhitespace(s: string): (i: nat)
    ensures i <= |s|
    ensures forall k :: 0 <= k < i ==> IsWhitespace(s[k])
    ensures i < |s| ==> !IsWhitespace(s[i])
  {
    if |s| == 0 || !IsWhitespace(s[0]) then 0 else 1 + LeadingWhitespace(s[1..])
  }

  /** Length of the longest prefix made of hexadecimal digits. */
  function HexRunLength(s: string): (n: nat)
    ensures n <= |s|
    ensures AllHexDigits(s[..n])
    ensures n < |s| ==> !IsHexDigit(s[n])
  {
    if |s| == 0 || !IsHexDigit(s[0]) then 0
    else
      var n := 1 + HexRunLength(s[1..]);
      assert s[..n] == [s[0]] + s[1..][..n - 1];
      n
  }

  /** The scan, stated through the longest digit run after the whitespace:
      `None` when the run is empty, otherwise its saturated value. */
  function ScanHexInt64(s: string): (r: Option<UInt64>)
    ensures r.None? <==> LeadingWhitespace(s) == |s| || !IsHexDigit(s[LeadingWhitespace(s)])
  {
    var t := s[LeadingWhitespace(s)..];
    var n := HexRunLength(t);
    if n == 0 then None else Some(Saturate(HexValue(t[..n])))
  }

  /** The scanner: skip whitespace, then read digits into a 64-bit
      accumulator; it succeeds when at least one digit was read. */
  method ScanHex(s: string) returns (found: bool, value: UInt64)
    ensures found <==> ScanHexInt64(s).Some?
    ensures found ==> value == ScanHexInt64(s).value
  {
    var start := SkipWhitespace(s);
    var stop;
    stop, value := AccumulateDigits(s, start);
    found := stop > start;
  }

  /** The index of the first character that is not whitespace. */
  method SkipWhitespace(s: string) returns (i: nat)
    ensures i == LeadingWhitespace(s)
  {
    i := 0;
    while i < |s| && IsWhitespace(s[i])
      invariant i <= |s|
      invariant forall k :: 0 <= k < i ==> IsWhitespace(s[k])
    {
      i := i + 1;
    }
  }

  /** Digit by digit from `start`: the accumulator sticks at its largest
      value once a digit would overflow it. Returns where the digits stop. */
  method AccumulateDigits(s: string, start: nat) returns (i: nat, value: UInt64)
    requires start <= |s|
    ensures i - start == HexRunLength(s[start..])
    ensures value == Saturate(HexValue(s[start..][..i - start]))
  {
    i := start;
    value := 0;
    while i < |s| && IsHexDigit(s[i])
      invariant start <= i <= |s|
      invariant AllHexDigits(s[start..i])
      invariant value == Saturate(HexValue(s[start..i]))
    {
      AccumulateStep(s, start, i);
      value := Accumulate(value, DigitValue(s[i]));
      i := i + 1;
    }
    ScanEndsRun(s, start, i);
  }

  /** Reading one more digit: the saturated value of the longer run is the
      accumulator step applied to the saturated value of the shorter one. */
  lemma AccumulateStep(s: string, start: nat, i: nat)
    requires start <= i < |s| && IsHexDigit(s[i]) && AllHexDigits(s[start..i])
    ensures AllHexDigits(s[start..i + 1])
    ensures Saturate(HexValue(s[start..i + 1]))
         == Accumulate(Saturate(HexValue(s[start..i])), DigitValue(s[i]))
  {
    assert s[start..i + 1][..i - start] == s[start..i];
    SaturateStep(HexValue(s[start..i]), DigitValue(s[i]));
  }

  /** Where the digit loop stops, the run it read is the longest one. */
  lemma ScanEndsRun(s: string, start: nat, i: nat)
    requires start <= i <= |s|
    requires AllHexDigits(s[start..i]) && (i < |s| ==> !IsHexDigit(s[i]))
    ensures HexRunLength(s[start..]) == i - start
    ensures s[start..][..i - start] == s[start..i]
  {
    RunInSuffix(s[start..], s, start, i - start);
  }

  lemma RunInSuffix(t: string, s: string, start: nat, n: nat)
    requires start + n <= |s| && t == s[start..]
    requires AllHexDigits(s[start..start + n]) && (start + n < |s| ==> !IsHexDigit(s[start + n]))
    ensures HexRunLength(t) == n && t[..n] == s[start..start + n]
  {
    assert t[..n] == s[start..start + n];
    assert n < |t| ==> t[n] == s[start + n];
    HexRunUnique(t, n);
  }

  /** One accumulator step: shift in a digit, or stay at the largest
      value when the shifted value would not fit in 64 bits. */
  function Accumulate(acc: UInt64, d: nat): UInt64
    requires d < 16
  {
    if acc > (UINT64_MAX - d) / 16 then UINT64_MAX else acc * 16 + d
  }

  /** One accumulator step commutes with saturation. */
  lemma SaturateStep(v: nat, d: nat)
    requires d < 16
    ensures Saturate(v * 16 + d) == Accumulate(Saturate(v), d)
  {
  }

  /** A digit run ended by a non-digit (or by the end) is the longest one. */
  lemma HexRunUnique(s: string, n: nat)
    requires n <= |s| && AllHexDigits(s[..n])
    requires n < |s| ==> !IsHexDigit(s[n])
    ensures HexRunLength(s) == n
  {
    var m := HexRunLength(s);
    assert forall k :: 0 <= k < n ==> s[..n][k] == s[k];
    assert forall k :: 0 <= k < m ==> s[..m][k] == s[k];
    assert m == n;
  }
}
