/** `Color.init(hex:)`: trim the string's non-alphanumeric ends, scan a
    hexadecimal integer from what is left, and split its low 24 bits into
    red, green and blue bytes; when no digit can be scanned the colour is a
    fixed gray. Channels are kept as the integer bytes the source divides by
    255; `None` stands for the gray fallback. */
module HexColor {
  import opened Wrappers
  import opened Trimming
  import opened HexScanner

  type Byte = x: int | 0 <= x < 256

  datatype Rgb = Rgb(red: Byte, green: Byte, blue: Byte)

  /** 2^24: the part of the scanned value the channels are taken from. */
  const LOW24: int := 0x100_0000

  /** The three channel bytes packed back into one 24-bit number. */
  function Packed(c: Rgb): (v: nat)
    ensures v < LOW24
  {
    c.red * 0x1_0000 + c.green * 0x100 + c.blue
  }

  /** `(v >> 16) & 0xFF`, `(v >> 8) & 0xFF` and `v & 0xFF`, written as
      division by a power of two and remainder by 256. */
  function Channels(v: UInt64): (c: Rgb)
    ensures Packed(c) == v % LOW24
  {
    var red := (v / 0x1_0000) % 0x100;
    var green := (v / 0x100) % 0x100;
    var blue := v % 0x100;
    ByteSplit(v);
    Rgb(red, green, blue)
  }

  /** Cutting three bytes out of `v` and packing them again gives its low
      24 bits. */
  lemma ByteSplit(v: nat)
    ensures ((v / 0x1_0000) % 0x100) * 0x1_0000 + ((v / 0x100) % 0x100) * 0x100 + v % 0x100
         == v % LOW24
  {
    var q0, b := v / 0x100, v % 0x100;
    var q1, g := q0 / 0x100, q0 % 0x100;
    var q2, r := q1 / 0x100, q1 % 0x100;
    assert v == 0x100 * q0 + b;
    assert q0 == 0x100 * q1 + g;
    assert q1 == 0x100 * q2 + r;
    assert v / 0x1_0000 == q1;
    assert v == LOW24 * q2 + (r * 0x1_0000 + g * 0x100 + b);
    assert v % LOW24 == r * 0x1_0000 + g * 0x100 + b;
  }

  /** The decoder. `None` is the gray fallback, taken exactly when the
      trimmed string does not start with a hexadecimal digit (the empty
      string included); every other input yields three channels. */
  function ParseHex(hex: string): (r: Option<Rgb>)
    ensures r.None? <==> Trim(hex) == [] || !IsHexDigit(Trim(hex)[0])
  {
    ScanOfTrimmed(hex);
    match ScanHexInt64(Trim(hex))
    case Some(v) => Some(Channels(v))
    case None => None
  }

  /** The digits used to write a colour back as text. */
  const HEX_DIGITS: string := "0123456789ABCDEF"

  function HexDigitChar(d: nat): (c: char)
    requires d < 16
    ensures IsHexDigit(c) && DigitValue(c) == d
  {
    HEX_DIGITS[d]
  }

  /** Two hexadecimal digits for one byte. */
  function ByteToHex(b: Byte): (s: string)
    ensures |s| == 2 && AllHexDigits(s) && HexValue(s) == b
  {
    var s := [HexDigitChar(b / 16), HexDigitChar(b % 16)];
    assert s[..1] == [s[0]];
    s
  }

  /** The six-digit `RRGGBB` text of a colour. */
  function ToHex(c: Rgb): (s: string)
    ensures |s| == 6 && AllHexDigits(s) && HexValue(s) == Packed(c)
  {
    var hi := ByteToHex(c.red);
    var mid := ByteToHex(c.green);
    var lo := ByteToHex(c.blue);
    assert Pow16(2) == 0x100;
    HexValueConcat(hi, mid);
    HexValueConcat(hi + mid, lo);
    assert HexValue(hi + mid) == c.red * 0x100 + c.green;
    hi + mid + lo
  }

  /** ASCII upper-case letters mapped to lower case; everything else kept. */
  function LowerChar(c: char): (l: char)
    ensures IsAlnum(l) == IsAlnum(c) && IsWhitespace(l) == IsWhitespace(c)
    ensures IsHexDigit(l) == IsHexDigit(c)
    ensures IsHexDigit(c) ==> DigitValue(l) == DigitValue(c)
  {
    if 'A' <= c <= 'Z' then (c as int - 'A' as int + 'a' as int) as char else c
  }

  function LowerAscii(s: string): (l: string)
    ensures |l| == |s| && forall k :: 0 <= k < |s| ==> l[k] == LowerChar(s[k])
  {
    seq(|s|, k requires 0 <= k < |s| => LowerChar(s[k]))
  }

  // ---------------------------------------------------------------------
  // Digit strings

  /** Appending digits shifts the value left by four bits per digit. */
  lemma {:induction false} HexValueConcat(a: string, b: string)
    requires AllHexDigits(a) && AllHexDigits(b)
    ensures AllHexDigits(a + b)
    ensures HexValue(a + b) == HexValue(a) * Pow16(|b|) + HexValue(b)
  {
    assert forall k :: 0 <= k < |a + b| ==> (a + b)[k] == if k < |a| then a[k] else b[k - |a|];
    if |b| == 0 {
      assert a + b == a;
    } else {
      var b' := b[..|b| - 1];
      assert (a + b)[..|a + b| - 1] == a + b';
      assert (a + b)[|a + b| - 1] == b[|b| - 1];
      HexValueConcat(a, b');
      ShiftDigit(HexValue(a), Pow16(|b'|), HexValue(b'), DigitValue(b[|b| - 1]));
    }
  }

  lemma ShiftDigit(x: int, p: int, y: int, d: int)
    ensures (x * p + y) * 16 + d == x * (16 * p) + (y * 16 + d)
  {
  }

  lemma {:induction false} Pow16Monotone(m: nat, n: nat)
    requires m <= n
    ensures Pow16(m) <= Pow16(n)
  {
    if m < n { Pow16Monotone(m, n - 1); }
  }

  /** A string of digits decodes as the saturated value of all its digits. */
  lemma ParseHexOfDigits(s: string)
    requires |s| > 0 && AllHexDigits(s)
    ensures ParseHex(s) == Some(Channels(Saturate(HexValue(s))))
  {
    assert IsHexDigit(s[0]) && IsHexDigit(s[|s| - 1]);
    TrimKeepsInterior(s);
    ScanOfDigits(s);
  }

  /** The scanner reads all of a digit string. */
  lemma ScanOfDigits(s: string)
    requires |s| > 0 && AllHexDigits(s)
    ensures ScanHexInt64(s) == Some(Saturate(HexValue(s)))
  {
    assert LeadingWhitespace(s) == 0;
    assert s[0..] == s && s[..|s|] == s;
    HexRunUnique(s, |s|);
  }

  // ---------------------------------------------------------------------
  // Channels

  /** A packed 24-bit number unpacks into the bytes it was packed from. */
  lemma PackedUnique(c: Rgb, d: Rgb)
    requires Packed(c) == Packed(d)
    ensures c == d
  {
  }

  /** Only the low 24 bits of the scanned value reach the colour: two values
      give the same channels exactly when they agree modulo 2^24. */
  lemma ChannelsLow24(a: UInt64, b: UInt64)
    ensures Channels(a) == Channels(b) <==> a % LOW24 == b % LOW24
  {
    if a % LOW24 == b % LOW24 {
      PackedUnique(Channels(a), Channels(b));
    }
  }

  /** Unpacking a packed colour gives the colour back. */
  lemma ChannelsOfPacked(c: Rgb)
    ensures Channels(Packed(c)) == c
  {
    assert Packed(c) % LOW24 == Packed(c);
    PackedUnique(Channels(Packed(c)), c);
  }

  // ---------------------------------------------------------------------
  // The decoder

  /** After the trim, the scanner has no whitespace to skip, so it fails
      exactly when the trimmed string does not start with a digit. */
  lemma ScanOfTrimmed(hex: string)
    ensures ScanHexInt64(Trim(hex)).None? <==> Trim(hex) == [] || !IsHexDigit(Trim(hex)[0])
  {
    var t := Trim(hex);
    if t != [] {
      var cut := TrimCut(hex);
      TrimUnique(hex, cut.0, cut.1);
      assert IsAlnum(t[0]);
      assert LeadingWhitespace(t) == 0;
    }
  }

  /** A string of junk only (empty, all punctuation, all spaces) is gray. */
  lemma JunkIsGray(hex: string)
    requires AllJunk(hex)
    ensures ParseHex(hex) == None
  {
    assert TrimBounds(hex, |hex|, |hex|);
    TrimUnique(hex, |hex|, |hex|);
  }

  /** Non-alphanumeric characters at either end do not change the colour. */
  lemma JunkEndsIgnored(p: string, hex: string, q: string)
    requires AllJunk(p) && AllJunk(q)
    ensures ParseHex(p + hex + q) == ParseHex(hex)
  {
    TrimIgnoresJunkEnds(p, hex, q);
  }

  /** `"#RRGGBB"` and `"RRGGBB"` decode identically. */
  lemma HashPrefixIgnored(hex: string)
    ensures ParseHex("#" + hex) == ParseHex(hex)
  {
    assert "#" + hex == "#" + hex + [];
    JunkEndsIgnored("#", hex, []);
  }

  /** Six-digit round trip: the text of a colour, with or without `#`,
      decodes to that colour. */
  lemma RoundTrip(c: Rgb)
    ensures ParseHex(ToHex(c)) == Some(c)
    ensures ParseHex("#" + ToHex(c)) == Some(c)
  {
    ParseHexOfDigits(ToHex(c));
    ChannelsOfPacked(c);
    HashPrefixIgnored(ToHex(c));
  }

  /** Any six-digit `RRGGBB`, in either letter case, decodes to the values
      of its three digit pairs. */
  lemma SixDigits(hex: string)
    requires |hex| == 6 && AllHexDigits(hex)
    ensures AllHexDigits(hex[..2]) && AllHexDigits(hex[2..4]) && AllHexDigits(hex[4..])
    ensures ParseHex(hex) == Some(Rgb(HexValue(hex[..2]), HexValue(hex[2..4]), HexValue(hex[4..])))
  {
    var hi, mid, lo := hex[..2], hex[2..4], hex[4..];
    assert hex == hi + mid + lo;
    assert Pow16(2) == 0x100;
    HexValueConcat(hi, mid);
    HexValueConcat(hi + mid, lo);
    var c := Rgb(HexValue(hi), HexValue(mid), HexValue(lo));
    assert HexValue(hex) == Packed(c);
    ParseHexOfDigits(hex);
    ChannelsOfPacked(c);
  }

  /** The letter case of the digits does not matter. */
  lemma CaseInsensitive(hex: string)
    ensures ParseHex(LowerAscii(hex)) == ParseHex(hex)
  {
    TrimLower(hex);
    ScanLower(Trim(hex));
  }

  /** Lower-casing commutes with trimming. */
  lemma TrimLower(s: string)
    ensures Trim(LowerAscii(s)) == LowerAscii(Trim(s))
  {
    var cut := TrimCut(s);
    var l := LowerAscii(s);
    assert TrimBounds(l, cut.0, cut.1);
    TrimUnique(l, cut.0, cut.1);
    LowerSlice(s, cut.0, cut.1);
  }

  lemma LowerSlice(s: string, i: nat, j: nat)
    requires i <= j <= |s|
    ensures LowerAscii(s)[i..j] == LowerAscii(s[i..j])
  {
    var l := LowerAscii(s);
    var a := l[i..j];
    var b := LowerAscii(s[i..j]);
    forall k | 0 <= k < j - i
      ensures a[k] == b[k]
    {
      assert a[k] == l[i + k];
      assert b[k] == LowerChar(s[i..j][k]);
    }
  }

  /** Lower-casing does not change what the scanner reads. */
  lemma ScanLower(s: string)
    ensures ScanHexInt64(LowerAscii(s)) == ScanHexInt64(s)
  {
    var l := LowerAscii(s);
    var w := LeadingWhitespace(s);
    assert LeadingWhitespace(l) == w;
    var t := s[w..];
    var lt := l[w..];
    LowerSlice(s, w, |s|);
    assert lt == LowerAscii(t);
    var n := HexRunLength(t);
    LowerSlice(t, 0, n);
    assert lt[..n] == LowerAscii(t[..n]);
    HexRunUnique(lt, n);
    HexValueLower(t[..n]);
  }

  lemma {:induction false} HexValueLower(d: string)
    requires AllHexDigits(d)
    ensures AllHexDigits(LowerAscii(d)) && HexValue(LowerAscii(d)) == HexValue(d)
  {
    if |d| > 0 {
      var d' := d[..|d| - 1];
      assert LowerAscii(d)[..|d| - 1] == LowerAscii(d');
      HexValueLower(d');
    }
  }

  /** A one-digit string is a blue level only: `"F"` is (0, 0, 15). */
  lemma SingleDigitIsBlue(c: char)
    requires IsHexDigit(c)
    ensures ParseHex([c]) == Some(Rgb(0, 0, DigitValue(c)))
    ensures ParseHex("#" + [c]) == Some(Rgb(0, 0, DigitValue(c)))
  {
    var s := [c];
    var d := DigitValue(c);
    assert s[..0] == [];
    assert HexValue(s) == d;
    ParseHexOfDigits(s);
    var blue := Rgb(0, 0, d);
    assert Packed(blue) == d;
    ChannelsOfPacked(blue);
    assert ParseHex(s) == Some(blue);
    HashPrefixIgnored(s);
  }

  /** Up to sixteen digits fit in 64 bits, so only the last six digits
      matter: `"FF112233"` is the colour of `"112233"`. */
  lemma LastSixDigits(hex: string)
    requires AllHexDigits(hex) && 6 <= |hex| <= 16
    ensures ParseHex(hex) == ParseHex(hex[|hex| - 6..])
  {
    var b := hex[|hex| - 6..];
    var v := HexValue(hex);
    var y := HexValue(b);
    LastSixValue(hex);
    assert y < LOW24;
    assert v % LOW24 == y % LOW24;
    ChannelsLow24(v, y);
    ParseHexOfDigits(hex);
    ParseHexOfDigits(b);
  }

  /** The numeric side: the value fits in 64 bits and its low 24 bits are
      the value of the last six digits. */
  lemma LastSixValue(hex: string)
    requires AllHexDigits(hex) && 6 <= |hex| <= 16
    ensures AllHexDigits(hex[|hex| - 6..])
    ensures HexValue(hex) <= UINT64_MAX
    ensures HexValue(hex) % LOW24 == HexValue(hex[|hex| - 6..])
  {
    var a := hex[..|hex| - 6];
    var b := hex[|hex| - 6..];
    assert hex == a + b;
    var x, y := HexValue(a), HexValue(b);
    Pow16Landmarks();
    assert |b| == 6;
    assert y < LOW24;
    HexValueConcat(a, b);
    assert HexValue(hex) == x * LOW24 + y;
    Pow16Monotone(|hex|, 16);
    DropHighDigits(x, y);
    assert HexValue(hex) % LOW24 == y;
  }

  lemma Pow16Landmarks()
    ensures Pow16(6) == LOW24
    ensures Pow16(16) == UINT64_MAX + 1
  {
    assert Pow16(4) == 0x1_0000;
    assert Pow16(8) == 0x1_0000_0000;
    assert Pow16(12) == 0x1_0000_0000_0000;
  }

  lemma DropHighDigits(x: nat, y: nat)
    requires y < LOW24
    ensures (x * LOW24 + y) % LOW24 == y
  {
  }

  /** A digit run too large for 64 bits saturates, and decodes as white. */
  lemma OverflowIsWhite(hex: string)
    requires |hex| > 0 && AllHexDigits(hex) && HexValue(hex) > UINT64_MAX
    ensures ParseHex(hex) == Some(Rgb(255, 255, 255))
  {
    ParseHexOfDigits(hex);
    ChannelsLow24(UINT64_MAX, Packed(Rgb(255, 255, 255)));
    ChannelsOfPacked(Rgb(255, 255, 255));
  }

  /** Pure red, written with a `#`. */
  lemma SampleRed(hex: string)
    requires hex == "#FF0000"
    ensures ParseHex(hex) == Some(Rgb(255, 0, 0))
  {
    var c := Rgb(255, 0, 0);
    assert ByteToHex(255) == "FF" && ByteToHex(0) == "00";
    assert "#" + ToHex(c) == hex;
    RoundTrip(c);
  }

  /** Pure green, written in lower case. */
  lemma SampleGreen(hex: string)
    requires hex == "00ff00"
    ensures ParseHex(hex) == Some(Rgb(0, 255, 0))
  {
    var c := Rgb(0, 255, 0);
    var upper := ToHex(c);
    GreenText(upper, hex);
    RoundTrip(c);
    CaseInsensitive(upper);
  }

  lemma GreenText(upper: string, lower: string)
    requires upper == ToHex(Rgb(0, 255, 0)) && lower == "00ff00"
    ensures LowerAscii(upper) == lower
  {
    assert ByteToHex(255) == "FF" && ByteToHex(0) == "00";
    assert upper == "00FF00";
    var l := LowerAscii(upper);
    assert forall k :: 0 <= k < 6 ==> l[k] == lower[k];
  }
}
