/** Command-line arguments to custom images (main.go:119-139): every
    argument names an image file whose base name, without its extension,
    spells the cartridge signature in hexadecimal, read by
    `HexStringTransform` (main.go:243-268). */
module HexKey {
  import opened Common

  // ---------------------------------------------------------------------
  // Characters
  // ---------------------------------------------------------------------

  /** Go's `unicode.IsSpace`: the ASCII spaces, U+0085, U+00A0 and the
      other characters with the Unicode White_Space property. */
  predicate IsSpace(c: char)
  {
    var n := c as int;
    (0x09 <= n <= 0x0D) || n == 0x20 || n == 0x85 || n == 0xA0 || n == 0x1680 ||
    (0x2000 <= n <= 0x200A) || n == 0x2028 || n == 0x2029 || n == 0x202F ||
    n == 0x205F || n == 0x3000
  }

  /** Lower-casing of an ASCII letter; every other character is kept. */
  function Lower(c: char): (r: char)
    ensures 'A' <= c <= 'Z' ==> r as int == c as int + 32
    ensures !('A' <= c <= 'Z') ==> r == c
  {
    if 'A' <= c <= 'Z' then (c as int + 32) as char else c
  }

  function LowerAll(s: string): (r: string)
    ensures |r| == |s| && forall i :: 0 <= i < |s| ==> r[i] == Lower(s[i])
  {
    seq(|s|, i requires 0 <= i < |s| => Lower(s[i]))
  }

  /** Bytes a character takes in UTF-8 (Go strings are UTF-8, and `len`
      counts bytes). */
  function Utf8Width(c: char): (r: nat)
    ensures 1 <= r <= 4
    ensures r == 1 <==> c as int < 0x80
  {
    var n := c as int;
    if n < 0x80 then 1 else if n < 0x800 then 2 else if n < 0x1_0000 then 3 else 4
  }

  function ByteLen(s: string): (r: nat)
    ensures |s| <= r <= 4 * |s|
  {
    if s == [] then 0 else Utf8Width(s[0]) + ByteLen(s[1..])
  }

  /** A string of ASCII characters takes one byte per character. */
  lemma {:induction false} AsciiByteLen(s: string)
    requires forall i :: 0 <= i < |s| ==> s[i] as int < 0x80
    ensures ByteLen(s) == |s|
  {
    if s != [] {
      AsciiByteLen(s[1..]);
    }
  }

  // ---------------------------------------------------------------------
  // strings.TrimSpace
  // ---------------------------------------------------------------------

  function LeadingSpaces(s: string): (r: nat)
    ensures r <= |s|
    ensures forall i :: 0 <= i < r ==> IsSpace(s[i])
    ensures r < |s| ==> !IsSpace(s[r])
  {
    if s == [] || !IsSpace(s[0]) then 0 else 1 + LeadingSpaces(s[1..])
  }

  function TrailingSpaces(s: string): (r: nat)
    ensures r <= |s|
    ensures forall i :: |s| - r <= i < |s| ==> IsSpace(s[i])
    ensures r < |s| ==> !IsSpace(s[|s| - r - 1])
  {
    if s == [] || !IsSpace(s[|s| - 1]) then 0 else 1 + TrailingSpaces(s[..|s| - 1])
  }

  /** `strings.TrimSpace`: the string without its leading and trailing
      white space. */
  function TrimSpace(s: string): (r: string)
    ensures r == [] || (!IsSpace(r[0]) && !IsSpace(r[|r| - 1]))
    ensures r == [] <==> forall i :: 0 <= i < |s| ==> IsSpace(s[i])
  {
    var rest := s[LeadingSpaces(s)..];
    var r := rest[..|rest| - TrailingSpaces(rest)];
    assert r != [] ==> r[0] == rest[0] == s[LeadingSpaces(s)];
    r
  }

  function AllSpace(s: string): bool
  {
    forall i :: 0 <= i < |s| ==> IsSpace(s[i])
  }

  lemma {:induction false} LeadingOf(w: string, core: string)
    requires AllSpace(w) && (core == [] || !IsSpace(core[0]))
    ensures LeadingSpaces(w + core) == |w| + (if core == [] then LeadingSpaces(core) else 0)
  {
    if w != [] {
      assert (w + core)[1..] == w[1..] + core;
      LeadingOf(w[1..], core);
    } else {
      assert w + core == core;
    }
  }

  lemma {:induction false} TrailingOf(core: string, w: string)
    requires AllSpace(w) && (core == [] || !IsSpace(core[|core| - 1]))
    ensures TrailingSpaces(core + w) == |w| + (if core == [] then TrailingSpaces(core) else 0)
  {
    if w != [] {
      assert (core + w)[..|core + w| - 1] == core + w[..|w| - 1];
      TrailingOf(core, w[..|w| - 1]);
    } else {
      assert core + w == core;
    }
  }

  /** White space around a string that neither starts nor ends with white
      space is exactly what TrimSpace removes. */
  lemma TrimSpaceAround(w1: string, core: string, w2: string)
    requires AllSpace(w1) && AllSpace(w2)
    requires core != [] && !IsSpace(core[0]) && !IsSpace(core[|core| - 1])
    ensures TrimSpace(w1 + core + w2) == core
  {
    var s := w1 + core + w2;
    assert s == w1 + (core + w2);
    LeadingOf(w1, core + w2);
    var rest := s[LeadingSpaces(s)..];
    assert rest == core + w2;
    TrailingOf(core, w2);
  }

  // ---------------------------------------------------------------------
  // encoding/hex and encoding/binary
  // ---------------------------------------------------------------------

  /** A character `hex.DecodeString` accepts. */
  predicate IsHexDigit(c: char)
  {
    ('0' <= c <= '9') || ('a' <= c <= 'f') || ('A' <= c <= 'F')
  }

  function DigitValue(c: char): (r: nat)
    requires IsHexDigit(c)
    ensures r < 16
  {
    if '0' <= c <= '9' then c as int - '0' as int
    else if 'a' <= c <= 'f' then c as int - 'a' as int + 10
    else c as int - 'A' as int + 10
  }

  predicate AllHex(s: string)
  {
    forall i :: 0 <= i < |s| ==> IsHexDigit(s[i])
  }

  /** The bytes spelled by pairs of hex digits, the first digit of a pair
      being the high nibble. */
  function HexPairs(s: string): (r: seq<byte>)
    requires AllHex(s) && |s| % 2 == 0
    ensures |r| == |s| / 2
  {
    if s == [] then []
    else [(16 * DigitValue(s[0]) + DigitValue(s[1])) as byte] + HexPairs(s[2..])
  }

  /** `hex.DecodeString`: a character that is not a hex digit is reported
      before an odd length is (a non-ASCII character is never a hex digit,
      whichever of its UTF-8 bytes is looked at). */
  function DecodeHex(s: string): (r: Result<seq<byte>>)
    ensures r.Err? <==> !AllHex(s) || |s| % 2 == 1
    ensures r.Err? ==> r.error == (if AllHex(s) then OddHexLength else InvalidHexByte)
    ensures r.Ok? ==> |r.value| == |s| / 2
  {
    if !AllHex(s) then Err(InvalidHexByte)
    else if |s| % 2 == 1 then Err(OddHexLength)
    else Ok(HexPairs(s))
  }

  /** `binary.BigEndian.Uint32` of four bytes. */
  function BigEndianU32(h: seq<byte>): u32
    requires |h| == 4
  {
    (h[0] as int * 0x100_0000 + h[1] as int * 0x1_0000 + h[2] as int * 0x100 + h[3] as int) as u32
  }

  // ---------------------------------------------------------------------
  // HexStringTransform (main.go:243-268)
  // ---------------------------------------------------------------------

  /** `strings.TrimPrefix(s, "0x")`. */
  function TrimHexPrefix(s: string): (r: string)
    ensures |s| >= 2 && s[..2] == "0x" ==> r == s[2..]
    ensures !(|s| >= 2 && s[..2] == "0x") ==> r == s
  {
    if |s| >= 2 && s[..2] == "0x" then s[2..] else s
  }

  /** `fmt.Sprintf("%08s", s)` for a string shorter than eight bytes: zeros
      in front up to eight characters (fmt counts characters, not bytes). */
  function PadDigits(s: string): (r: string)
    ensures |s| < 8 ==> |r| == 8 && r == seq(8 - |s|, _ => '0') + s
    ensures |s| >= 8 ==> r == s
  {
    if |s| < 8 then seq(8 - |s|, _ => '0') + s else s
  }

  /** What is left of an argument once white space, letter case and the
      0x prefix are dealt with: the hex digits proper. */
  function KeyDigits(s: string): string
  {
    TrimHexPrefix(LowerAll(TrimSpace(s)))
  }

  /** The signature a file name stem spells. A blank stem gives 0. */
  function HexStringTransform(s: string): (r: Result<u32>)
    ensures r.Err? ==> r.error in {EmptyKey, KeyTooLong, InvalidHexByte}
  {
    var t := TrimSpace(s);
    if t == [] then Ok(0)
    else
      var d := TrimHexPrefix(LowerAll(t));
      if d == [] then Err(EmptyKey)
      else if ByteLen(d) > 8 then Err(KeyTooLong)
      else
        var p := PadDigits(d);
        match DecodeHex(p)
        case Err(e) => Err(e)
        case Ok(h) =>
          PaddedLength(d);
          Ok(BigEndianU32(h))
  }

  /** A padded key of hex digits has exactly eight of them. */
  lemma PaddedLength(d: string)
    requires ByteLen(d) <= 8 && AllHex(PadDigits(d))
    ensures |PadDigits(d)| == 8
  {
    if |d| >= 8 {
      assert forall i :: 0 <= i < |d| ==> d[i] as int < 0x80 by {
        forall i | 0 <= i < |d| ensures d[i] as int < 0x80 {
          assert IsHexDigit(PadDigits(d)[i]);
        }
      }
      AsciiByteLen(d);
    }
  }

  // ---------------------------------------------------------------------
  // What the transform computes
  // ---------------------------------------------------------------------

  function Pow16(n: nat): (r: nat)
    ensures r >= 1
  {
    if n == 0 then 1 else 16 * Pow16(n - 1)
  }

  /** The number a string of hex digits spells, most significant first. */
  function HexValue(d: string): (r: nat)
    requires AllHex(d)
    ensures r < Pow16(|d|)
  {
    if d == [] then 0 else 16 * HexValue(d[..|d| - 1]) + DigitValue(d[|d| - 1])
  }

  /** Leading zeros do not change the value. */
  lemma {:induction false} HexValueZeros(z: string, d: string)
    requires forall i :: 0 <= i < |z| ==> z[i] == '0'
    requires AllHex(d)
    ensures AllHex(z + d) && HexValue(z + d) == HexValue(d)
    decreases |d|
  {
    if d == [] {
      assert z + d == z;
      ZerosValue(z);
    } else {
      var n := |d| - 1;
      assert (z + d)[..|z + d| - 1] == z + d[..n];
      HexValueZeros(z, d[..n]);
    }
  }

  lemma {:induction false} ZerosValue(z: string)
    requires forall i :: 0 <= i < |z| ==> z[i] == '0'
    ensures AllHex(z) && HexValue(z) == 0
  {
    if z != [] {
      ZerosValue(z[..|z| - 1]);
    }
  }

  /** The four bytes eight hex digits decode to, pair by pair. */
  lemma HexPairsEight(p: string)
    requires |p| == 8 && AllHex(p)
    ensures |HexPairs(p)| == 4
    ensures HexPairs(p)[0] as int == 16 * DigitValue(p[0]) + DigitValue(p[1])
    ensures HexPairs(p)[1] as int == 16 * DigitValue(p[2]) + DigitValue(p[3])
    ensures HexPairs(p)[2] as int == 16 * DigitValue(p[4]) + DigitValue(p[5])
    ensures HexPairs(p)[3] as int == 16 * DigitValue(p[6]) + DigitValue(p[7])
  {
    var h := HexPairs(p);
    assert p[2..][2..][2..][2..] == [];
    assert h[1..] == HexPairs(p[2..]);
    assert h[2..] == HexPairs(p[2..][2..]);
    assert h[3..] == HexPairs(p[2..][2..][2..]);
  }

  /** The value of four hex digits, digit by digit. */
  lemma HexValueFour(p: string)
    requires |p| == 4 && AllHex(p)
    ensures HexValue(p) == 0x1000 * DigitValue(p[0]) + 0x100 * DigitValue(p[1])
      + 0x10 * DigitValue(p[2]) + DigitValue(p[3])
  {
    assert HexValue(p) == 16 * HexValue(p[..3]) + DigitValue(p[3]);
    assert HexValue(p[..3]) == 16 * HexValue(p[..2]) + DigitValue(p[2]) by { assert p[..3][..2] == p[..2]; }
    assert HexValue(p[..2]) == 16 * HexValue(p[..1]) + DigitValue(p[1]) by { assert p[..2][..1] == p[..1]; }
    assert HexValue(p[..1]) == DigitValue(p[0]) by { assert p[..1][..0] == []; }
  }

  /** The value of eight hex digits: the first four shifted by sixteen bits,
      then the last four digit by digit. */
  lemma HexValueEight(p: string)
    requires |p| == 8 && AllHex(p)
    ensures AllHex(p[..4])
    ensures HexValue(p) == 0x1_0000 * HexValue(p[..4]) + 0x1000 * DigitValue(p[4])
      + 0x100 * DigitValue(p[5]) + 0x10 * DigitValue(p[6]) + DigitValue(p[7])
  {
    assert HexValue(p) == 16 * HexValue(p[..7]) + DigitValue(p[7]);
    assert HexValue(p[..7]) == 16 * HexValue(p[..6]) + DigitValue(p[6]) by { assert p[..7][..6] == p[..6]; }
    assert HexValue(p[..6]) == 16 * HexValue(p[..5]) + DigitValue(p[5]) by { assert p[..6][..5] == p[..5]; }
    assert HexValue(p[..5]) == 16 * HexValue(p[..4]) + DigitValue(p[4]) by { assert p[..5][..4] == p[..4]; }
  }

  /** Decoding eight hex digits to bytes and reading them big-endian gives
      the number they spell. */
  lemma DecodeEight(p: string)
    requires |p| == 8 && AllHex(p)
    ensures BigEndianU32(HexPairs(p)) as int == HexValue(p)
  {
    HexPairsEight(p);
    HexValueEight(p);
    HexValueFour(p[..4]);
  }

  /** HexStringTransform in full: a blank string gives 0; otherwise, with
      white space trimmed, ASCII letters lowered and a 0x prefix removed,
      nothing left is EmptyKey, more than eight bytes is KeyTooLong, a
      character that is not a hex digit is InvalidHexByte, and one to eight
      hex digits give the number they spell. An odd digit count is never
      the error, since short keys are padded to eight digits. */
  lemma HexStringTransformMeaning(s: string)
    ensures var r := HexStringTransform(s);
      var d := KeyDigits(s);
      if TrimSpace(s) == [] then r == Ok(0)
      else if d == [] then r == Err(EmptyKey)
      else if ByteLen(d) > 8 then r == Err(KeyTooLong)
      else if !AllHex(d) then r == Err(InvalidHexByte)
      else r.Ok? && r.value as int == HexValue(d)
  {
    var d := KeyDigits(s);
    if TrimSpace(s) != [] && d != [] && ByteLen(d) <= 8 {
      var p := PadDigits(d);
      if |d| < 8 {
        var z := seq(8 - |d|, _ => '0');
        assert p == z + d;
        if AllHex(d) {
          HexValueZeros(z, d);
          DecodeEight(p);
        } else {
          var i :| 0 <= i < |d| && !IsHexDigit(d[i]);
          assert p[|z| + i] == d[i];
        }
      } else if AllHex(d) {
        PaddedLength(d);
        DecodeEight(p);
      }
    }
  }

  // ---------------------------------------------------------------------
  // Round trip with the canonical spelling of a signature
  // ---------------------------------------------------------------------

  function DigitChar(v: nat): (c: char)
    requires v < 16
    ensures IsHexDigit(c) && DigitValue(c) == v && !IsSpace(c) && Lower(c) == c
  {
    if v < 10 then ('0' as int + v) as char else ('a' as int + v - 10) as char
  }

  /** The n lowest hex digits of v, lower case, most significant first. */
  function HexDigits(v: nat, n: nat): (r: string)
    ensures |r| == n && AllHex(r)
    ensures forall i :: 0 <= i < n ==> !IsSpace(r[i]) && Lower(r[i]) == r[i] && r[i] as int < 0x80
  {
    if n == 0 then [] else HexDigits(v / 16, n - 1) + [DigitChar(v % 16)]
  }

  lemma {:induction false} HexDigitsValue(v: nat, n: nat)
    requires v < Pow16(n)
    ensures HexValue(HexDigits(v, n)) == v
  {
    if n > 0 {
      var r := HexDigits(v, n);
      assert r[..n - 1] == HexDigits(v / 16, n - 1);
      HexDigitsValue(v / 16, n - 1);
    }
  }

  /** The canonical file-name spelling of a signature: eight lower-case hex
      digits. */
  function FormatKey(v: u32): (r: string)
    ensures |r| == 8
  {
    HexDigits(v as nat, 8)
  }

  lemma Pow16Eight()
    ensures Pow16(8) == 0x1_0000_0000
  {
    assert Pow16(2) == 0x100;
    assert Pow16(4) == 0x1_0000 by { assert Pow16(3) == 0x1000; }
    assert Pow16(6) == 0x100_0000 by { assert Pow16(5) == 0x10_0000; }
    assert Pow16(7) == 0x1000_0000;
  }

  /** Lowering a prefix followed by digits lowers the prefix to "0x" and
      the digits to their lower-case spelling. */
  lemma LowerPrefixed(prefix: string, digits: string)
    requires prefix in {"", "0x", "0X"}
    ensures LowerAll(prefix + digits) == (if prefix == "" then LowerAll(digits) else "0x" + LowerAll(digits))
  {
    var low := LowerAll(prefix + digits);
    var want := if prefix == "" then LowerAll(digits) else "0x" + LowerAll(digits);
    assert |low| == |want|;
    forall i | 0 <= i < |low| ensures low[i] == want[i] {
      if i >= |prefix| {
        assert (prefix + digits)[i] == digits[i - |prefix|];
      }
    }
  }

  /** A string whose second character is a hex digit has no 0x prefix. */
  lemma NoHexPrefix(k: string)
    requires |k| >= 2 && IsHexDigit(k[1])
    ensures TrimHexPrefix(k) == k
  {
  }

  /** A character whose lower-case form is not white space is not white
      space either. */
  lemma LowerKeepsSpace(c: char)
    requires !IsSpace(Lower(c))
    ensures !IsSpace(c)
  {
  }

  /** The digits proper of a signature spelled in either case, with an
      optional prefix and white space around it, are its eight canonical
      digits. */
  lemma KeyDigitsOfFormatted(k: string, digits: string, prefix: string, w1: string, w2: string)
    requires prefix in {"", "0x", "0X"}
    requires AllSpace(w1) && AllSpace(w2)
    requires |k| == 8 && AllHex(k) && LowerAll(digits) == k
    requires forall i :: 0 <= i < |k| ==> !IsSpace(k[i])
    ensures TrimSpace(w1 + prefix + digits + w2) != []
    ensures KeyDigits(w1 + prefix + digits + w2) == k
  {
    var core := prefix + digits;
    var s := w1 + prefix + digits + w2;
    LowerKeepsSpace(digits[0]);
    LowerKeepsSpace(digits[7]);
    assert core[|core| - 1] == digits[7];
    assert core[0] == if prefix == [] then digits[0] else '0';
    assert s == w1 + core + w2;
    TrimSpaceAround(w1, core, w2);
    var low := LowerAll(core);
    LowerPrefixed(prefix, digits);
    assert KeyDigits(s) == TrimHexPrefix(low);
    if prefix == "" {
      NoHexPrefix(k);
    } else {
      assert low[..2] == "0x" && low[2..] == k;
    }
  }

  /** A signature written as its eight hex digits in upper, lower or mixed
      case, with or without a 0x or 0X prefix, and with white space around
      it, reads back as the same signature. */
  lemma FormatKeyRoundTrip(v: u32, digits: string, prefix: string, w1: string, w2: string)
    requires LowerAll(digits) == FormatKey(v)
    requires prefix in {"", "0x", "0X"}
    requires AllSpace(w1) && AllSpace(w2)
    ensures HexStringTransform(w1 + prefix + digits + w2) == Ok(v)
  {
    var k := FormatKey(v);
    var s := w1 + prefix + digits + w2;
    KeyDigitsOfFormatted(k, digits, prefix, w1, w2);
    AsciiByteLen(k);
    HexStringTransformMeaning(s);
    Pow16Eight();
    HexDigitsValue(v as nat, 8);
  }

  /** A blank name reads as signature 0. */
  lemma BlankKeyExamples()
    ensures HexStringTransform("") == Ok(0)
    ensures HexStringTransform(" \t ") == Ok(0)
  {
    assert TrimSpace(" \t ") == [];
  }

  /** A bare prefix in either case, white space around it or not, leaves
      no digits: an error. */
  lemma BarePrefixEmpty(w1: string, prefix: string, w2: string)
    requires prefix in {"0x", "0X"}
    requires AllSpace(w1) && AllSpace(w2)
    ensures HexStringTransform(w1 + prefix + w2) == Err(EmptyKey)
  {
    TrimSpaceAround(w1, prefix, w2);
    var low := LowerAll(prefix);
    assert low[0] == '0' && low[1] == 'x';
    assert low[..2] == "0x" && low[2..] == [];
  }

  // ---------------------------------------------------------------------
  // File names (filepath.Base, filepath.Ext, with '/' as separator)
  // ---------------------------------------------------------------------

  function StripTrailingSlashes(p: string): (r: string)
    ensures |r| <= |p| && r == p[..|r|]
    ensures r == [] || r[|r| - 1] != '/'
    ensures forall i :: |r| <= i < |p| ==> p[i] == '/'
  {
    if p != [] && p[|p| - 1] == '/' then StripTrailingSlashes(p[..|p| - 1]) else p
  }

  /** Index just past the last '/', or 0 when there is none. */
  function AfterLastSlash(p: string): (r: nat)
    ensures r <= |p|
    ensures r > 0 ==> p[r - 1] == '/'
    ensures forall i :: r <= i < |p| ==> p[i] != '/'
  {
    if p == [] then 0 else if p[|p| - 1] == '/' then |p| else AfterLastSlash(p[..|p| - 1])
  }

  /** `filepath.Base`: the last element of the path, "." for an empty path
      and "/" for a path of slashes only. */
  function Base(p: string): (r: string)
    ensures r != []
    ensures p != [] && r != "/" ==> forall i :: 0 <= i < |r| ==> r[i] != '/'
  {
    if p == [] then "."
    else
      var q := StripTrailingSlashes(p);
      var last := q[AfterLastSlash(q)..];
      if last == [] then "/" else last
  }

  /** `filepath.Ext`: the suffix from the last '.' of the last element, or
      "" when that element has no '.'. */
  function Ext(p: string): (r: string)
    ensures r == [] || (r[0] == '.' && |r| <= |p| && r == p[|p| - |r|..])
    ensures forall i :: 0 <= i < |r| ==> r[i] != '/'
  {
    if p == [] || p[|p| - 1] == '/' then []
    else if p[|p| - 1] == '.' then p[|p| - 1..]
    else
      var e := Ext(p[..|p| - 1]);
      if e == [] then [] else e + [p[|p| - 1]]
  }

  /** `strings.TrimSuffix`. */
  function TrimSuffix(s: string, suffix: string): (r: string)
    ensures |suffix| <= |s| && s[|s| - |suffix|..] == suffix ==> r == s[..|s| - |suffix|] && s == r + suffix
    ensures !(|suffix| <= |s| && s[|s| - |suffix|..] == suffix) ==> r == s
  {
    if |suffix| <= |s| && s[|s| - |suffix|..] == suffix then s[..|s| - |suffix|] else s
  }

  /** The name a signature is read from: the base name of the argument
      without the argument's extension. */
  function FileStem(arg: string): string
  {
    TrimSuffix(Base(arg), Ext(arg))
  }

  lemma {:induction false} ExtAt(p: string, k: nat)
    requires k < |p| && p[k] == '.'
    requires forall i :: k < i < |p| ==> p[i] != '.' && p[i] != '/'
    ensures Ext(p) == p[k..]
  {
    var n := |p| - 1;
    if k < n {
      var q := p[..n];
      assert q[k] == '.';
      assert forall i :: k < i < |q| ==> q[i] == p[i];
      ExtAt(q, k);
      assert p[n] != '.' && p[n] != '/';
      assert Ext(p) == q[k..] + [p[n]];
      assert p[k..] == q[k..] + [p[n]];
    }
  }

  lemma {:induction false} AfterLastSlashAt(p: string, k: nat)
    requires k <= |p| && (k > 0 ==> p[k - 1] == '/')
    requires forall i :: k <= i < |p| ==> p[i] != '/'
    ensures AfterLastSlash(p) == k
  {
    if k < |p| {
      AfterLastSlashAt(p[..|p| - 1], k);
    }
  }

  lemma {:induction false} ExtNoneAfter(p: string, k: nat)
    requires k <= |p| && (k > 0 ==> p[k - 1] == '/')
    requires forall i :: k <= i < |p| ==> p[i] != '.' && p[i] != '/'
    ensures Ext(p) == []
  {
    if k < |p| {
      ExtNoneAfter(p[..|p| - 1], k);
    }
  }

  /** The base name of a path whose last '/' sits just before index k. */
  lemma BaseAt(p: string, k: nat)
    requires k < |p| && (k > 0 ==> p[k - 1] == '/')
    requires forall i :: k <= i < |p| ==> p[i] != '/'
    ensures Base(p) == p[k..]
  {
    assert StripTrailingSlashes(p) == p;
    AfterLastSlashAt(p, k);
  }

  /** The base name of a file in a directory (empty or ending in '/') is the
      file's name. */
  lemma BaseOfName(dir: string, name: string)
    requires dir == [] || dir[|dir| - 1] == '/'
    requires name != [] && forall i :: 0 <= i < |name| ==> name[i] != '/'
    ensures Base(dir + name) == name
  {
    var p := dir + name;
    var k := |dir|;
    forall i | k <= i < |p| ensures p[i] != '/' {
      assert p[i] == name[i - k];
    }
    assert p[k..] == name;
    BaseAt(p, k);
  }

  /** The extension of a path ending in a name with one '.' is what follows
      from that '.'. */
  lemma ExtOfName(front: string, ext: string)
    requires ext != [] && ext[0] == '.'
    requires forall i :: 0 < i < |ext| ==> ext[i] != '.' && ext[i] != '/'
    ensures Ext(front + ext) == ext
  {
    var p := front + ext;
    var e := |front|;
    forall i | e < i < |p| ensures p[i] != '.' && p[i] != '/' {
      assert p[i] == ext[i - e];
    }
    assert p[e..] == ext;
    ExtAt(p, e);
  }

  /** The extension of a file without a '.' in a directory is empty. */
  lemma ExtOfBareName(dir: string, name: string)
    requires dir == [] || dir[|dir| - 1] == '/'
    requires forall i :: 0 <= i < |name| ==> name[i] != '.' && name[i] != '/'
    ensures Ext(dir + name) == []
  {
    var p := dir + name;
    var k := |dir|;
    forall i | k <= i < |p| ensures p[i] != '.' && p[i] != '/' {
      assert p[i] == name[i - k];
    }
    ExtNoneAfter(p, k);
  }

  /** The stem of a file in a directory: `dir` (empty or ending in '/') and
      the extension `ext` (empty, or one '.' and no other '.' or '/') are
      dropped, and what is left is the name, which may hold further dots
      only when an extension follows. */
  lemma FileStemOfName(dir: string, stem: string, ext: string)
    requires dir == [] || dir[|dir| - 1] == '/'
    requires stem != [] && forall i :: 0 <= i < |stem| ==> stem[i] != '/'
    requires ext == [] ==> forall i :: 0 <= i < |stem| ==> stem[i] != '.'
    requires ext != [] ==> ext[0] == '.' && forall i :: 0 < i < |ext| ==> ext[i] != '.' && ext[i] != '/'
    ensures FileStem(dir + stem + ext) == stem
  {
    var name := stem + ext;
    assert dir + stem + ext == dir + name;
    forall i | 0 <= i < |name| ensures name[i] != '/' {
      if i >= |stem| {
        assert name[i] == ext[i - |stem|];
      }
    }
    BaseOfName(dir, name);
    if ext == [] {
      assert name == stem;
      ExtOfBareName(dir, stem);
    } else {
      assert dir + name == (dir + stem) + ext;
      ExtOfName(dir + stem, ext);
    }
    assert name[|name| - |ext|..] == ext && name[..|name| - |ext|] == stem;
  }

  // ---------------------------------------------------------------------
  // generateListFromArgs (main.go:119-139)
  // ---------------------------------------------------------------------

  /** The signature an argument names. */
  function ArgSignature(arg: string): Result<u32>
  {
    HexStringTransform(FileStem(arg))
  }

  /** One custom image per argument, in order, each with the absolute path
      of the argument (`abs`, the working-directory-dependent
      `filepath.Abs`) and the signature `parse` reads from it; the first
      argument that does not parse stops the list with its error. The tool
      parses with ArgSignature. */
  function ParseArgs(args: seq<string>, abs: string -> string, parse: string -> Result<u32>): Result<seq<Image>>
  {
    if args == [] then Ok([])
    else
      match parse(args[0])
      case Err(e) => Err(e)
      case Ok(sig) => Prepend([Image(abs(args[0]), sig)], ParseArgs(args[1..], abs, parse))
  }

  /** The argument list succeeds exactly when every argument parses, and
      then has one image per argument, in order. */
  lemma {:induction false} ParseArgsOk(args: seq<string>, abs: string -> string, parse: string -> Result<u32>)
    ensures ParseArgs(args, abs, parse).Ok? <==> forall k :: 0 <= k < |args| ==> parse(args[k]).Ok?
    ensures var r := ParseArgs(args, abs, parse);
      r.Ok? ==> |r.value| == |args| && forall k :: 0 <= k < |args| ==>
        r.value[k] == Image(abs(args[k]), parse(args[k]).value)
  {
    if args != [] {
      ParseArgsOk(args[1..], abs, parse);
      assert forall k :: 0 < k < |args| ==> args[k] == args[1..][k - 1];
    }
  }

  /** A failing argument list fails with the error of the first argument
      that does not parse. */
  lemma {:induction false} ParseArgsFirstError(args: seq<string>, abs: string -> string, parse: string -> Result<u32>)
    requires ParseArgs(args, abs, parse).Err?
    ensures exists k :: (0 <= k < |args| && parse(args[k]) == Err(ParseArgs(args, abs, parse).error) &&
                         forall k' :: 0 <= k' < k ==> parse(args[k']).Ok?)
  {
    var e := ParseArgs(args, abs, parse).error;
    if parse(args[0]).Err? {
      assert parse(args[0]) == Err(e);
    } else {
      ParseArgsFirstError(args[1..], abs, parse);
      var k :| 0 <= k < |args[1..]| && parse(args[1..][k]) == Err(e) &&
        forall k' :: 0 <= k' < k ==> parse(args[1..][k']).Ok?;
      assert args[k + 1] == args[1..][k];
      assert forall k' :: 0 < k' <= k ==> args[k'] == args[1..][k' - 1];
    }
  }

  /** The argument loop of generateListFromArgs. */
  method GenerateList(args: seq<string>, abs: string -> string) returns (r: Result<seq<Image>>)
    ensures r == ParseArgs(args, abs, ArgSignature)
  {
    var imgs: seq<Image> := [];
    var n := 0;
    PrependNothing(ParseArgs(args, abs, ArgSignature));
    while n < |args|
      invariant n <= |args|
      invariant ParseArgs(args, abs, ArgSignature) == Prepend(imgs, ParseArgs(args[n..], abs, ArgSignature))
    {
      assert args[n..][0] == args[n] && args[n..][1..] == args[n + 1..];
      var file := abs(args[n]);
      var sig := ArgSignature(args[n]);
      if sig.Err? {
        return Err(sig.error);
      }
      PrependTwice(imgs, Image(file, sig.value), ParseArgs(args[n + 1..], abs, ArgSignature));
      imgs := imgs + [Image(file, sig.value)];
      n := n + 1;
    }
    assert imgs + [] == imgs;
    return Ok(imgs);
  }
}
