/**
 * The octal, hexadecimal and string text formats of vl_vpi_get_value and
 * vpi_put_value (include/verilated_vpi.cpp), built on the group reads and
 * writes of VpiText: octal text has one character per 3-bit group,
 * hexadecimal text one per 4-bit group and string text one per byte, the
 * most significant group first.
 */
module VpiValue {
  import opened Bits
  import opened Wrappers
  import opened VpiAccess
  import opened VpiText

  const OctDigits: string := "01234567"
  const HexDigits: string := "0123456789abcdef"

  /** Digits ds, least significant first, written most significant first in the characters of alphabet. */
  function DigitText(ds: seq<nat>, alphabet: string): (r: string)
    requires forall i | 0 <= i < |ds| :: ds[i] < |alphabet|
    ensures |r| == |ds|
    ensures forall k | 0 <= k < |r| :: r[k] == alphabet[ds[|ds| - 1 - k]]
  {
    seq(|ds|, k requires 0 <= k < |ds| => alphabet[ds[|ds| - 1 - k]])
  }

  /**
   * The loop of the octal and hexadecimal get paths: character chars-1-i
   * of the text is the alphabet character of vl_vpi_get_word(vop, g, g * i).
   */
  method GetDigitStr(v: VarView, data: array<Word>, g: nat, alphabet: string) returns (s: string)
    requires StorageOk(v, data[..]) && 0 < g <= 32 && |alphabet| == Pow2(g)
    ensures s == DigitText(Digits(v, data[..], g), alphabet)
  {
    ghost var ds := Digits(v, data[..], g);
    ghost var text := DigitText(ds, alphabet);
    var chars := GroupCount(v.bitSize, g);
    s := seq(chars, _ => '0');
    var i := 0;
    while i < chars
      invariant 0 <= i <= chars && |s| == chars
      invariant forall k | chars - i <= k < chars :: s[k] == text[k]
    {
      GroupStartsInside(v.bitSize, g, i);
      var d := GroupValue(v, data[..], g, i);
      assert d == ds[chars - 1 - (chars - i - 1)];
      s := s[chars - i - 1 := alphabet[d]];
      i := i + 1;
    }
    assert s == text;
  }

  // Octal text

  /** The text of vl_vpi_get_value(vpiOctStrVal): (bitSize + 2) / 3 octal digits. */
  function OctText(v: VarView, ws: seq<Word>): (r: string)
    requires StorageOk(v, ws)
    ensures |r| == GroupCount(v.bitSize, 3)
    ensures forall k | 0 <= k < |r| :: '0' <= r[k] <= '7'
  {
    Pow2Small();
    var t := DigitText(Digits(v, ws, 3), OctDigits);
    forall k | 0 <= k < |t|
      ensures '0' <= t[k] <= '7'
    {
      OctChar(Digits(v, ws, 3)[|t| - 1 - k]);
    }
    t
  }

  /** Digit d is written as an octal character that reads back as d. */
  lemma OctChar(d: nat)
    requires d < 8
    ensures '0' <= OctDigits[d] <= '7' && OctDigit(OctDigits[d]) == d
  {
  }

  /** vl_vpi_get_value(vpiOctStrVal). */
  method GetOctStr(v: VarView, data: array<Word>) returns (s: string)
    requires StorageOk(v, data[..])
    ensures s == OctText(v, data[..])
  {
    Pow2Small();
    s := GetDigitStr(v, data, 3, OctDigits);
  }

  /** The value of one character of octal text: '0'..'7', and 0 (with a warning) for any other character. */
  function OctDigit(c: char): (r: nat)
    ensures r < 8
    ensures '0' <= c <= '7' ==> OctDigits[r] == c
    ensures !('0' <= c <= '7') ==> r == 0
  {
    if '0' <= c <= '7' then c as nat - '0' as nat else 0
  }

  /** The digits of octal text, least significant (last character) first. */
  function OctVals(s: string): (r: seq<nat>)
    ensures |r| == |s|
    ensures forall i | 0 <= i < |s| :: r[i] == OctDigit(s[|s| - 1 - i])
  {
    seq(|s|, i requires 0 <= i < |s| => OctDigit(s[|s| - 1 - i]))
  }

  /** Some character of the text is not an octal digit. */
  predicate HasNonOctal(s: string)
  {
    exists i | 0 <= i < |s| :: !('0' <= s[i] <= '7')
  }

  /**
   * vpi_put_value(vpiOctStrVal) as written: one 3-bit group per character
   * of the text, whatever the width of the value. A text with more
   * characters than the value has octal digits fails the offset assertion of
   * vl_vpi_var_access_info at the first group past the end.
   */
  method PutOctStr(v: VarView, data: array<Word>, str: string) returns (err: Option<AccessError>, warn: bool)
    requires StorageOk(v, data[..])
    modifies data
    ensures err.None? <==> |CStr(str)| <= GroupCount(v.bitSize, 3)
    ensures err.Some? ==> err.value == OffsetOutsideVar
    ensures err.None? ==> (warn <==> HasNonOctal(CStr(str)))
    ensures GroupsWritten(v, old(data[..]), data[..],
                          OctVals(CStr(str))[..Min(|CStr(str)|, GroupCount(v.bitSize, 3))], 3)
  {
    var s := CStr(str);
    warn := HasNonOctal(s);
    err := PutGroups(v, data, OctVals(s), 3);
  }

  /** Reading octal text back digit by digit gives the digits of the value. */
  lemma OctDecodeText(v: VarView, ws: seq<Word>)
    requires StorageOk(v, ws)
    ensures OctVals(OctText(v, ws)) == Digits(v, ws, 3)
  {
    assert Pow2(3) == 8;
    OctDecode(Digits(v, ws, 3));
  }

  /** Octal digits written as text read back as the same digits. */
  lemma OctDecode(ds: seq<nat>)
    requires forall i | 0 <= i < |ds| :: ds[i] < 8
    ensures OctVals(DigitText(ds, OctDigits)) == ds
  {
    var t := DigitText(ds, OctDigits);
    forall i | 0 <= i < |ds|
      ensures OctVals(t)[i] == ds[i]
    {
      OctChar(ds[i]);
      assert t[|t| - 1 - i] == OctDigits[ds[i]];
    }
  }

  /**
   * Get after put of octal text with one digit per group, whose leading
   * digit fits the bits left for it, returns that text.
   */
  lemma OctRoundTrip(v: VarView, ws: seq<Word>, ws': seq<Word>, s: string)
    requires StorageOk(v, ws) && |s| == GroupCount(v.bitSize, 3)
    requires forall k | 0 <= k < |s| :: '0' <= s[k] <= '7'
    requires DigitsFit(v, OctVals(s), 3)
    requires GroupsWritten(v, ws, ws', OctVals(CStr(s))[..Min(|CStr(s)|, GroupCount(v.bitSize, 3))], 3)
    ensures OctText(v, ws') == s
  {
    CStrPlain(s);
    assert OctVals(s)[..|s|] == OctVals(s);
    DigitsWritten(v, ws, ws', OctVals(s), 3);
    OctEncode(s);
    assert OctText(v, ws') == DigitText(OctVals(s), OctDigits);
  }

  /** The digits of octal text, written as text, give the text back. */
  lemma OctEncode(s: string)
    requires forall k | 0 <= k < |s| :: '0' <= s[k] <= '7'
    ensures forall i | 0 <= i < |s| :: OctVals(s)[i] < 8
    ensures DigitText(OctVals(s), OctDigits) == s
  {
    var t := DigitText(OctVals(s), OctDigits);
    forall k | 0 <= k < |s|
      ensures t[k] == s[k]
    {
      assert t[k] == OctDigits[OctVals(s)[|s| - 1 - k]];
    }
  }

  /** Octal text read from any value writes back to a value that reads as the same text. */
  lemma OctRewrite(v: VarView, ws0: seq<Word>, ws: seq<Word>, ws': seq<Word>)
    requires StorageOk(v, ws0) && StorageOk(v, ws)
    requires GroupsWritten(v, ws, ws', OctVals(CStr(OctText(v, ws0)))[..Min(|CStr(OctText(v, ws0))|, GroupCount(v.bitSize, 3))], 3)
    ensures OctText(v, ws') == OctText(v, ws0)
  {
    OctDecodeText(v, ws0);
    OctRoundTrip(v, ws, ws', OctText(v, ws0));
  }

  /** n copies of character c. */
  function Pad(c: char, n: nat): (r: string)
    ensures |r| == n && forall k | 0 <= k < n :: r[k] == c
  {
    seq(n, _ => c)
  }

  /** Digits vals extended with zero digits up to n digits, or cut to n: the high digits a short text leaves out are 0. */
  function Fill(vals: seq<nat>, n: nat): (r: seq<nat>)
    ensures |r| == n && forall i | 0 <= i < n :: r[i] == if i < |vals| then vals[i] else 0
  {
    seq(n, i requires 0 <= i < n => if i < |vals| then vals[i] else 0)
  }

  lemma FillFull(vals: seq<nat>)
    ensures Fill(vals, |vals|) == vals
  {
  }

  /** The last Min(|s|, n) characters of s: the ones a put of n digits looks at. */
  function Used(s: string, n: nat): (r: string)
    ensures |r| == Min(|s|, n) && r == s[|s| - |r|..]
  {
    s[|s| - Min(|s|, n)..]
  }

  /**
   * vpi_put_value(vpiOctStrVal) corrected: one 3-bit group for each octal
   * digit of the value, from the text's last character on and 0 where the
   * text is shorter, as the hexadecimal path does.
   */
  method PutOctStrFixed(v: VarView, data: array<Word>, str: string) returns (warn: bool)
    requires StorageOk(v, data[..])
    modifies data
    ensures warn <==> HasNonOctal(Used(CStr(str), GroupCount(v.bitSize, 3)))
    ensures GroupsWritten(v, old(data[..]), data[..], Fill(OctVals(CStr(str)), GroupCount(v.bitSize, 3)), 3)
  {
    var s := CStr(str);
    var chars := GroupCount(v.bitSize, 3);
    var vals := Fill(OctVals(s), chars);
    var err := PutGroups(v, data, vals, 3);
    assert vals[..Min(|vals|, chars)] == vals;
    warn := HasNonOctal(Used(s, chars));
  }

  /** Zero-filled octal digits of an octal text, written back as text, give the text with leading '0's. */
  lemma OctFillText(s: string, n: nat)
    requires |s| <= n && forall k | 0 <= k < |s| :: '0' <= s[k] <= '7'
    ensures forall i | 0 <= i < n :: Fill(OctVals(s), n)[i] < 8
    ensures DigitText(Fill(OctVals(s), n), OctDigits) == Pad('0', n - |s|) + s
  {
    var t := DigitText(Fill(OctVals(s), n), OctDigits);
    var want := Pad('0', n - |s|) + s;
    forall k | 0 <= k < n
      ensures t[k] == want[k]
    {
      if k >= n - |s| {
        assert s[|s| - 1 - (n - 1 - k)] == want[k];
      }
    }
  }

  /**
   * Get after the corrected octal put of an octal text of at most as many
   * digits as the value has, whose leading digit fits, returns the text
   * padded with '0' on the left.
   */
  lemma OctFixedRoundTrip(v: VarView, ws: seq<Word>, ws': seq<Word>, s: string)
    requires StorageOk(v, ws) && |s| <= GroupCount(v.bitSize, 3)
    requires forall k | 0 <= k < |s| :: '0' <= s[k] <= '7'
    requires DigitsFit(v, Fill(OctVals(s), GroupCount(v.bitSize, 3)), 3)
    requires GroupsWritten(v, ws, ws', Fill(OctVals(CStr(s)), GroupCount(v.bitSize, 3)), 3)
    ensures OctText(v, ws') == Pad('0', GroupCount(v.bitSize, 3) - |s|) + s
  {
    var n := GroupCount(v.bitSize, 3);
    var vals := Fill(OctVals(s), n);
    CStrPlain(s);
    OctFillText(s, n);
    OctWrittenText(v, ws, ws', vals);
  }

  /** After a put of digits that fit, the octal text spells those digits. */
  lemma OctWrittenText(v: VarView, ws: seq<Word>, ws': seq<Word>, vals: seq<nat>)
    requires GroupsWritten(v, ws, ws', vals, 3) && |vals| == GroupCount(v.bitSize, 3) && DigitsFit(v, vals, 3)
    ensures forall i | 0 <= i < |vals| :: vals[i] < 8
    ensures OctText(v, ws') == DigitText(vals, OctDigits)
  {
    DigitsWritten(v, ws, ws', vals, 3);
    Pow2Small();
  }

  /**
   * The text "017" denotes 15, which fits a 4-bit value, yet it has more
   * characters than the value's two octal digits, so the put as written
   * fails the offset assertion.
   */
  lemma OctOverlongFails(v: VarView)
    requires v.bitSize == 4
    ensures DigitsNumber(OctVals("017"), 3) == 15 < Pow2(4)
    ensures !(|CStr("017")| <= GroupCount(v.bitSize, 3))
  {
    assert OctVals("017") == [7, 1, 0];
    assert CStr("017") == "017";
  }

  /** The put as written leaves the high digits of the old value when the text is short. */
  lemma OctShortKeepsHigh(v: VarView, ws: seq<Word>, ws': seq<Word>, s: string)
    requires StorageOk(v, ws) && |CStr(s)| < GroupCount(v.bitSize, 3)
    requires GroupsWritten(v, ws, ws', OctVals(CStr(s))[..Min(|CStr(s)|, GroupCount(v.bitSize, 3))], 3)
    ensures forall i | |CStr(s)| <= i < GroupCount(v.bitSize, 3) :: Digits(v, ws', 3)[i] == Digits(v, ws, 3)[i]
  {
    DigitsAfterPut(v, ws, ws', OctVals(CStr(s))[..|CStr(s)|], 3);
  }

  /** vl_vpi_get_value(vpiHexStrVal): one lower-case hexadecimal digit per 4-bit group, most significant first. */
  function HexText(v: VarView, ws: seq<Word>): (r: string)
    requires StorageOk(v, ws)
    ensures |r| == GroupCount(v.bitSize, 4)
    ensures forall k | 0 <= k < |r| :: IsLowerHex(r[k])
  {
    Pow2Small();
    var t := DigitText(Digits(v, ws, 4), HexDigits);
    forall k | 0 <= k < |t|
      ensures IsLowerHex(t[k])
    {
      HexChar(Digits(v, ws, 4)[|t| - 1 - k]);
    }
    t
  }

  predicate IsLowerHex(c: char)
  {
    '0' <= c <= '9' || 'a' <= c <= 'f'
  }

  predicate IsHex(c: char)
  {
    '0' <= c <= '9' || 'a' <= c <= 'f' || 'A' <= c <= 'F'
  }

  /** Digit d is written as a lower-case hexadecimal character that reads back as d. */
  lemma HexChar(d: nat)
    requires d < 16
    ensures IsLowerHex(HexDigits[d]) && HexDigit(HexDigits[d]) == d
  {
  }

  method GetHexStr(v: VarView, data: array<Word>) returns (s: string)
    requires StorageOk(v, data[..])
    ensures s == HexText(v, data[..])
  {
    Pow2Small();
    s := GetDigitStr(v, data, 4, HexDigits);
  }

  /** The value of one hexadecimal character in either case, and 0 (with a warning) for any other character. */
  function HexDigit(c: char): (r: nat)
    ensures r < 16
    ensures IsLowerHex(c) ==> HexDigits[r] == c
    ensures 'A' <= c <= 'F' ==> HexDigits[r] as int == c as int - 'A' as int + 'a' as int
    ensures !IsHex(c) ==> r == 0
  {
    if '0' <= c <= '9' then c as nat - '0' as nat
    else if 'a' <= c <= 'f' then c as nat - 'a' as nat + 10
    else if 'A' <= c <= 'F' then c as nat - 'A' as nat + 10
    else 0
  }

  /** The digits of hexadecimal text, least significant (last character) first. */
  function HexVals(s: string): (r: seq<nat>)
    ensures |r| == |s|
    ensures forall i | 0 <= i < |s| :: r[i] == HexDigit(s[|s| - 1 - i])
  {
    seq(|s|, i requires 0 <= i < |s| => HexDigit(s[|s| - 1 - i]))
  }

  predicate HasNonHex(s: string)
  {
    exists i | 0 <= i < |s| :: !IsHex(s[i])
  }

  /** The text after a leading "0x" or "0X", if there is one. */
  function SkipHexPrefix(s: string): (r: string)
    ensures if |s| >= 2 && s[0] == '0' && (s[1] == 'x' || s[1] == 'X') then r == s[2..] else r == s
  {
    if |s| >= 2 && s[0] == '0' && (s[1] == 'x' || s[1] == 'X') then s[2..] else s
  }

  /**
   * vpi_put_value(vpiHexStrVal): after an optional "0x" prefix, one 4-bit
   * group for each hexadecimal digit of the value, from the text's last
   * character on and 0 where the text is shorter; characters to the left of
   * the value's width are ignored.
   */
  method PutHexStr(v: VarView, data: array<Word>, str: string) returns (warn: bool)
    requires StorageOk(v, data[..])
    modifies data
    ensures warn <==> HasNonHex(Used(SkipHexPrefix(CStr(str)), GroupCount(v.bitSize, 4)))
    ensures GroupsWritten(v, old(data[..]), data[..],
                          Fill(HexVals(SkipHexPrefix(CStr(str))), GroupCount(v.bitSize, 4)), 4)
  {
    var t := SkipHexPrefix(CStr(str));
    var chars := GroupCount(v.bitSize, 4);
    var vals := Fill(HexVals(t), chars);
    var err := PutGroups(v, data, vals, 4);
    assert vals[..Min(|vals|, chars)] == vals;
    warn := HasNonHex(Used(t, chars));
  }

  /** Zero-filled digits of lower-case hexadecimal text, written back as text, give the text with leading '0's. */
  lemma HexFillText(s: string, n: nat)
    requires |s| <= n && forall k | 0 <= k < |s| :: IsLowerHex(s[k])
    ensures forall i | 0 <= i < n :: Fill(HexVals(s), n)[i] < 16
    ensures DigitText(Fill(HexVals(s), n), HexDigits) == Pad('0', n - |s|) + s
  {
    var t := DigitText(Fill(HexVals(s), n), HexDigits);
    var want := Pad('0', n - |s|) + s;
    forall k | 0 <= k < n
      ensures t[k] == want[k]
    {
      if k >= n - |s| {
        assert s[|s| - 1 - (n - 1 - k)] == want[k];
      }
    }
  }

  /** Lower-case hexadecimal digits never begin a "0x" prefix. */
  lemma NoHexPrefix(s: string)
    requires forall k | 0 <= k < |s| :: IsLowerHex(s[k])
    ensures SkipHexPrefix(CStr(s)) == s
  {
    CStrPlain(s);
  }

  /**
   * Get after put of lower-case hexadecimal text of at most as many digits
   * as the value has, whose leading digit fits, returns the text padded with
   * '0' on the left.
   */
  lemma HexRoundTrip(v: VarView, ws: seq<Word>, ws': seq<Word>, s: string)
    requires StorageOk(v, ws) && |s| <= GroupCount(v.bitSize, 4)
    requires forall k | 0 <= k < |s| :: IsLowerHex(s[k])
    requires DigitsFit(v, Fill(HexVals(s), GroupCount(v.bitSize, 4)), 4)
    requires GroupsWritten(v, ws, ws', Fill(HexVals(SkipHexPrefix(CStr(s))), GroupCount(v.bitSize, 4)), 4)
    ensures HexText(v, ws') == Pad('0', GroupCount(v.bitSize, 4) - |s|) + s
  {
    var n := GroupCount(v.bitSize, 4);
    var vals := Fill(HexVals(s), n);
    NoHexPrefix(s);
    HexFillText(s, n);
    HexWrittenText(v, ws, ws', vals);
  }

  /** After a put of digits that fit, the hexadecimal text spells those digits. */
  lemma HexWrittenText(v: VarView, ws: seq<Word>, ws': seq<Word>, vals: seq<nat>)
    requires GroupsWritten(v, ws, ws', vals, 4) && |vals| == GroupCount(v.bitSize, 4) && DigitsFit(v, vals, 4)
    ensures forall i | 0 <= i < |vals| :: vals[i] < 16
    ensures HexText(v, ws') == DigitText(vals, HexDigits)
  {
    DigitsWritten(v, ws, ws', vals, 4);
    Pow2Small();
  }

  /** A "0x" in front of the text changes nothing. */
  lemma HexPrefixIgnored(s: string)
    requires forall k | 0 <= k < |s| :: IsLowerHex(s[k])
    ensures SkipHexPrefix(CStr("0x" + s)) == SkipHexPrefix(CStr(s))
  {
    CStrPlain(s);
    CStrPlain("0x" + s);
    assert ("0x" + s)[2..] == s;
  }

  /** Hexadecimal text read from any value writes back to a value that reads as the same text. */
  lemma HexRewrite(v: VarView, ws0: seq<Word>, ws: seq<Word>, ws': seq<Word>)
    requires StorageOk(v, ws0) && StorageOk(v, ws)
    requires GroupsWritten(v, ws, ws', Fill(HexVals(SkipHexPrefix(CStr(HexText(v, ws0)))), GroupCount(v.bitSize, 4)), 4)
    ensures HexText(v, ws') == HexText(v, ws0)
  {
    var s := HexText(v, ws0);
    HexDecodeText(v, ws0);
    FillFull(HexVals(s));
    HexRoundTrip(v, ws, ws', s);
  }

  /** Reading hexadecimal text back digit by digit gives the digits of the value. */
  lemma HexDecodeText(v: VarView, ws: seq<Word>)
    requires StorageOk(v, ws)
    ensures HexVals(HexText(v, ws)) == Digits(v, ws, 4)
    ensures DigitsFit(v, HexVals(HexText(v, ws)), 4)
  {
    assert Pow2(4) == 16;
    HexDecode(Digits(v, ws, 4));
  }

  /** Hexadecimal digits written as text read back as the same digits. */
  lemma HexDecode(ds: seq<nat>)
    requires forall i | 0 <= i < |ds| :: ds[i] < 16
    ensures HexVals(DigitText(ds, HexDigits)) == ds
  {
    var t := DigitText(ds, HexDigits);
    forall i | 0 <= i < |ds|
      ensures HexVals(t)[i] == ds[i]
    {
      HexChar(ds[i]);
      assert t[|t| - 1 - i] == HexDigits[ds[i]];
    }
  }

  // String text of an integral value

  /** The character of a byte in string text: the byte itself, and a space for a zero byte. */
  function ByteChars(): (r: string)
    ensures |r| == 256
  {
    seq(256, d requires 0 <= d < 256 => if d == 0 then ' ' else d as char)
  }

  lemma ByteChar(d: nat)
    requires d < 256
    ensures ByteChars()[d] as int == (if d == 0 then ' ' as int else d)
  {
  }

  /** vl_vpi_get_value(vpiStringVal) of an integral value: one character per byte, most significant first. */
  function StrText(v: VarView, ws: seq<Word>): (r: string)
    requires StorageOk(v, ws)
    ensures |r| == GroupCount(v.bitSize, 8)
    ensures forall k | 0 <= k < |r| :: r[k] != '\0' && r[k] as int < 256
  {
    Pow2Small();
    var ds := Digits(v, ws, 8);
    var t := DigitText(ds, ByteChars());
    forall k | 0 <= k < |t|
      ensures t[k] != '\0' && t[k] as int < 256
    {
      ByteChar(ds[|t| - 1 - k]);
    }
    t
  }

  method GetStrBytes(v: VarView, data: array<Word>) returns (s: string)
    requires StorageOk(v, data[..])
    ensures s == StrText(v, data[..])
  {
    Pow2Small();
    s := GetDigitStr(v, data, 8, ByteChars());
  }

  /** The bytes of text, last character first: a char is the low 8 bits of its code. */
  function ByteVals(s: string): (r: seq<nat>)
    ensures |r| == |s|
    ensures forall i | 0 <= i < |s| :: r[i] == (s[|s| - 1 - i] as int) % 256
  {
    seq(|s|, i requires 0 <= i < |s| => (s[|s| - 1 - i] as int) % 256)
  }

  /**
   * vpi_put_value(vpiStringVal) of an integral value: byte i of the value
   * is character len-1-i of the text, and 0 where the text is shorter; the
   * characters to the left of the value's width are ignored.
   */
  method PutStrBytes(v: VarView, data: array<Word>, str: string)
    requires StorageOk(v, data[..])
    modifies data
    ensures GroupsWritten(v, old(data[..]), data[..], Fill(ByteVals(CStr(str)), GroupCount(v.bitSize, 8)), 8)
  {
    var chars := GroupCount(v.bitSize, 8);
    var vals := Fill(ByteVals(CStr(str)), chars);
    var err := PutGroups(v, data, vals, 8);
    assert vals[..Min(|vals|, chars)] == vals;
  }

  /** Bytes of text with characters 1 .. 255, zero-filled and written back as text, give the text with leading spaces. */
  lemma StrFillText(s: string, n: nat)
    requires |s| <= n && forall k | 0 <= k < |s| :: 0 < s[k] as int < 256
    ensures forall i | 0 <= i < n :: Fill(ByteVals(s), n)[i] < 256
    ensures DigitText(Fill(ByteVals(s), n), ByteChars()) == Pad(' ', n - |s|) + s
  {
    var t := DigitText(Fill(ByteVals(s), n), ByteChars());
    var want := Pad(' ', n - |s|) + s;
    forall k | 0 <= k < n
      ensures t[k] == want[k]
    {
      if k >= n - |s| {
        var c := s[|s| - 1 - (n - 1 - k)];
        assert c == want[k];
        ByteChar(c as int);
      }
    }
  }

  /**
   * Get after put of text with characters 1 .. 255, at most one per byte of
   * the value and with a leading byte that fits, returns the text padded
   * with spaces on the left.
   */
  lemma StrRoundTrip(v: VarView, ws: seq<Word>, ws': seq<Word>, s: string)
    requires StorageOk(v, ws) && |s| <= GroupCount(v.bitSize, 8)
    requires forall k | 0 <= k < |s| :: 0 < s[k] as int < 256
    requires DigitsFit(v, Fill(ByteVals(s), GroupCount(v.bitSize, 8)), 8)
    requires GroupsWritten(v, ws, ws', Fill(ByteVals(CStr(s)), GroupCount(v.bitSize, 8)), 8)
    ensures StrText(v, ws') == Pad(' ', GroupCount(v.bitSize, 8) - |s|) + s
  {
    var n := GroupCount(v.bitSize, 8);
    var vals := Fill(ByteVals(s), n);
    CStrPlain(s);
    DigitsWritten(v, ws, ws', vals, 8);
    StrFillText(s, n);
    assert StrText(v, ws') == DigitText(vals, ByteChars());
  }

  /** A zero byte reads as a space, and a space writes back as byte 32, not 0. */
  lemma StrZeroByteNotKept()
    ensures ByteChars()[0] == ' ' && ByteVals(" ") == [32]
  {
    ByteChar(0);
  }
}
