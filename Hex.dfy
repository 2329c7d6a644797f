/** Hexadecimal code point strings: the `int(cp, 16)` parse applied by the
    alphabet builder and the `'{:0>8}'` left padding applied before a code
    point is stored in the symbol table. */
module Hex {

  predicate IsHexDigit(c: char) {
    ('0' <= c <= '9') || ('a' <= c <= 'f') || ('A' <= c <= 'F')
  }

  function DigitValue(c: char): (v: nat)
    requires IsHexDigit(c)
    ensures v < 16
    ensures v == 0 <==> c == '0'
  {
    if '0' <= c <= '9' then c as nat - '0' as nat
    else if 'a' <= c <= 'f' then c as nat - 'a' as nat + 10
    else c as nat - 'A' as nat + 10
  }

  predicate AllHexDigits(s: string) {
    forall i :: 0 <= i < |s| ==> IsHexDigit(s[i])
  }

  /** A string that `int(s, 16)` accepts, restricted to plain digits: at least
      one digit and nothing else. */
  predicate IsHex(s: string) {
    |s| > 0 && AllHexDigits(s)
  }

  /** What `IsHex` admits: a non-empty string drawn from the plain ASCII hex
      digits, in either case, and nothing else. */
  lemma IsHexMeansHexAlphabet(s: string)
    ensures IsHex(s) <==> s != [] && forall i :: 0 <= i < |s| ==> s[i] in HexAlphabet
  {
  }

  /** The characters a hexadecimal digit string may use. */
  const HexAlphabet: string := "0123456789abcdefABCDEF"

  function Power16(k: nat): (p: nat)
    ensures p >= 1
  {
    if k == 0 then 1 else 16 * Power16(k - 1)
  }

  /** The value of a string of hexadecimal digits, most significant first. */
  function HexValue(s: string): (v: nat)
    requires AllHexDigits(s)
    ensures v < Power16(|s|)
  {
    if s == [] then 0
    else HexValue(s[..|s| - 1]) * 16 + DigitValue(s[|s| - 1])
  }

  function Zeros(k: nat): (z: string)
    ensures |z| == k && forall i :: 0 <= i < k ==> z[i] == '0'
  {
    seq(k, _ => '0')
  }

  /** `'{:0>8}'.format(cp)`: right-aligned in a field of width 8, filled with
      '0'; a string that is already 8 or more characters long is unchanged. */
  function Pad8(cp: string): (r: string)
    ensures |r| == if |cp| >= 8 then |cp| else 8
    ensures r[|r| - |cp|..] == cp
    ensures forall i :: 0 <= i < |r| - |cp| ==> r[i] == '0'
  {
    if |cp| >= 8 then cp else Zeros(8 - |cp|) + cp
  }

  lemma {:induction false} ZerosValue(z: string)
    requires forall i :: 0 <= i < |z| ==> z[i] == '0'
    ensures AllHexDigits(z) && HexValue(z) == 0
  {
    if z != [] {
      ZerosValue(z[..|z| - 1]);
    }
  }

  /** Leading zeros do not change the value of a hexadecimal string. */
  lemma {:induction false} LeadingZerosValue(z: string, s: string)
    requires forall i :: 0 <= i < |z| ==> z[i] == '0'
    requires AllHexDigits(s)
    ensures AllHexDigits(z + s) && HexValue(z + s) == HexValue(s)
  {
    if s == [] {
      assert z + s == z;
      ZerosValue(z);
    } else {
      var s' := s[..|s| - 1];
      LeadingZerosValue(z, s');
      assert (z + s)[..|z + s| - 1] == z + s';
    }
  }

  /** Padding keeps a code point a valid hexadecimal string of the same value,
      so the stored form denotes the same character as the catalog's. */
  lemma PadPreservesHexValue(cp: string)
    requires IsHex(cp)
    ensures IsHex(Pad8(cp)) && HexValue(Pad8(cp)) == HexValue(cp)
  {
    if |cp| < 8 {
      LeadingZerosValue(Zeros(8 - |cp|), cp);
    }
  }
}
