/**
 * `System.Guid` as a 128-bit number and its `ToString("N")` format: 32
 * lower-case hexadecimal digits without hyphens or braces. (.NET prints the
 * bytes of a Guid in a mixed-endian order; any fixed order gives the same
 * properties, so the number here is simply the one the 32 digits denote.)
 */
module Guids {

  function Pow16(k: nat): (p: nat)
    ensures p >= 1
  {
    if k == 0 then 1 else 16 * Pow16(k - 1)
  }

  /** Number of hexadecimal digits in the "N" format. */
  const HexLength: nat := 32

  type Guid = n: nat | n < Pow16(HexLength)

  predicate IsHexDigit(c: char) {
    ('0' <= c <= '9') || ('a' <= c <= 'f')
  }

  predicate IsHexString(s: string) {
    forall j :: 0 <= j < |s| ==> IsHexDigit(s[j])
  }

  /** `s` is `k` hexadecimal digits. */
  ghost predicate HexShaped(s: string, k: nat) {
    |s| == k && IsHexString(s)
  }

  function HexChar(d: nat): (c: char)
    requires d < 16
    ensures IsHexDigit(c)
  {
    if d < 10 then '0' + d as char else 'a' + (d - 10) as char
  }

  function DigitValue(c: char): (d: nat)
    requires IsHexDigit(c)
    ensures d < 16
  {
    if c <= '9' then (c - '0') as nat else (c - 'a') as nat + 10
  }

  lemma DigitRoundTrip(d: nat)
    requires d < 16
    ensures DigitValue(HexChar(d)) == d
  {
  }

  /** The low `k` hexadecimal digits of `n`, most significant first. */
  function HexDigits(n: nat, k: nat): (s: string)
    ensures HexShaped(s, k)
  {
    if k == 0 then "" else HexDigits(n / 16, k - 1) + [HexChar(n % 16)]
  }

  /** The number a string of hexadecimal digits denotes. */
  function HexValue(s: string): (n: nat)
    requires IsHexString(s)
    ensures n < Pow16(|s|)
  {
    if s == "" then 0 else HexValue(s[..|s| - 1]) * 16 + DigitValue(s[|s| - 1])
  }

  /** Reading back the digits of a number that fits in `k` digits gives the number. */
  lemma {:induction false} HexRoundTrip(n: nat, k: nat)
    requires n < Pow16(k)
    ensures HexValue(HexDigits(n, k)) == n
  {
    if k > 0 {
      var s := HexDigits(n, k);
      assert s[..|s| - 1] == HexDigits(n / 16, k - 1);
      assert n / 16 < Pow16(k - 1);
      HexRoundTrip(n / 16, k - 1);
      DigitRoundTrip(n % 16);
    }
  }

  /** `guid.ToString("N")`. */
  function Hex(g: Guid): (s: string)
    ensures HexShaped(s, HexLength)
  {
    HexDigits(g, HexLength)
  }

  /** The "N" format is a faithful encoding: it can be read back. */
  lemma HexDecodes(g: Guid)
    ensures HexValue(Hex(g)) == g
  {
    HexRoundTrip(g, HexLength);
  }

  /** Distinct Guids have distinct "N" strings, and equal ones equal strings. */
  lemma HexInjective(a: Guid, b: Guid)
    ensures Hex(a) == Hex(b) <==> a == b
  {
    HexDecodes(a);
    HexDecodes(b);
  }
}
