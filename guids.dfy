/**
  System.Guid, as far as the repository needs it: a 128-bit value that is compared for
  equality and printed into the message of the update's not-found exception.

  A Guid is modelled as the number whose 32 hexadecimal digits, most significant first,
  are the digits that Guid.ToString() prints in its default "D" format
  (lower-case, grouped 8-4-4-4-12 and separated by hyphens).
 */
module Guids {
  import opened Wrappers

  /** 16 to the power k. */
  function Pow16(k: nat): (r: nat)
    ensures r >= 1
  {
    if k == 0 then 1 else 16 * Pow16(k - 1)
  }

  /** One more than the largest 128-bit value. */
  const GuidBound: nat := 0x1_0000_0000_0000_0000_0000_0000_0000_0000

  newtype Guid = x: int | 0 <= x < GuidBound

  /** A Guid is 32 hexadecimal digits wide. */
  lemma GuidBoundIsPow16()
    ensures GuidBound == Pow16(32)
  {
    assert Pow16(8) == 0x1_0000_0000;
    assert Pow16(16) == 0x1_0000_0000 * Pow16(8) by { PowAdd(8, 8); }
    assert Pow16(32) == Pow16(16) * Pow16(16) by { PowAdd(16, 16); }
  }

  lemma {:induction false} PowAdd(a: nat, b: nat)
    ensures Pow16(a + b) == Pow16(a) * Pow16(b)
    decreases a
  {
    if a > 0 {
      PowAdd(a - 1, b);
      calc {
        Pow16(a + b);
        16 * Pow16(a - 1 + b);
        16 * (Pow16(a - 1) * Pow16(b));
        (16 * Pow16(a - 1)) * Pow16(b);
      }
    }
  }

  /** The digits Guid.ToString() uses, in order of value. */
  const HexDigits: string := "0123456789abcdef"

  predicate IsHexText(s: string) {
    forall c :: c in s ==> c in HexDigits
  }

  /** The value of one lower-case hexadecimal digit. */
  function DigitValue(c: char): (v: nat)
    requires c in HexDigits
    ensures v < 16 && HexDigits[v] == c
  {
    if '0' <= c <= '9' then c as nat - '0' as nat else c as nat - 'a' as nat + 10
  }

  /** n written with exactly k lower-case hexadecimal digits, leading zeros included. */
  function Hex(n: nat, k: nat): (r: string)
    requires n < Pow16(k)
    ensures |r| == k && IsHexText(r)
    decreases k
  {
    if k == 0 then [] else Hex(n / 16, k - 1) + [HexDigits[n % 16]]
  }

  /** The value of a string of hexadecimal digits, the first digit the most significant. */
  function ParseHex(s: string): (n: nat)
    requires IsHexText(s)
    ensures n < Pow16(|s|)
  {
    if s == [] then 0 else ParseHex(s[..|s| - 1]) * 16 + DigitValue(s[|s| - 1])
  }

  /** Reading back the digits of Hex gives the number that was written. */
  lemma {:induction false} ParseHexOfHex(n: nat, k: nat)
    requires n < Pow16(k)
    ensures ParseHex(Hex(n, k)) == n
    decreases k
  {
    if k > 0 {
      var h := Hex(n, k);
      assert h[..k - 1] == Hex(n / 16, k - 1);
      assert DigitValue(h[k - 1]) == n % 16;
      ParseHexOfHex(n / 16, k - 1);
    }
  }

  /** 32 hexadecimal digits grouped 8-4-4-4-12 and separated by hyphens. */
  function Grouped(h: string): (r: string)
    requires |h| == 32
  {
    h[..8] + "-" + h[8..12] + "-" + h[12..16] + "-" + h[16..20] + "-" + h[20..]
  }

  /** Is s laid out as FormatGuid lays out a Guid? */
  predicate IsGuidText(s: string) {
    |s| == 36 && s[8] == '-' && s[13] == '-' && s[18] == '-' && s[23] == '-' &&
    IsHexText(s[..8]) && IsHexText(s[9..13]) && IsHexText(s[14..18]) &&
    IsHexText(s[19..23]) && IsHexText(s[24..])
  }

  /** The 32 digits of a Guid's text, without its hyphens. */
  function DigitsOf(s: string): (r: string)
    requires IsGuidText(s)
    ensures |r| == 32 && IsHexText(r)
  {
    s[..8] + s[9..13] + s[14..18] + s[19..23] + s[24..]
  }

  /** The Guid a text of the "D" format stands for; None for any other text. */
  function ParseGuid(s: string): (r: Option<Guid>)
  {
    if IsGuidText(s) then
      GuidBoundIsPow16();
      Some(ParseHex(DigitsOf(s)) as Guid)
    else
      None
  }

  /** Grouping 32 digits gives a Guid text whose digits are those 32. */
  lemma GroupedDigits(h: string)
    requires |h| == 32 && IsHexText(h)
    ensures IsGuidText(Grouped(h)) && DigitsOf(Grouped(h)) == h
  {
    var s := Grouped(h);
    assert s[..8] == h[..8];
    assert s[9..13] == h[8..12];
    assert s[14..18] == h[12..16];
    assert s[19..23] == h[16..20];
    assert s[24..] == h[20..];
    assert h == h[..8] + h[8..12] + h[12..16] + h[16..20] + h[20..];
  }

  /**
    Guid.ToString() in the "D" format: xxxxxxxx-xxxx-xxxx-xxxx-xxxxxxxxxxxx. The text loses
    nothing: it parses back to the Guid, so distinct Guids print differently.
   */
  function FormatGuid(g: Guid): (r: string)
    ensures IsGuidText(r)
    ensures ParseGuid(r) == Some(g)
  {
    GuidBoundIsPow16();
    var h := Hex(g as nat, 32);
    GroupedDigits(h);
    ParseHexOfHex(g as nat, 32);
    Grouped(h)
  }
}
