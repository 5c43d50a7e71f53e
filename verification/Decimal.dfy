/** Decimal rendering of integers, as `str(int)` and `int(str)` do it for plain ASCII numerals. */
module Decimal {
  import opened Basics

  predicate IsDigit(c: char) {
    '0' <= c <= '9'
  }

  predicate AllDigits(s: string) {
    forall i :: 0 <= i < |s| ==> IsDigit(s[i])
  }

  function DigitChar(d: nat): char
    requires d < 10
  {
    '0' + d as char
  }

  function DigitValue(c: char): nat
    requires IsDigit(c)
  {
    (c - '0') as nat
  }

  /** The numeral of n: most significant digit first, no leading zero. */
  function ShowNat(n: nat): (s: string)
    ensures |s| > 0 && AllDigits(s)
  {
    if n < 10 then [DigitChar(n)] else ShowNat(n / 10) + [DigitChar(n % 10)]
  }

  function ReadDigits(s: string): nat
    requires AllDigits(s)
  {
    if |s| == 0 then 0
    else ReadDigits(s[..|s| - 1]) * 10 + DigitValue(s[|s| - 1])
  }

  /** `str(i)`. */
  function Show(i: int): string {
    if i < 0 then "-" + ShowNat(-i) else ShowNat(i)
  }

  /** `int(s)`: an optional sign and at least one digit; None stands for ValueError. */
  function Read(s: string): Option<int> {
    if |s| > 0 && (s[0] == '-' || s[0] == '+') then
      if |s| > 1 && AllDigits(s[1..]) then
        Some(if s[0] == '-' then -(ReadDigits(s[1..]) as int) else ReadDigits(s[1..]))
      else None
    else if |s| > 0 && AllDigits(s) then Some(ReadDigits(s))
    else None
  }

  lemma {:induction false} ReadShowNat(n: nat)
    ensures ReadDigits(ShowNat(n)) == n
  {
    if n >= 10 {
      ReadShowNat(n / 10);
      assert ShowNat(n)[..|ShowNat(n)| - 1] == ShowNat(n / 10);
    }
  }

  /** The number of digits a numeral takes. */
  lemma {:induction false} ShowLength(n: nat, k: nat, bound: nat)
    requires k > 0 && bound == Power10(k)
    ensures |ShowNat(n)| <= k <==> n < bound
  {
    if k > 1 && n >= 10 {
      ShowLength(n / 10, k - 1, Power10(k - 1));
    }
  }

  function Power10(k: nat): nat
    ensures Power10(k) > 0
  {
    if k == 0 then 1 else 10 * Power10(k - 1)
  }

  /** A numeral filled up with zeros on the left. */
  function Pad(s: string, width: nat): string
    decreases width - |s|
  {
    if |s| >= width then s else Pad("0" + s, width)
  }

  lemma {:induction false} ReadLeadingZero(s: string)
    requires AllDigits(s)
    ensures AllDigits("0" + s) && ReadDigits("0" + s) == ReadDigits(s)
  {
    var n := |s| - 1;
    if |s| > 0 {
      ReadLeadingZero(s[..n]);
      assert ("0" + s)[..n + 1] == "0" + s[..n];
    } else {
      assert "0" + s == "0" && "0"[..0] == "";
    }
  }

  lemma {:induction false} PadReads(s: string, width: nat)
    requires AllDigits(s)
    ensures AllDigits(Pad(s, width)) && ReadDigits(Pad(s, width)) == ReadDigits(s)
    ensures |Pad(s, width)| == if |s| >= width then |s| else width
    decreases width - |s|
  {
    if |s| < width {
      ReadLeadingZero(s);
      PadReads("0" + s, width);
    }
  }

  /** Parsing undoes printing, for every integer. */
  lemma ReadShow(i: int)
    ensures Read(Show(i)) == Some(i)
  {
    ReadShowNat(if i < 0 then -i else i);
    if i < 0 {
      assert Show(i)[1..] == ShowNat(-i);
    } else {
      assert IsDigit(Show(i)[0]);
    }
  }

  // ---- Decimal digits of every script ----

  /** The zeros of Unicode 15.1: each starts a run of the ten decimal digits of one script. */
  predicate IsZero(z: int) {
    z in {
      0x30, 0x660, 0x6F0, 0x7C0, 0x966, 0x9E6, 0xA66, 0xAE6, 0xB66, 0xBE6, 0xC66, 0xCE6, 0xD66, 0xDE6, 0xE50,
      0xED0, 0xF20, 0x1040, 0x1090, 0x17E0, 0x1810, 0x1946, 0x19D0, 0x1A80, 0x1A90, 0x1B50, 0x1BB0, 0x1C40,
      0x1C50, 0xA620, 0xA8D0, 0xA900, 0xA9D0, 0xA9F0, 0xAA50, 0xABF0, 0xFF10, 0x104A0, 0x10D30, 0x11066, 0x110F0,
      0x11136, 0x111D0, 0x112F0, 0x11450, 0x114D0, 0x11650, 0x116C0, 0x11730, 0x118E0, 0x11950, 0x11C50, 0x11D50,
      0x11DA0, 0x11F50, 0x16A60, 0x16AC0, 0x16B50, 0x1D7CE, 0x1D7D8, 0x1D7E2, 0x1D7EC, 0x1D7F6, 0x1E140, 0x1E2F0,
      0x1E4F0, 0x1E950, 0x1FBF0}
  }

  function DecimalFrom(c: int, d: nat): Option<nat>
    requires d <= 10
    decreases 10 - d
  {
    if d == 10 then None else if IsZero(c - d) then Some(d) else DecimalFrom(c, d + 1)
  }

  /** What `\d` matches and what `int` reads it as. */
  function DecimalValue(c: char): Option<nat> {
    DecimalFrom(c as int, 0)
  }

  predicate AllDecimal(s: string) {
    forall i :: 0 <= i < |s| ==> DecimalValue(s[i]).Some?
  }

  function ReadDecimal(s: string): nat
    requires AllDecimal(s)
  {
    if |s| == 0 then 0
    else ReadDecimal(s[..|s| - 1]) * 10 + DecimalValue(s[|s| - 1]).value
  }

  /** Inside the run that starts at 0x30 or at 0xFF10 there is no other zero. */
  lemma {:induction false} DecimalInRun(zero: int, v: nat, d: nat)
    requires (zero == 0x30 || zero == 0xFF10) && d <= v < 10
    ensures DecimalFrom(zero + v, d) == Some(v)
    decreases 10 - d
  {
    if d < v {
      assert !IsZero(zero + v - d);
      DecimalInRun(zero, v, d + 1);
    } else {
      assert IsZero(zero + v - d);
    }
  }

  lemma DigitIsDecimal(c: char)
    requires IsDigit(c)
    ensures DecimalValue(c) == Some(DigitValue(c))
  {
    DecimalInRun(0x30, DigitValue(c), 0);
  }

  lemma {:induction false} DigitsAreDecimal(s: string)
    requires AllDigits(s)
    ensures AllDecimal(s) && ReadDecimal(s) == ReadDigits(s)
  {
    if |s| > 0 {
      var n := |s| - 1;
      DigitsAreDecimal(s[..n]);
      DigitIsDecimal(s[n]);
      assert s == s[..n] + [s[n]];
      DecimalSnoc(s[..n], s[n]);
    }
  }

  function FullwidthDigit(c: char): char
    requires IsDigit(c)
  {
    '\U{FF10}' + DigitValue(c) as char
  }

  /** The same digits in the fullwidth script. */
  function Fullwidth(s: string): string
    requires AllDigits(s)
  {
    seq(|s|, i requires 0 <= i < |s| => FullwidthDigit(s[i]))
  }

  lemma FullwidthSnoc(s: string)
    requires AllDigits(s) && |s| > 0
    ensures Fullwidth(s) == Fullwidth(s[..|s| - 1]) + [FullwidthDigit(s[|s| - 1])]
  {
  }

  lemma {:induction false} FullwidthReads(s: string)
    requires AllDigits(s)
    ensures AllDecimal(Fullwidth(s)) && ReadDecimal(Fullwidth(s)) == ReadDigits(s)
  {
    if |s| > 0 {
      var n := |s| - 1;
      var wide, c := Fullwidth(s[..n]), FullwidthDigit(s[n]);
      FullwidthReads(s[..n]);
      FullwidthDigitReads(s[n]);
      DecimalSnoc(wide, c);
      FullwidthSnoc(s);
    }
  }

  lemma DecimalSnoc(s: string, c: char)
    requires AllDecimal(s) && DecimalValue(c).Some?
    ensures AllDecimal(s + [c]) && ReadDecimal(s + [c]) == ReadDecimal(s) * 10 + DecimalValue(c).value
  {
    assert (s + [c])[..|s|] == s;
  }

  lemma FullwidthDigitReads(c: char)
    requires IsDigit(c)
    ensures DecimalValue(FullwidthDigit(c)) == Some(DigitValue(c)) && FullwidthDigit(c) != c
  {
    DecimalInRun(0xFF10, DigitValue(c), 0);
  }
}
