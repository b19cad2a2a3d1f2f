/** Decimal digit strings: Python's `str(n)` of an integer and `int(ds)`
    of an ASCII digit string. */
module Decimal {
  import opened PyStr

  predicate AllDigits(s: string)
  {
    forall i :: 0 <= i < |s| ==> IsDigit(s[i])
  }

  function DigitChar(d: nat): (c: char)
    requires d < 10
    ensures IsDigit(c) && c as int - '0' as int == d
  {
    ('0' as int + d) as char
  }

  /** `str(n)` for a non-negative integer: no leading zeros. */
  function ShowNat(n: nat): (s: string)
    ensures s != [] && AllDigits(s)
    ensures |s| > 1 ==> s[0] != '0'
    decreases n
  {
    if n < 10 then [DigitChar(n)] else ShowNat(n / 10) + [DigitChar(n % 10)]
  }

  /** `str(i)` for any integer. */
  function ShowInt(i: int): (s: string)
    ensures s != []
  {
    if i < 0 then "-" + ShowNat(-i) else ShowNat(i)
  }

  /** `int(ds)` for a string of ASCII digits. */
  function DigitsValue(ds: string): (n: nat)
    requires AllDigits(ds)
  {
    if ds == [] then 0 else DigitsValue(ds[..|ds| - 1]) * 10 + (ds[|ds| - 1] as int - '0' as int)
  }

  /** Reading back what `ShowNat` writes gives the number. */
  lemma {:induction false} ShowNatRoundTrip(n: nat)
    ensures DigitsValue(ShowNat(n)) == n
    decreases n
  {
    var s := ShowNat(n);
    if n >= 10 {
      ShowNatRoundTrip(n / 10);
      assert s[..|s| - 1] == ShowNat(n / 10);
    }
  }

  /** The value of a digit string is below ten to the power of its length. */
  lemma {:induction false} DigitsValueBound(ds: string)
    requires AllDigits(ds)
    ensures DigitsValue(ds) < Pow10(|ds|)
  {
    if ds != [] {
      DigitsValueBound(ds[..|ds| - 1]);
    }
  }

  function Pow10(k: nat): (p: nat)
    ensures p >= 1
  {
    if k == 0 then 1 else 10 * Pow10(k - 1)
  }

  /** `str(n)` written with at least `width` digits, zero-padded on the
      left, as `%0<width>d` does. */
  function PadNat(n: nat, width: nat): (s: string)
    ensures AllDigits(s) && |s| >= width
    ensures DigitsValue(s) == n
    decreases width
  {
    var t := ShowNat(n);
    ShowNatRoundTrip(n);
    if |t| >= width then t
    else
      var r := "0" + PadNat(n, width - 1);
      LeadingZero(PadNat(n, width - 1));
      r
  }

  /** A leading zero does not change the value. */
  lemma {:induction false} LeadingZero(ds: string)
    requires AllDigits(ds)
    ensures AllDigits("0" + ds) && DigitsValue("0" + ds) == DigitsValue(ds)
    decreases |ds|
  {
    var s := "0" + ds;
    if ds != [] {
      assert s[..|s| - 1] == "0" + ds[..|ds| - 1];
      LeadingZero(ds[..|ds| - 1]);
    }
  }

  /** A number below ten to the `width` is padded to exactly `width`
      digits. */
  lemma {:induction false} PadNatWidth(n: nat, width: nat)
    requires 1 <= width && n < Pow10(width)
    ensures |PadNat(n, width)| == width
    decreases width
  {
    var t := ShowNat(n);
    if |t| > width {
      ShowNatRoundTrip(n);
      ShowNatLower(n);
      assert Pow10(width) <= Pow10(|t| - 1) by { Pow10Monotone(width, |t| - 1); }
    } else if |t| < width {
      if width == 1 {
      } else {
        ShowNatShort(n, width - 1);
        PadNatWidth(n, width - 1);
      }
    }
  }

  /** `ShowNat` has no leading zero, so its value is at least ten to the
      power of one less than its length. */
  lemma {:induction false} ShowNatLower(n: nat)
    ensures |ShowNat(n)| == 1 || n >= Pow10(|ShowNat(n)| - 1)
    decreases n
  {
    if n >= 10 {
      ShowNatLower(n / 10);
    }
  }

  lemma {:induction false} ShowNatShort(n: nat, k: nat)
    requires 1 <= k && |ShowNat(n)| <= k
    ensures n < Pow10(k)
  {
    ShowNatRoundTrip(n);
    DigitsValueBound(ShowNat(n));
    Pow10Monotone(|ShowNat(n)|, k);
  }

  lemma {:induction false} Pow10Monotone(a: nat, b: nat)
    requires a <= b
    ensures Pow10(a) <= Pow10(b)
    decreases b
  {
    if a < b {
      Pow10Monotone(a, b - 1);
    }
  }
}
