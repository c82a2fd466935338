/** Integer radix conversion as the converter does it: `parseInt(s, radix)` on
    a string of digits and `Number.prototype.toString(radix)` on an integer. */
module Radix {
  import opened Wrappers
  import opened JsStrings

  /** The digit `toString(radix)` writes for `d`: `0`-`9`, then lower-case letters. */
  function DigitChar(d: nat): (c: CodeUnit)
    requires d < 36
  {
    if d < 10 then Ch('0') + d as CodeUnit else Ch('a') + (d - 10) as CodeUnit
  }

  /** The value `parseInt` gives a single digit, in either case. */
  function DigitValue(c: CodeUnit): Option<nat>
  {
    if IsDigit(c) then Some((c - Ch('0')) as nat)
    else if IsLower(c) then Some((c - Ch('a')) as nat + 10)
    else if IsUpper(c) then Some((c - Ch('A')) as nat + 10)
    else None
  }

  predicate IsDigitOf(c: CodeUnit, radix: nat)
  {
    DigitValue(c).Some? && DigitValue(c).value < radix
  }

  predicate AllDigitsOf(s: JsString, radix: nat)
  {
    forall i | 0 <= i < |s| :: IsDigitOf(s[i], radix)
  }

  /** `parseInt(s, radix)` on a string made only of digits of `radix`: the
      value read most significant digit first. */
  function ValueOf(s: JsString, radix: nat): nat
    requires AllDigitsOf(s, radix)
  {
    if s == [] then 0
    else ValueOf(s[..|s| - 1], radix) * radix + DigitValue(s[|s| - 1]).value
  }

  /** `n.toString(radix)` for a non-negative integer `n` below 10^21 (above it
      JavaScript switches to exponent notation; no caller gets there). It has
      no leading zero, is a single digit exactly below the radix, and (lemma
      ValueOfNatDigits) reads back as `n`. */
  function NatDigits(n: nat, radix: nat): (r: JsString)
    requires 2 <= radix <= 36
    ensures |r| >= 1 && AllDigitsOf(r, radix)
    ensures n > 0 ==> r[0] != Ch('0')
    ensures |r| == 1 <==> n < radix
    decreases n
  {
    if n < radix then
      DigitRoundTrip(n);
      [DigitChar(n)]
    else
      DivMod(n, radix);
      var p := NatDigits(n / radix, radix);
      var d := DigitChar(n % radix);
      DigitRoundTrip(n % radix);
      ValueOfSnoc(p, d, radix);
      assert (p + [d])[0] == p[0];
      p + [d]
  }

  /** `n.toString(radix)` for an integer: a minus sign before the digits of |n|. */
  function IntToString(n: int, radix: nat): JsString
    requires 2 <= radix <= 36
  {
    (if n < 0 then Str("-") else []) + NatDigits(if n < 0 then -n else n, radix)
  }

  /** `String(n)` and `"" + n` for an integer `n`. */
  function Decimal(n: int): JsString
  {
    IntToString(n, 10)
  }

  /** Reading the digits of `n` back in the same radix gives `n`. */
  lemma {:induction false} ValueOfNatDigits(n: nat, radix: nat)
    requires 2 <= radix <= 36
    ensures ValueOf(NatDigits(n, radix), radix) == n
    decreases n
  {
    var r := NatDigits(n, radix);
    if n < radix {
      DigitRoundTrip(n);
      assert r[..0] == [];
    } else {
      var q, d := n / radix, n % radix;
      var p := NatDigits(q, radix);
      DivMod(n, radix);
      ValueOfNatDigits(q, radix);
      DigitRoundTrip(d);
      ValueOfSnoc(p, DigitChar(d), radix);
      assert r == p + [DigitChar(d)];
      assert ValueOf(r, radix) == q * radix + d;
    }
  }

  lemma DivMod(n: nat, r: nat)
    requires 2 <= r <= n
    ensures 0 < n / r < n && n % r < r
    ensures n == (n / r) * r + n % r
  {
  }

  lemma ValueOfSnoc(s: JsString, c: CodeUnit, radix: nat)
    requires AllDigitsOf(s, radix) && IsDigitOf(c, radix)
    ensures AllDigitsOf(s + [c], radix)
    ensures ValueOf(s + [c], radix) == ValueOf(s, radix) * radix + DigitValue(c).value
  {
    assert (s + [c])[..|s|] == s;
  }

  lemma DigitRoundTrip(d: nat)
    requires d < 36
    ensures DigitValue(DigitChar(d)) == Some(d)
  {
  }

  /** `parseInt` reads upper- and lower-case letter digits alike. */
  lemma {:induction false} ValueOfUpper(s: JsString, radix: nat)
    requires AllDigitsOf(s, radix)
    ensures AllDigitsOf(ToUpperAscii(s), radix)
    ensures ValueOf(ToUpperAscii(s), radix) == ValueOf(s, radix)
  {
    var u := ToUpperAscii(s);
    assert forall i | 0 <= i < |s| :: DigitValue(u[i]) == DigitValue(s[i]);
    if s != [] {
      ValueOfUpper(s[..|s| - 1], radix);
      assert ToUpperAscii(s[..|s| - 1]) == u[..|u| - 1];
    }
  }

  /** Decimal digits are the code units `0`-`9`. */
  lemma DecimalDigitsAreDigits(s: JsString)
    requires AllDigitsOf(s, 10)
    ensures AllDigits(s)
  {
  }

  lemma DigitsOfDecimalDigits(s: JsString)
    requires AllDigits(s)
    ensures AllDigitsOf(s, 10)
  {
  }

  /** Numbers below 1000 have one to three decimal digits. */
  lemma {:induction false} SmallDecimalWidth(n: nat)
    requires n < 1000
    ensures 1 <= |NatDigits(n, 10)| <= 3
  {
    if n >= 10 {
      assert NatDigits(n, 10) == NatDigits(n / 10, 10) + [DigitChar(n % 10)];
      if n / 10 >= 10 {
        assert NatDigits(n / 10, 10) == NatDigits(n / 100, 10) + [DigitChar((n / 10) % 10)];
      }
    }
  }

  function Pow(b: nat, e: nat): (r: nat)
    ensures b >= 1 ==> r >= 1
  {
    if e == 0 then 1 else b * Pow(b, e - 1)
  }

  /** A string of `k` digits reads as a value below radix^k. */
  lemma {:induction false} ValueOfBelow(s: JsString, radix: nat)
    requires radix >= 1 && AllDigitsOf(s, radix)
    ensures ValueOf(s, radix) < Pow(radix, |s|)
  {
    if s != [] {
      var p := s[..|s| - 1];
      ValueOfBelow(p, radix);
      var v, d := ValueOf(p, radix), DigitValue(s[|s| - 1]).value;
      assert ValueOf(s, radix) == v * radix + d;
      PlaceBelow(v, d, radix, Pow(radix, |p|));
      assert Pow(radix, |s|) == radix * Pow(radix, |p|);
    }
  }

  /** One more digit below the radix keeps a value below the next power. */
  lemma PlaceBelow(v: nat, d: nat, r: nat, p: nat)
    requires v < p && d < r
    ensures v * r + d < r * p
  {
    MulMono(v + 1, p, r);
    assert (v + 1) * r == v * r + r;
    assert p * r == r * p;
  }

  lemma MulMono(a: nat, b: nat, c: nat)
    requires a <= b
    ensures a * c <= b * c
  {
  }

  lemma {:induction false} PowGrows(b: nat, e: nat, f: nat)
    requires b >= 1 && e <= f
    ensures Pow(b, e) <= Pow(b, f)
    decreases f
  {
    if e < f {
      PowGrows(b, e, f - 1);
      MulMono(1, b, Pow(b, f - 1));
    }
  }

  lemma Pow10At14()
    ensures Pow(10, 11) == 100_000_000_000 && Pow(10, 14) == 100_000_000_000_000
  {
    assert Pow(10, 4) == 10_000;
    assert Pow(10, 8) == 100_000_000 by { assert Pow(10, 8) == 10 * 10 * 10 * 10 * Pow(10, 4); }
    assert Pow(10, 11) == 100_000_000_000 by { assert Pow(10, 11) == 10 * 10 * 10 * Pow(10, 8); }
    assert Pow(10, 14) == 100_000_000_000_000 by { assert Pow(10, 14) == 10 * 10 * 10 * Pow(10, 11); }
  }
}
