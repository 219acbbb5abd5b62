/** What the casts make of numbers written the plain ways: the characters that count as
    spaces and digits, and for every number its decimal, hexadecimal and binary text, with a
    fraction and with an exponent. */
module CastTexts {
  import opened Lake
  import opened Words
  import opened DuckdbCast
  import opened CastValues
  import opened CastExact
  import opened CastForms
  import DecimalText

  // ----- Characters -----

  const LOWER := "0123456789abcdef"
  const UPPER := "0123456789ABCDEF"

  lemma DigitExactly(ch: char, d: nat)
    ensures IsDigit(ch) && DigitOf(ch) == d <==> d < 10 && ch == LOWER[d]
  {
    assert d < 10 ==> LOWER[d] as int == '0' as int + d;
  }

  /** A digit of the radix is the character of that place, in either case. */
  lemma RadixDigitExactly(ch: char, radix: nat, d: nat)
    requires radix == 2 || radix == 16
    ensures RadixDigit(ch, radix) == Some(d) <==> d < radix && (ch == LOWER[d] || ch == UPPER[d])
  {
    assert d < 10 ==> LOWER[d] as int == '0' as int + d && UPPER[d] == LOWER[d];
    assert 10 <= d < 16 ==> LOWER[d] as int == 'a' as int + d - 10 && UPPER[d] as int == 'A' as int + d - 10;
  }

  lemma SpaceExactly(ch: char)
    ensures IsSpace(ch) <==> ch in [' ', '\t', '\n', 11 as char, 12 as char, '\r']
  {
  }

  // ----- Radix texts -----

  /** `n` written by repeated division by the radix. */
  function InRadix(n: nat, radix: nat): string
    requires radix == 2 || radix == 16
  {
    if n < radix then [LOWER[n]] else InRadix(n / radix, radix) + [LOWER[n % radix]]
  }

  lemma {:induction false} InRadixReads(n: nat, radix: nat)
    requires radix == 2 || radix == 16
    ensures var t := InRadix(n, radix);
            RadixValue(t, radix) == n && t != "" && forall i | 0 <= i < |t| :: IsRadixDigit(t[i], radix)
  {
    var t := InRadix(n, radix);
    RadixDigitExactly(LOWER[n % radix], radix, n % radix);
    if n < radix {
      assert t[..0] == "" && RadixValue("", radix) == 0;
    } else {
      InRadixReads(n / radix, radix);
      RadixAdded(InRadix(n / radix, radix), LOWER[n % radix], radix, n % radix);
      DivMod(n, radix);
    }
  }

  lemma RadixAdded(front: string, ch: char, radix: nat, d: nat)
    requires RadixDigit(ch, radix) == Some(d)
    ensures RadixValue(front + [ch], radix) == radix * RadixValue(front, radix) + d
  {
    assert (front + [ch])[..|front|] == front;
  }

  lemma DivMod(n: nat, radix: nat)
    requires radix == 2 || radix == 16
    ensures radix * (n / radix) + n % radix == n
  {
  }

  /** A number's hexadecimal or binary text is cast to it exactly when it fits. */
  lemma RadixTextCasts(c: Cast, lead: string, mark: char, n: nat)
    requires FractionCast(c) && AllSpace(lead) && mark in "xXbB"
    ensures var radix := if mark in "xX" then 16 else 2;
            TryOf(c, lead + ("0" + [mark] + InRadix(n, radix)), true) == if n <= c.result.max then Some(n) else None
  {
    var radix := if mark in "xX" then 16 else 2;
    FractionCastIsWide(c);
    InRadixReads(n, radix);
    FormCasts(c, lead, Radix(mark, InRadix(n, radix)));
  }

  // ----- Decimal texts -----

  lemma AllDigits(t: string)
    requires t != "" && forall i | 0 <= i < |t| :: IsDigit(t[i])
    ensures Separated(t)
  {
  }

  lemma CharIsDigit(d: nat)
    requires d < 10
    ensures IsDigit(DecimalText.DigitChar(d)) && DigitOf(DecimalText.DigitChar(d)) == d
  {
  }

  lemma {:induction false} DecimalIsDigits(n: nat)
    ensures var t := DecimalText.Decimal(n);
            Number(t) == n && t != "" && forall i | 0 <= i < |t| :: IsDigit(t[i])
  {
    DecimalReads(n);
    CharIsDigit(n % 10);
    if n >= 10 {
      DecimalIsDigits(n / 10);
    }
  }

  /** Any number of leading zeros. */
  lemma {:induction false} FixedReads(n: nat, w: nat)
    requires n < Pow10(w)
    ensures var t := DecimalText.Fixed(n, w);
            Number(t) == n && Count(t) == w && forall i | 0 <= i < |t| :: IsDigit(t[i])
  {
    if w > 0 {
      FixedReads(n / 10, w - 1);
      CharIsDigit(n % 10);
      DigitAdded(UBIGINT, DecimalText.Fixed(n / 10, w - 1), DecimalText.DigitChar(n % 10), DecimalText.Fixed(n, w));
    }
  }

  function SignOf(negative: bool): string {
    if negative then "-" else ""
  }

  /** The number `m` with `w` digits `f` behind its point. */
  function Written(negative: bool, m: nat, f: nat, w: nat, e: Exponent): Form {
    Numeral(SignOf(negative), DecimalText.Decimal(m), w > 0, DecimalText.Fixed(f, w), e, "")
  }

  lemma WrittenIsForm(negative: bool, m: nat, f: nat, w: nat, e: Exponent)
    requires f < Pow10(w) && IsExponent(e, "")
    ensures IsForm(Written(negative, m, f, w, e))
  {
    DecimalIsDigits(m);
    FixedReads(f, w);
    AllDigits(DecimalText.Decimal(m));
    if w > 0 {
      AllDigits(DecimalText.Fixed(f, w));
    }
  }

  /** Half a unit or more of the fraction rounds up. */
  lemma HalfRounds(f: nat, w: nat)
    requires w >= 1 && f < Pow10(w)
    ensures Round(f, w) == if 2 * f >= Pow10(w) then 1 else 0
  {
    DropsAll(f, w);
    RoundIsNearest(f, w);
    ShiftOne(w);
    ShiftIsTimes(0, w);
    ShiftIsTimes(1, w);
    ShiftIsTimes(2, w);
  }

  lemma WrittenIdeal(c: Cast, negative: bool, m: nat, f: nat, w: nat)
    requires f < Pow10(w)
    ensures Ideal(c, Written(negative, m, f, w, NoExponent)) ==
            Given(c, negative, m, m + if 2 * f >= Pow10(w) && w > 0 then 1 else 0)
  {
    DecimalIsDigits(m);
    FixedReads(f, w);
    RoundedHalf(m, f, w);
  }

  lemma RoundedHalf(m: nat, f: nat, w: nat)
    requires f < Pow10(w)
    ensures Rounded(Shift(m, w) + f, w, 0) == m + if 2 * f >= Pow10(w) && w > 0 then 1 else 0
  {
    DropsAll(f, w);
    FinalIsRounded(m, f, w);
    if w > 0 {
      HalfRounds(f, w);
    }
  }

  /** A number's decimal text, with a sign the type has and up to 18 digits behind a point,
      is cast to it, rounded up in size from a half on, exactly when that fits. */
  lemma WrittenCasts(c: Cast, lead: string, negative: bool, m: nat, f: nat, w: nat)
    requires FractionCast(c) && AllSpace(lead) && (negative ==> c == TINYINT) && w <= 18 && f < Pow10(w)
    ensures TryOf(c, lead + TextOf(Written(negative, m, f, w, NoExponent)), true) ==
            Given(c, negative, m, m + if 2 * f >= Pow10(w) && w > 0 then 1 else 0)
  {
    var form := Written(negative, m, f, w, NoExponent);
    WrittenIsForm(negative, m, f, w, NoExponent);
    FixedReads(f, w);
    ShortIsRead(c, form);
    NumbersCast(c, lead, form);
    WrittenIdeal(c, negative, m, f, w);
  }

  /** `TextOf` puts the parts of such a number side by side. */
  lemma WrittenText(negative: bool, m: nat, f: nat, w: nat)
    ensures TextOf(Written(negative, m, f, w, NoExponent)) ==
            SignOf(negative) + DecimalText.Decimal(m) + if w > 0 then "." + DecimalText.Fixed(f, w) else ""
  {
    var behind := Behind(w > 0, DecimalText.Fixed(f, w));
    assert behind + ("" + "") == behind;
  }

  // ----- Exponents -----

  /** `m` · 10^`x`, or with a minus `m` · 10^-`x`, the exponent's digits being `x`'s own. */
  function Scaled(negative: bool, m: nat, mark: char, down: bool, x: nat): Form {
    Written(negative, m, 0, 0, Exponent(mark, SignOf(down), DecimalText.Decimal(x), false))
  }

  lemma ScaledIsForm(negative: bool, m: nat, mark: char, down: bool, x: nat)
    requires mark in "eE"
    ensures IsForm(Scaled(negative, m, mark, down, x))
    ensures PowerOf(Scaled(negative, m, mark, down, x).e) ==
            if Fits(INT16, Signed(down, x)) then Some(Signed(down, x)) else None
  {
    DecimalIsDigits(x);
    AllDigits(DecimalText.Decimal(x));
    WrittenIsForm(negative, m, 0, 0, Scaled(negative, m, mark, down, x).e);
  }

  /** An exponent multiplies a whole number by its power of ten; beyond 16 bits nothing is
      cast. */
  lemma ScaledUp(c: Cast, lead: string, negative: bool, m: nat, mark: char, x: nat)
    requires FractionCast(c) && AllSpace(lead) && (negative ==> c == TINYINT) && mark in "eE"
    ensures TryOf(c, lead + TextOf(Scaled(negative, m, mark, false, x)), true) ==
            if x <= 32767 then Given(c, negative, m, m * Pow10(x)) else None
  {
    var form := Scaled(negative, m, mark, false, x);
    ScaledIsForm(negative, m, mark, false, x);
    DecimalIsDigits(m);
    ShortIsRead(c, form);
    NumbersCast(c, lead, form);
    if x <= 32767 {
      ShiftIsTimes(m, x);
      assert Shift(m, 0) + 0 == m;
    }
  }

  /** `m` / `p` to the nearest whole, halves up. */
  function Nearest(m: nat, p: nat): nat
    requires p > 0
  {
    (2 * m + p) / (2 * p)
  }

  /** A negative one divides it, to the nearest whole, halves away from zero. */
  lemma ScaledDown(c: Cast, lead: string, negative: bool, m: nat, mark: char, x: nat)
    requires FractionCast(c) && AllSpace(lead) && (negative ==> c == TINYINT) && mark in "eE" && 1 <= x <= 32768
    ensures TryOf(c, lead + TextOf(Scaled(negative, m, mark, true, x)), true) ==
            Given(c, negative, m, Nearest(m, Pow10(x)))
  {
    var form := Scaled(negative, m, mark, true, x);
    ScaledIsForm(negative, m, mark, true, x);
    DecimalIsDigits(m);
    ShortIsRead(c, form);
    NumbersCast(c, lead, form);
    assert Shift(m, 0) + 0 == m;
    RoundDivides(m, x);
  }

  lemma RoundDivides(m: nat, x: nat)
    requires x >= 1
    ensures Round(m, x) == Nearest(m, Pow10(x))
  {
    var v := Round(m, x);
    RoundIsNearest(m, x);
    ShiftIsTimes(v, x);
    ShiftIsTimes(v + 1, x);
    NearestIs(m, Pow10(x), v, v * Pow10(x));
  }

  lemma NearestIs(m: nat, p: nat, v: nat, vp: nat)
    requires p > 0 && vp == v * p && 2 * vp <= 2 * m + p < 2 * ((v + 1) * p)
    ensures Nearest(m, p) == v
  {
    assert (v + 1) * p == vp + p && v * (2 * p) == 2 * vp;
    DivIs(2 * m + p, 2 * p, v, 2 * m + p - 2 * vp);
  }
}
