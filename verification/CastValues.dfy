/** When what the cast's steps compute is the number the text spells, rounded half away
    from zero. Digits behind the point past the store type's precision are left out, a
    power of ten wraps, and so does the 16-bit count of the digits: the lemmas say where
    that shows. */
module CastValues {
  import opened Lake
  import opened Words
  import opened DuckdbCast

  /** Division by a power of ten drops that many digits. */
  lemma {:induction false} DivIsDrop(v: nat, q: nat)
    ensures v / Pow10(q) == Drop(v, q)
    decreases q
  {
    if q > 0 {
      DivIsDrop(v, q - 1);
      DivTen(v, Pow10(q - 1));
    }
  }

  lemma Times(a: nat, b: nat, k: nat)
    requires a <= b
    ensures a * k <= b * k
  {
    assert (b - a) * k == b * k - a * k;
  }

  lemma Unequal(q: nat, q': nat, r: nat, r': nat, b: nat)
    requires q * b + r == q' * b + r' && r < b && r' < b
    ensures q <= q'
  {
    assert (q' + 1) * b == q' * b + b;
    if q >= q' + 1 {
      Times(q' + 1, q, b);
    }
  }

  /** Division by its defining property. */
  lemma DivIs(a: nat, b: nat, q: nat, r: nat)
    requires b > 0 && a == q * b + r && r < b
    ensures a / b == q && a % b == r
  {
    var q', r' := a / b, a % b;
    assert a == q' * b + r';
    Unequal(q', q, r', r, b);
    Unequal(q, q', r, r', b);
  }

  lemma DivTen(a: nat, b: nat)
    requires b > 0
    ensures (a / b) / 10 == a / (10 * b)
  {
    var q, r := a / b, a % b;
    var q', d := q / 10, q % 10;
    assert a == q * b + r && q == q' * 10 + d;
    assert q * b == q' * (10 * b) + d * b by {
      assert (q' * 10 + d) * b == q' * 10 * b + d * b;
      assert q' * 10 * b == q' * (10 * b);
    }
    assert d * b + r < 10 * b by {
      Times(d, 9, b);
    }
    DivIs(a, 10 * b, q', d * b + r);
  }

  lemma {:induction false} ShiftIsTimes(v: nat, q: nat)
    ensures Shift(v, q) == v * Pow10(q)
  {
    if q > 0 {
      ShiftIsTimes(v, q - 1);
      assert 10 * (v * Pow10(q - 1)) == v * (10 * Pow10(q - 1));
    }
  }

  /** What a power of ten leaves over rounds as the number does. */
  lemma LowRounds(v: nat, q: nat, low: nat)
    requires q >= 1 && low < Pow10(q) && v == Shift(Drop(v, q), q) + low
    ensures Drop(low, q) == 0 && Round(v, q) == Drop(v, q) + Round(low, q)
  {
    DropsAll(low, q);
    DropBehind(Drop(v, q), low, q, q - 1);
    RoundAside(v, Drop(v, q), low, q);
  }

  lemma Parts(v: nat, p: nat)
    requires p > 0
    ensures v == (v / p) * p + v % p && 0 <= v % p < p && 0 <= v / p
  {
  }

  lemma SplitParts(v: nat, q: nat, high: nat, low: nat)
    requires q >= 1 && high == v / Pow10(q) && low == v % Pow10(q)
    ensures high == Drop(v, q) && Drop(low, q) == 0 && Round(v, q) == high + Round(low, q)
  {
    Parts(v, Pow10(q));
    DivIsDrop(v, q);
    ShiftIsTimes(high, q);
    LowRounds(v, q, low);
  }

  /** The value `v` of a number whose whole part is `m`, if both fit. */
  function Given(c: Cast, negative: bool, m: nat, v: nat): Option<int> {
    if Fits(c.store, Signed(negative, m)) then FitsOr(c, negative, v) else None
  }

  /** So too if its whole part still fits where the exponent moves it. */
  function GivenMoved(c: Cast, negative: bool, m: nat, scaled: nat, v: nat): Option<int> {
    if Fits(c.store, Signed(negative, m)) && Fits(c.store, Signed(negative, scaled)) then FitsOr(c, negative, v)
      else None
  }

  /** What the number `m`, with `n` digits `d` behind its point, is cast to. */
  function ExpectedOf(c: Cast, negative: bool, m: nat, d: nat, n: nat, exponent: int): Option<int> {
    Given(c, negative, m, Rounded(Shift(m, n) + d, n, exponent))
  }

  /** What a number's text is cast to. */
  function Expected(c: Cast, negative: bool, whole: string, fraction: string, exponent: int): Option<int> {
    ExpectedOf(c, negative, Number(whole), Number(fraction), Count(fraction), exponent)
  }

  lemma FinalIsRounded(m: nat, fraction: nat, n: nat)
    requires Drop(fraction, n) == 0
    ensures Rounded(Shift(m, n) + fraction, n, 0) == if fraction == 0 then m else m + Round(fraction, n)
  {
    AtLeastWhole(m, fraction, n, 0);
    if n > 0 {
      MovesInto(m, fraction, n, 0);
    }
  }

  // ----- What is kept of a fraction -----

  /** However many digits are kept, the first is, and it decides the rounding. */
  lemma {:induction false} KeptFirst(c: Cast, fraction: string)
    requires WfCast(c)
    ensures var (d, n) := KeptOf(c, fraction);
            && n <= Count(fraction) && (n == 0 <==> Count(fraction) == 0) && Drop(d, n) == 0
               && Drop(Number(fraction), Count(fraction)) == 0
            && (n > 0 ==> Drop(d, n - 1) == Drop(Number(fraction), Count(fraction) - 1))
  {
    if fraction != "" {
      var front, ch := fraction[..|fraction| - 1], fraction[|fraction| - 1];
      KeptFirst(c, front);
      if IsDigit(ch) {
        Appended(Number(front), DigitOf(ch), Count(front));
        Appended(KeptOf(c, front).0, DigitOf(ch), KeptOf(c, front).1);
      }
    }
  }

  lemma Appended(v: nat, digit: nat, n: nat)
    requires digit <= 9 && Drop(v, n) == 0
    ensures Drop(10 * v + digit, n + 1) == 0
    ensures n > 0 ==> Drop(10 * v + digit, n) == Drop(v, n - 1)
    ensures n == 0 ==> Drop(10 * v + digit, n) == digit
  {
    DropFirst(10 * v + digit, n + 1);
    assert (10 * v + digit) / 10 == v;
    if n > 0 {
      DropFirst(10 * v + digit, n);
    }
  }

  lemma KeptRounds(c: Cast, fraction: string)
    requires WfCast(c)
    ensures Round(KeptOf(c, fraction).0, KeptOf(c, fraction).1) == Round(Number(fraction), Count(fraction))
  {
    KeptFirst(c, fraction);
    if Count(fraction) == 0 {
      NoDigitsNoNumber(fraction);
    }
  }

  lemma {:induction false} NoDigitsNoNumber(t: string)
    requires Count(t) == 0
    ensures Number(t) == 0 && forall c :: KeptOf(c, t) == (0, 0)
  {
    if t != "" {
      NoDigitsNoNumber(t[..|t| - 1]);
    }
  }

  /** Every digit is kept of a fraction whose digits fit the store type as one number. */
  lemma {:induction false} KeptAll(c: Cast, fraction: string)
    requires WfCast(c) && Number(fraction) <= c.store.max
    ensures KeptOf(c, fraction) == (Number(fraction), Count(fraction))
  {
    if fraction != "" {
      var front, ch := fraction[..|fraction| - 1], fraction[|fraction| - 1];
      assert Number(front) <= Number(fraction);
      KeptAll(c, front);
    }
  }

  // ----- Numbers without an exponent -----

  lemma RoundNothing(n: nat)
    ensures Round(0, n) == 0
  {
    DropLess(0, 0, n);
    if n > 0 {
      DropLess(0, 0, n - 1);
    }
  }

  /** A number without an exponent of whose fraction fewer than 65536 digits are kept is
      cast to its value rounded half away from zero, exactly when that fits. */
  lemma PlainIsExpected(c: Cast, negative: bool, whole: string, fraction: string)
    requires WfCast(c) && c.op.Decimal? && KeptOf(c, fraction).1 < 65536
    ensures CodeOf(c, negative, whole, fraction, None) == Expected(c, negative, whole, fraction, 0)
  {
    var m, st := Number(whole), KeptState(c, Signed(negative, Number(whole)), fraction);
    KeptFirst(c, fraction);
    KeptRounds(c, fraction);
    WrapSmall(KeptOf(c, fraction).1);
    FinalIsRounded(m, Number(fraction), Count(fraction));
    if Fits(c.store, Signed(negative, m)) {
      PlainGives(c, st, negative, m, Number(fraction), Count(fraction));
    }
  }

  lemma PlainGives(c: Cast, st: State, negative: bool, m: nat, all: nat, count: nat)
    requires WfCast(c) && st.result == Signed(negative, m) && Tidy(st)
             && Round(st.decimal, st.decimalDigits) == Round(all, count)
    ensures FinalOf(c, st, negative) == FitsOr(c, negative, if all == 0 then m else m + Round(all, count))
  {
    RoundNothing(count);
    RoundNothing(st.decimalDigits);
    FinalRounds(c, st, negative, m);
  }

  // ----- Numbers with an exponent -----

  /** A negative exponent leaves the fraction behind: every number is cast to its value. */
  lemma NegativeExponent(c: Cast, negative: bool, whole: string, fraction: string, x: int)
    requires WfCast(c) && c.op.Decimal? && x < 0
    ensures CodeOf(c, negative, whole, fraction, Some(x)) == Expected(c, negative, whole, fraction, x)
  {
    KeptFirst(c, fraction);
    MovesLeft(Number(whole), Number(fraction), Count(fraction), 0 - x);
  }

  /** The widest store values have no more than `digits` digits. */
  predicate Wide(c: Cast) {
    c.store.max < Pow10(c.store.digits)
  }

  lemma TenTo18()
    ensures Pow10(18) == TEN_18
  {
    assert Pow10(6) == 1_000_000;
    assert Pow10(12) == 1_000_000_000_000 by {
      assert Pow10(9) == 1_000_000_000;
    }
    assert Pow10(15) == 1_000_000_000_000_000;
  }

  /** The two casts that read fractions. */
  predicate FractionCast(c: Cast) {
    c == UBIGINT || c == TINYINT
  }

  lemma FractionCastIsWide(c: Cast)
    requires FractionCast(c)
    ensures WfCast(c) && c.op.Decimal? && Wide(c)
  {
    TenTo18();
    assert Pow10(20) == 10 * Pow10(19);
  }

  /** A value past the store type fits no result. */
  lemma TooLarge(c: Cast, negative: bool, part: nat, v: nat)
    requires WfCast(c) && c.op.Decimal? && part <= v && (!Fits(c.store, Signed(negative, part)) || part > c.store.max)
    ensures !Fits(c.result, Signed(negative, v))
  {
  }

  lemma CombinedGives(c: Cast, negative: bool, scaled: nat, high: nat, low: nat, q: int)
    requires WfCast(c) && c.op.Decimal? && (low != 0 ==> 0 <= q < 65536 && Drop(low, q) == 0)
    ensures Combined(c, negative, Signed(negative, scaled), high, low, q) ==
            FitsOr(c, negative, scaled + high + if low == 0 then 0 else Round(low, q))
  {
    var v := scaled + high;
    if Fits(c.store, Signed(negative, v)) {
      FinalRounds(c, State(Signed(negative, v), low, Wrap16(q)), negative, v);
    } else {
      TooLarge(c, negative, v, v + if low == 0 then 0 else Round(low, q));
    }
  }

  lemma PastIs(c: Cast, st: State, negative: bool, x: nat, scaled: int)
    requires 0 <= st.decimal && st.decimalDigits <= x <= 32767
    ensures MovedOf(c, st, negative, x, scaled) ==
            var high := Shift(st.decimal, x - st.decimalDigits);
            if high <= c.store.max then Combined(c, negative, scaled, high, 0, st.decimalDigits - x) else None
  {
    assert WrapI16(x - st.decimalDigits) == x - st.decimalDigits;
  }

  /** Moving the whole fraction before the point. */
  lemma MovedPast(c: Cast, st: State, negative: bool, x: nat, m: nat)
    requires WfCast(c) && c.op.Decimal? && 0 <= st.decimal && st.decimalDigits <= x <= 32767
    ensures MovedOf(c, st, negative, x, Signed(negative, Shift(m, x))) ==
            FitsOr(c, negative, Shift(m, x) + Rounded(st.decimal, st.decimalDigits, x))
  {
    var high := Shift(st.decimal, x - st.decimalDigits);
    assert Rounded(st.decimal, st.decimalDigits, x) == high;
    PastIs(c, st, negative, x, Signed(negative, Shift(m, x)));
    if high <= c.store.max {
      CombinedGives(c, negative, Shift(m, x), high, 0, st.decimalDigits - x);
    } else {
      TooLarge(c, negative, high, Shift(m, x) + high);
    }
  }

  /** The power that splits the fraction is exact, or the fraction is below a tenth. */
  predicate Splits(c: Cast, q: nat) {
    q > c.store.digits || PowerIn(c, q) == Pow10(q)
  }

  lemma TenthRounds(c: Cast, d: nat, q: nat)
    requires Wide(c) && d <= c.store.max && q > c.store.digits
    ensures Round(d, q) == 0
  {
    Below(c.store.digits, q - 1);
    DropsAll(d, q - 1);
    DropStaysZero(d, q - 1, q);
  }

  lemma WrapBack(q: nat)
    requires 0 < q <= 32768
    ensures WrapI16(0 - q) == 0 - q
  {
  }

  lemma MovedSplits(c: Cast, st: State, negative: bool, x: nat, scaled: int, q: nat)
    requires 0 <= st.decimal && st.decimalDigits == x + q && 0 < q <= 32768
    ensures MovedOf(c, st, negative, x, scaled) ==
            var (high, low) := SplitOf(c, st.decimal, q); Combined(c, negative, scaled, high, low, q)
  {
    WrapBack(q);
    assert x - st.decimalDigits == 0 - q;
  }

  /** Leaving part of the fraction behind the point. */
  lemma MovedInto(c: Cast, st: State, negative: bool, x: nat, m: nat, q: nat)
    requires WfCast(c) && c.op.Decimal? && Wide(c) && 0 <= st.decimal <= c.store.max
             && st.decimalDigits == x + q < 65536
    requires 0 < q <= 32768 && Splits(c, q)
    ensures MovedOf(c, st, negative, x, Signed(negative, Shift(m, x))) ==
            FitsOr(c, negative, Shift(m, x) + Rounded(st.decimal, st.decimalDigits, x))
  {
    MovedSplits(c, st, negative, x, Signed(negative, Shift(m, x)), q);
    if q > c.store.digits {
      TenthRounds(c, st.decimal, q);
      CombinedGives(c, negative, Shift(m, x), 0, 0, q);
    } else {
      SplitGives(c, st.decimal, q);
      var (high, low) := SplitOf(c, st.decimal, q);
      CombinedGives(c, negative, Shift(m, x), high, low, q);
    }
  }

  lemma SplitIs(c: Cast, d: nat, q: nat, p: nat)
    requires q <= c.store.digits && PowerIn(c, q) == p && p > 0
    ensures SplitOf(c, d, q) == (d / p, d % p)
  {
  }

  lemma SplitGives(c: Cast, d: nat, q: nat)
    requires 0 < q <= c.store.digits && PowerIn(c, q) == Pow10(q)
    ensures var (high, low) := SplitOf(c, d, q);
            0 <= high && Drop(low, q) == 0 && Round(d, q) == high + if low == 0 then 0 else Round(low, q)
  {
    var p := Pow10(q);
    SplitIs(c, d, q, p);
    Parts(d, p);
    SplitParts(d, q, d / p, d % p);
    RoundNothing(q);
  }

  /** The whole part moves as it is, and the fraction beside it. */
  lemma MovesBoth(m: nat, d: nat, n: nat, x: nat)
    ensures Rounded(Shift(m, n) + d, n, x) == Shift(m, x) + Rounded(d, n, x)
  {
    if x >= n {
      MovesPast(m, d, n, x);
    } else {
      MovesInto(m, d, n, x);
    }
  }

  lemma NothingMoves(c: Cast, negative: bool, v: nat, n: nat)
    requires WfCast(c) && n < 65536
    ensures FinalOf(c, State(Signed(negative, v), 0, n), negative) == FitsOr(c, negative, v)
  {
    FinalRounds(c, State(Signed(negative, v), 0, n), negative, v);
  }

  /** Moving a fraction of `n` digits `d`, the count and its distance from the exponent
      within 16 bits. */
  lemma MovedGives(c: Cast, st: State, negative: bool, m: nat, d: nat, n: nat, x: nat)
    requires WfCast(c) && c.op.Decimal? && Wide(c) && d <= c.store.max && n < 65536 && n - x <= 32768 && x <= 32767
    requires (x >= n || Splits(c, n - x)) && st.decimal == d && st.decimalDigits == n
    ensures MovedOf(c, st, negative, x, Signed(negative, Shift(m, x))) ==
            FitsOr(c, negative, Shift(m, x) + Rounded(d, n, x))
  {
    if x >= n {
      MovedPast(c, st, negative, x, m);
    } else {
      MovedInto(c, st, negative, x, m, n - x);
    }
  }

  /** What the code makes of the kept digits. */
  lemma ExponentMoves(c: Cast, negative: bool, m: nat, d: nat, n: nat, x: nat)
    requires WfCast(c) && c.op.Decimal? && Wide(c) && d <= c.store.max && n < 65536 && n - x <= 32768 && x <= 32767
    requires x >= n || Splits(c, n - x)
    requires Fits(c.store, Signed(negative, Shift(m, x)))
    ensures ExponentFinal(c, State(Signed(negative, m), d, n), negative, x, m) ==
            FitsOr(c, negative, Shift(m, x) + Rounded(d, n, x))
  {
    if d == 0 {
      NothingRounds(n, x);
      NothingMoves(c, negative, Shift(m, x), n);
    } else {
      MovedGives(c, State(Signed(negative, m), d, n), negative, m, d, n, x);
    }
  }

  lemma NothingRounds(n: nat, x: nat)
    ensures Rounded(0, n, x) == 0
  {
    AtLeastWhole(0, 0, n, x);
    ShiftGrows(0, 0, n);
    ShiftGrows(0, 0, x);
  }

  /** What the code makes of the whole part `m` and the `n` kept digits `d`. */
  function CodeNumber(c: Cast, negative: bool, m: nat, d: nat, n: nat, x: int): Option<int> {
    if Fits(c.store, Signed(negative, m)) then ExponentFinal(c, State(Signed(negative, m), d, Wrap16(n)), negative, x,
      m) else None
  }

  lemma CodeAt(c: Cast, negative: bool, whole: string, fraction: string, x: int, d: nat, n: nat)
    requires c.op.Decimal? && KeptOf(c, fraction) == (d, n)
    ensures CodeOf(c, negative, whole, fraction, Some(x)) == CodeNumber(c, negative, Number(whole), d, n, x)
  {
  }

  /** What is expected of a number with an exponent that is not negative: its whole part
      and its fraction, moved. */
  lemma ExpectedMoves(c: Cast, negative: bool, m: nat, d: nat, n: nat, x: nat)
    requires WfCast(c) && c.op.Decimal?
    ensures ExpectedOf(c, negative, m, d, n, x) == GivenMoved(c, negative, m, Shift(m, x),
            Shift(m, x) + Rounded(d, n, x))
  {
    MovesBoth(m, d, n, x);
    GivesBoth(c, negative, m, Shift(m, x), Rounded(d, n, x));
  }

  lemma GivesBoth(c: Cast, negative: bool, m: nat, scaled: nat, moved: nat)
    requires WfCast(c) && c.op.Decimal?
    ensures Given(c, negative, m, scaled + moved) == GivenMoved(c, negative, m, scaled, scaled + moved)
  {
    if !Fits(c.store, Signed(negative, scaled)) {
      TooLarge(c, negative, scaled, scaled + moved);
    }
  }

  /** Where nothing wraps, a number is cast to its value with the kept digits for its
      fraction. */
  lemma KeptMoves(c: Cast, negative: bool, m: nat, d: nat, n: nat, x: nat)
    requires WfCast(c) && c.op.Decimal? && Wide(c) && d <= c.store.max
    requires n - x <= 32768 && x <= 32767 && (x >= n || Splits(c, n - x))
    ensures CodeNumber(c, negative, m, d, n, x) == GivenMoved(c, negative, m, Shift(m, x),
            Shift(m, x) + Rounded(d, n, x))
  {
    if Fits(c.store, Signed(negative, Shift(m, x))) {
      ExponentMoves(c, negative, m, d, n, x);
      CodeFits(c, negative, m, d, n, x, Shift(m, x) + Rounded(d, n, x));
    } else {
      CodeOut(c, negative, m, d, n, x);
    }
  }

  lemma CodeFits(c: Cast, negative: bool, m: nat, d: nat, n: nat, x: nat, v: nat)
    requires n < 65536 && Fits(c.store, Signed(negative, Shift(m, x)))
    requires ExponentFinal(c, State(Signed(negative, m), d, n), negative, x, m) == FitsOr(c, negative, v)
    ensures CodeNumber(c, negative, m, d, n, x) == GivenMoved(c, negative, m, Shift(m, x), v)
  {
    WrapSmall(n);
  }

  lemma WrapSmall(n: nat)
    requires n < 65536
    ensures Wrap16(n) == n
  {
  }

  lemma CodeOut(c: Cast, negative: bool, m: nat, d: nat, n: nat, x: nat)
    requires !Fits(c.store, Signed(negative, Shift(m, x)))
    ensures CodeNumber(c, negative, m, d, n, x) == None
  {
  }

  /** Up to 18 digits behind the point nothing wraps and nothing is left out. */
  lemma ShortIsExpected(c: Cast, negative: bool, whole: string, fraction: string, x: int)
    requires WfCast(c) && c.op.Decimal? && Wide(c) && Fits(INT16, x) && Count(fraction) <= 18
    ensures CodeOf(c, negative, whole, fraction, Some(x)) == Expected(c, negative, whole, fraction, x)
  {
    if x < 0 {
      NegativeExponent(c, negative, whole, fraction, x);
    } else {
      var d, n := Number(fraction), Count(fraction);
      KeptFirst(c, fraction);
      ShortFits(c, d, n, x);
      KeptAll(c, fraction);
      CodeAt(c, negative, whole, fraction, x, d, n);
      ShortMoves(c, negative, Number(whole), d, n, x);
    }
  }

  lemma ShortFits(c: Cast, d: nat, n: nat, x: nat)
    requires WfCast(c) && c.op.Decimal? && n <= 18 && Drop(d, n) == 0
    ensures d <= c.store.max && (x >= n || Splits(c, n - x))
  {
    DropsAll(d, n);
    Below18(n);
    if x < n {
      PowerShort(c, n - x);
    }
  }

  lemma ShortMoves(c: Cast, negative: bool, m: nat, d: nat, n: nat, x: nat)
    requires WfCast(c) && c.op.Decimal? && Wide(c) && d <= c.store.max && n <= 18 && x <= 32767
             && (x >= n || Splits(c, n - x))
    ensures CodeNumber(c, negative, m, d, n, x) == ExpectedOf(c, negative, m, d, n, x)
  {
    KeptMoves(c, negative, m, d, n, x);
    ExpectedMoves(c, negative, m, d, n, x);
  }

  lemma {:induction false} PowerShort(c: Cast, q: nat)
    requires q <= 18
    ensures PowerIn(c, q) == Pow10(q)
  {
    if q > 0 {
      PowerShort(c, q - 1);
      Below18(q);
    }
  }
}
