/** Exactly which numbers the casts with fractions give another value than the one spelled,
    for fractions of any length and every exponent: where the count of the kept digits or
    its distance from the exponent wraps, where a power of ten does, and where a digit left
    out would have counted. */
module CastExact {
  import opened Lake
  import opened Words
  import opened DuckdbCast
  import opened CastValues
  import DecimalText

  // ----- What is kept, against what is spelled -----

  lemma {:induction false} KeptBelow(c: Cast, fraction: string)
    requires WfCast(c)
    ensures KeptOf(c, fraction).0 <= c.store.max
  {
    if fraction != "" {
      KeptBelow(c, fraction[..|fraction| - 1]);
    }
  }

  /** `d` is kept, of `n` digits, of the `count` digits of `all`: every digit; or those
      before the first that does not fit behind them; or all of these but the last, where
      a later digit is kept in place of the one that does not fit. */
  predicate Shape(c: Cast, all: nat, count: nat, d: nat, n: nat) {
    || (n == count && d == all)
    || (n < count && d == Drop(all, count - n) && d > Quotient(c.store.max - Drop(all, count - n - 1) % 10, 10))
    || (1 <= n < count && Replaced(c, Drop(all, count - n), d))
  }

  predicate Replaced(c: Cast, prefix: nat, d: nat) {
    d / 10 == prefix / 10 == c.store.max / 10 && d % 10 <= c.store.max % 10 < prefix % 10
  }

  lemma QuotientIs(a: int, b: int)
    requires b > 0 && a >= 0
    ensures Quotient(a, b) == a / b
  {
  }

  /** A digit that does not fit, and a later one that does, behind the same digits. */
  lemma LaterFits(c: Cast, d: nat, h: nat, g: nat)
    requires WfCast(c) && h <= 9 && g <= 9 && Quotient(c.store.max - h, 10) < d <= Quotient(c.store.max - g, 10)
    ensures d == c.store.max / 10 && g <= c.store.max % 10 < h
  {
    QuotientIs(c.store.max - h, 10);
    QuotientIs(c.store.max - g, 10);
  }

  lemma Full(c: Cast, d: nat, g: nat)
    requires WfCast(c) && d / 10 == c.store.max / 10 && g <= 9
    ensures d > Quotient(c.store.max - g, 10)
  {
    QuotientIs(c.store.max - g, 10);
  }

  lemma DropNext(v: nat, g: nat, k: nat)
    requires g <= 9
    ensures Drop(10 * v + g, k + 1) == Drop(v, k)
  {
    DropFirst(10 * v + g, k + 1);
    assert (10 * v + g) / 10 == v;
  }

  /** One more digit that is kept. */
  lemma ShapeKept(c: Cast, all: nat, count: nat, d: nat, n: nat, g: nat)
    requires WfCast(c) && Shape(c, all, count, d, n) && g <= 9 && d <= Quotient(c.store.max - g, 10)
    ensures Shape(c, 10 * all + g, count + 1, 10 * d + g, n + 1)
  {
    if n < count {
      var k := count - n - 1;
      DropNext(all, g, k);
      if 1 <= n && Replaced(c, Drop(all, count - n), d) {
        Full(c, d, g);
      } else {
        LaterFits(c, d, Drop(all, k) % 10, g);
        TensAside(d, g);
      }
    }
  }

  /** One more digit that is left out. */
  lemma ShapeLeft(c: Cast, all: nat, count: nat, d: nat, n: nat, g: nat)
    requires WfCast(c) && Shape(c, all, count, d, n) && g <= 9 && d > Quotient(c.store.max - g, 10)
    ensures Shape(c, 10 * all + g, count + 1, d, n)
  {
    DropNext(all, g, count - n);
    if n < count {
      DropNext(all, g, count - n - 1);
    } else {
      TensAside(all, g);
      assert Drop(10 * all + g, 0) == 10 * all + g;
    }
  }

  lemma ShapeNext(c: Cast, all: nat, count: nat, d: nat, n: nat, g: nat)
    requires WfCast(c) && Shape(c, all, count, d, n) && g <= 9
    ensures if d <= Quotient(c.store.max - g, 10) then Shape(c, 10 * all + g, count + 1, 10 * d + g, n + 1)
            else Shape(c, 10 * all + g, count + 1, d, n)
  {
    if d <= Quotient(c.store.max - g, 10) {
      ShapeKept(c, all, count, d, n, g);
    } else {
      ShapeLeft(c, all, count, d, n, g);
    }
  }

  /** One more digit. */
  lemma DigitAdded(c: Cast, front: string, ch: char, t: string)
    requires IsDigit(ch) && t == front + [ch]
    ensures Number(t) == 10 * Number(front) + DigitOf(ch) && Count(t) == Count(front) + 1
    ensures var (d, n) := KeptOf(c, front);
            KeptOf(c, t) == if d <= Quotient(c.store.max - DigitOf(ch), 10) then (10 * d + DigitOf(ch), n + 1)
              else (d, n)
  {
    assert t[..|t| - 1] == front && t[|t| - 1] == ch;
  }

  /** One more separator. */
  lemma OtherAdded(c: Cast, front: string, ch: char, t: string)
    requires !IsDigit(ch) && t == front + [ch]
    ensures Number(t) == Number(front) && Count(t) == Count(front) && KeptOf(c, t) == KeptOf(c, front)
  {
    assert t[..|t| - 1] == front && t[|t| - 1] == ch;
  }

  ghost predicate Next(c: Cast, shape: (nat, nat, nat, nat) -> bool, all: nat, count: nat, d: nat, n: nat, g: nat) {
    shape(all, count, d, n) && g <= 9 ==>
      if d <= Quotient(c.store.max - g, 10) then shape(10 * all + g, count + 1, 10 * d + g, n + 1)
        else shape(10 * all + g, count + 1, d, n)
  }

  /** What holds of nothing, and digit by digit, holds of every fraction. */
  lemma {:induction false} KeptAlways(c: Cast, fraction: string, shape: (nat, nat, nat, nat) -> bool)
    requires shape(0, 0, 0, 0) && forall all, count, d, n, g :: Next(c, shape, all, count, d, n, g)
    ensures shape(Number(fraction), Count(fraction), KeptOf(c, fraction).0, KeptOf(c, fraction).1)
  {
    if fraction != "" {
      var front, ch := fraction[..|fraction| - 1], fraction[|fraction| - 1];
      KeptAlways(c, front, shape);
      assert fraction == front + [ch];
      if IsDigit(ch) {
        DigitAdded(c, front, ch, fraction);
        assert Next(c, shape, Number(front), Count(front), KeptOf(c, front).0, KeptOf(c, front).1, DigitOf(ch));
      } else {
        OtherAdded(c, front, ch, fraction);
      }
    }
  }

  lemma KeptShape(c: Cast, fraction: string)
    requires WfCast(c)
    ensures Shape(c, Number(fraction), Count(fraction), KeptOf(c, fraction).0, KeptOf(c, fraction).1)
  {
    var shape := (all: nat, count: nat, d: nat, n: nat) => Shape(c, all, count, d, n);
    forall all, count, d, n, g
      ensures Next(c, shape, all, count, d, n, g)
    {
      if shape(all, count, d, n) && g <= 9 {
        ShapeNext(c, all, count, d, n, g);
      }
    }
    KeptAlways(c, fraction, shape);
  }

  /** The value, in the last of the `count` places, of what is spelled beyond `d`. */
  function Beyond10(all: nat, count: nat, d: nat, n: nat): int
    requires n <= count
  {
    all - Shift(d, count - n)
  }

  lemma BeyondIsNat(c: Cast, all: nat, count: nat, d: nat, n: nat)
    requires Shape(c, all, count, d, n)
    ensures n <= count && Beyond10(all, count, d, n) >= 0
  {
    var low := DropRest(all, count - n);
    ShiftMono(d, Drop(all, count - n), count - n);
  }

  /** Past the kept digits the value is theirs, and what the left-out ones add. */
  lemma LeftOutAdds(all: nat, count: nat, d: nat, n: nat, x: nat)
    requires n <= count && n <= x && Beyond10(all, count, d, n) >= 0
    ensures Rounded(all, count, x) == Shift(d, x - n) + Rounded(Beyond10(all, count, d, n), count, x)
  {
    var rest := Beyond10(all, count, d, n);
    if x >= count {
      ShiftAdd(Shift(d, count - n), rest, x - count);
      ShiftMore(d, count - n, x - count);
    } else {
      RoundBehind(d, rest, count - n, x - n, count - x);
    }
  }

  /** Short of them the digits before the first left out decide. */
  lemma PrefixRounds(all: nat, count: nat, n: nat, x: nat)
    requires x < n <= count
    ensures Rounded(all, count, x) == Round(Drop(all, count - n), n - x)
  {
    DropMore(all, count - n, n - x);
    DropMore(all, count - n, n - x - 1);
  }

  lemma ReplacedRounds(c: Cast, prefix: nat, d: nat, q: nat)
    requires Replaced(c, prefix, d) && c.store.max % 10 >= 4 && q >= 1
    ensures Round(prefix, q) == Round(d, q) <==> q >= 2 || d % 10 >= 5
  {
    if q >= 2 {
      DropFirst(prefix, q);
      DropFirst(d, q);
      DropFirst(prefix, q - 1);
      DropFirst(d, q - 1);
    } else {
      assert Drop(prefix, 1) == prefix / 10 && Drop(d, 1) == d / 10;
    }
  }

  /** The kept digits give at exponent `x` what the spelled ones do: what is left out
      behind `x` places adds nothing there, or nothing is left out before them but a last
      digit, replaced by one that rounds as it does. */
  predicate Enough(all: nat, count: nat, d: nat, n: nat, x: nat) {
    n <= count &&
    if x >= n then Beyond10(all, count, d, n) >= 0 && Rounded(Beyond10(all, count, d, n), count, x) == 0
    else n - x >= 2 || d == Drop(all, count - n) || d % 10 >= 5
  }

  lemma KeptReads(c: Cast, all: nat, count: nat, d: nat, n: nat, x: nat)
    requires Shape(c, all, count, d, n) && c.store.max % 10 >= 4
    ensures Rounded(all, count, x) == Rounded(d, n, x) <==> Enough(all, count, d, n, x)
  {
    BeyondIsNat(c, all, count, d, n);
    if x >= n {
      LeftOutAdds(all, count, d, n, x);
    } else {
      PrefixRounds(all, count, n, x);
      if d != Drop(all, count - n) {
        ReplacedRounds(c, Drop(all, count - n), d, n - x);
      }
    }
  }

  // ----- Without an exponent -----

  /** Read as `k` digits behind a point, `d` makes `finalize` round up: one digit of it is
      left, or the first two where they are ten. */
  predicate RoundsUp(d: nat, k: nat) {
    k >= 1 && 5 <= Drop(d, k - 1) <= 10
  }

  lemma FewDropped(d: nat, k: nat)
    requires d <= 10
    ensures RoundsUp(d, k) <==> k == 1 && d >= 5
  {
    if k >= 2 {
      DropFirst(d, k - 1);
      DropLess(d / 10, 1, k - 2);
    }
  }

  lemma FarDown(d: nat, b: nat, k: nat)
    requires d < Pow10(b) && b < k
    ensures !RoundsUp(d, k)
  {
    DropsAll(d, b);
    DropStaysZero(d, b, k - 1);
  }

  /** The digits dropped one by one, the count wrapping below zero, find exactly that. */
  lemma {:induction false} LeadingUp(d: nat, k: nat, b: nat)
    requires k < 65536 && b <= 20 && d < Pow10(b)
    ensures Leading(d, k).1 == 1 && Leading(d, k).0 >= 5 <==> RoundsUp(d, k)
    decreases b
  {
    if d <= 10 {
      FewDropped(d, k);
    } else {
      assert b > 0;
      var k' := Wrap16(k - 1);
      LeadingUp(d / 10, k', b - 1);
      if k == 0 {
        FarDown(d / 10, b - 1, k');
      } else if k >= 2 {
        DropFirst(d, k - 1);
      }
    }
  }

  lemma FinalIs(c: Cast, result: int, d: nat, k: nat, negative: bool)
    requires WfCast(c) && c.op.Decimal? && Wide(c) && d <= c.store.max && k < 65536
    ensures var v := if RoundsUp(d, k) then if negative then result - 1 else result + 1 else result;
            FinalOf(c, State(result, d, k), negative) == if Fits(c.result, result)
              && Fits(c.result, v) then Some(v) else None
  {
    LeadingUp(d, k, c.store.digits);
  }

  /** Without an exponent, for a fraction of any length: a number that fits is cast to its
      value rounded half away from zero if and only if fewer than 65536 digits of the
      fraction are kept, or these do not round up at the place the wrapped count gives
      them; one that does not fit is never cast. */
  lemma PlainExactly(c: Cast, negative: bool, whole: string, fraction: string)
    requires WfCast(c) && c.op.Decimal? && Wide(c)
    ensures var (d, n) := KeptOf(c, fraction);
            CodeOf(c, negative, whole, fraction, None) == Expected(c, negative, whole, fraction, 0) <==>
            Expected(c, negative, whole, fraction, 0).None? || n < 65536 || !RoundsUp(d, n % 65536)
  {
    var (d, n) := KeptOf(c, fraction);
    if n < 65536 {
      PlainIsExpected(c, negative, whole, fraction);
    } else {
      var m := Number(whole);
      KeptBelow(c, fraction);
      ExpectedFar(c, negative, whole, fraction, m, d, n);
      FinalIs(c, Signed(negative, m), d, Wrap16(n), negative);
    }
  }

  /** A fraction that far behind does not count. */
  lemma ExpectedFar(c: Cast, negative: bool, whole: string, fraction: string, m: nat, d: nat, n: nat)
    requires WfCast(c) && c.op.Decimal? && Wide(c) && m == Number(whole) && KeptOf(c, fraction) == (d, n)
             && d <= c.store.max && n > c.store.digits
    ensures Expected(c, negative, whole, fraction, 0) == if Fits(c.store, Signed(negative, m)) then
            FitsOr(c, negative, m) else None
  {
    KeptFirst(c, fraction);
    KeptRounds(c, fraction);
    TenthRounds(c, d, n);
    FinalIsRounded(m, Number(fraction), Count(fraction));
  }

  // ----- Where the power wraps -----

  /** The number of digits at which the power of ten wraps, and what it wraps to. */
  function WrapsAt(c: Cast): nat {
    if c.store.min < 0 then 19 else 20
  }

  function WrappedPower(c: Cast): nat {
    if c.store.min < 0 then 8446744073709551616 else 7766279631452241920
  }

  lemma PowerNext(c: Cast, n: nat, v: int)
    requires PowerIn(c, n) == v
    ensures PowerIn(c, n + 1) == WrapStore(c.store, v * 10)
  {
  }

  lemma WrapNumbers()
    ensures WrapStore(INT64, 10_000_000_000_000_000_000) == -8446744073709551616
    ensures WrapStore(UINT64, 10_000_000_000_000_000_000) == 10_000_000_000_000_000_000
    ensures WrapStore(UINT64, 100_000_000_000_000_000_000) == 7766279631452241920
  {
  }

  lemma PowersWrap(c: Cast)
    requires FractionCast(c)
    ensures PowerIn(c, WrapsAt(c)) == if c.store.min < 0 then 0 - WrappedPower(c) else WrappedPower(c)
    ensures c == UBIGINT ==> PowerIn(c, 19) == Pow10(19)
  {
    TenTo18();
    PowerShort(c, 18);
    PowerNext(c, 18, TEN_18);
    WrapNumbers();
    if c == UBIGINT {
      PowerNext(c, 19, 10_000_000_000_000_000_000);
    }
  }

  lemma ShiftMono(a: nat, b: nat, x: nat)
    requires a <= b
    ensures Shift(a, x) <= Shift(b, x)
  {
    ShiftAdd(a, b - a, x);
  }

  lemma DigitAt(d: nat, q: nat, k: nat)
    requires q >= 1 && k <= 9 && Shift(k, q - 1) <= d < Shift(k + 1, q - 1)
    ensures Drop(d, q - 1) == k && Drop(d, q) == 0
  {
    var top := Drop(d, q - 1);
    var low := DropRest(d, q - 1);
    ShiftNext(top, q - 1);
    if top >= k + 1 {
      ShiftMono(k + 1, top, q - 1);
    } else if top < k {
      ShiftMono(top + 1, k, q - 1);
    }
  }

  /** A fraction below the wrapped power is read as it is. */
  lemma BelowMoves(c: Cast, st: State, negative: bool, x: nat, m: nat)
    requires FractionCast(c) && 0 <= st.decimal < WrappedPower(c) && st.decimalDigits == x + WrapsAt(c) < 65536
    ensures MovedOf(c, st, negative, x, Signed(negative, Shift(m, x))) ==
            FitsOr(c, negative, Shift(m, x) + Round(st.decimal, WrapsAt(c)))
  {
    MovedSplits(c, st, negative, x, Signed(negative, Shift(m, x)), WrapsAt(c));
    BelowWrapped(c, st.decimal);
    RoundNothing(WrapsAt(c));
    CombinedGives(c, negative, Shift(m, x), 0, st.decimal, WrapsAt(c));
  }

  /** Past it the code moves a digit that is not there before the point. */
  lemma AboveMoves(c: Cast, st: State, negative: bool, x: nat, m: nat)
    requires FractionCast(c) && WrappedPower(c) <= st.decimal <= c.store.max
             && st.decimalDigits == x + WrapsAt(c) < 65536
    ensures MovedOf(c, st, negative, x, Signed(negative, Shift(m, x))) !=
            Some(Signed(negative, Shift(m, x) + Round(st.decimal, WrapsAt(c))))
  {
    var scaled := Signed(negative, Shift(m, x));
    MovedSplits(c, st, negative, x, scaled, WrapsAt(c));
    AboveWrapped(c, st.decimal);
    var (high, low) := SplitOf(c, st.decimal, WrapsAt(c));
    NotRounded(c, if negative then scaled - high else scaled + high, low, WrapsAt(c), negative);
  }

  lemma OverSmall(d: nat, p: int)
    requires d < p || d < 0 - p
    ensures Over(d, p) == 0 && Beyond(d, p) == d
  {
  }

  lemma BelowWrapped(c: Cast, d: nat)
    requires FractionCast(c) && d < WrappedPower(c)
    ensures SplitOf(c, d, WrapsAt(c)) == (0, d) && Drop(d, WrapsAt(c)) == 0
  {
    PowersWrap(c);
    OverSmall(d, PowerIn(c, WrapsAt(c)));
    assert Drop(d, WrapsAt(c)) == 0 by {
      AtMost19(d);
      DropStaysZero(d, 19, WrapsAt(c));
    }
  }

  lemma AtMost19(d: nat)
    requires d < 10_000_000_000_000_000_000
    ensures Drop(d, 19) == 0
  {
    TenTo18();
    DropsAll(d, 19);
  }

  lemma SignedSplit(d: nat)
    requires 8446744073709551616 <= d <= 9223372036854775807
    ensures Over(d, -8446744073709551616) == -1 && Beyond(d, -8446744073709551616) == d - 8446744073709551616
  {
  }

  lemma UnsignedSplit(d: nat)
    requires 7766279631452241920 <= d
    ensures Over(d, 7766279631452241920) >= 1 && Beyond(d, 7766279631452241920) < 7766279631452241920
  {
  }

  /** Past the wrapped power the first of the digits is 8 or 9 in a signed type and 0 or 1
      in an unsigned one, what is split off is not 0 or 1, and what is left does not round. */
  lemma AboveWrapped(c: Cast, d: nat)
    requires FractionCast(c) && WrappedPower(c) <= d <= c.store.max
    ensures var (high, low) := SplitOf(c, d, WrapsAt(c));
            && (if c.store.min < 0 then high == -1 else high >= 1)
            && Drop(low, WrapsAt(c) - 1) == 0
    ensures Round(d, WrapsAt(c)) == if c.store.min < 0 then 1 else 0
  {
    PowersWrap(c);
    if c == TINYINT {
      SignedSplit(d);
      assert Drop(d - 8446744073709551616, 18) == 0 by {
        TenTo18();
        DropsAll(d - 8446744073709551616, 18);
      }
      FirstOf19(d);
    } else {
      UnsignedSplit(d);
      AtMost19(Beyond(d, 7766279631452241920));
      FirstOf20(d);
    }
  }

  lemma FirstOf19(d: nat)
    requires 8446744073709551616 <= d <= 9223372036854775807
    ensures Round(d, 19) == 1
  {
    TenTo18();
    ShiftIsTimes(8, 18);
    ShiftIsTimes(9, 18);
    ShiftIsTimes(10, 18);
    if d < 9_000_000_000_000_000_000 {
      DigitAt(d, 19, 8);
    } else {
      DigitAt(d, 19, 9);
    }
  }

  lemma FirstOf20(d: nat)
    requires d <= 18446744073709551615
    ensures Round(d, 20) == 0
  {
    TenTo18();
    ShiftIsTimes(0, 19);
    ShiftIsTimes(1, 19);
    ShiftIsTimes(2, 19);
    if d < 10_000_000_000_000_000_000 {
      DigitAt(d, 20, 0);
    } else {
      DigitAt(d, 20, 1);
    }
  }

  lemma NotRounded(c: Cast, sum: int, low: nat, q: nat, negative: bool)
    requires 1 <= q < 65536 && Drop(low, q - 1) == 0
    ensures FinalOf(c, State(sum, low, q), negative) == if Fits(c.result, sum) then Some(sum) else None
  {
    if low != 0 {
      LeadingRounds(low, q, 0);
    }
  }

  // ----- Where the distance of count and exponent wraps -----

  /** Split by the power of ten in the store type, nothing of `d` is before the point. */
  predicate Vanishes(c: Cast, d: nat, e: int) {
    e < 0 && (0 - e > c.store.digits || (d < Size(PowerIn(c, 0 - e)) && !RoundsUp(d, 0 - e)))
  }

  function Size(p: int): nat {
    if p < 0 then 0 - p else p
  }

  lemma PowersOf(c: Cast, q: nat)
    requires FractionCast(c) && 1 <= q <= c.store.digits
    ensures q < WrapsAt(c) ==> PowerIn(c, q) == Pow10(q)
    ensures q == WrapsAt(c) ==> Size(PowerIn(c, q)) == WrappedPower(c)
    ensures q <= WrapsAt(c)
  {
    if q <= 18 {
      PowerShort(c, q);
    } else {
      PowersWrap(c);
    }
  }

  /** What is moved before the point shows. */
  lemma MovedShows(c: Cast, negative: bool, scaled: nat, high: int, low: nat, digits: int)
    requires high >= 1
    ensures Combined(c, negative, Signed(negative, scaled), high, low, digits) != Some(Signed(negative, scaled))
  {
  }

  lemma OneLess(c: Cast, negative: bool, scaled: nat, low: nat, q: nat)
    requires 1 <= q < 65536 && Drop(low, q - 1) == 0
    ensures Combined(c, negative, Signed(negative, scaled), -1, low, q) != Some(Signed(negative, scaled))
  {
    WrapSmall(q);
    NotRounded(c, if negative then Signed(negative, scaled) + 1 else Signed(negative, scaled) - 1, low, q, negative);
  }

  /** So does what the wrapped power splits off. */
  lemma WrappedShows(c: Cast, d: nat, negative: bool, scaled: nat)
    requires FractionCast(c) && WrappedPower(c) <= d <= c.store.max
    ensures var (high, low) := SplitOf(c, d, WrapsAt(c));
            Combined(c, negative, Signed(negative, scaled), high, low, WrapsAt(c)) != Some(Signed(negative, scaled))
  {
    AboveWrapped(c, d);
    var (high, low) := SplitOf(c, d, WrapsAt(c));
    if c == TINYINT {
      OneLess(c, negative, scaled, low, WrapsAt(c));
    } else {
      MovedShows(c, negative, scaled, high, low, WrapsAt(c));
    }
  }

  lemma SplitShows(c: Cast, d: nat, q: nat, negative: bool, scaled: nat)
    requires FractionCast(c) && d <= c.store.max && 1 <= q <= c.store.digits && d >= Size(PowerIn(c, q))
    ensures var (high, low) := SplitOf(c, d, q);
            Combined(c, negative, Signed(negative, scaled), high, low, q) != Some(Signed(negative, scaled))
  {
    PowersOf(c, q);
    if q == WrapsAt(c) {
      WrappedShows(c, d, negative, scaled);
    } else {
      var (high, low) := SplitOf(c, d, q);
      AtLeastOne(d, Pow10(q));
      MovedShows(c, negative, scaled, high, low, q);
    }
  }

  lemma AtLeastOne(d: nat, p: nat)
    requires 0 < p <= d
    ensures Over(d, p) >= 1
  {
    Times(1, d, 1);
    Parts(d, p);
  }

  /** A fraction wholly behind the point shows where it rounds up. */
  lemma BehindShows(c: Cast, d: nat, q: nat, negative: bool, scaled: nat)
    requires WfCast(c) && c.op.Decimal? && Wide(c) && d <= c.store.max && q < 65536
    ensures var r := Combined(c, negative, Signed(negative, scaled), 0, d, q);
            && (RoundsUp(d, q) ==> r != Some(Signed(negative, scaled)))
            && (!RoundsUp(d, q) && Fits(c.store, Signed(negative, scaled)) ==> r == FitsOr(c, negative, scaled))
  {
    FinalIs(c, Signed(negative, scaled), d, q, negative);
  }

  lemma SplitStays(c: Cast, d: nat, q: nat)
    requires 1 <= q <= c.store.digits && d < Size(PowerIn(c, q))
    ensures SplitOf(c, d, q) == (0, d)
  {
    OverSmall(d, PowerIn(c, q));
  }

  lemma ForwardShows(c: Cast, st: State, negative: bool, x: nat, scaled: nat, e: nat)
    requires 0 < st.decimal && e == WrapI16(x - st.decimalDigits)
    ensures MovedOf(c, st, negative, x, Signed(negative, scaled)) != Some(Signed(negative, scaled))
  {
    ShiftGrows(st.decimal, 0, e);
    MovedShows(c, negative, scaled, Shift(st.decimal, e), 0, st.decimalDigits - x);
  }

  lemma BackSplits(c: Cast, st: State, negative: bool, x: nat, scaled: int, q: nat)
    requires 0 <= st.decimal && q > 0 && 0 - q == WrapI16(x - st.decimalDigits)
    ensures MovedOf(c, st, negative, x, scaled) ==
            var (high, low) := SplitOf(c, st.decimal, q); Combined(c, negative, scaled, high, low, q)
  {
    SameWrapped(st.decimalDigits - x, q);
  }

  lemma BackMoves(c: Cast, d: nat, q: nat, negative: bool, scaled: nat)
    requires FractionCast(c) && 0 < d <= c.store.max && 1 <= q <= 32768 && Fits(c.store, Signed(negative, scaled))
    ensures var (high, low) := SplitOf(c, d, q);
            var r := Combined(c, negative, Signed(negative, scaled), high, low, q);
            && (Vanishes(c, d, 0 - q) ==> r == FitsOr(c, negative, scaled))
            && (!Vanishes(c, d, 0 - q) ==> r != Some(Signed(negative, scaled)))
  {
    FractionCastIsWide(c);
    if q > c.store.digits {
      CombinedGives(c, negative, scaled, 0, 0, q);
    } else if d < Size(PowerIn(c, q)) {
      SplitStays(c, d, q);
      BehindShows(c, d, q, negative, scaled);
    } else {
      SplitShows(c, d, q, negative, scaled);
    }
  }

  /** A fraction that far behind, of which the 16-bit difference is `e`: nothing moves
      before the point exactly when it vanishes. */
  lemma FarMoves(c: Cast, st: State, negative: bool, x: nat, scaled: nat, e: int)
    requires FractionCast(c) && 0 < st.decimal <= c.store.max && e == WrapI16(x - st.decimalDigits)
    requires Fits(c.store, Signed(negative, scaled))
    ensures var r := MovedOf(c, st, negative, x, Signed(negative, scaled));
            && (Vanishes(c, st.decimal, e) ==> r == FitsOr(c, negative, scaled))
            && (!Vanishes(c, st.decimal, e) ==> r != Some(Signed(negative, scaled)))
  {
    if e >= 0 {
      ForwardShows(c, st, negative, x, scaled, e);
    } else {
      BackSplits(c, st, negative, x, Signed(negative, scaled), 0 - e);
      BackMoves(c, st.decimal, 0 - e, negative, scaled);
    }
  }

  lemma SameWrapped(n: int, q: nat)
    requires WrapI16(0 - n) == 0 - q
    ensures Wrap16(n) == Wrap16(q)
  {
  }

  lemma SameDifference(x: nat, n: nat)
    ensures WrapI16(x - Wrap16(n)) == WrapI16(x - n)
  {
  }

  // ----- With an exponent -----

  /** The fraction is read right at exponent `x`: it is zero; or, its end so far behind `x`
      that their distance wraps, nothing of it moves before the point; or the digits left
      out add nothing there, or none is left out before them and the power that splits
      the kept ones is not the one that wraps, or above them all the same. */
  predicate RightAt(c: Cast, all: nat, count: nat, d: nat, n: nat, x: nat) {
    || d == 0
    || (if n - x > 32768 then Vanishes(c, d, WrapI16(x - n))
        else Enough(all, count, d, n, x) && (n - x != WrapsAt(c) || d < WrappedPower(c)))
  }

  predicate ReadsRight(c: Cast, fraction: string, x: nat) {
    RightAt(c, Number(fraction), Count(fraction), KeptOf(c, fraction).0, KeptOf(c, fraction).1, x)
  }

  /** Nothing kept is nothing spelled. */
  lemma {:induction false} NothingKept(c: Cast, fraction: string)
    requires WfCast(c) && KeptOf(c, fraction).0 == 0
    ensures Number(fraction) == 0 && KeptOf(c, fraction).1 == Count(fraction)
  {
    if fraction != "" {
      var front := fraction[..|fraction| - 1];
      assert KeptOf(c, front).0 == 0;
      NothingKept(c, front);
    }
  }

  /** Only the scaled whole part, where the fraction is nothing at `x`. */
  lemma WholeMoves(c: Cast, negative: bool, m: nat, d: nat, n: nat, x: nat)
    requires WfCast(c) && c.op.Decimal? && Rounded(d, n, x) == 0
    ensures ExpectedOf(c, negative, m, d, n, x) == GivenMoved(c, negative, m, Shift(m, x), Shift(m, x))
  {
    ExpectedMoves(c, negative, m, d, n, x);
  }

  /** `r` is the value expected where `right` holds; elsewhere it is not, if that fits. */
  predicate Settles(right: bool, r: Option<int>, expected: Option<int>) {
    (right ==> r == expected) && (!right && expected.Some? ==> r != expected)
  }

  lemma ZeroExactly(c: Cast, negative: bool, m: nat, n: nat, x: nat)
    requires FractionCast(c)
    ensures CodeNumber(c, negative, m, 0, n, x) == ExpectedOf(c, negative, m, 0, n, x)
  {
    FractionCastIsWide(c);
    NothingRounds(n, x);
    WholeMoves(c, negative, m, 0, n, x);
    if Fits(c.store, Signed(negative, Shift(m, x))) {
      NothingMoves(c, negative, Shift(m, x), Wrap16(n));
    }
  }

  /** The count, or its distance from the exponent, wraps. */
  lemma FarExactly(c: Cast, negative: bool, m: nat, all: nat, count: nat, d: nat, n: nat, x: nat)
    requires FractionCast(c) && x <= 32767 && 0 < d <= c.store.max && n - x > 32768 && Rounded(all, count, x) == 0
    ensures Settles(Vanishes(c, d, WrapI16(x - n)), CodeNumber(c, negative, m, d, n, x),
            ExpectedOf(c, negative, m, all, count, x))
  {
    FractionCastIsWide(c);
    WholeMoves(c, negative, m, all, count, x);
    SameDifference(x, n);
    if Fits(c.store, Signed(negative, Shift(m, x))) {
      FarMoves(c, State(Signed(negative, m), d, Wrap16(n)), negative, x, Shift(m, x), WrapI16(x - n));
    }
  }

  lemma FarRounds(c: Cast, all: nat, count: nat, d: nat, n: nat, x: nat)
    requires FractionCast(c) && Shape(c, all, count, d, n) && d <= c.store.max && n - x > 32768
    ensures Rounded(all, count, x) == 0
  {
    FractionCastIsWide(c);
    KeptReads(c, all, count, d, n, x);
    TenthRounds(c, d, n - x);
  }

  /** Nothing wraps. */
  lemma NearExactly(c: Cast, negative: bool, m: nat, all: nat, count: nat, d: nat, n: nat, x: nat)
    requires FractionCast(c) && x <= 32767 && d <= c.store.max && n - x <= 32768 && n - x != WrapsAt(c)
             && Shape(c, all, count, d, n)
    ensures Settles(Enough(all, count, d, n, x), CodeNumber(c, negative, m, d, n, x),
            ExpectedOf(c, negative, m, all, count, x))
  {
    FractionCastIsWide(c);
    KeptReads(c, all, count, d, n, x);
    SplitsNear(c, n, x);
    KeptMoves(c, negative, m, d, n, x);
    ExpectedMoves(c, negative, m, all, count, x);
    MovedSettles(c, negative, m, Shift(m, x), Rounded(d, n, x), Rounded(all, count, x));
  }

  /** The value is the one expected where the moved fractions agree, and not elsewhere. */
  lemma MovedSettles(c: Cast, negative: bool, m: nat, scaled: nat, moved: nat, expected: nat)
    ensures Settles(moved == expected, GivenMoved(c, negative, m, scaled, scaled + moved),
                    GivenMoved(c, negative, m, scaled, scaled + expected))
  {
  }

  lemma SplitsNear(c: Cast, n: nat, x: nat)
    requires FractionCast(c) && n - x != WrapsAt(c)
    ensures x >= n || Splits(c, n - x)
  {
    if x < n <= x + c.store.digits {
      PowersOf(c, n - x);
    }
  }

  /** The power wraps. */
  lemma WrappedMoves(c: Cast, negative: bool, m: nat, d: nat, n: nat, x: nat)
    requires FractionCast(c) && 0 < d <= c.store.max && n == x + WrapsAt(c) < 65536
             && Fits(c.store, Signed(negative, Shift(m, x)))
    ensures var r := ExponentFinal(c, State(Signed(negative, m), d, n), negative, x, m);
            && (d < WrappedPower(c) ==> r == FitsOr(c, negative, Shift(m, x) + Rounded(d, n, x)))
            && (d >= WrappedPower(c) ==> r != Some(Signed(negative, Shift(m, x) + Rounded(d, n, x))))
  {
    if d < WrappedPower(c) {
      BelowMoves(c, State(Signed(negative, m), d, n), negative, x, m);
    } else {
      AboveMoves(c, State(Signed(negative, m), d, n), negative, x, m);
    }
  }

  lemma PowerExactly(c: Cast, negative: bool, m: nat, all: nat, count: nat, d: nat, n: nat, x: nat)
    requires FractionCast(c) && x <= 32767 && 0 < d <= c.store.max && n == x + WrapsAt(c)
             && Rounded(all, count, x) == Rounded(d, n, x)
    ensures Settles(d < WrappedPower(c), CodeNumber(c, negative, m, d, n, x), ExpectedOf(c, negative, m, all, count, x))
  {
    FractionCastIsWide(c);
    ExpectedMoves(c, negative, m, all, count, x);
    assert Wrap16(n) == n;
    if Fits(c.store, Signed(negative, Shift(m, x))) {
      WrappedMoves(c, negative, m, d, n, x);
    }
  }

  /** With an exponent that is not negative, for the casts to `UBIGINT` and `TINYINT` and a
      fraction of any length: a number that fits is cast to its value rounded half away from
      zero if and only if its fraction is read right; where it is, one that does not fit is
      refused. */
  lemma ExponentExactly(c: Cast, negative: bool, whole: string, fraction: string, x: int)
    requires FractionCast(c) && 0 <= x <= 32767
    ensures ReadsRight(c, fraction, x) ==>
              CodeOf(c, negative, whole, fraction, Some(x)) == Expected(c, negative, whole, fraction, x)
    ensures Expected(c, negative, whole, fraction, x).Some? ==>
              (CodeOf(c, negative, whole, fraction, Some(x)) == Expected(c, negative, whole, fraction, x) <==>
                ReadsRight(c, fraction, x))
  {
    FractionCastIsWide(c);
    var (d, n) := KeptOf(c, fraction);
    CodeAt(c, negative, whole, fraction, x, d, n);
    KeptBelow(c, fraction);
    KeptShape(c, fraction);
    if d == 0 {
      NothingKept(c, fraction);
    }
    NumbersExactly(c, negative, Number(whole), Number(fraction), Count(fraction), d, n, x);
  }

  lemma NumbersExactly(c: Cast, negative: bool, m: nat, all: nat, count: nat, d: nat, n: nat, x: nat)
    requires FractionCast(c) && x <= 32767 && d <= c.store.max && Shape(c, all, count, d, n)
             && (d == 0 ==> all == 0 && count == n)
    ensures Settles(RightAt(c, all, count, d, n, x), CodeNumber(c, negative, m, d, n, x),
            ExpectedOf(c, negative, m, all, count, x))
  {
    if d == 0 {
      ZeroExactly(c, negative, m, n, x);
    } else if n - x > 32768 {
      FarRounds(c, all, count, d, n, x);
      FarExactly(c, negative, m, all, count, d, n, x);
    } else if n - x == WrapsAt(c) {
      KeptReads(c, all, count, d, n, x);
      PowerExactly(c, negative, m, all, count, d, n, x);
    } else {
      NearExactly(c, negative, m, all, count, d, n, x);
    }
  }

  /** Where the power wraps and every digit is kept: a number that fits is cast to its value
      if and only if its fraction, as one number, is below the wrapped power. */
  lemma WrappedExactly(c: Cast, negative: bool, whole: string, fraction: string, x: int)
    requires FractionCast(c) && 0 <= x <= 32767 && Number(fraction) <= c.store.max && Count(fraction) == x + WrapsAt(c)
    requires Expected(c, negative, whole, fraction, x).Some?
    ensures CodeOf(c, negative, whole, fraction, Some(x)) == Expected(c, negative, whole, fraction, x) <==>
            Number(fraction) < WrappedPower(c)
  {
    FractionCastIsWide(c);
    KeptAll(c, fraction);
    ExponentExactly(c, negative, whole, fraction, x);
  }

  // ----- Numbers that do not fit -----

  /** The signed power that wraps is negative: a fraction it splits takes one from the whole
      part. */
  predicate TakesOne(c: Cast, d: nat, n: nat, x: nat) {
    c == TINYINT && d >= WrappedPower(c) && WrapI16(x - n) == 0 - WrapsAt(c)
  }

  /** A number past the result type gets into it: its whole part is still in the store type
      where the exponent moves it, and what is made of it with the kept digits fits. */
  predicate SlipsIn(c: Cast, negative: bool, m: nat, d: nat, n: nat, x: nat) {
    var scaled := Shift(m, x);
    && Fits(c.store, Signed(negative, m)) && Fits(c.store, Signed(negative, scaled))
    && if TakesOne(c, d, n, x) then scaled >= 1 && Fits(c.result, Signed(negative, scaled - 1))
       else n - x <= 32768 && Fits(c.result, Signed(negative, scaled + Rounded(d, n, x)))
  }

  /** What only adds to a whole part past the type stays past it. */
  lemma StaysOut(c: Cast, negative: bool, scaled: nat, high: int, low: nat, digits: int)
    requires WfCast(c) && high >= 0 && !Fits(c.result, Signed(negative, scaled))
    ensures Combined(c, negative, Signed(negative, scaled), high, low, digits) == None
  {
  }

  lemma OverIsNat(d: nat, p: int)
    requires p > 0
    ensures Over(d, p) >= 0
  {
    Parts(d, p);
  }

  /** Only the wrapped power of a signed type splits off less than nothing. */
  lemma SplitIsNat(c: Cast, d: nat, q: nat)
    requires FractionCast(c) && d <= c.store.max && q >= 1 && !(c == TINYINT && d >= WrappedPower(c) && q == WrapsAt(c))
    ensures SplitOf(c, d, q).0 >= 0
  {
    if q <= c.store.digits {
      PowersOf(c, q);
      if q == WrapsAt(c) && d < WrappedPower(c) {
        BelowWrapped(c, d);
      } else if q == WrapsAt(c) {
        PowersWrap(c);
        OverIsNat(d, PowerIn(c, q));
      } else {
        OverIsNat(d, Pow10(q));
      }
    }
  }

  lemma OneTaken(c: Cast, negative: bool, scaled: nat, low: nat, q: nat)
    requires WfCast(c) && c.op.Decimal? && 1 <= q < 65536 && Drop(low, q - 1) == 0
    requires scaled >= 1 && Fits(c.store, Signed(negative, scaled))
    ensures Combined(c, negative, Signed(negative, scaled), -1, low, q) == FitsOr(c, negative, scaled - 1)
  {
    WrapSmall(q);
    NotRounded(c, Signed(negative, scaled - 1), low, q, negative);
  }

  lemma TakenMoves(c: Cast, st: State, negative: bool, x: nat, scaled: nat)
    requires FractionCast(c) && 0 < st.decimal <= c.store.max && TakesOne(c, st.decimal, st.decimalDigits, x)
    requires scaled >= 1 && Fits(c.store, Signed(negative, scaled))
    ensures MovedOf(c, st, negative, x, Signed(negative, scaled)) == FitsOr(c, negative, scaled - 1)
  {
    FractionCastIsWide(c);
    BackSplits(c, st, negative, x, Signed(negative, scaled), WrapsAt(c));
    AboveWrapped(c, st.decimal);
    OneTaken(c, negative, scaled, SplitOf(c, st.decimal, WrapsAt(c)).1, WrapsAt(c));
  }

  /** Past the type without its fraction, a number is refused unless one is taken from it. */
  lemma OutMoves(c: Cast, st: State, negative: bool, x: nat, scaled: nat)
    requires FractionCast(c) && 0 < st.decimal <= c.store.max && !TakesOne(c, st.decimal, st.decimalDigits, x)
    requires !Fits(c.result, Signed(negative, scaled))
    ensures MovedOf(c, st, negative, x, Signed(negative, scaled)) == None
  {
    FractionCastIsWide(c);
    var e := WrapI16(x - st.decimalDigits);
    if e < 0 {
      BackSplits(c, st, negative, x, Signed(negative, scaled), 0 - e);
      SplitIsNat(c, st.decimal, 0 - e);
      var (high, low) := SplitOf(c, st.decimal, 0 - e);
      StaysOut(c, negative, scaled, high, low, 0 - e);
    } else {
      StaysOut(c, negative, scaled, Shift(st.decimal, e), 0, st.decimalDigits - x);
    }
  }

  lemma SameTaken(c: Cast, d: nat, n: nat, x: nat)
    ensures TakesOne(c, d, Wrap16(n), x) == TakesOne(c, d, n, x)
  {
    SameDifference(x, n);
  }

  /** The exponent moves the whole part where the store type holds it. */
  lemma CodeMoves(c: Cast, negative: bool, m: nat, d: nat, n: nat, x: nat)
    requires d > 0 && Fits(c.store, Signed(negative, m)) && Fits(c.store, Signed(negative, Shift(m, x)))
    ensures CodeNumber(c, negative, m, d, n, x) ==
            MovedOf(c, State(Signed(negative, m), d, Wrap16(n)), negative, x, Signed(negative, Shift(m, x)))
  {
  }

  lemma UnfitTaken(c: Cast, negative: bool, m: nat, d: nat, n: nat, x: nat)
    requires FractionCast(c) && d <= c.store.max && TakesOne(c, d, n, x) && Shift(m, x) >= 1
    requires Fits(c.store, Signed(negative, m)) && Fits(c.store, Signed(negative, Shift(m, x)))
    ensures CodeNumber(c, negative, m, d, n, x) == None <==> !SlipsIn(c, negative, m, d, n, x)
  {
    SameTaken(c, d, n, x);
    CodeMoves(c, negative, m, d, n, x);
    TakenMoves(c, State(Signed(negative, m), d, Wrap16(n)), negative, x, Shift(m, x));
  }

  lemma UnfitFar(c: Cast, negative: bool, m: nat, d: nat, n: nat, x: nat)
    requires FractionCast(c) && 0 < d <= c.store.max && !TakesOne(c, d, n, x)
    requires Fits(c.store, Signed(negative, m)) && Fits(c.store, Signed(negative, Shift(m, x)))
    requires !Fits(c.result, Signed(negative, Shift(m, x)))
    ensures CodeNumber(c, negative, m, d, n, x) == None
  {
    SameTaken(c, d, n, x);
    CodeMoves(c, negative, m, d, n, x);
    OutMoves(c, State(Signed(negative, m), d, Wrap16(n)), negative, x, Shift(m, x));
  }

  lemma UnfitNear(c: Cast, negative: bool, m: nat, d: nat, n: nat, x: nat)
    requires FractionCast(c) && x <= 32767 && d <= c.store.max && n - x <= 32768 && n - x != WrapsAt(c)
    ensures CodeNumber(c, negative, m, d, n, x) == None <==> !SlipsIn(c, negative, m, d, n, x)
  {
    FractionCastIsWide(c);
    SplitsNear(c, n, x);
    KeptMoves(c, negative, m, d, n, x);
    NotTaken(c, d, n, x);
  }

  lemma NotTaken(c: Cast, d: nat, n: nat, x: nat)
    requires x <= 32767 && n - x <= 32768 && n - x != WrapsAt(c)
    ensures !TakesOne(c, d, n, x)
  {
  }

  /** A whole part out of the store type, alone or moved, is refused. */
  lemma UnfitWhole(c: Cast, negative: bool, m: nat, d: nat, n: nat, x: nat)
    requires !Fits(c.store, Signed(negative, m)) || !Fits(c.store, Signed(negative, Shift(m, x)))
    ensures CodeNumber(c, negative, m, d, n, x) == None && !SlipsIn(c, negative, m, d, n, x)
  {
  }

  lemma UnfitNumber(c: Cast, negative: bool, m: nat, all: nat, count: nat, d: nat, n: nat, x: nat)
    requires FractionCast(c) && x <= 32767 && d <= c.store.max && Shape(c, all, count, d, n)
    requires (d == 0 ==> all == 0 && count == n) && ExpectedOf(c, negative, m, all, count, x) == None
    ensures CodeNumber(c, negative, m, d, n, x) == None <==> !SlipsIn(c, negative, m, d, n, x)
  {
    FractionCastIsWide(c);
    var scaled := Shift(m, x);
    ExpectedMoves(c, negative, m, all, count, x);
    if !Fits(c.store, Signed(negative, m)) || !Fits(c.store, Signed(negative, scaled)) {
      UnfitWhole(c, negative, m, d, n, x);
    } else if n - x <= 32768 && n - x != WrapsAt(c) {
      UnfitNear(c, negative, m, d, n, x);
    } else if d == 0 {
      ZeroExactly(c, negative, m, n, x);
      NothingRounds(n, x);
    } else {
      BeyondRounds(c, all, count, d, n, x);
      UnfitSplit(c, negative, m, d, n, x);
    }
  }

  /** The point is far before the last kept digit. */
  lemma BeyondRounds(c: Cast, all: nat, count: nat, d: nat, n: nat, x: nat)
    requires FractionCast(c) && Shape(c, all, count, d, n) && d <= c.store.max && n - x >= 2
    ensures Rounded(all, count, x) == Rounded(d, n, x) && (n - x > 20 ==> Rounded(d, n, x) == 0)
  {
    FractionCastIsWide(c);
    KeptReads(c, all, count, d, n, x);
    if n - x > 20 {
      TenthRounds(c, d, n - x);
    }
  }

  lemma UnfitSplit(c: Cast, negative: bool, m: nat, d: nat, n: nat, x: nat)
    requires FractionCast(c) && x <= 32767 && 0 < d <= c.store.max && (n - x > 32768 || n - x == WrapsAt(c))
    requires Fits(c.store, Signed(negative, m)) && Fits(c.store, Signed(negative, Shift(m, x)))
    requires !Fits(c.result, Signed(negative, Shift(m, x) + Rounded(d, n, x))) && (n - x > 20 ==> Rounded(d, n, x) == 0)
    ensures CodeNumber(c, negative, m, d, n, x) == None <==> !SlipsIn(c, negative, m, d, n, x)
  {
    FractionCastIsWide(c);
    if TakesOne(c, d, n, x) {
      RoundsLittle(c, d, n, x);
      UnfitTaken(c, negative, m, d, n, x);
    } else if n - x > 32768 {
      UnfitFar(c, negative, m, d, n, x);
    } else {
      UnfitWrapped(c, negative, m, d, n, x);
    }
  }

  lemma RoundsLittle(c: Cast, d: nat, n: nat, x: nat)
    requires FractionCast(c) && TakesOne(c, d, n, x) && d <= c.store.max
    requires n - x == WrapsAt(c) || Rounded(d, n, x) == 0
    ensures Rounded(d, n, x) <= 1
  {
    if n - x == WrapsAt(c) {
      AboveWrapped(c, d);
    }
  }

  /** Below the wrapped power the value is the one expected; past it an unsigned type holds
      the number. */
  lemma UnfitWrapped(c: Cast, negative: bool, m: nat, d: nat, n: nat, x: nat)
    requires FractionCast(c) && x <= 32767 && 0 < d <= c.store.max && n - x == WrapsAt(c) && !TakesOne(c, d, n, x)
    requires Fits(c.store, Signed(negative, m)) && Fits(c.store, Signed(negative, Shift(m, x)))
    requires !Fits(c.result, Signed(negative, Shift(m, x) + Rounded(d, n, x)))
    ensures CodeNumber(c, negative, m, d, n, x) == None && !SlipsIn(c, negative, m, d, n, x)
  {
    WrapSmall(n);
    if d < WrappedPower(c) {
      WrappedMoves(c, negative, m, d, n, x);
    } else {
      WrapBack(WrapsAt(c));
      assert x - n == 0 - WrapsAt(c);
      AboveWrapped(c, d);
    }
  }

  /** A number that does not fit, with an exponent that is not negative and a fraction of any
      length, is refused if and only if it does not slip in. */
  lemma UnfitExactly(c: Cast, negative: bool, whole: string, fraction: string, x: int)
    requires FractionCast(c) && 0 <= x <= 32767 && Expected(c, negative, whole, fraction, x) == None
    ensures CodeOf(c, negative, whole, fraction, Some(x)) == None <==>
            !SlipsIn(c, negative, Number(whole), KeptOf(c, fraction).0, KeptOf(c, fraction).1, x)
  {
    FractionCastIsWide(c);
    var (d, n) := KeptOf(c, fraction);
    CodeAt(c, negative, whole, fraction, x, d, n);
    KeptBelow(c, fraction);
    KeptShape(c, fraction);
    if d == 0 {
      NothingKept(c, fraction);
    }
    UnfitNumber(c, negative, Number(whole), Number(fraction), Count(fraction), d, n, x);
  }

  // ----- Inputs -----

  lemma ZeroAdded(c: Cast, front: string, n: nat, t: string)
    requires WfCast(c) && KeptOf(c, front) == (0, n) && Number(front) == 0 && Count(front) == n && t == front + "0"
    ensures KeptOf(c, t) == (0, n + 1) && Number(t) == 0 && Count(t) == n + 1
  {
    DigitAdded(c, front, '0', t);
  }

  lemma {:induction false} ZerosKept(c: Cast, n: nat)
    requires WfCast(c)
    ensures KeptOf(c, Zeros(n)) == (0, n) && Number(Zeros(n)) == 0 && Count(Zeros(n)) == n
  {
    if n > 0 {
      ZerosKept(c, n - 1);
      assert Zeros(n) == Zeros(n - 1) + "0";
      ZeroAdded(c, Zeros(n - 1), n - 1, Zeros(n));
    }
  }

  lemma FiveAtEnd(c: Cast, n: nat)
    requires WfCast(c)
    ensures var t := Zeros(n) + "5"; KeptOf(c, t) == (5, n + 1) && Number(t) == 5 && Count(t) == n + 1
  {
    ZerosKept(c, n);
    DigitAdded(c, Zeros(n), '5', Zeros(n) + "5");
  }

  lemma {:induction false} FiveDropped(n: nat)
    requires n > 0
    ensures Drop(5, n) == 0
  {
    if n > 1 {
      FiveDropped(n - 1);
    }
  }

  lemma FiveRoundsUp(c: Cast)
    requires WfCast(c)
    ensures FinalOf(c, State(0, 5, 1), false) == Some(1)
  {
    assert Leading(5, 1) == (5, 1);
  }

  lemma WrapsToOne(n: nat)
    requires n % 65536 == 0
    ensures Wrap16(n + 1) == 1
  {
  }

  lemma FiveFarBehind(n: nat)
    requires n > 0
    ensures Rounded(Shift(0, n + 1) + 5, n + 1, 0) == 0
  {
    FiveDropped(n);
    FiveDropped(n + 1);
    ShiftGrows(0, 0, n + 1);
  }

  /** With a multiple of 65536 zeros behind the point the count starts again: a five after
      them rounds the number up. */
  lemma CountWraps(c: Cast, n: nat)
    requires WfCast(c) && c.op.Decimal? && n > 0 && n % 65536 == 0
    ensures CodeOf(c, false, "", Zeros(n) + "5", None) == Some(1)
    ensures Expected(c, false, "", Zeros(n) + "5", 0) == Some(0)
  {
    FiveAtEnd(c, n);
    WrapsToOne(n);
    FiveRoundsUp(c);
    FiveFarBehind(n);
    assert Number("") == 0;
  }

  lemma {:induction false} TwoZeros(c: Cast, n: nat)
    ensures var t := "2" + Zeros(n); Number(t) == Shift(2, n) && Count(t) == n + 1
  {
    var t := "2" + Zeros(n);
    if n > 0 {
      TwoZeros(c, n - 1);
      assert t == "2" + Zeros(n - 1) + ['0'];
      DigitAdded(c, "2" + Zeros(n - 1), '0', t);
    } else {
      assert t == "" + ['2'];
      DigitAdded(c, "", '2', t);
    }
  }

  const FULL := "2" + Zeros(18)

  lemma FullIs()
    ensures Number(FULL) == 2_000_000_000_000_000_000 && Count(FULL) == 19
    ensures Number(FULL + "9") == 20_000_000_000_000_000_009 && Count(FULL + "9") == 20
  {
    TenTo18();
    TwoZeros(UBIGINT, 18);
    ShiftIsTimes(2, 18);
    DigitAdded(UBIGINT, FULL, '9', FULL + "9");
  }

  lemma NineLeftOut()
    ensures KeptOf(UBIGINT, FULL + "9") == (2_000_000_000_000_000_000, 19)
  {
    FullIs();
    KeptAll(UBIGINT, FULL);
    DigitAdded(UBIGINT, FULL, '9', FULL + "9");
  }

  lemma FullMoves()
    ensures ExponentFinal(UBIGINT, State(0, 2_000_000_000_000_000_000, 19), false, 19, 0) ==
            Some(2_000_000_000_000_000_000)
  {
    MovedPast(UBIGINT, State(0, 2_000_000_000_000_000_000, 19), false, 19, 0);
    ShiftGrows(0, 0, 19);
  }

  lemma NineRounds()
    ensures Rounded(Shift(0, 20) + 20_000_000_000_000_000_009, 20, 19) == 2_000_000_000_000_000_001
  {
    ShiftGrows(0, 0, 20);
    assert Drop(20_000_000_000_000_000_009, 1) == 2_000_000_000_000_000_000;
  }

  lemma NoWhole(c: Cast, d: nat, n: nat, x: nat)
    requires WfCast(c) && n < 65536
    ensures CodeNumber(c, false, Number(""), d, n, x) == ExponentFinal(c, State(0, d, n), false, x, 0)
  {
  }

  lemma CodeMisses(t: string)
    requires KeptOf(UBIGINT, t) == (2_000_000_000_000_000_000, 19)
    ensures CodeOf(UBIGINT, false, "", t, Some(19)) == Some(2_000_000_000_000_000_000)
  {
    CodeAt(UBIGINT, false, "", t, 19, 2_000_000_000_000_000_000, 19);
    NoWhole(UBIGINT, 2_000_000_000_000_000_000, 19, 19);
    FullMoves();
  }

  lemma ExpectedRounds(t: string)
    requires Number(t) == 20_000_000_000_000_000_009 && Count(t) == 20
    ensures Expected(UBIGINT, false, "", t, 19) == Some(2_000_000_000_000_000_001)
  {
    assert Number("") == 0;
    NineRounds();
  }

  /** Nineteen digits fill the type: the next is left out, and with it the rounding. The
      number 0.20000000000000000009e19 is cast to 2 · 10^18. */
  lemma LeftOutDigitMisses()
    ensures CodeOf(UBIGINT, false, "", FULL + "9", Some(19)) == Some(2_000_000_000_000_000_000)
    ensures Expected(UBIGINT, false, "", FULL + "9", 19) == Some(2_000_000_000_000_000_001)
  {
    NineLeftOut();
    CodeMisses(FULL + "9");
    FullIs();
    ExpectedRounds(FULL + "9");
  }

  /** A number's own text spells it. */
  lemma {:induction false} DecimalReads(v: nat)
    ensures var t := DecimalText.Decimal(v);
            Number(t) == v && (v > 0 ==> Pow10(Count(t) - 1) <= v) && v < Pow10(Count(t))
  {
    var t, ch := DecimalText.Decimal(v), DecimalText.DigitChar(v % 10);
    if v < 10 {
      assert t == "" + [ch];
      DigitAdded(UBIGINT, "", ch, t);
    } else {
      DecimalReads(v / 10);
      DigitAdded(UBIGINT, DecimalText.Decimal(v / 10), ch, t);
    }
  }

  const TOP := DecimalText.Decimal(1_844_674_407_370_955_161)

  lemma TopIs()
    ensures KeptOf(UBIGINT, TOP + "6") == (1_844_674_407_370_955_161, 19)
    ensures Number(TOP + "6") == 18_446_744_073_709_551_616 && Count(TOP + "6") == 20
  {
    DecimalReads(1_844_674_407_370_955_161);
    TenTo18();
    if Count(TOP) < 19 {
      Below(Count(TOP), 18);
    } else if Count(TOP) > 19 {
      Below(19, Count(TOP) - 1);
    }
    KeptAll(UBIGINT, TOP);
    DigitAdded(UBIGINT, TOP, '6', TOP + "6");
  }

  /** The digit that does not fit is left out and the next one kept, so that a number past
      the type is cast: 0.18446744073709551616e20 is cast to 18446744073709551610. */
  lemma PastTheTypeIsCast()
    ensures CodeOf(UBIGINT, false, "", TOP + "6", Some(20)) == Some(18_446_744_073_709_551_610)
    ensures Expected(UBIGINT, false, "", TOP + "6", 20) == None
  {
    TopIs();
    CodeAt(UBIGINT, false, "", TOP + "6", 20, 1_844_674_407_370_955_161, 19);
    NoWhole(UBIGINT, 1_844_674_407_370_955_161, 19, 20);
    TopMoves();
    TopPast();
  }

  lemma TopMoves()
    ensures ExponentFinal(UBIGINT, State(0, 1_844_674_407_370_955_161, 19), false, 20, 0) ==
            Some(18_446_744_073_709_551_610)
  {
    MovedPast(UBIGINT, State(0, 1_844_674_407_370_955_161, 19), false, 20, 0);
    ShiftGrows(0, 0, 20);
  }

  lemma TopPast()
    ensures ExpectedOf(UBIGINT, false, Number(""), 18_446_744_073_709_551_616, 20, 20) == None
  {
    ShiftGrows(0, 0, 20);
  }

  /** Between 32768 and 65535 zeros and a five behind the point, with exponent 0: the distance
      wraps, and a number that is zero is not cast to it. */
  lemma DistanceWraps(c: Cast, n: nat)
    requires FractionCast(c) && 32768 <= n <= 65535
    ensures CodeOf(c, false, "", Zeros(n) + "5", Some(0)) != Expected(c, false, "", Zeros(n) + "5", 0) == Some(0)
  {
    FractionCastIsWide(c);
    FiveAtEnd(c, n);
    FiveFarBehind(n);
    assert Number("") == 0;
    assert WrapI16(0 - (n + 1)) >= 0;
    ExponentExactly(c, false, "", Zeros(n) + "5", 0);
  }
}
