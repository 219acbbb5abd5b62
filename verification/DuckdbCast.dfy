/** DuckDB's cast of a `VARCHAR` to an integer type: digits with single `_` separators, a
    fraction rounded half away from zero and an exponent, accumulated digit by digit
    with an overflow check before every step, and 16-bit and 64-bit wrapping where DuckDB
    wraps. `CodeOf` is what the steps compute; `CastValues` says when that is the number. */
module DuckdbCast {
  import opened Lake
  import opened Words

  // ----- Integer types -----

  datatype IntType = IntType(min: int, max: int, digits: nat)

  const UINT64 := IntType(0, 18446744073709551615, 20)
  const INT8 := IntType(-128, 127, 3)
  const INT64 := IntType(-9223372036854775808, 9223372036854775807, 19)
  const INT16 := IntType(-32768, 32767, 5)

  predicate Fits(t: IntType, value: int) {
    t.min <= value <= t.max
  }

  datatype Op = Simple | Decimal

  /** `store` is the type values accumulate in, `result` the one the result must fit. */
  datatype Cast = Cast(op: Op, store: IntType, result: IntType)

  predicate WfCast(c: Cast) {
    && c.store.min <= c.result.min <= 0 && 99 <= c.result.max <= c.store.max
    && (c.store.min == 0 || c.store.min <= -100)
    && (c.op.Simple? ==> c.store == c.result)
    && (c.op.Decimal? ==> TEN_18 <= c.store.max && 18 <= c.store.digits <= 20 && 0 - c.store.max <= c.result.min)
  }

  /** `decimalDigits` is a 16-bit counter. */
  datatype State = State(result: int, decimal: int, decimalDigits: nat)

  function Wrap16(n: int): nat {
    n % 65536
  }

  /** Division and remainder truncating toward zero. */
  function Quotient(a: int, b: int): int
    requires b > 0
  {
    if a >= 0 then a / b else -(-a / b)
  }

  function Remainder(a: int, b: int): int
    requires b > 0
  {
    if a >= 0 then a % b else -(-a % b)
  }

  function Signed(negative: bool, m: nat): int {
    if negative then 0 - m else m
  }

  // ----- Decimal digits -----

  /** `v` · 10^`x`. */
  function Shift(v: nat, x: nat): nat {
    if x == 0 then v else 10 * Shift(v, x - 1)
  }

  /** `v` without its last `m` digits. */
  function Drop(v: nat, m: nat): nat {
    if m == 0 then v else Drop(v, m - 1) / 10
  }

  const TEN_18 := 1_000_000_000_000_000_000

  lemma {:induction false} DropFirst(v: nat, m: nat)
    requires m >= 1
    ensures Drop(v, m) == Drop(v / 10, m - 1)
    decreases m
  {
    if m > 1 {
      DropFirst(v, m - 1);
    }
  }

  lemma {:induction false} DropMore(v: nat, a: nat, b: nat)
    ensures Drop(v, a + b) == Drop(Drop(v, a), b)
    decreases b
  {
    if b > 0 {
      DropMore(v, a, b - 1);
    }
  }

  lemma {:induction false} DropLess(v: nat, w: nat, m: nat)
    requires v <= w
    ensures Drop(v, m) <= Drop(w, m) <= w
    decreases m
  {
    if m > 0 {
      DropLess(v, w, m - 1);
    }
  }

  /** A number of at most `n` digits. */
  lemma {:induction false} DropsAll(v: nat, n: nat)
    ensures Drop(v, n) == 0 <==> v < Pow10(n)
    decreases n
  {
    if n > 0 {
      DropFirst(v, n);
      DropsAll(v / 10, n - 1);
    }
  }

  lemma {:induction false} DropStaysZero(v: nat, a: nat, b: nat)
    requires a <= b && Drop(v, a) == 0
    ensures Drop(v, b) == 0
    decreases b
  {
    if a < b {
      DropStaysZero(v, a, b - 1);
    }
  }

  lemma {:induction false} ShiftMore(v: nat, a: nat, b: nat)
    ensures Shift(v, a + b) == Shift(Shift(v, a), b)
    decreases b
  {
    if b > 0 {
      ShiftMore(v, a, b - 1);
    }
  }

  lemma {:induction false} ShiftAdd(v: nat, w: nat, x: nat)
    ensures Shift(v + w, x) == Shift(v, x) + Shift(w, x)
    decreases x
  {
    if x > 0 {
      ShiftAdd(v, w, x - 1);
    }
  }

  lemma {:induction false} ShiftGrows(v: nat, a: nat, b: nat)
    requires a <= b
    ensures Shift(v, a) <= Shift(v, b) && (Shift(v, b) == 0 <==> v == 0)
    decreases b
  {
    if a < b {
      ShiftGrows(v, a, b - 1);
    } else if b > 0 {
      ShiftGrows(v, a - 1, b - 1);
    }
  }

  /** Dropping digits of the part behind the point first. */
  lemma {:induction false} DropBehind(whole: nat, fraction: nat, n: nat, q: nat)
    requires q <= n
    ensures Drop(Shift(whole, n) + fraction, q) == Shift(whole, n - q) + Drop(fraction, q)
    decreases q
  {
    if q > 0 {
      DropBehind(whole, fraction, n, q - 1);
      assert Shift(whole, n - q + 1) == 10 * Shift(whole, n - q);
    }
  }

  lemma {:induction false} Below(a: nat, b: nat)
    requires a <= b
    ensures Pow10(a) <= Pow10(b)
    decreases b
  {
    if a < b {
      Below(a, b - 1);
    }
  }

  lemma Below18(n: nat)
    requires n <= 18
    ensures Pow10(n) <= TEN_18
  {
    Below(n, 18);
    assert Pow10(6) == 1_000_000;
    assert Pow10(12) == 1_000_000_000_000 by {
      assert Pow10(9) == 1_000_000_000;
    }
    assert Pow10(15) == 1_000_000_000_000_000;
  }

  // ----- Rounding -----

  /** `n` · 10^-`q` rounded by the first digit behind the point. */
  function Round(n: nat, q: nat): nat {
    if q == 0 then n else Drop(n, q) + (if Drop(n, q - 1) % 10 >= 5 then 1 else 0)
  }

  /** The value `n` · 10^(`x` - `f`) rounded half away from zero. */
  function Rounded(n: nat, f: nat, x: int): nat {
    if x >= f then Shift(n, x - f) else Round(n, f - x)
  }

  lemma {:induction false} DropRest(n: nat, q: nat) returns (low: nat)
    ensures low < Pow10(q) && n == Shift(Drop(n, q), q) + low
    decreases q
  {
    if q == 0 {
      low := 0;
    } else {
      var low' := DropRest(n, q - 1);
      LastDigit(n, q);
      ShiftDigit(Drop(n, q - 1) % 10, q - 1);
      low := Shift(Drop(n, q - 1) % 10, q - 1) + low';
    }
  }

  lemma {:induction false} ShiftTen(v: nat, x: nat)
    ensures Shift(10 * v, x) == Shift(v, x + 1)
    decreases x
  {
    if x > 0 {
      ShiftTen(v, x - 1);
    }
  }

  lemma {:induction false} ShiftDigit(d: nat, x: nat)
    ensures d <= 9 ==> Shift(d, x) <= 9 * Pow10(x)
    ensures d <= 4 ==> Shift(d, x) <= 4 * Pow10(x)
    ensures d >= 5 ==> Shift(d, x) >= 5 * Pow10(x)
    decreases x
  {
    if x > 0 {
      ShiftDigit(d, x - 1);
    }
  }

  lemma {:induction false} LastDigit(n: nat, q: nat)
    requires q >= 1
    ensures Shift(Drop(n, q - 1), q - 1) == Shift(Drop(n, q), q) + Shift(Drop(n, q - 1) % 10, q - 1)
  {
    var h, d := Drop(n, q), Drop(n, q - 1) % 10;
    ShiftAdd(10 * h, d, q - 1);
    ShiftTen(h, q - 1);
  }

  lemma NearBounds(n: nat, h: nat, d: nat, digit: nat, rest: nat, p: nat)
    requires n == h + digit + rest && rest < p && d <= 9
    requires digit <= 9 * p && (d <= 4 ==> digit <= 4 * p) && (d >= 5 ==> digit >= 5 * p)
    ensures d >= 5 ==> 2 * (h + 10 * p) <= 2 * n + 10 * p < 2 * (h + 20 * p)
    ensures d < 5 ==> 2 * h <= 2 * n + 10 * p < 2 * (h + 10 * p)
  {
  }

  /** Rounding is to the nearest whole, halves up: twice `n` lies within one unit of
      twice the rounded value. */
  lemma RoundIsNearest(n: nat, q: nat)
    requires q >= 1
    ensures 2 * Shift(Round(n, q), q) <= 2 * n + Pow10(q) < 2 * Shift(Round(n, q) + 1, q)
  {
    var h, d, p := Drop(n, q), Drop(n, q - 1) % 10, Pow10(q - 1);
    var rest := DropRest(n, q - 1);
    LastDigit(n, q);
    ShiftDigit(d, q - 1);
    NearBounds(n, Shift(h, q), d, Shift(d, q - 1), rest, p);
    ShiftNext(h, q);
    ShiftNext(h + 1, q);
  }

  lemma ShiftNext(v: nat, x: nat)
    ensures Shift(v + 1, x) == Shift(v, x) + Pow10(x)
  {
    ShiftAdd(v, 1, x);
    ShiftOne(x);
  }

  lemma {:induction false} ShiftOne(x: nat)
    ensures Shift(1, x) == Pow10(x)
  {
    if x > 0 {
      ShiftOne(x - 1);
    }
  }

  /** Moving the point left: the last digit moved out decides. */
  lemma MovesLeft(whole: nat, fraction: nat, n: nat, m: nat)
    requires Drop(fraction, n) == 0 && m >= 1
    ensures Rounded(Shift(whole, n) + fraction, n, 0 - m) == Drop(whole, m) +
            (if Drop(whole, m - 1) % 10 >= 5 then 1 else 0)
  {
    var all := Shift(whole, n) + fraction;
    DropBehind(whole, fraction, n, n);
    DropMore(all, n, m);
    DropMore(all, n, m - 1);
  }

  /** Moving the point right, short of the fraction's end. */
  lemma MovesInto(whole: nat, fraction: nat, n: nat, x: nat)
    requires x < n
    ensures Rounded(Shift(whole, n) + fraction, n, x) == Shift(whole, x) + Round(fraction, n - x)
  {
    RoundBehind(whole, fraction, n, x, n - x);
  }

  lemma RoundBehind(whole: nat, fraction: nat, n: nat, x: nat, q: nat)
    requires n == x + q && q >= 1
    ensures Round(Shift(whole, n) + fraction, q) == Shift(whole, x) + Round(fraction, q)
  {
    var all, a := Shift(whole, n) + fraction, Shift(whole, x);
    assert Drop(all, q) == a + Drop(fraction, q) by {
      DropBehind(whole, fraction, n, q);
    }
    assert Drop(all, q - 1) == 10 * a + Drop(fraction, q - 1) by {
      DropBehind(whole, fraction, n, q - 1);
      assert Shift(whole, x + 1) == 10 * a;
    }
    RoundAside(all, a, fraction, q);
  }

  lemma RoundAside(all: nat, a: nat, rest: nat, q: nat)
    requires q >= 1 && Drop(all, q) == a + Drop(rest, q) && Drop(all, q - 1) == 10 * a + Drop(rest, q - 1)
    ensures Round(all, q) == a + Round(rest, q)
  {
    TensAside(a, Drop(rest, q - 1));
  }

  lemma TensAside(a: nat, b: nat)
    ensures (10 * a + b) % 10 == b % 10
  {
  }

  /** Moving the point right, past the fraction's end. */
  lemma MovesPast(whole: nat, fraction: nat, n: nat, x: nat)
    requires n <= x
    ensures Rounded(Shift(whole, n) + fraction, n, x) == Shift(whole, x) + Shift(fraction, x - n)
  {
    ShiftAdd(Shift(whole, n), fraction, x - n);
    ShiftMore(whole, n, x - n);
  }

  lemma AtLeastWhole(whole: nat, fraction: nat, n: nat, x: nat)
    ensures Rounded(Shift(whole, n) + fraction, n, x) >= Shift(whole, x)
    ensures fraction == 0 ==> Rounded(Shift(whole, n) + fraction, n, x) == Shift(whole, x)
  {
    if x < n {
      MovesInto(whole, fraction, n, x);
      if fraction == 0 {
        DropLess(0, 0, n - x);
        DropLess(0, 0, n - x - 1);
      }
    } else {
      MovesPast(whole, fraction, n, x);
      ShiftGrows(fraction, 0, x - n);
    }
  }

  // ----- Steps -----

  /** One digit of the whole part, unless it would leave the store type. */
  method HandleDigit(c: Cast, result: int, negative: bool, digit: nat, ghost m: nat) returns (ok: bool, r: int)
    requires WfCast(c) && digit <= 9 && result == Signed(negative, m) && Fits(c.store, result)
    requires negative && c.store.min == 0 ==> digit == 0
    ensures ok <==> Fits(c.store, Signed(negative, 10 * m + digit))
    ensures ok ==> r == Signed(negative, 10 * m + digit)
  {
    r := result;
    if negative {
      if result < Quotient(c.store.min + digit, 10) {
        return false, r;
      }
      r := result * 10 - digit;
    } else {
      if result > Quotient(c.store.max - digit, 10) {
        return false, r;
      }
      r := result * 10 + digit;
    }
    ok := true;
  }

  /** One digit of the fraction, unless it is past the store type's precision. */
  function KeepDigit(c: Cast, st: State, digit: nat): State {
    if st.decimal <= Quotient(c.store.max - digit, 10) then State(st.result, 10 * st.decimal + digit,
      Wrap16(st.decimalDigits + 1)) else st
  }

  method HandleDecimal(c: Cast, st: State, digit: nat) returns (ok: bool, r: State)
    ensures ok <==> c.op.Decimal?
    ensures ok ==> r == KeepDigit(c, st, digit)
  {
    r := st;
    if c.op.Simple? {
      return false, r;
    }
    if st.decimal <= Quotient(c.store.max - digit, 10) {
      r := State(st.result, st.decimal * 10 + digit, Wrap16(st.decimalDigits + 1));
    }
    ok := true;
  }

  /** Digits dropped while more than ten is left. */
  function Leading(decimal: int, digits: nat): (int, nat)
    decreases decimal
  {
    if decimal > 10 then Leading(decimal / 10, Wrap16(digits - 1)) else (decimal, digits)
  }

  /** `finalize` of a cast with fractions: rounded by the fraction's first digit. */
  function FinalOf(c: Cast, st: State, negative: bool): Option<int> {
    if !Fits(c.result, st.result) then None
    else
      var (decimal, digits) := Leading(st.decimal, st.decimalDigits);
      var v := if digits == 1 && decimal >= 5 then if negative then st.result - 1 else st.result + 1 else st.result;
      if Fits(c.result, v) then Some(v) else None
  }

  method Finalize(c: Cast, st: State, negative: bool) returns (r: Option<int>)
    ensures r == if c.op.Simple? then Some(st.result) else FinalOf(c, st, negative)
  {
    if c.op.Simple? {
      return Some(st.result);
    }
    if !Fits(c.result, st.result) {
      return None;
    }
    var decimal, digits: int := st.decimal, st.decimalDigits;
    while decimal > 10
      invariant digits >= 0 && Leading(decimal, digits) == Leading(st.decimal, st.decimalDigits)
      decreases decimal
    {
      decimal := decimal / 10;
      digits := Wrap16(digits - 1);
    }
    if digits == 1 && decimal >= 5 {
      var rounded := if negative then st.result - 1 else st.result + 1;
      if !Fits(c.result, rounded) {
        return None;
      }
      return Some(rounded);
    }
    return Some(st.result);
  }

  /** The fraction the state holds, if not zero, has at most `decimalDigits` digits. */
  predicate Tidy(st: State) {
    0 <= st.decimal && (st.decimal == 0 || Drop(st.decimal, st.decimalDigits) == 0) && st.decimalDigits < 65536
  }

  /** Dropping digits while more than ten is left finds the first digit, or less than a
      half. */
  lemma FirstDigit(decimal: nat, digits: nat, k: nat)
    requires k < digits && Drop(decimal, digits) == 0 && Drop(decimal, k) <= 10
    ensures (digits - k == 1 && Drop(decimal, k) >= 5) <==> Round(decimal, digits) == 1
    ensures Round(decimal, digits) <= 1
  {
    var d := Drop(decimal, k);
    DropMore(decimal, k, digits - 1 - k);
    if digits - k > 1 {
      DropMore(d, 1, digits - 2 - k);
      DropLess(d / 10, 1, digits - 2 - k);
    }
    assert Drop(decimal, digits - 1) / 10 == 0;
  }

  lemma StillDigits(decimal: nat, digits: nat, k: nat)
    requires k < digits && Drop(decimal, digits) == 0 && Drop(decimal, k) > 10
    ensures k + 1 < digits
  {
  }

  lemma {:induction false} LeadingRounds(decimal: nat, digits: nat, k: nat)
    requires k < digits < 65536 && Drop(decimal, digits) == 0
    ensures var (d, n) := Leading(Drop(decimal, k), digits - k);
            (n == 1 && d >= 5 <==> Round(decimal, digits) == 1) && Round(decimal, digits) <= 1
    decreases Drop(decimal, k)
  {
    if Drop(decimal, k) > 10 {
      StillDigits(decimal, digits, k);
      LeadingRounds(decimal, digits, k + 1);
    } else {
      FirstDigit(decimal, digits, k);
    }
  }

  /** The value with its sign, if it fits the result type. */
  function FitsOr(c: Cast, negative: bool, v: nat): Option<int> {
    if Fits(c.result, Signed(negative, v)) then Some(Signed(negative, v)) else None
  }

  /** A tidy state's value is rounded by its fraction, exactly when that fits. */
  lemma FinalRounds(c: Cast, st: State, negative: bool, m: nat)
    requires WfCast(c) && st.result == Signed(negative, m) && Tidy(st)
    ensures FinalOf(c, st, negative) == FitsOr(c, negative, if st.decimal == 0 then m
            else m + Round(st.decimal, st.decimalDigits))
  {
    if st.decimal != 0 {
      LeadingRounds(st.decimal, st.decimalDigits, 0);
    }
  }

  // ----- The exponent -----

  lemma Exhausted(whole: nat, k: nat, m: nat)
    requires 1 <= k <= m && Drop(whole, k) == 0 && Drop(whole, k - 1) % 10 == 0
    ensures Drop(whole, m) == 0 && Drop(whole, m - 1) == 0
  {
    DropStaysZero(whole, k - 1, m - 1);
    DropStaysZero(whole, k - 1, m);
  }

  lemma RoundOne(whole: nat, m: nat, d: nat)
    requires m >= 1 && d == Drop(whole, m - 1) % 10
    ensures Tidy(State(0, d, 1)) && Round(whole, m) == Drop(whole, m) + (if d == 0 then 0 else Round(d, 1))
  {
  }

  lemma LeftRounds(c: Cast, negative: bool, whole: nat, m: nat, st: State)
    requires WfCast(c) && m >= 1 && st == State(Signed(negative, Drop(whole, m)), Drop(whole, m - 1) % 10, 1)
    ensures FinalOf(c, st, negative) == FitsOr(c, negative, Round(whole, m))
  {
    RoundOne(whole, m, st.decimal);
    FinalRounds(c, st, negative, Drop(whole, m));
  }

  /** A negative exponent: digits move out one by one, the last of them decides. */
  method MoveLeft(c: Cast, st: State, negative: bool, exponent: int, ghost whole: nat) returns (r: Option<int>)
    requires WfCast(c) && c.op.Decimal? && st.result == Signed(negative, whole) && exponent < 0
    ensures r == FitsOr(c, negative, Round(whole, 0 - exponent))
  {
    var e, result, decimal := exponent, st.result, st.decimal;
    ghost var k: nat := 0;
    while e < 0
      invariant e == exponent + k <= 0
      invariant result == Signed(negative, Drop(whole, k))
      invariant k >= 1 ==> decimal == Signed(negative, Drop(whole, k - 1) % 10)
    {
      e := e + 1;
      decimal := Remainder(result, 10);
      result := Quotient(result, 10);
      k := k + 1;
      if result == 0 && decimal == 0 {
        Exhausted(whole, k, 0 - exponent);
        break;
      }
    }
    if decimal < 0 {
      decimal := 0 - decimal;
    }
    ghost var m: nat := 0 - exponent;
    LeftRounds(c, negative, whole, m, State(result, decimal, 1));
    r := Finalize(c, State(result, decimal, 1), negative);
  }

  /** `v` · 10^`x` by repeated checked multiplication. */
  method ScaleResult(c: Cast, result: int, negative: bool, x: nat, ghost v: nat) returns (ok: bool, r: int)
    requires WfCast(c) && result == Signed(negative, v) && Fits(c.store, result)
    ensures ok <==> Fits(c.store, Signed(negative, Shift(v, x)))
    ensures ok ==> r == Signed(negative, Shift(v, x))
  {
    r := result;
    var e := x;
    while r != 0 && e > 0
      invariant 0 <= e <= x && r == Signed(negative, Shift(v, x - e)) && Fits(c.store, r)
      decreases e
    {
      ShiftGrows(v, x - e + 1, x);
      e := e - 1;
      if !Fits(c.store, r * 10) {
        return false, r;
      }
      r := r * 10;
    }
    ShiftGrows(v, 0, x - e);
    ShiftGrows(v, 0, x);
    ok := true;
  }

  method ScaleDecimal(c: Cast, decimal: nat, x: nat) returns (ok: bool, r: nat)
    requires WfCast(c) && decimal <= c.store.max
    ensures ok <==> Shift(decimal, x) <= c.store.max
    ensures ok ==> r == Shift(decimal, x)
  {
    r := decimal;
    var e := x;
    while e > 0
      invariant 0 <= e <= x && r == Shift(decimal, x - e) <= c.store.max
    {
      ShiftGrows(decimal, x - e + 1, x);
      e := e - 1;
      if !Fits(c.store, r * 10) {
        return false, r;
      }
      r := r * 10;
    }
    ok := true;
  }

  function WrapStore(t: IntType, v: int): int {
    if t.min < 0 then (v + 0x8000_0000_0000_0000) % 0x1_0000_0000_0000_0000 - 0x8000_0000_0000_0000
    else v % 0x1_0000_0000_0000_0000
  }

  /** 10^n in the store type. */
  function PowerIn(c: Cast, n: nat): int {
    if n == 0 then 1 else WrapStore(c.store, PowerIn(c, n - 1) * 10)
  }

  method PowerOfTen(c: Cast, n: nat) returns (p: int)
    ensures p == PowerIn(c, n)
  {
    p := 1;
    for i := 0 to n
      invariant p == PowerIn(c, i)
    {
      p := WrapStore(c.store, p * 10);
    }
  }

  /** A 16-bit signed difference. */
  function WrapI16(n: int): int {
    (n + 32768) % 65536 - 32768
  }

  /** Division of a number that is not negative, truncating; the divisor may be negative. */
  function Over(a: nat, b: int): int {
    if b > 0 then a / b else if b < 0 then 0 - a / (0 - b) else 0
  }

  function Beyond(a: nat, b: int): nat {
    if b > 0 then a % b else if b < 0 then a % (0 - b) else 0
  }

  /** The digits of the fraction moved before the point, and the rest of it. */
  function SplitOf(c: Cast, decimal: nat, q: nat): (int, nat) {
    if q <= c.store.digits then (Over(decimal, PowerIn(c, q)), Beyond(decimal, PowerIn(c, q))) else (0, 0)
  }

  /** The moved digits joined to the scaled whole part. */
  function Combined(c: Cast, negative: bool, scaled: int, high: int, low: nat, digits: int): Option<int> {
    var sum := if negative then scaled - high else scaled + high;
    if Fits(c.store, sum) then FinalOf(c, State(sum, low, Wrap16(digits)), negative) else None
  }

  /** `handle_exponent` with a fraction and an exponent that is not negative. */
  function MovedOf(c: Cast, st: State, negative: bool, x: nat, scaled: int): Option<int>
    requires 0 <= st.decimal
  {
    var e := WrapI16(x - st.decimalDigits);
    if e < 0 then
      var (high, low) := SplitOf(c, st.decimal, 0 - e);
      Combined(c, negative, scaled, high, low, st.decimalDigits - x)
    else if Shift(st.decimal, e) <= c.store.max then Combined(c, negative, scaled, Shift(st.decimal, e), 0,
      st.decimalDigits - x)
    else None
  }

  /** `handle_exponent`; `whole` is the result without its sign. */
  function ExponentFinal(c: Cast, st: State, negative: bool, exponent: int, whole: nat): Option<int>
    requires 0 <= st.decimal
  {
    if exponent < 0 then FitsOr(c, negative, Round(whole, 0 - exponent))
    else
      var scaled := Signed(negative, Shift(whole, exponent));
      if !Fits(c.store, scaled) then None
      else if st.decimal == 0 then FinalOf(c, State(scaled, 0, st.decimalDigits), negative)
      else MovedOf(c, st, negative, exponent, scaled)
  }

  method Combine(c: Cast, negative: bool, scaled: int, high: int, low: nat, digits: int) returns (r: Option<int>)
    requires c.op.Decimal?
    ensures r == Combined(c, negative, scaled, high, low, digits)
  {
    var sum := if negative then scaled - high else scaled + high;
    if !Fits(c.store, sum) {
      return None;
    }
    r := Finalize(c, State(sum, low, Wrap16(digits)), negative);
  }

  method HandleExponent(c: Cast, st: State, negative: bool, exponent: int, ghost whole: nat) returns (r: Option<int>)
    requires WfCast(c) && st.result == Signed(negative, whole) && Fits(c.store, st.result)
             && 0 <= st.decimal <= c.store.max
    ensures r == if c.op.Simple? then None else ExponentFinal(c, st, negative, exponent, whole)
  {
    if c.op.Simple? {
      return None;
    }
    if exponent < 0 {
      r := MoveLeft(c, st, negative, exponent, whole);
      return;
    }
    var fits, scaled := ScaleResult(c, st.result, negative, exponent, whole);
    if !fits {
      return None;
    }
    if st.decimal == 0 {
      r := Finalize(c, State(scaled, 0, st.decimalDigits), negative);
      return;
    }
    var e := WrapI16(exponent - st.decimalDigits);
    var high, low := 0, 0;
    if e < 0 {
      if 0 - e <= c.store.digits {
        var power := PowerOfTen(c, 0 - e);
        low, high := Beyond(st.decimal, power), Over(st.decimal, power);
      }
    } else {
      var scales, moved := ScaleDecimal(c, st.decimal, e);
      if !scales {
        return None;
      }
      high := moved;
    }
    r := Combine(c, negative, scaled, high, low, st.decimalDigits - exponent);
  }

  // ----- Text -----

  predicate IsDigit(ch: char) {
    '0' <= ch <= '9'
  }

  function DigitOf(ch: char): (d: nat)
    requires IsDigit(ch)
    ensures d <= 9
  {
    ch as int - '0' as int
  }

  predicate IsSpace(ch: char) {
    ch == ' ' || 9 <= ch as int <= 13
  }

  predicate AllSpace(t: string) {
    forall ch | ch in t :: IsSpace(ch)
  }

  /** The number a text's digits spell, and how many they are. */
  function Number(t: string): nat {
    if t == "" then 0
    else if IsDigit(t[|t| - 1]) then 10 * Number(t[..|t| - 1]) + DigitOf(t[|t| - 1])
    else Number(t[..|t| - 1])
  }

  function Count(t: string): nat {
    if t == "" then 0 else Count(t[..|t| - 1]) + (if IsDigit(t[|t| - 1]) then 1 else 0)
  }

  lemma NumberStep(buf: string, start: nat, pos: nat)
    requires start <= pos < |buf|
    ensures var ch := buf[pos];
            && Number(buf[start..pos + 1]) == (if IsDigit(ch) then 10 * Number(buf[start..pos]) + DigitOf(ch)
               else Number(buf[start..pos]))
            && Count(buf[start..pos + 1]) == Count(buf[start..pos]) + (if IsDigit(ch) then 1 else 0)
  {
    var t := buf[start..pos + 1];
    assert t[|t| - 1] == buf[pos] && t[..|t| - 1] == buf[start..pos];
  }

  lemma {:induction false} NumberGrows(buf: string, start: nat, pos: nat, end: nat)
    requires start <= pos <= end <= |buf|
    ensures Number(buf[start..pos]) <= Number(buf[start..end]) && Count(buf[start..pos]) <= Count(buf[start..end])
    decreases end - pos
  {
    if pos < end {
      NumberStep(buf, start, end - 1);
      NumberGrows(buf, start, pos, end - 1);
    }
  }

  /** Where the run of digits from `pos` ends; a `_` stands only between two digits. */
  function DigitsEnd(buf: string, pos: nat): (end: Option<nat>)
    requires pos <= |buf|
    ensures end.Some? ==> pos <= end.value <= |buf| && (end.value < |buf| ==> !IsDigit(buf[end.value]))
    ensures end.Some? && pos < |buf| && IsDigit(buf[pos]) ==> pos < end.value
    decreases |buf| - pos
  {
    if pos == |buf| || !IsDigit(buf[pos]) then Some(pos)
    else if pos + 1 < |buf| && buf[pos + 1] == '_' then
      if pos + 2 < |buf| && IsDigit(buf[pos + 2]) then DigitsEnd(buf, pos + 2) else None
    else DigitsEnd(buf, pos + 1)
  }

  /** What a fraction leaves in the state: its digits as one number, and their count. */
  function KeptOf(c: Cast, fraction: string): (nat, nat) {
    if fraction == "" then (0, 0)
    else
      var (decimal, count) := KeptOf(c, fraction[..|fraction| - 1]);
      var ch := fraction[|fraction| - 1];
      if IsDigit(ch) && decimal <= Quotient(c.store.max - DigitOf(ch), 10) then
        (10 * decimal + DigitOf(ch), count + 1) else (decimal, count)
  }

  function KeptState(c: Cast, result: int, fraction: string): State {
    State(result, KeptOf(c, fraction).0, Wrap16(KeptOf(c, fraction).1))
  }

  lemma KeptStep(c: Cast, result: int, buf: string, start: nat, pos: nat)
    requires start <= pos < |buf|
    ensures KeptState(c, result, buf[start..pos + 1]) ==
            if IsDigit(buf[pos]) then KeepDigit(c, KeptState(c, result, buf[start..pos]), DigitOf(buf[pos]))
              else KeptState(c, result, buf[start..pos])
  {
    var t := buf[start..pos + 1];
    assert t[|t| - 1] == buf[pos] && t[..|t| - 1] == buf[start..pos];
    WrapNext(KeptOf(c, buf[start..pos]).1);
  }

  lemma WrapNext(n: nat)
    ensures Wrap16(Wrap16(n) + 1) == Wrap16(n + 1)
  {
  }

  lemma {:induction false} KeptFits(c: Cast, fraction: string)
    requires WfCast(c)
    ensures KeptOf(c, fraction).0 <= c.store.max
  {
    if fraction != "" {
      KeptFits(c, fraction[..|fraction| - 1]);
    }
  }

  /** What the loop makes of a number's parts; `x` is its exponent, if it has one. */
  function CodeOf(c: Cast, negative: bool, whole: string, fraction: string, x: Option<int>): Option<int> {
    var result := Signed(negative, Number(whole));
    var st := KeptState(c, result, fraction);
    if !Fits(c.store, result) then None
    else if c.op.Simple? then if x.None? then Some(result) else None
    else if x.None? then FinalOf(c, st, negative)
    else ExponentFinal(c, st, negative, x.value, Number(whole))
  }

  const EXPONENT := Cast(Simple, INT16, INT16)

  /** The start of the digits, the end of the whole part, and the end of the fraction. */
  datatype Layout = Layout(start: nat, point: nat, end: nat)

  /** Where the digits start, past a sign. */
  function StartOf(buf: string, negative: bool): (start: nat)
    requires negative ==> buf != ""
    ensures start <= |buf|
  {
    if negative || (buf != "" && buf[0] == '+') then 1 else 0
  }

  /** Where the fraction ends, if a point starts one. */
  function EndOf(buf: string, point: nat): (end: Option<nat>)
    requires point <= |buf|
    ensures end.Some? ==> point <= end.value <= |buf| && (point < end.value ==> buf[point] == '.')
  {
    if point < |buf| && buf[point] == '.' then DigitsEnd(buf, point + 1) else Some(point)
  }

  function LayoutOf(buf: string, negative: bool): (l: Option<Layout>)
    requires negative ==> buf != ""
    ensures l.Some? ==> l.value.start <= l.value.point <= l.value.end <= |buf|
  {
    var start := StartOf(buf, negative);
    var point := DigitsEnd(buf, start);
    if point.None? then None
    else
      var end := EndOf(buf, point.value);
      if end.None? then None else Some(Layout(start, point.value, end.value))
  }

  function Whole(buf: string, l: Layout): string
    requires l.start <= l.point <= |buf|
  {
    buf[l.start..l.point]
  }

  function Fraction(buf: string, l: Layout): string
    requires l.point <= l.end <= |buf|
  {
    if l.point < l.end then buf[l.point + 1..l.end] else ""
  }

  /** What the parts of a number's text mean: its digits, those behind the point, and
      its exponent, if it has one. */
  type Meaning = (string, string, Option<int>) -> Option<int>

  function MeaningOf(c: Cast, negative: bool): Meaning {
    (whole, fraction, x) => CodeOf(c, negative, whole, fraction, x)
  }

  /** The text starts with a number: some digits where it has a point, none behind it
      where the cast takes whole numbers alone. */
  predicate Readable(plain: bool, buf: string, l: Layout)
    requires l.start <= l.point <= l.end <= |buf|
  {
    && (l.point < l.end ==> Whole(buf, l) != "" || Fraction(buf, l) != "")
    && (plain ==> Fraction(buf, l) == "")
  }

  /** The text ends after the number, or goes on with spaces alone. */
  predicate Ends(buf: string, l: Layout)
    requires l.end <= |buf|
  {
    if l.end == |buf| then l.end > l.start else AllSpace(buf[l.end..])
  }

  /** The text has an `e` after the number, and more after that. */
  predicate HasExponent(buf: string, l: Layout)
    requires l.end <= |buf|
  {
    l.start < l.end && l.end + 1 < |buf| && buf[l.end] in "eE"
  }

  /** What `cast_loop` gives without an exponent: a number, then the end or spaces. */
  function PlainOf(plain: bool, buf: string, negative: bool, f: Meaning): Option<int>
    requires negative ==> buf != ""
  {
    var l := LayoutOf(buf, negative);
    if l.None? || !Readable(plain, buf, l.value) || !Ends(buf, l.value) then None
    else f(Whole(buf, l.value), Fraction(buf, l.value), None)
  }

  function ExponentOf(text: string): Option<int>
    requires text != ""
  {
    PlainOf(true, text, text[0] == '-', MeaningOf(EXPONENT, text[0] == '-'))
  }

  /** What `cast_loop` gives. */
  function CastWith(plain: bool, buf: string, negative: bool, allowExponent: bool, f: Meaning): Option<int>
    requires negative ==> buf != ""
  {
    var l := LayoutOf(buf, negative);
    if l.Some? && Readable(plain, buf, l.value) && allowExponent && HasExponent(buf, l.value) then
      var x := ExponentOf(buf[l.value.end + 1..]);
      if x.Some? then f(Whole(buf, l.value), Fraction(buf, l.value), x) else None
    else PlainOf(plain, buf, negative, f)
  }

  function CastOf(c: Cast, buf: string, negative: bool, allowExponent: bool): Option<int>
    requires negative ==> buf != ""
  {
    CastWith(c.op.Simple?, buf, negative, allowExponent, MeaningOf(c, negative))
  }

  // ----- The loop over the text -----

  /** A number that has left the store type does not come back to it. */
  lemma Outgrown(c: Cast, buf: string, start: nat, pos: nat, negative: bool)
    requires WfCast(c) && start <= pos < |buf| && IsDigit(buf[pos])
             && !Fits(c.store, Signed(negative, Number(buf[start..pos + 1])))
    ensures DigitsEnd(buf, pos).Some? ==>
            !Fits(c.store, Signed(negative, Number(buf[start..DigitsEnd(buf, pos).value])))
  {
    if DigitsEnd(buf, pos).Some? {
      NumberGrows(buf, start, pos + 1, DigitsEnd(buf, pos).value);
    }
  }

  /** The whole part: its number, unless a digit leaves the store type or a separator is
      misplaced. */
  method ReadWhole(c: Cast, buf: string, start: nat, negative: bool) returns (ok: bool, pos: nat, result: int)
    requires WfCast(c) && start <= |buf|
    requires negative && c.store.min == 0 ==> forall i | start <= i < |buf| :: buf[i] == '0'
    ensures ok <==>
            DigitsEnd(buf, start).Some?
            && Fits(c.store, Signed(negative, Number(buf[start..DigitsEnd(buf, start).value])))
    ensures ok ==> DigitsEnd(buf, start) == Some(pos) && result == Signed(negative, Number(buf[start..pos]))
  {
    pos, result := start, 0;
    assert buf[start..start] == "";
    while pos < |buf| && IsDigit(buf[pos])
      invariant start <= pos <= |buf| && DigitsEnd(buf, pos) == DigitsEnd(buf, start)
      invariant result == Signed(negative, Number(buf[start..pos])) && Fits(c.store, result)
      decreases |buf| - pos
    {
      NumberStep(buf, start, pos);
      var fits, r := HandleDigit(c, result, negative, DigitOf(buf[pos]), Number(buf[start..pos]));
      if !fits {
        Outgrown(c, buf, start, pos, negative);
        return false, pos, r;
      }
      result := r;
      pos := pos + 1;
      if pos != |buf| && buf[pos] == '_' {
        NumberStep(buf, start, pos);
        pos := pos + 1;
        if pos == |buf| || !IsDigit(buf[pos]) {
          return false, pos, result;
        }
      }
    }
    ok := true;
  }

  /** The digits behind the point. */
  method ReadFraction(c: Cast, buf: string, start: nat, result: int) returns (ok: bool, pos: nat, st: State)
    requires start <= |buf|
    ensures ok <==> DigitsEnd(buf, start).Some? && (c.op.Simple? ==> DigitsEnd(buf, start) == Some(start))
    ensures ok ==> DigitsEnd(buf, start) == Some(pos) && st == KeptState(c, result, buf[start..pos])
  {
    pos, st := start, State(result, 0, 0);
    assert buf[start..start] == "";
    while pos < |buf| && IsDigit(buf[pos])
      invariant start <= pos <= |buf| && DigitsEnd(buf, pos) == DigitsEnd(buf, start)
      invariant c.op.Simple? ==> pos == start
      invariant st == KeptState(c, result, buf[start..pos])
      decreases |buf| - pos
    {
      KeptStep(c, result, buf, start, pos);
      var decimal, r := HandleDecimal(c, st, DigitOf(buf[pos]));
      if !decimal {
        return false, pos, st;
      }
      st := r;
      pos := pos + 1;
      if pos != |buf| && buf[pos] == '_' {
        KeptStep(c, result, buf, start, pos);
        pos := pos + 1;
        if pos == |buf| || !IsDigit(buf[pos]) {
          return false, pos, st;
        }
      }
    }
    ok := true;
  }

  method OnlySpaces(buf: string, start: nat) returns (ok: bool)
    requires start <= |buf|
    ensures ok <==> AllSpace(buf[start..])
  {
    for pos := start to |buf|
      invariant AllSpace(buf[start..pos])
    {
      if !IsSpace(buf[pos]) {
        assert buf[pos] in buf[start..];
        return false;
      }
      assert buf[start..pos + 1] == buf[start..pos] + [buf[pos]];
    }
    assert buf[start..|buf|] == buf[start..];
    ok := true;
  }

  /** What follows the whole part: a point and digits, or nothing of the number. */
  method ReadBehind(c: Cast, buf: string, start: nat, point: nat, result: int) returns (ok: bool, end: nat, st: State)
    requires start <= point <= |buf|
    ensures ok <==>
            && EndOf(buf, point).Some?
            && var l := Layout(start, point, EndOf(buf, point).value);
               && (l.point < l.end ==> Whole(buf, l) != "" || Fraction(buf, l) != "")
               && (c.op.Simple? ==> Fraction(buf, l) == "")
    ensures ok ==>
            EndOf(buf, point) == Some(end) && st == KeptState(c, result, Fraction(buf, Layout(start, point, end)))
  {
    end, st := point, State(result, 0, 0);
    if point < |buf| && buf[point] == '.' {
      ok, end, st := ReadFraction(c, buf, point + 1, result);
      if ok && !(point > start || end > point + 1) {
        ok := false;
      }
    } else {
      ok := true;
    }
  }

  /** The number a text starts with. */
  method ReadNumber(c: Cast, buf: string, negative: bool) returns (ok: bool, l: Layout, st: State)
    requires WfCast(c) && (negative ==> buf != "")
    requires negative && c.store.min == 0 ==> forall i | 1 <= i < |buf| :: buf[i] == '0'
    ensures ok <==>
            && LayoutOf(buf, negative).Some? && Readable(c.op.Simple?, buf, LayoutOf(buf, negative).value)
            && Fits(c.store, Signed(negative, Number(Whole(buf, LayoutOf(buf, negative).value))))
    ensures ok ==> LayoutOf(buf, negative) == Some(l)
    ensures ok ==> st == KeptState(c, Signed(negative, Number(Whole(buf, l))), Fraction(buf, l))
  {
    var start := StartOf(buf, negative);
    var whole, point, result := ReadWhole(c, buf, start, negative);
    l, st := Layout(start, point, point), State(result, 0, 0);
    if !whole {
      return false, l, st;
    }
    var fraction, end, read := ReadBehind(c, buf, start, point, result);
    ok, l, st := fraction, Layout(start, point, end), read;
  }

  method FinishAt(c: Cast, buf: string, negative: bool, l: Layout, st: State, ghost f: Meaning) returns (r: Option<int>)
    requires l.start <= l.point <= l.end <= |buf| && Fits(c.store, Signed(negative, Number(Whole(buf, l))))
    requires st == KeptState(c, Signed(negative, Number(Whole(buf, l))), Fraction(buf, l))
             && f == MeaningOf(c, negative)
    ensures r == if Ends(buf, l) then f(Whole(buf, l), Fraction(buf, l), None) else None
  {
    var ends := l.end > l.start;
    if l.end < |buf| {
      ends := OnlySpaces(buf, l.end);
    }
    r := Finalize(c, st, negative);
    if !ends {
      r := None;
    }
  }

  /** A number that does not fit is cast to nothing, whatever follows it. */
  lemma Unfit(c: Cast, buf: string, negative: bool, allowExponent: bool)
    requires negative ==> buf != ""
    requires var l := LayoutOf(buf, negative);
             l.Some? && Readable(c.op.Simple?, buf, l.value) ==>
               !Fits(c.store, Signed(negative, Number(Whole(buf, l.value))))
    ensures CastOf(c, buf, negative, allowExponent) == None
  {
    var l := LayoutOf(buf, negative);
    if l.Some? && Readable(c.op.Simple?, buf, l.value) {
      var whole, fraction := Whole(buf, l.value), Fraction(buf, l.value);
      assert forall x :: MeaningOf(c, negative)(whole, fraction, x) == None;
    }
  }

  /** `cast_loop`: over every text, what its layout and digits spell. */
  method CastLoop(c: Cast, buf: string, negative: bool, allowExponent: bool) returns (r: Option<int>)
    requires WfCast(c) && (negative ==> buf != "") && (c.op.Simple? ==> !allowExponent)
    requires negative && c.store.min == 0 ==> forall i | 1 <= i < |buf| :: buf[i] == '0'
    ensures r == CastOf(c, buf, negative, allowExponent)
    decreases allowExponent, 1
  {
    ghost var f := MeaningOf(c, negative);
    var ok, l, st := ReadNumber(c, buf, negative);
    if !ok {
      Unfit(c, buf, negative, allowExponent);
      return None;
    }
    if l.end == |buf| || IsSpace(buf[l.end]) {
      EndBranch(c.op.Simple?, buf, negative, allowExponent, l, f);
      r := FinishAt(c, buf, negative, l, st, f);
      return;
    }
    NoBranch(c.op.Simple?, buf, negative, allowExponent, l, f);
    if allowExponent && buf[l.end] in "eE" {
      if l.end == l.start || l.end + 1 >= |buf| {
        return None;
      }
      r := CastExponent(c, buf, negative, l, st, f);
      return;
    }
    return None;
  }

  method CastExponent(c: Cast, buf: string, negative: bool, l: Layout, st: State,
          ghost f: Meaning) returns (r: Option<int>)
    requires WfCast(c) && c.op.Decimal? && buf != "" && LayoutOf(buf, negative) == Some(l)
             && Fits(c.store, Signed(negative, Number(Whole(buf, l))))
    requires st == KeptState(c, Signed(negative, Number(Whole(buf, l))), Fraction(buf, l))
             && f == MeaningOf(c, negative)
    requires Readable(false, buf, l) && HasExponent(buf, l)
    ensures r == CastWith(false, buf, negative, true, f)
    decreases true, 0
  {
    var text := buf[l.end + 1..];
    var x := ReadExponent(text);
    ExponentStep(buf, negative, l, f, text, x);
    if x.None? {
      return None;
    }
    KeptFits(c, Fraction(buf, l));
    r := HandleExponent(c, st, negative, x.value, Number(Whole(buf, l)));
  }

  lemma ExponentStep(buf: string, negative: bool, l: Layout, f: Meaning, text: string, x: Option<int>)
    requires buf != "" && LayoutOf(buf, negative) == Some(l) && Readable(false, buf, l) && HasExponent(buf, l)
    requires text == buf[l.end + 1..] && text != "" && ExponentOf(text) == x
    ensures CastWith(false, buf, negative, true, f) == if x.Some? then f(Whole(buf, l), Fraction(buf, l), x) else None
  {
  }

  lemma EndBranch(plain: bool, buf: string, negative: bool, allowExponent: bool, l: Layout, f: Meaning)
    requires (negative ==> buf != "") && LayoutOf(buf, negative) == Some(l) && Readable(plain, buf, l)
    requires l.end == |buf| || IsSpace(buf[l.end])
    ensures CastWith(plain, buf, negative, allowExponent, f) == if Ends(buf, l) then
            f(Whole(buf, l), Fraction(buf, l), None) else None
  {
  }

  lemma NoBranch(plain: bool, buf: string, negative: bool, allowExponent: bool, l: Layout, f: Meaning)
    requires (negative ==> buf != "") && LayoutOf(buf, negative) == Some(l) && Readable(plain, buf, l)
    requires l.end < |buf| && !IsSpace(buf[l.end])
    ensures !(allowExponent && HasExponent(buf, l)) ==> CastWith(plain, buf, negative, allowExponent, f) == None
  {
    assert buf[l.end] in buf[l.end..];
  }

  method ReadExponent(text: string) returns (x: Option<int>)
    requires text != ""
    ensures x == ExponentOf(text)
    decreases false, 2
  {
    x := CastLoop(EXPONENT, text, text[0] == '-', false);
  }

  // ----- Hexadecimal and binary -----

  function RadixDigit(ch: char, radix: nat): Option<nat> {
    var d := if IsDigit(ch) then DigitOf(ch)
             else if 'a' <= ch <= 'f' then ch as int - 'a' as int + 10
             else if 'A' <= ch <= 'F' then ch as int - 'A' as int + 10
             else radix;
    if d < radix then Some(d) else None
  }

  /** The number from `pos` on, after `acc`; a `_` stands only between two digits. */
  function RadixNumber(buf: string, pos: nat, radix: nat, acc: nat): (v: Option<nat>)
    requires pos <= |buf| && (radix == 2 || radix == 16)
    ensures v.Some? ==> acc <= v.value
    decreases |buf| - pos
  {
    if pos == |buf| then Some(acc)
    else
      var digit := RadixDigit(buf[pos], radix);
      if digit.None? then None
      else
        var acc' := radix * acc + digit.value;
        if pos + 1 < |buf| && buf[pos + 1] == '_' then
          if pos + 2 < |buf| && RadixDigit(buf[pos + 2], radix).Some? then RadixNumber(buf, pos + 2, radix, acc')
            else None
        else RadixNumber(buf, pos + 1, radix, acc')
  }

  function RadixOf(c: Cast, buf: string, radix: nat): Option<int>
    requires buf != "" && (radix == 2 || radix == 16)
  {
    var v := RadixNumber(buf, 1, radix, 0);
    if |buf| > 1 && v.Some? && Fits(c.result, v.value) then Some(v.value) else None
  }

  lemma RadixGuard(result: nat, max: nat, digit: nat, radix: nat)
    requires (radix == 2 || radix == 16) && digit < radix && 99 <= max
    ensures result > Quotient(max - digit, radix) <==> radix * result + digit > max
  {
  }

  /** One digit of the loop. */
  lemma RadixUnfolds(buf: string, pos: nat, radix: nat, acc: nat, digit: nat, next: nat)
    requires (radix == 2 || radix == 16) && pos < |buf| && RadixDigit(buf[pos], radix) == Some(digit)
             && next == radix * acc + digit
    ensures pos + 1 == |buf| ==> RadixNumber(buf, pos, radix, acc) == Some(next)
    ensures pos + 1 < |buf| && buf[pos + 1] != '_' ==>
            RadixNumber(buf, pos, radix, acc) == RadixNumber(buf, pos + 1, radix, next)
    ensures pos + 1 < |buf| && buf[pos + 1] == '_' ==>
              RadixNumber(buf, pos, radix, acc) ==
              if pos + 2 < |buf| && RadixDigit(buf[pos + 2], radix).Some? then RadixNumber(buf, pos + 2, radix, next)
                else None
    ensures RadixNumber(buf, pos, radix, acc).Some? ==> next <= RadixNumber(buf, pos, radix, acc).value
  {
  }

  /** A digit's value joined to those before it, unless that leaves the store type. */
  method HandleRadixDigit(c: Cast, result: nat, radix: nat, digit: nat) returns (ok: bool, r: nat)
    requires WfCast(c) && (radix == 2 || radix == 16) && digit < radix
    ensures ok <==> radix * result + digit <= c.store.max
    ensures ok ==> r == radix * result + digit
  {
    RadixGuard(result, c.store.max, digit, radix);
    r := result;
    if result > Quotient(c.store.max - digit, radix) {
      return false, r;
    }
    ok, r := true, result * radix + digit;
  }

  /** `radix_loop`, with its check of every digit against the store type. */
  method RadixLoop(c: Cast, buf: string, radix: nat) returns (r: Option<int>)
    requires WfCast(c) && buf != "" && (radix == 2 || radix == 16)
    ensures r == RadixOf(c, buf, radix)
  {
    var pos, result := 1, 0;
    ghost var whole := RadixNumber(buf, 1, radix, 0);
    while pos < |buf|
      invariant 1 <= pos <= |buf| && 0 <= result <= c.store.max
      invariant RadixNumber(buf, pos, radix, result) == whole
      decreases |buf| - pos
    {
      var digit := RadixDigit(buf[pos], radix);
      if digit.None? {
        return None;
      }
      ghost var at, acc := pos, result;
      var ok, next := HandleRadixDigit(c, result, radix, digit.value);
      RadixUnfolds(buf, at, radix, acc, digit.value, radix * acc + digit.value);
      pos := pos + 1;
      if pos != |buf| && buf[pos] == '_' {
        pos := pos + 1;
        if pos == |buf| || RadixDigit(buf[pos], radix).None? {
          return None;
        }
      }
      if !ok {
        return None;
      }
      result := next;
    }
    FinalRounds(c, State(result, 0, 0), false, result);
    r := Finalize(c, State(result, 0, 0), false);
    if pos <= 1 {
      r := None;
    }
  }

  // ----- The casts -----

  function Trimmed(input: string): string {
    if input != "" && IsSpace(input[0]) then Trimmed(input[1..]) else input
  }

  predicate AllZero(t: string) {
    forall ch | ch in t :: ch == '0'
  }

  predicate HasRadix(buf: string) {
    |buf| > 1 && buf[0] == '0' && buf[1] in "xXbB"
  }

  function TryOf(c: Cast, input: string, allowExponent: bool): Option<int> {
    var buf := Trimmed(input);
    if buf == "" then None
    else if buf[0] == '-' then if c.store.min == 0 && !AllZero(buf[1..]) then None
      else CastOf(c, buf, true, allowExponent)
    else if HasRadix(buf) then RadixOf(c, buf[1..], if buf[1] in "xX" then 16 else 2)
    else CastOf(c, buf, false, allowExponent)
  }

  method TryCast(c: Cast, input: string, allowExponent: bool) returns (r: Option<int>)
    requires WfCast(c) && (c.op.Simple? ==> !allowExponent)
    ensures r == TryOf(c, input, allowExponent)
  {
    var start := 0;
    while start < |input| && IsSpace(input[start])
      invariant start <= |input| && Trimmed(input[start..]) == Trimmed(input)
    {
      assert input[start..][1..] == input[start + 1..];
      start := start + 1;
    }
    var buf := input[start..];
    assert Trimmed(buf) == buf;
    if buf == "" {
      return None;
    }
    if buf[0] == '-' {
      if c.store.min == 0 && !AllZero(buf[1..]) {
        return None;
      }
      assert AllZero(buf[1..]) ==> forall i | 1 <= i < |buf| :: buf[i] in buf[1..];
      r := CastLoop(c, buf, true, allowExponent);
    } else if HasRadix(buf) {
      r := RadixLoop(c, buf[1..], if buf[1] in "xX" then 16 else 2);
    } else {
      r := CastLoop(c, buf, false, allowExponent);
    }
  }

  const UBIGINT := Cast(Decimal, UINT64, UINT64)
  const TINYINT := Cast(Decimal, INT64, INT8)

  /** A cast as a plain integer, then with a fraction or an exponent. */
  method VarcharToUbigint(input: string) returns (r: Option<int>)
    ensures r == TryOf(UBIGINT, input, true)
  {
    r := TryCast(Cast(Simple, UINT64, UINT64), input, false);
    if r.None? {
      r := TryCast(UBIGINT, input, true);
    } else {
      PlainAgrees(Cast(Simple, UINT64, UINT64), UBIGINT, input);
    }
  }

  method VarcharToTinyint(input: string) returns (r: Option<int>)
    ensures r == TryOf(TINYINT, input, true)
  {
    r := TryCast(Cast(Simple, INT8, INT8), input, false);
    if r.None? {
      r := TryCast(TINYINT, input, true);
    } else {
      PlainAgrees(Cast(Simple, INT8, INT8), TINYINT, input);
    }
  }

  lemma CodeAgrees(plain: Cast, c: Cast, negative: bool, whole: string)
    requires plain.op.Simple? && c.op.Decimal? && plain.store == plain.result == c.result
             && c.store.min <= plain.store.min && plain.store.max <= c.store.max
    requires CodeOf(plain, negative, whole, "", None).Some?
    ensures CodeOf(c, negative, whole, "", None) == CodeOf(plain, negative, whole, "", None)
  {
    assert KeptOf(c, "") == (0, 0);
  }

  lemma CastAgrees(plain: Cast, c: Cast, buf: string, negative: bool)
    requires plain.op.Simple? && c.op.Decimal? && plain.store == plain.result == c.result
    requires c.store.min <= plain.store.min && plain.store.max <= c.store.max && (negative ==> buf != "")
    requires CastOf(plain, buf, negative, false).Some?
    ensures CastOf(c, buf, negative, true) == CastOf(plain, buf, negative, false)
  {
    var l := LayoutOf(buf, negative).value;
    CodeAgrees(plain, c, negative, Whole(buf, l));
    assert MeaningOf(plain, negative)(Whole(buf, l), "", None) == CodeOf(plain, negative, Whole(buf, l), "", None);
    assert MeaningOf(c, negative)(Whole(buf, l), "", None) == CodeOf(c, negative, Whole(buf, l), "", None);
    assert l.end < |buf| ==> buf[l.end] in buf[l.end..];
  }

  /** What the plain cast takes, the other casts to the same. */
  lemma PlainAgrees(plain: Cast, c: Cast, input: string)
    requires plain.op.Simple? && c.op.Decimal? && plain.store == plain.result == c.result
    requires c.store.min <= plain.store.min && plain.store.max <= c.store.max
             && (c.store.min == 0 ==> plain.store.min == 0)
    requires TryOf(plain, input, false).Some?
    ensures TryOf(c, input, true) == TryOf(plain, input, false)
  {
    var buf := Trimmed(input);
    if buf[0] == '-' || !HasRadix(buf) {
      CastAgrees(plain, c, buf, buf[0] == '-');
    }
  }
}
