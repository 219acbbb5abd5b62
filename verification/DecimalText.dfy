/** Unsigned 64-bit values stored as decimal text, and their order as padded text. */
module DecimalText {
  import opened Words

  const U64_END := 0x1_0000_0000_0000_0000
  const WIDTH: nat := 20

  type u64 = n: int | 0 <= n < U64_END

  function DigitChar(d: nat): char
    requires d <= 9
  {
    ('0' as int + d) as char
  }

  /** The canonical decimal text of a number. */
  function Decimal(n: nat): string {
    if n < 10 then [DigitChar(n)] else Decimal(n / 10) + [DigitChar(n % 10)]
  }

  /** `lpad(t, 20, '0')`, and SQLite's `substr('0…0' || t, -20, 20)` of 20 zeros: the last
      20 characters of the text after 20 zeros. */
  function Pad(t: string): string {
    var all := Zeros(WIDTH) + t;
    all[|all| - WIDTH..]
  }

  /** Strictly before, byte by byte. */
  predicate Before(a: string, b: string) {
    if a == "" || b == "" then a == "" && b != ""
    else a[0] < b[0] || (a[0] == b[0] && Before(a[1..], b[1..]))
  }

  // ----- Fixed-width digits -----

  function Fixed(n: nat, w: nat): (t: string)
    ensures |t| == w
  {
    if w == 0 then "" else Fixed(n / 10, w - 1) + [DigitChar(n % 10)]
  }

  lemma {:induction false} BeforeLast(a: string, b: string, x: char, y: char)
    requires |a| == |b|
    ensures Before(a + [x], b + [y]) <==> Before(a, b) || (a == b && x < y)
  {
    if a != "" {
      assert (a + [x])[1..] == a[1..] + [x] && (b + [y])[1..] == b[1..] + [y];
      BeforeLast(a[1..], b[1..], x, y);
      assert a == b <==> a[0] == b[0] && a[1..] == b[1..] by {
        assert a == [a[0]] + a[1..] && b == [b[0]] + b[1..];
      }
    }
  }

  /** Digits of one width are ordered, and equal, as the numbers are. */
  lemma {:induction false} FixedOrder(n: nat, m: nat, w: nat)
    requires n < Pow10(w) && m < Pow10(w)
    ensures Before(Fixed(n, w), Fixed(m, w)) <==> n < m
    ensures Fixed(n, w) == Fixed(m, w) <==> n == m
    decreases w
  {
    if w > 0 {
      var a, b := Fixed(n / 10, w - 1), Fixed(m / 10, w - 1);
      var x, y := DigitChar(n % 10), DigitChar(m % 10);
      FixedOrder(n / 10, m / 10, w - 1);
      BeforeLast(a, b, x, y);
      assert a + [x] == b + [y] <==> a == b && x == y by {
        if a + [x] == b + [y] {
          assert (a + [x])[..|a|] == a && (b + [y])[..|a|] == b;
          assert (a + [x])[|a|] == x && (b + [y])[|a|] == y;
        }
      }
    }
  }

  lemma {:induction false} FixedZeros(w: nat)
    ensures Fixed(0, w) == Zeros(w)
  {
    if w > 0 {
      FixedZeros(w - 1);
      assert Zeros(w - 1) + ['0'] == Zeros(w);
    }
  }

  /** The decimal text after enough zeros is the fixed-width text. */
  lemma {:induction false} DecimalPads(n: nat, w: nat)
    requires w >= 1 && n < Pow10(w)
    ensures |Decimal(n)| <= w && Zeros(w - |Decimal(n)|) + Decimal(n) == Fixed(n, w)
    decreases n
  {
    if n < 10 {
      FixedZeros(w - 1);
    } else {
      DecimalPads(n / 10, w - 1);
      var d := Decimal(n / 10);
      assert Zeros(w - 1 - |d|) + (d + [DigitChar(n % 10)]) == (Zeros(w - 1 - |d|) + d) + [DigitChar(n % 10)];
    }
  }

  lemma U64Width()
    ensures U64_END <= Pow10(WIDTH)
  {
    assert Pow10(5) == 100_000;
    assert Pow10(10) == 10_000_000_000;
    assert Pow10(15) == 1_000_000_000_000_000;
    assert Pow10(20) == 100_000_000_000_000_000_000;
  }

  /** A text as the catalog may hold it: canonical, or padded already. */
  predicate Spells(t: string, n: nat) {
    n < U64_END && (t == Decimal(n) || t == Pad(Decimal(n)))
  }

  lemma PadIs(t: string, k: nat)
    requires |t| + k == WIDTH
    ensures Pad(t) == Zeros(k) + t
  {
    var all := Zeros(WIDTH) + t;
    forall i | 0 <= i < WIDTH
      ensures Pad(t)[i] == (Zeros(k) + t)[i]
    {
      assert Pad(t)[i] == all[|t| + i];
    }
  }

  lemma PadIsFixed(t: string, n: nat)
    requires Spells(t, n)
    ensures Pad(t) == Fixed(n, WIDTH)
  {
    U64Width();
    DecimalPads(n, WIDTH);
    PadIs(Decimal(n), WIDTH - |Decimal(n)|);
    if t != Decimal(n) {
      PadIs(t, 0);
    }
  }

  datatype Op = Eq | NotEq | Lt | LtEq | Gt | GtEq

  predicate CompareNat(op: Op, n: int, m: int) {
    match op
    case Eq => n == m
    case NotEq => n != m
    case Lt => n < m
    case LtEq => n <= m
    case Gt => n > m
    case GtEq => n >= m
  }

  predicate CompareText(op: Op, a: string, b: string) {
    match op
    case Eq => a == b
    case NotEq => a != b
    case Lt => Before(a, b)
    case LtEq => Before(a, b) || a == b
    case Gt => Before(b, a)
    case GtEq => Before(b, a) || a == b
  }

  /** Padded to one width, unsigned values compare as text as they do as numbers, for
      every operator and however each was stored. */
  lemma PaddedTextCompares(op: Op, t: string, n: nat, u: string, m: nat)
    requires Spells(t, n) && Spells(u, m)
    ensures CompareText(op, Pad(t), Pad(u)) <==> CompareNat(op, n, m)
  {
    PadIsFixed(t, n);
    PadIsFixed(u, m);
    U64Width();
    FixedOrder(n, m, WIDTH);
    FixedOrder(m, n, WIDTH);
  }

  /** Canonical texts are equal exactly when the values are. */
  lemma CanonicalEquals(n: nat, m: nat)
    requires n < U64_END && m < U64_END
    ensures Decimal(n) == Decimal(m) <==> n == m
  {
    PaddedTextCompares(Eq, Decimal(n), n, Decimal(m), m);
  }

  /** Unpadded, they do not compare as numbers. */
  lemma UnpaddedMisorders()
    ensures CompareText(Lt, Decimal(10), Decimal(9)) && !CompareNat(Lt, 10, 9)
  {
    assert Decimal(10) == "10";
  }
}
