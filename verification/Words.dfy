/** Powers of ten, and 64-bit unsigned arithmetic: what `usize` sums do at the top of their
    range. */
module Words {
  function Pow10(n: nat): (p: nat)
    ensures p >= 1
  {
    if n == 0 then 1 else 10 * Pow10(n - 1)
  }

  function Zeros(k: nat): string {
    seq(k, i => '0')
  }

  const I64_MAX := 0x7FFF_FFFF_FFFF_FFFF
  const USIZE_MAX := 0xFFFF_FFFF_FFFF_FFFF

  function SaturatingAdd(a: nat, b: nat): nat {
    if a + b <= USIZE_MAX then a + b else USIZE_MAX
  }

  function SaturatingMul(a: nat, b: nat): nat {
    if a * b <= USIZE_MAX then a * b else USIZE_MAX
  }

  /** The sum or difference kept in 64 bits. */
  function Wrap64(n: int): (r: nat)
    ensures r <= USIZE_MAX && (0 <= n <= USIZE_MAX ==> r == n)
  {
    n % (USIZE_MAX + 1)
  }

  /** A saturating test against a budget lets a sum through that does not fit the word if
      and only if the budget is the largest word. */
  lemma TestedSumFits(held: nat, size: nat, max: nat)
    requires held <= max <= USIZE_MAX && SaturatingAdd(held, size) <= max
    ensures Wrap64(held + size) == held + size <= max <==> max < USIZE_MAX || held + size <= USIZE_MAX
  {
  }

  lemma Residue(x: int, q: int, r: int)
    requires x == q * (USIZE_MAX + 1) + r && 0 <= r <= USIZE_MAX
    ensures Wrap64(x) == r
  {
  }

  lemma WrapAdds(a: int, b: int)
    ensures Wrap64(Wrap64(a) + b) == Wrap64(a + b)
  {
    var m := USIZE_MAX + 1;
    Residue(Wrap64(a) + b, (a + b) / m - a / m, Wrap64(a + b));
  }

  /** A total kept in 64 bits, a part of it replaced: the kept sum stays the total's, and
      from within the budget it leaves it only past the largest word. */
  lemma Replaces(total: nat, replaced: nat, size: nat, max: nat)
    requires replaced <= total && max <= USIZE_MAX
    ensures var held := Wrap64(Wrap64(total) - replaced);
            && Wrap64(held + size) == Wrap64(total - replaced + size)
            && (total <= max && SaturatingAdd(held, size) <= max ==>
                  (total - replaced + size <= max <==> max < USIZE_MAX || total - replaced + size <= USIZE_MAX))
  {
    WrapAdds(total, 0 - replaced);
    WrapAdds(total - replaced, size);
  }
}
