/** Sums of multisets, and filters of sequences: the two shapes every catalog
    read below is made of. */
module Bags {

  ghost function Sum<T, R>(xs: seq<T>, g: T -> multiset<R>): multiset<R> {
    if xs == [] then multiset{} else g(xs[0]) + Sum(xs[1..], g)
  }

  /** `g(0) + ... + g(n - 1)`. */
  ghost function SumTo<R>(n: nat, g: int -> multiset<R>): multiset<R> {
    if n == 0 then multiset{} else SumTo(n - 1, g) + g(n - 1)
  }

  function Filter<T>(xs: seq<T>, keep: T -> bool): seq<T> {
    if xs == [] then []
    else if keep(xs[0]) then [xs[0]] + Filter(xs[1..], keep)
    else Filter(xs[1..], keep)
  }

  lemma Cancel<R>(a: multiset<R>, b: multiset<R>, m: multiset<R>)
    requires a + m == b + m
    ensures a == b
  {
    forall x
      ensures a[x] == b[x]
    {
      assert (a + m)[x] == (b + m)[x];
    }
  }

  lemma Witness<T>(xs: set<T>) returns (x: T)
    requires xs != {}
    ensures x in xs
  {
    x :| x in xs;
  }

  function Not<T>(keep: T -> bool): T -> bool {
    x => !keep(x)
  }

  lemma {:induction false} SumConcat<T, R>(xs: seq<T>, ys: seq<T>, g: T -> multiset<R>)
    ensures Sum(xs + ys, g) == Sum(xs, g) + Sum(ys, g)
  {
    if xs == [] {
      assert xs + ys == ys;
    } else {
      assert (xs + ys)[1..] == xs[1..] + ys;
      SumConcat(xs[1..], ys, g);
    }
  }

  lemma {:induction false} SumExt<T, R>(xs: seq<T>, g: T -> multiset<R>, h: T -> multiset<R>)
    requires forall x | x in xs :: g(x) == h(x)
    ensures Sum(xs, g) == Sum(xs, h)
  {
    if xs != [] {
      SumExt(xs[1..], g, h);
    }
  }

  /** A sum splits over any filter of its terms. */
  lemma {:induction false} SumSplit<T, R>(xs: seq<T>, keep: T -> bool, g: T -> multiset<R>)
    ensures Sum(xs, g) == Sum(Filter(xs, keep), g) + Sum(Filter(xs, Not(keep)), g)
  {
    if xs != [] {
      SumSplit(xs[1..], keep, g);
      var rest := Filter(xs[1..], keep);
      var drop := Filter(xs[1..], Not(keep));
      if keep(xs[0]) {
        assert ([xs[0]] + rest)[1..] == rest;
      } else {
        assert ([xs[0]] + drop)[1..] == drop;
      }
    }
  }

  /** Replacing each term by another sequence's term of the same value. */
  lemma {:induction false} SumMap<T, U, R>(xs: seq<T>, ys: seq<U>, g: T -> multiset<R>, h: U -> multiset<R>)
    requires |xs| == |ys|
    requires forall i | 0 <= i < |xs| :: g(xs[i]) == h(ys[i])
    ensures Sum(xs, g) == Sum(ys, h)
  {
    if xs != [] {
      SumMap(xs[1..], ys[1..], g, h);
    }
  }

  lemma {:induction false} SumEmpty<T, R>(xs: seq<T>, g: T -> multiset<R>)
    requires forall x | x in xs :: g(x) == multiset{}
    ensures Sum(xs, g) == multiset{}
  {
    if xs != [] {
      SumEmpty(xs[1..], g);
    }
  }

  lemma {:induction false} SumNothing<T, R>(xs: seq<T>, g: T -> multiset<R>)
    ensures Sum(xs, g) == multiset{} <==> forall x | x in xs :: g(x) == multiset{}
  {
    if xs != [] {
      SumNothing(xs[1..], g);
      assert forall x :: x in xs <==> x == xs[0] || x in xs[1..];
      assert |Sum(xs, g)| == |g(xs[0])| + |Sum(xs[1..], g)|;
    }
  }

  lemma {:induction false} SumAdd<T, R>(xs: seq<T>, f: T -> multiset<R>, g: T -> multiset<R>, h: T -> multiset<R>)
    requires forall x | x in xs :: f(x) == g(x) + h(x)
    ensures Sum(xs, f) == Sum(xs, g) + Sum(xs, h)
  {
    if xs != [] {
      SumAdd(xs[1..], f, g, h);
    }
  }

  /** Where only term `k` differs, so does the sum, by that term. */
  lemma {:induction false} SumAt<T, U, R>(xs: seq<T>, ys: seq<U>, k: nat, g: T -> multiset<R>, h: U -> multiset<R>)
    requires k < |xs| == |ys|
    requires forall i | 0 <= i < |xs| && i != k :: g(xs[i]) == h(ys[i])
    ensures Sum(xs, g) + h(ys[k]) == Sum(ys, h) + g(xs[k])
  {
    if k == 0 {
      SumMap(xs[1..], ys[1..], g, h);
    } else {
      SumAt(xs[1..], ys[1..], k - 1, g, h);
      calc {
        Sum(xs, g) + h(ys[k]);
        g(xs[0]) + (Sum(xs[1..], g) + h(ys[1..][k - 1]));
        g(xs[0]) + (Sum(ys[1..], h) + g(xs[1..][k - 1]));
        Sum(ys, h) + g(xs[k]);
      }
    }
  }

  lemma {:induction false} SumToExt<R>(n: nat, g: int -> multiset<R>, h: int -> multiset<R>)
    requires forall i | 0 <= i < n :: g(i) == h(i)
    ensures SumTo(n, g) == SumTo(n, h)
  {
    if n > 0 {
      SumToExt(n - 1, g, h);
    }
  }

  lemma {:induction false} SumToAdd<R>(n: nat, f: int -> multiset<R>, g: int -> multiset<R>, h: int -> multiset<R>)
    requires forall i | 0 <= i < n :: f(i) == g(i) + h(i)
    ensures SumTo(n, f) == SumTo(n, g) + SumTo(n, h)
  {
    if n > 0 {
      SumToAdd(n - 1, f, g, h);
    }
  }

  lemma {:induction false} SumToEmpty<R>(n: nat, g: int -> multiset<R>)
    requires forall i | 0 <= i < n :: g(i) == multiset{}
    ensures SumTo(n, g) == multiset{}
  {
    if n > 0 {
      SumToEmpty(n - 1, g);
    }
  }

  lemma {:induction false} FilterMembers<T>(xs: seq<T>, keep: T -> bool)
    ensures forall x :: x in Filter(xs, keep) <==> x in xs && keep(x)
    ensures forall i | 0 <= i < |Filter(xs, keep)| :: Filter(xs, keep)[i] in xs
  {
    if xs != [] {
      FilterMembers(xs[1..], keep);
      assert forall x :: x in xs <==> x == xs[0] || x in xs[1..];
    }
  }

  lemma {:induction false} FilterNone<T>(xs: seq<T>, keep: T -> bool)
    requires forall x | x in xs :: !keep(x)
    ensures Filter(xs, keep) == []
  {
    if xs != [] {
      FilterNone(xs[1..], keep);
    }
  }

  lemma {:induction false} FilterConcat<T>(xs: seq<T>, ys: seq<T>, keep: T -> bool)
    ensures Filter(xs + ys, keep) == Filter(xs, keep) + Filter(ys, keep)
  {
    if xs == [] {
      assert xs + ys == ys;
    } else {
      assert (xs + ys)[1..] == xs[1..] + ys;
      FilterConcat(xs[1..], ys, keep);
    }
  }

  lemma TakeOut<T>(ys: seq<T>, k: nat)
    requires k < |ys|
    ensures multiset(ys) == multiset(ys[..k] + ys[k + 1..]) + multiset{ys[k]}
  {
    assert ys == ys[..k] + [ys[k]] + ys[k + 1..];
  }

  lemma SumTakeOut<T, R>(ys: seq<T>, k: nat, g: T -> multiset<R>)
    requires k < |ys|
    ensures Sum(ys, g) == g(ys[k]) + Sum(ys[..k] + ys[k + 1..], g)
  {
    var a, x, z := ys[..k], ys[k], ys[k + 1..];
    assert ys == a + ([x] + z);
    SumConcat(a, [x] + z, g);
    SumFirst(x, z, g);
    SumConcat(a, z, g);
    FirstAside(Sum(a, g), g(x), Sum(z, g));
  }

  lemma SumFirst<T, R>(x: T, z: seq<T>, g: T -> multiset<R>)
    ensures Sum([x] + z, g) == g(x) + Sum(z, g)
  {
    assert ([x] + z)[1..] == z;
  }

  lemma FirstAside<R>(a: multiset<R>, x: multiset<R>, z: multiset<R>)
    ensures a + (x + z) == x + (a + z)
  {
  }

  /** A sum does not depend on the order of its terms. */
  lemma {:induction false} SumPermute<T, R>(xs: seq<T>, ys: seq<T>, g: T -> multiset<R>)
    requires multiset(xs) == multiset(ys)
    ensures Sum(xs, g) == Sum(ys, g)
    decreases |xs|
  {
    if xs == [] {
      assert |multiset(ys)| == 0;
    } else {
      assert xs[0] in multiset(ys);
      var k :| 0 <= k < |ys| && ys[k] == xs[0];
      var rest := ys[..k] + ys[k + 1..];
      TakeOut(xs, 0);
      TakeOut(ys, k);
      assert xs[..0] + xs[1..] == xs[1..];
      Cancel(multiset(xs[1..]), multiset(rest), multiset{xs[0]});
      SumPermute(xs[1..], rest, g);
      SumTakeOut(ys, k, g);
    }
  }

  /** A row is in a sum exactly when it is in a term of it. */
  lemma {:induction false} SumIn<T, R>(xs: seq<T>, g: T -> multiset<R>, r: R)
    ensures r in Sum(xs, g) <==> exists x | x in xs :: r in g(x)
  {
    if xs != [] {
      SumIn(xs[1..], g, r);
      assert forall x :: x in xs <==> x == xs[0] || x in xs[1..];
    }
  }

  lemma {:induction false} SumToIn<R>(n: nat, g: int -> multiset<R>, r: R)
    ensures r in SumTo(n, g) <==> exists i | 0 <= i < n :: r in g(i)
  {
    if n > 0 {
      SumToIn(n - 1, g, r);
    }
  }

  predicate Distinct<T(==)>(xs: seq<T>) {
    forall i, j | 0 <= i < j < |xs| :: xs[i] != xs[j]
  }

  lemma {:induction false} DistinctOnce<T>(xs: seq<T>, x: T)
    requires Distinct(xs)
    ensures multiset(xs)[x] == (if x in xs then 1 else 0)
  {
    if xs != [] {
      assert xs == [xs[0]] + xs[1..];
      DistinctOnce(xs[1..], x);
    }
  }

  /** Two lists of the same distinct elements are permutations of each other. */
  lemma SameMembers<T>(xs: seq<T>, ys: seq<T>)
    requires Distinct(xs) && Distinct(ys)
    requires forall x :: x in xs <==> x in ys
    ensures multiset(xs) == multiset(ys)
  {
    forall x
      ensures multiset(xs)[x] == multiset(ys)[x]
    {
      DistinctOnce(xs, x);
      DistinctOnce(ys, x);
    }
  }

  /** Every earlier element is related to every later one. */
  ghost predicate Pairwise<T>(xs: seq<T>, rel: (T, T) -> bool) {
    forall i, j | 0 <= i < j < |xs| :: rel(xs[i], xs[j])
  }

  lemma {:induction false} FilterPairwise<T>(xs: seq<T>, keep: T -> bool, rel: (T, T) -> bool)
    requires Pairwise(xs, rel)
    ensures Pairwise(Filter(xs, keep), rel)
  {
    if xs != [] {
      FilterPairwise(xs[1..], keep, rel);
      FilterMembers(xs[1..], keep);
      var all, rest := Filter(xs, keep), Filter(xs[1..], keep);
      forall i, j | 0 <= i < j < |all|
        ensures rel(all[i], all[j])
      {
        if keep(xs[0]) {
          assert all[j] == rest[j - 1] && rest[j - 1] in rest;
          assert rest[j - 1] in xs[1..];
          var m :| 0 <= m < |xs[1..]| && xs[1..][m] == rest[j - 1];
          assert if i > 0 then all[i] == rest[i - 1] else rel(xs[0], xs[m + 1]);
        }
      }
    }
  }

  lemma SumLast<T, R>(xs: seq<T>, g: T -> multiset<R>)
    requires xs != []
    ensures Sum(xs, g) == Sum(xs[..|xs| - 1], g) + g(xs[|xs| - 1])
  {
    var front, last := xs[..|xs| - 1], xs[|xs| - 1];
    assert xs == front + [last];
    SumConcat(front, [last], g);
    assert Sum([last], g) == g(last);
  }

  lemma {:induction false} SumSeq<T, R>(xs: seq<T>, g: T -> multiset<R>, h: int -> multiset<R>)
    requires forall i | 0 <= i < |xs| :: h(i) == g(xs[i])
    ensures SumTo(|xs|, h) == Sum(xs, g)
  {
    if xs != [] {
      var front, last := xs[..|xs| - 1], xs[|xs| - 1];
      SumSeq(front, g, h);
      SumLast(xs, g);
    }
  }

  lemma SumAppend<T, R>(xs: seq<T>, x: T, g: T -> multiset<R>)
    ensures Sum(xs + [x], g) == Sum(xs, g) + g(x)
  {
    SumLast(xs + [x], g);
    assert (xs + [x])[..|xs|] == xs;
  }

  ghost predicate Loses<T, R>(xs: seq<T>, ys: seq<T>, f: T -> multiset<R>, gone: int -> multiset<R>, i: int) {
    0 <= i < |xs| && i < |ys| ==> f(xs[i]) == f(ys[i]) + gone(i)
  }

  /** Place by place a part is gone, so of the sum all the parts are. */
  lemma {:induction false} SumLoses<T, R>(xs: seq<T>, ys: seq<T>, f: T -> multiset<R>, gone: int -> multiset<R>)
    requires |xs| == |ys| && forall i :: Loses(xs, ys, f, gone, i)
    ensures Sum(xs, f) == Sum(ys, f) + SumTo(|xs|, gone)
    decreases |xs|
  {
    if xs != [] {
      var n := |xs| - 1;
      forall i
        ensures Loses(xs[..n], ys[..n], f, gone, i)
      {
        assert Loses(xs, ys, f, gone, i);
      }
      SumLoses(xs[..n], ys[..n], f, gone);
      assert Loses(xs, ys, f, gone, n);
      SumLast(xs, f);
      SumLast(ys, f);
    }
  }

  ghost predicate GrowsBy<T, R>(sums: int -> multiset<R>, xs: seq<T>, g: T -> multiset<R>, j: int) {
    0 <= j < |xs| && sums(j + 1) == sums(j) + g(xs[j])
  }

  lemma GrowsFrom<T, R>(sums: int -> multiset<R>, xs: seq<T>, g: T -> multiset<R>, j: int, before: multiset<R>)
    requires 0 <= j < |xs| && sums(j) == before && sums(j + 1) == before + g(xs[j])
    ensures GrowsBy(sums, xs, g, j)
  {
  }

  /** What starts from nothing and grows by each element's part is the sum. */
  lemma {:induction false} Telescopes<T, R>(sums: int -> multiset<R>, xs: seq<T>, g: T -> multiset<R>, k: nat)
    requires k <= |xs| && sums(0) == multiset{} && forall j | 0 <= j < k :: GrowsBy(sums, xs, g, j)
    ensures sums(k) == Sum(xs[..k], g)
  {
    if k > 0 {
      Telescopes(sums, xs, g, k - 1);
      assert GrowsBy(sums, xs, g, k - 1);
      assert xs[..k] == xs[..k - 1] + [xs[k - 1]];
      SumAppend(xs[..k - 1], xs[k - 1], g);
    }
  }

  ghost predicate CountsBy<T, R>(totals: int -> int, xs: seq<T>, g: T -> multiset<R>, exact: T -> bool, j: int) {
    && 0 <= j < |xs| && totals(j + 1) - totals(j) <= |g(xs[j])|
    && (totals(j + 1) - totals(j) == |g(xs[j])| <==> exact(xs[j]))
  }

  /** A total that counts no element's part too high is never above the sum's size, and
      reaches it exactly when every element is counted exactly. */
  lemma {:induction false} CountsUp<T, R>(totals: int -> int, xs: seq<T>, g: T -> multiset<R>, exact: T -> bool, k: nat)
    requires k <= |xs| && totals(0) == 0 && forall j | 0 <= j < k :: CountsBy(totals, xs, g, exact, j)
    ensures totals(k) <= |Sum(xs[..k], g)|
    ensures totals(k) == |Sum(xs[..k], g)| <==> forall j | 0 <= j < k :: exact(xs[j])
  {
    if k > 0 {
      CountsUp(totals, xs, g, exact, k - 1);
      assert CountsBy(totals, xs, g, exact, k - 1);
      assert xs[..k] == xs[..k - 1] + [xs[k - 1]];
      SumAppend(xs[..k - 1], xs[k - 1], g);
    }
  }

  // ----- Sequences of sequences -----

  function Flatten<T>(xss: seq<seq<T>>): seq<T> {
    if xss == [] then [] else xss[0] + Flatten(xss[1..])
  }

  lemma {:induction false} FlattenConcat<T>(xss: seq<seq<T>>, yss: seq<seq<T>>)
    ensures Flatten(xss + yss) == Flatten(xss) + Flatten(yss)
  {
    if xss == [] {
      assert xss + yss == yss;
    } else {
      assert (xss + yss)[1..] == xss[1..] + yss;
      FlattenConcat(xss[1..], yss);
    }
  }
}
