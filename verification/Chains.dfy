/** Runs of commits, whatever the states are: if each commit keeps what was committed before
    and reports what it changes, then in every run each snapshot that reads otherwise than
    the one before is reported. */
module Chains {
  /** Well-formed states, the commits between them with what each records, the head a state
      is at, what is read of it at a snapshot, and whether a record reports a change. */
  datatype Rules<!K, !M, T> = Rules(
    wf: K -> bool,
    commits: (K, K, M) -> bool,
    head: K -> int,
    read: (K, int) -> T,
    reports: M -> bool)

  ghost predicate SamePast<K, M, T>(r: Rules<K, M, T>, k: K, k': K) {
    forall s | s <= r.head(k) :: r.read(k', s) == r.read(k, s)
  }

  ghost predicate Differ<K, M, T>(r: Rules<K, M, T>, k: K, s: int, k': K, s': int) {
    r.read(k, s) != r.read(k', s')
  }

  /** A snapshot reads otherwise than the one before. */
  ghost predicate Changed<K, M, T>(r: Rules<K, M, T>, last: K, s: int) {
    Differ(r, last, s - 1, last, s)
  }

  ghost predicate IsHonest<K, M, T>(r: Rules<K, M, T>, k: K, k': K, m: M) {
    && r.wf(k') && SamePast(r, k, k')
    && (Differ(r, k, r.head(k), k', r.head(k) + 1) ==> r.reports(m))
  }

  /** Every commit keeps the past, and reports a change of what is read. */
  ghost predicate Honest<K(!new), M(!new), T>(r: Rules<K, M, T>) {
    forall k, k', m | r.wf(k) && r.commits(k, k', m) :: IsHonest(r, k, k', m)
  }

  ghost predicate IsChain<K, M, T>(r: Rules<K, M, T>, ks: seq<K>, ms: seq<M>) {
    && |ks| == |ms| >= 1 && r.wf(ks[0])
    && forall i: nat | i < |ks| :: Follows(r, ks, ms, i)
  }

  ghost predicate Follows<K, M, T>(r: Rules<K, M, T>, ks: seq<K>, ms: seq<M>, i: nat)
    requires |ks| == |ms| && i < |ks|
  {
    r.head(ks[i]) == i && (i > 0 ==> r.commits(ks[i - 1], ks[i], ms[i]))
  }

  lemma {:induction false} ChainWf<K(!new), M(!new), T>(r: Rules<K, M, T>, ks: seq<K>, ms: seq<M>, n: nat)
    requires Honest(r) && IsChain(r, ks, ms) && n < |ks|
    ensures r.wf(ks[n]) && r.head(ks[n]) == n
    ensures n > 0 ==> r.wf(ks[n - 1]) && r.head(ks[n - 1]) == n - 1 && r.commits(ks[n - 1], ks[n], ms[n])
  {
    assert Follows(r, ks, ms, n);
    if n > 0 {
      ChainWf(r, ks, ms, n - 1);
      assert IsHonest(r, ks[n - 1], ks[n], ms[n]);
    }
  }

  /** What was read at a snapshot once stays. */
  lemma {:induction false} PastStays<K(!new), M(!new), T>(r: Rules<K, M, T>, ks: seq<K>, ms: seq<M>, s: nat, n: nat)
    requires Honest(r) && IsChain(r, ks, ms) && s <= n < |ks|
    ensures r.read(ks[n], s) == r.read(ks[s], s)
    decreases n
  {
    if s < n {
      ChainWf(r, ks, ms, n);
      assert IsHonest(r, ks[n - 1], ks[n], ms[n]);
      PastStays(r, ks, ms, s, n - 1);
    }
  }

  /** So a snapshot of any run that reads otherwise than the one before is reported. */
  lemma ChangesShow<K(!new), M(!new), T>(r: Rules<K, M, T>, ks: seq<K>, ms: seq<M>, s: nat)
    requires Honest(r) && IsChain(r, ks, ms) && 1 <= s < |ks|
    requires Changed(r, ks[|ks| - 1], s)
    ensures r.reports(ms[s])
  {
    PastStays(r, ks, ms, s, |ks| - 1);
    PastStays(r, ks, ms, s - 1, |ks| - 1);
    ChainWf(r, ks, ms, s);
    assert IsHonest(r, ks[s - 1], ks[s], ms[s]);
  }

  ghost function ChangedIn<K, M, T>(r: Rules<K, M, T>, last: K): int -> bool {
    s => 1 <= s <= r.head(last) && Changed(r, last, s)
  }

  lemma ChangesAllShow<K(!new), M(!new), T>(r: Rules<K, M, T>, ks: seq<K>, ms: seq<M>, changed: int -> bool)
    requires Honest(r) && IsChain(r, ks, ms) && changed == ChangedIn(r, ks[|ks| - 1])
    ensures forall s | changed(s) :: 1 <= s < |ms| && r.reports(ms[s])
  {
    ChainWf(r, ks, ms, |ks| - 1);
    forall s | changed(s)
      ensures 1 <= s < |ms| && r.reports(ms[s])
    {
      ChangesShow(r, ks, ms, s);
    }
  }

  lemma {:induction false} RepeatsAcross<K, M, T>(r: Rules<K, M, T>, last: K, after: int, end: int)
    requires after <= end && forall s | after < s <= end :: !Changed(r, last, s)
    ensures r.read(last, end) == r.read(last, after)
    decreases end - after
  {
    if after < end {
      assert !Changed(r, last, end);
      RepeatsAcross(r, last, after, end - 1);
    }
  }

  /** Where no snapshot changed, both ends read the same. */
  lemma SameAcross<K, M, T>(r: Rules<K, M, T>, last: K, changed: int -> bool, after: int, end: int)
    requires changed == ChangedIn(r, last) && 0 <= after <= end <= r.head(last)
    requires forall s | after < s <= end :: !changed(s)
    ensures r.read(last, end) == r.read(last, after)
  {
    forall s | after < s <= end
      ensures !Changed(r, last, s)
    {
      assert !changed(s);
    }
    RepeatsAcross(r, last, after, end);
  }
}
