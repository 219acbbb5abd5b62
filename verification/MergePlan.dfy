/** The planning of `merge_adjacent_files`: bin packing and the row-id range a bin
    may keep. */
module MergePlan {
  import opened Bags
  import opened Lake
  import opened Words

  /** The normalized partition identity of a file. */
  datatype PartitionKey = PartitionKey(partition: Option<int>, values: seq<Option<string>>)

  /** A file of the table's listing. */
  datatype Candidate = Candidate(
    id: int,
    size: nat,
    version: Option<int>,
    partition: PartitionKey,
    begin: Option<int>,
    deleteFile: Option<int>,
    rowIdStart: Option<int>,
    rowCount: Option<nat>)

  datatype Options = Options(minSize: nat, target: nat, maxFiles: nat)

  predicate SameGroup(a: Candidate, b: Candidate) {
    a.version == b.version && a.partition == b.partition
  }

  /** The bytes of `xs[lo..hi]`. */
  function Total(xs: seq<Candidate>, lo: nat, hi: nat): nat
    requires hi <= |xs|
    decreases hi
  {
    if hi <= lo then 0 else Total(xs, lo, hi - 1) + xs[hi - 1].size
  }

  // ----- Bin packing -----

  datatype Span = Span(lo: nat, hi: nat)

  /** Where the run that starts at `lo`, and has reached `i`, ends. */
  function RunEnd(xs: seq<Candidate>, target: nat, lo: nat, i: nat): (hi: nat)
    requires lo <= i <= |xs| && lo < |xs|
    ensures i <= hi <= |xs|
    decreases |xs| - i
  {
    if i == |xs| || !SameGroup(xs[lo], xs[i]) then i
    else if Total(xs, lo, i + 1) >= target then i + 1
    else RunEnd(xs, target, lo, i + 1)
  }

  /** The runs the candidates from `i` on fall into. */
  function Runs(xs: seq<Candidate>, target: nat, i: nat): seq<Span>
    requires i <= |xs|
    decreases |xs| - i
  {
    if i == |xs| then []
    else
      var hi := RunEnd(xs, target, i, i + 1);
      var end := if Total(xs, i, i + 1) >= target then i + 1 else hi;
      [Span(i, end)] + Runs(xs, target, end)
  }

  /** The runs of two or more files. */
  function Bins(xs: seq<Candidate>, runs: seq<Span>): seq<seq<Candidate>>
  {
    if runs == [] then []
    else (if runs[0].lo + 2 <= runs[0].hi <= |xs| then [xs[runs[0].lo..runs[0].hi]] else []) + Bins(xs, runs[1..])
  }

  /** A run is of one group, would be below the target without its last file, and
      ends where it reaches the target, its group ends or the candidates do. */
  predicate GoodRun(xs: seq<Candidate>, target: nat, r: Span) {
    && r.lo < r.hi <= |xs|
    && (forall i | r.lo <= i < r.hi :: SameGroup(xs[r.lo], xs[i]))
    && (r.lo + 1 < r.hi ==> Total(xs, r.lo, r.hi - 1) < target)
    && (Total(xs, r.lo, r.hi) >= target || r.hi == |xs| || !SameGroup(xs[r.lo], xs[r.hi]))
  }

  lemma {:induction false} RunEndGood(xs: seq<Candidate>, target: nat, lo: nat, i: nat)
    requires lo < i <= |xs| && Total(xs, lo, i) < target
    requires forall j | lo <= j < i :: SameGroup(xs[lo], xs[j])
    ensures GoodRun(xs, target, Span(lo, RunEnd(xs, target, lo, i)))
    decreases |xs| - i
  {
    if i < |xs| && SameGroup(xs[lo], xs[i]) && Total(xs, lo, i + 1) < target {
      RunEndGood(xs, target, lo, i + 1);
    }
  }

  lemma RunsFrom(xs: seq<Candidate>, target: nat, i: nat) returns (first: Span)
    requires i < |xs|
    ensures GoodRun(xs, target, first) && first.lo == i
    ensures Runs(xs, target, i) == [first] + Runs(xs, target, first.hi)
  {
    if Total(xs, i, i + 1) < target {
      RunEndGood(xs, target, i, i + 1);
    }
    first := Runs(xs, target, i)[0];
  }

  lemma {:induction false} RunsGood(xs: seq<Candidate>, target: nat, i: nat)
    requires i <= |xs|
    ensures forall r | r in Runs(xs, target, i) :: GoodRun(xs, target, r) && i <= r.lo
    decreases |xs| - i
  {
    if i < |xs| {
      var first := RunsFrom(xs, target, i);
      RunsGood(xs, target, first.hi);
    }
  }

  /** The runs are good, and lie end to end from `i` to the last candidate. */
  lemma {:induction false} RunsTile(xs: seq<Candidate>, target: nat, i: nat)
    requires i <= |xs|
    ensures forall r | r in Runs(xs, target, i) :: GoodRun(xs, target, r) && i <= r.lo
    ensures EndToEnd(Runs(xs, target, i), i, |xs|)
    decreases |xs| - i
  {
    RunsGood(xs, target, i);
    if i < |xs| {
      var first := RunsFrom(xs, target, i);
      RunsTile(xs, target, first.hi);
      TileFirst(first, Runs(xs, target, first.hi), |xs|);
    }
  }

  /** The spans lie end to end from `i` to `n`. */
  ghost predicate EndToEnd(runs: seq<Span>, i: nat, n: nat) {
    && (if runs == [] then i == n else runs[0].lo == i && runs[|runs| - 1].hi == n)
    && (forall p, q | 0 <= p < q < |runs| :: runs[p].hi <= runs[q].lo)
    && (forall p, q | 0 <= p && q == p + 1 && q < |runs| :: runs[p].hi == runs[q].lo)
  }

  lemma TileFirst(first: Span, rest: seq<Span>, n: nat)
    requires EndToEnd(rest, first.hi, n) && forall r | r in rest :: first.hi <= r.lo
    ensures EndToEnd([first] + rest, first.lo, n)
  {
    assert forall p | 0 <= p < |rest| :: rest[p] in rest;
  }

  /** The inner loop: the run from `start`. */
  method NextRun(xs: seq<Candidate>, target: nat, start: nat) returns (bin: seq<Candidate>, end: nat)
    requires start < |xs|
    ensures start < end <= |xs| && bin == xs[start..end]
    ensures Runs(xs, target, start) == [Span(start, end)] + Runs(xs, target, end)
  {
    var running, i := 0, start;
    bin := [];
    while i < |xs| && SameGroup(xs[start], xs[i])
      invariant start <= i <= |xs|
      invariant bin == xs[start..i] && running == Total(xs, start, i)
      invariant i == start || (running < target && RunEnd(xs, target, start, i) == RunEnd(xs, target, start, start + 1))
      invariant i > start ==> Total(xs, start, start + 1) < target
    {
      assert xs[start..i + 1] == xs[start..i] + [xs[i]];
      bin := bin + [xs[i]];
      running := running + xs[i].size;
      i := i + 1;
      if running >= target {
        break;
      }
    }
    end := i;
  }

  lemma FirstBin(xs: seq<Candidate>, first: Span, rest: seq<Span>)
    requires first.lo <= first.hi <= |xs|
    ensures Bins(xs, [first] + rest) == (if first.lo + 2 <= first.hi then [xs[first.lo..first.hi]] else []) +
            Bins(xs, rest)
  {
    assert ([first] + rest)[1..] == rest;
  }

  /** Packs the candidates in the order the sort leaves them. */
  method PackBins(xs: seq<Candidate>, target: nat) returns (bins: seq<seq<Candidate>>)
    ensures bins == Bins(xs, Runs(xs, target, 0))
  {
    bins := [];
    var i := 0;
    while i < |xs|
      invariant 0 <= i <= |xs|
      invariant bins + Bins(xs, Runs(xs, target, i)) == Bins(xs, Runs(xs, target, 0))
    {
      var bin, end := NextRun(xs, target, i);
      FirstBin(xs, Span(i, end), Runs(xs, target, end));
      if |bin| >= 2 {
        bins := bins + [bin];
      }
      i := end;
    }
  }

  /** Where every candidate is below the target, every bin is below twice it. */
  lemma BinsBelowTwiceTarget(xs: seq<Candidate>, target: nat, r: Span)
    requires GoodRun(xs, target, r) && forall x | x in xs :: x.size < target
    ensures Total(xs, r.lo, r.hi) < 2 * target
  {
    assert xs[r.hi - 1] in xs;
    assert Total(xs, r.lo, r.hi) == Total(xs, r.lo, r.hi - 1) + xs[r.hi - 1].size;
  }

  /** Every bin is one of the runs, of two or more files. */
  lemma {:induction false} BinIsRun(xs: seq<Candidate>, runs: seq<Span>, bin: seq<Candidate>) returns (r: Span)
    requires bin in Bins(xs, runs)
    ensures r in runs && r.lo + 2 <= r.hi <= |xs| && bin == xs[r.lo..r.hi]
  {
    if runs[0].lo + 2 <= runs[0].hi <= |xs| && bin == xs[runs[0].lo..runs[0].hi] {
      r := runs[0];
    } else {
      r := BinIsRun(xs, runs[1..], bin);
    }
  }

  /** The bins are exactly the runs of two files or more. */
  lemma {:induction false} BinsExactly(xs: seq<Candidate>, runs: seq<Span>, bin: seq<Candidate>)
    ensures bin in Bins(xs, runs) <==>
            exists r | r in runs :: r.lo + 1 < r.hi && r.hi <= |xs| && bin == xs[r.lo..r.hi]
  {
    if bin in Bins(xs, runs) {
      var r := BinIsRun(xs, runs, bin);
    } else if runs != [] {
      BinsExactly(xs, runs[1..], bin);
    }
  }

  /** Files of one group lie together. */
  predicate Grouped(xs: seq<Candidate>) {
    forall i, j, k | 0 <= i < j < k < |xs| && SameGroup(xs[i], xs[k]) :: SameGroup(xs[i], xs[j])
  }

  // ----- Candidates -----

  /** A file may be merged: nothing of it is deleted in either encoding, the catalog knows
      its begin and schema version, and it is not too small and below the target. */
  predicate IsCandidate(x: Candidate, inlined: set<int>, opts: Options) {
    && x.deleteFile.None? && x.id !in inlined && x.begin.Some? && x.version.Some?
    && opts.minSize <= x.size < opts.target
  }

  function CandidateBy(inlined: set<int>, opts: Options): Candidate -> bool {
    (x: Candidate) => IsCandidate(x, inlined, opts)
  }

  /** The order of partition keys. */
  type Order = (PartitionKey, PartitionKey) -> bool

  ghost predicate IsOrder(le: Order) {
    && (forall a, b :: le(a, b) && le(b, a) ==> a == b)
    && forall a, b, c :: le(a, b) && le(b, c) ==> le(a, c)
  }

  /** A missing schema version sorts as 0. */
  function SortVersion(x: Candidate): int {
    if x.version.Some? then x.version.value else 0
  }

  predicate OptionBelow(a: Option<int>, b: Option<int>) {
    b.Some? && (a.Some? ==> a.value < b.value)
  }

  /** The rest of the sort key: begin, a missing row-id start last, the start, the id. */
  predicate LaterOrder(a: Candidate, b: Candidate) {
    || OptionBelow(a.begin, b.begin)
    || (a.begin == b.begin && a.rowIdStart.Some? && b.rowIdStart.None?)
    || (a.begin == b.begin && a.rowIdStart.Some? && OptionBelow(a.rowIdStart, b.rowIdStart))
    || (a.begin == b.begin && a.rowIdStart == b.rowIdStart && a.id <= b.id)
  }

  predicate InOrder(le: Order, a: Candidate, b: Candidate) {
    || SortVersion(a) < SortVersion(b)
    || (SortVersion(a) == SortVersion(b) && le(a.partition, b.partition)
       && (a.partition == b.partition ==> LaterOrder(a, b)))
  }

  predicate Sorted(le: Order, xs: seq<Candidate>) {
    forall i, j | 0 <= i < j < |xs| :: InOrder(le, xs[i], xs[j])
  }

  /** `xs` is what a pass packs of the table's files: the candidates among them, sorted and
      cut off after the largest number to merge. */
  ghost predicate IsPlanned(le: Order, files: seq<Candidate>, inlined: set<int>, opts: Options, sorted: seq<Candidate>,
          xs: seq<Candidate>) {
    && multiset(sorted) == multiset(Filter(files, CandidateBy(inlined, opts))) && Sorted(le, sorted)
    && xs == if |sorted| <= opts.maxFiles then sorted else sorted[..opts.maxFiles]
  }

  lemma PlannedAreCandidates(le: Order, files: seq<Candidate>, inlined: set<int>, opts: Options,
          sorted: seq<Candidate>, xs: seq<Candidate>)
    requires IsPlanned(le, files, inlined, opts, sorted, xs)
    ensures forall x | x in xs :: x in files && IsCandidate(x, inlined, opts)
    ensures Sorted(le, xs)
  {
    FilterMembers(files, CandidateBy(inlined, opts));
    forall x | x in xs
      ensures x in files && IsCandidate(x, inlined, opts)
    {
      assert x in sorted && x in multiset(sorted);
    }
  }

  /** The plan takes, of the table's files, exactly those that nothing is deleted of, that
      the catalog knows begin and schema version of, and whose size lies between the
      smallest to merge and the target. */
  lemma PlannedExactly(le: Order, files: seq<Candidate>, inlined: set<int>, opts: Options, sorted: seq<Candidate>,
          xs: seq<Candidate>)
    requires IsPlanned(le, files, inlined, opts, sorted, xs)
    ensures xs <= sorted && |xs| == if |sorted| <= opts.maxFiles then |sorted| else opts.maxFiles
    ensures forall x :: x in sorted <==>
              && x in files && x.deleteFile == None && x.id !in inlined && x.begin != None && x.version != None
              && opts.minSize <= x.size && x.size < opts.target
  {
    FilterMembers(files, CandidateBy(inlined, opts));
    forall x
      ensures x in sorted <==> x in files && IsCandidate(x, inlined, opts)
    {
      assert x in sorted <==> x in multiset(sorted);
      assert x in Filter(files, CandidateBy(inlined, opts)) <==>
             x in multiset(Filter(files, CandidateBy(inlined, opts)));
    }
  }

  /** The sort key within a partition: a missing begin first, a missing row-id start last. */
  function SortKey(x: Candidate): seq<int> {
    [if x.begin.Some? then 1 else 0, if x.begin.Some? then x.begin.value else 0,
     if x.rowIdStart.Some? then 0 else 1, if x.rowIdStart.Some? then x.rowIdStart.value else 0, x.id]
  }

  /** Two lists of one length in lexicographic order. */
  predicate UpTo(a: seq<int>, b: seq<int>)
    requires |a| == |b|
  {
    a == b || exists k | 0 <= k < |a| :: a[..k] == b[..k] && a[k] < b[k]
  }

  /** The order is that of schema versions, a missing one as 0, of partitions, and then the
      lexicographic one of begins, row-id starts and ids. */
  lemma OrderIsLexicographic(le: Order, a: Candidate, b: Candidate)
    ensures var va, vb := if a.version.Some? then a.version.value else 0, if b.version.Some? then b.version.value
            else 0;
            InOrder(le, a, b) <==>
              || va < vb
              || (va == vb && le(a.partition, b.partition)
                 && (a.partition == b.partition ==> UpTo(SortKey(a), SortKey(b))))
  {
    KeyOrder(SortKey(a), SortKey(b));
  }

  lemma KeyOrder(a: seq<int>, b: seq<int>)
    requires |a| == |b| == 5
    ensures UpTo(a, b) <==>
            || a[0] < b[0]
            || (a[0] == b[0] && a[1] < b[1])
            || (a[..2] == b[..2] && a[2] < b[2])
            || (a[..3] == b[..3] && a[3] < b[3])
            || (a[..4] == b[..4] && a[4] <= b[4])
  {
    if k :| 0 <= k < 5 && a[..k] == b[..k] && a[k] < b[k] {
      assert k > 0 ==> a[..k][0] == b[..k][0];
    }
    if a[0] < b[0] {
      assert a[..0] == b[..0];
    } else if a[0] == b[0] && a[1] < b[1] {
      assert a[..1] == b[..1];
    } else if a[..4] == b[..4] && a[4] == b[4] {
      assert a == a[..4] + [a[4]] && b == b[..4] + [b[4]];
    }
  }

  lemma BothWays(le: Order, a: Candidate, b: Candidate)
    requires IsOrder(le) && InOrder(le, a, b) && InOrder(le, b, a)
    ensures a.id == b.id
  {
  }

  lemma SameFirst(le: Order, xs: seq<Candidate>, ys: seq<Candidate>)
    requires IsOrder(le) && Sorted(le, xs) && Sorted(le, ys) && xs != [] && ys != [] && xs[0] in ys && ys[0] in xs
    ensures xs[0].id == ys[0].id
  {
    var i :| 0 <= i < |xs| && xs[i] == ys[0];
    var j :| 0 <= j < |ys| && ys[j] == xs[0];
    if i > 0 && j > 0 {
      assert InOrder(le, xs[0], xs[i]) && InOrder(le, ys[0], ys[j]);
      BothWays(le, xs[0], ys[0]);
    }
  }

  lemma SameTail<T>(xs: seq<T>, ys: seq<T>)
    requires multiset(xs) == multiset(ys) && xs != [] && ys != [] && xs[0] == ys[0]
    ensures multiset(xs[1..]) == multiset(ys[1..])
  {
    assert xs == [xs[0]] + xs[1..] && ys == [ys[0]] + ys[1..];
    assert multiset(xs) - multiset{xs[0]} == multiset(xs[1..]) && multiset(ys) - multiset{ys[0]} == multiset(ys[1..]);
  }

  /** Files of different ids have one sorted order, so the pass has one plan. */
  lemma {:induction false} OneOrder(le: Order, xs: seq<Candidate>, ys: seq<Candidate>)
    requires IsOrder(le) && Sorted(le, xs) && Sorted(le, ys) && multiset(xs) == multiset(ys)
    requires forall x, y | x in xs && y in xs && x.id == y.id :: x == y
    ensures xs == ys
  {
    assert |xs| == |multiset(xs)| == |multiset(ys)| == |ys|;
    if xs != [] {
      var x, y := xs[0], ys[0];
      assert x in multiset(ys) && y in multiset(xs);
      SameFirst(le, xs, ys);
      assert xs[0] == ys[0];
      SameTail(xs, ys);
      OneOrder(le, xs[1..], ys[1..]);
      assert xs == [x] + xs[1..] && ys == [y] + ys[1..];
    }
  }

  lemma OnePlan(le: Order, files: seq<Candidate>, inlined: set<int>, opts: Options, sorted: seq<Candidate>,
          xs: seq<Candidate>, sorted': seq<Candidate>, xs': seq<Candidate>)
    requires IsOrder(le) && forall x, y | x in files && y in files && x.id == y.id :: x == y
    requires IsPlanned(le, files, inlined, opts, sorted, xs) && IsPlanned(le, files, inlined, opts, sorted', xs')
    ensures sorted' == sorted && xs' == xs
  {
    PlannedExactly(le, files, inlined, opts, sorted, xs);
    OneOrder(le, sorted, sorted');
  }

  /** The candidates of a group lie next to each other. */
  lemma SortGroups(le: Order, files: seq<Candidate>, inlined: set<int>, opts: Options, sorted: seq<Candidate>,
          xs: seq<Candidate>)
    requires IsOrder(le) && IsPlanned(le, files, inlined, opts, sorted, xs)
    ensures Grouped(xs)
  {
    PlannedAreCandidates(le, files, inlined, opts, sorted, xs);
    forall i, j, k | 0 <= i < j < k < |xs| && SameGroup(xs[i], xs[k])
      ensures SameGroup(xs[i], xs[j])
    {
      assert xs[i] in xs && xs[j] in xs;
      assert InOrder(le, xs[i], xs[j]) && InOrder(le, xs[j], xs[k]);
    }
  }

  /** A pass leaves out at most one candidate of a group. */
  lemma OneLeftOutPerGroup(le: Order, files: seq<Candidate>, inlined: set<int>, opts: Options, sorted: seq<Candidate>,
          xs: seq<Candidate>, p: nat, q: nat)
    requires IsOrder(le) && IsPlanned(le, files, inlined, opts, sorted, xs) && p < q < |Runs(xs, opts.target, 0)|
    ensures var r, t := Runs(xs, opts.target, 0)[p], Runs(xs, opts.target, 0)[q];
            r.hi == r.lo + 1 && t.hi == t.lo + 1 ==>
              && r.lo < |xs| && t.lo < |xs|
              && (xs[r.lo].version != xs[t.lo].version || xs[r.lo].partition != xs[t.lo].partition)
  {
    SortGroups(le, files, inlined, opts, sorted, xs);
    PlannedAreCandidates(le, files, inlined, opts, sorted, xs);
    RunsTile(xs, opts.target, 0);
    var r, t := Runs(xs, opts.target, 0)[p], Runs(xs, opts.target, 0)[q];
    SingletonsApart(xs, opts.target, r, t);
  }

  function SizeOf(bin: seq<Candidate>): nat {
    Total(bin, 0, |bin|)
  }

  lemma {:induction false} TotalOfSlice(xs: seq<Candidate>, lo: nat, hi: nat, k: nat)
    requires lo <= hi <= |xs| && k <= hi - lo
    ensures Total(xs[lo..hi], 0, k) == Total(xs, lo, lo + k)
    decreases k
  {
    if k > 0 {
      TotalOfSlice(xs, lo, hi, k - 1);
    }
  }

  /** Every bin of a pass holds two or more of the table's files that may be merged, all of
      one schema version and partition; they are below twice the target together, and
      below the target without the last. */
  lemma PackedBins(le: Order, files: seq<Candidate>, inlined: set<int>, opts: Options, sorted: seq<Candidate>,
          xs: seq<Candidate>, bin: seq<Candidate>)
    requires IsPlanned(le, files, inlined, opts, sorted, xs) && bin in Bins(xs, Runs(xs, opts.target, 0))
    ensures |bin| >= 2 && forall x | x in bin :: x in files && IsCandidate(x, inlined, opts) && SameGroup(bin[0], x)
    ensures forall x | x in bin :: x.version == bin[0].version && x.partition == bin[0].partition
    ensures SizeOf(bin) < 2 * opts.target && SizeOf(bin[..|bin| - 1]) < opts.target
  {
    PlannedAreCandidates(le, files, inlined, opts, sorted, xs);
    BinOfRuns(xs, opts.target, bin);
  }

  lemma BinOfRuns(xs: seq<Candidate>, target: nat, bin: seq<Candidate>)
    requires bin in Bins(xs, Runs(xs, target, 0)) && forall x | x in xs :: x.size < target
    ensures |bin| >= 2 && forall x | x in bin :: x in xs && SameGroup(bin[0], x)
    ensures SizeOf(bin) < 2 * target && SizeOf(bin[..|bin| - 1]) < target
  {
    RunsGood(xs, target, 0);
    var r := BinIsRun(xs, Runs(xs, target, 0), bin);
    RunTotals(xs, target, r);
    RunMembers(xs, r, bin);
  }

  lemma RunMembers(xs: seq<Candidate>, r: Span, bin: seq<Candidate>)
    requires r.lo < r.hi <= |xs| && bin == xs[r.lo..r.hi] && forall i | r.lo <= i < r.hi :: SameGroup(xs[r.lo], xs[i])
    ensures forall x | x in bin :: x in xs && SameGroup(bin[0], x)
  {
    forall x | x in bin
      ensures x in xs && SameGroup(bin[0], x)
    {
      var i :| 0 <= i < |bin| && bin[i] == x;
      assert xs[r.lo + i] == x;
    }
  }

  lemma RunTotals(xs: seq<Candidate>, target: nat, r: Span)
    requires GoodRun(xs, target, r) && r.lo + 2 <= r.hi && forall x | x in xs :: x.size < target
    ensures var bin := xs[r.lo..r.hi]; SizeOf(bin) < 2 * target && SizeOf(bin[..|bin| - 1]) < target
  {
    var bin := xs[r.lo..r.hi];
    BinsBelowTwiceTarget(xs, target, r);
    TotalOfSlice(xs, r.lo, r.hi, r.hi - r.lo);
    assert bin[..|bin| - 1] == xs[r.lo..r.hi - 1];
    TotalOfSlice(xs, r.lo, r.hi - 1, r.hi - 1 - r.lo);
  }

  lemma SingletonsApart(xs: seq<Candidate>, target: nat, r: Span, t: Span)
    requires Grouped(xs) && forall x | x in xs :: x.size < target
    requires GoodRun(xs, target, r) && GoodRun(xs, target, t) && r.hi <= t.lo
    ensures r.hi == r.lo + 1 ==> !SameGroup(xs[r.lo], xs[t.lo])
  {
    if r.hi == r.lo + 1 {
      assert xs[r.lo] in xs && Total(xs, r.lo, r.hi) == xs[r.lo].size;
      assert !SameGroup(xs[r.lo], xs[r.hi]);
    }
  }

  // ----- Adjacent row ids -----

  /** The catalog row counts of `bin[..k]` together. */
  function RowsTo(bin: seq<Candidate>, k: nat): nat
    requires k <= |bin|
  {
    if k == 0 then 0
    else RowsTo(bin, k - 1) + (if bin[k - 1].rowCount.Some? then bin[k - 1].rowCount.value else 0)
  }

  predicate TileAt(bin: seq<Candidate>, lo: int, k: nat)
    requires k < |bin|
  {
    && bin[k].rowIdStart == Some(lo + RowsTo(bin, k))
    && bin[k].rowCount.Some?
    && lo + RowsTo(bin, k + 1) <= I64_MAX
  }

  /** The bin's catalog row-id ranges, in order, tile one interval from `lo`: each
      starts where the rows before it end, and none overflows. */
  predicate Tiles(bin: seq<Candidate>, lo: int) {
    forall k: nat | k < |bin| :: TileAt(bin, lo, k)
  }

  /** The first range starts at `lo`, and each other one where the one before it ends. */
  predicate Meet(bin: seq<Candidate>, lo: int)
    requires bin != []
  {
    && (forall k | 0 <= k < |bin| :: bin[k].rowIdStart.Some? && bin[k].rowCount.Some?)
    && bin[0].rowIdStart.value == lo
    && forall k | 1 <= k < |bin| ::
         bin[k].rowIdStart.value == bin[k - 1].rowIdStart.value + bin[k - 1].rowCount.value
  }

  /** The bin tiles an interval exactly when its ranges meet and the last one ends within 64
      bits. */
  lemma TilesExactly(bin: seq<Candidate>, lo: int)
    requires bin != []
    ensures var last := bin[|bin| - 1];
            Tiles(bin, lo) <==> Meet(bin, lo) && last.rowIdStart.value + last.rowCount.value <= 0x7fff_ffff_ffff_ffff
  {
    if Tiles(bin, lo) {
      TilesMeet(bin, lo);
    } else if Meet(bin, lo) {
      MeetTiles(bin, lo);
    }
  }

  lemma TilesMeet(bin: seq<Candidate>, lo: int)
    requires bin != [] && Tiles(bin, lo)
    ensures var last := bin[|bin| - 1];
            Meet(bin, lo) && last.rowIdStart.value + last.rowCount.value <= 0x7fff_ffff_ffff_ffff
  {
    assert TileAt(bin, lo, 0) && TileAt(bin, lo, |bin| - 1);
    forall k | 0 <= k < |bin|
      ensures bin[k].rowIdStart.Some? && bin[k].rowCount.Some?
    {
      assert TileAt(bin, lo, k);
    }
    forall k | 1 <= k < |bin|
      ensures bin[k].rowIdStart.value == bin[k - 1].rowIdStart.value + bin[k - 1].rowCount.value
    {
      assert TileAt(bin, lo, k - 1) && TileAt(bin, lo, k);
    }
  }

  lemma MeetTiles(bin: seq<Candidate>, lo: int)
    requires bin != [] && Meet(bin, lo)
    ensures var last := bin[|bin| - 1];
            last.rowIdStart.value + last.rowCount.value <= 0x7fff_ffff_ffff_ffff ==> Tiles(bin, lo)
  {
    EndsMeet(bin, lo, |bin|);
    var n := |bin|;
    assert RowsTo(bin, n) == RowsTo(bin, n - 1) + bin[n - 1].rowCount.value;
    if lo + RowsTo(bin, n) <= I64_MAX {
      forall k: nat | k < n
        ensures TileAt(bin, lo, k)
      {
        assert RowsTo(bin, k + 1) <= RowsTo(bin, n);
      }
    }
  }

  lemma {:induction false} EndsMeet(bin: seq<Candidate>, lo: int, n: nat)
    requires 0 < n <= |bin| && Meet(bin, lo)
    ensures forall k | 0 <= k < n :: bin[k].rowIdStart.value == lo + RowsTo(bin, k)
    ensures forall k | 0 <= k <= n :: RowsTo(bin, k) <= RowsTo(bin, n)
    decreases n
  {
    if n > 1 {
      EndsMeet(bin, lo, n - 1);
    }
  }

  method AdjacentRowIdStart(bin: seq<Candidate>) returns (start: Option<int>)
    ensures start.Some? <==> bin != [] && exists lo :: Tiles(bin, lo)
    ensures start.Some? ==> Tiles(bin, start.value) && CoveredOnce(bin, start.value)
  {
    var next: Option<int> := None;
    for k := 0 to |bin|
      invariant next.Some? <==> k > 0
      invariant k > 0 ==> bin[0].rowIdStart.Some?
      invariant k > 0 ==> forall j: nat | j < k :: TileAt(bin, bin[0].rowIdStart.value, j)
      invariant k > 0 ==> next.value == bin[0].rowIdStart.value + RowsTo(bin, k)
    {
      if bin[k].rowIdStart.None? || (next.Some? && next != bin[k].rowIdStart)
         || bin[k].rowCount.None? || bin[k].rowIdStart.value + bin[k].rowCount.value > I64_MAX {
        forall lo
          ensures !Tiles(bin, lo)
        {
          assert Tiles(bin, lo) ==> TileAt(bin, lo, 0) && TileAt(bin, lo, k);
        }
        start := None;
        return;
      }
      next := Some(bin[k].rowIdStart.value + bin[k].rowCount.value);
    }
    assert bin != [] ==> Tiles(bin, bin[0].rowIdStart.value);
    if bin != [] {
      TilesCoverOnce(bin, bin[0].rowIdStart.value);
    }
    start := if bin == [] then None else bin[0].rowIdStart;
  }

  predicate InRowIdRange(x: Candidate, id: int) {
    x.rowIdStart.Some? && x.rowCount.Some? && x.rowIdStart.value <= id < x.rowIdStart.value + x.rowCount.value
  }

  /** A tiling bin covers its interval once: an id lies in the interval exactly when
      it lies in a source's range, and then in no other's. */
  lemma {:induction false} TilesCover(bin: seq<Candidate>, lo: int, n: nat, id: int)
    requires Tiles(bin, lo) && n <= |bin|
    ensures lo <= id < lo + RowsTo(bin, n) <==> exists k | 0 <= k < n :: InRowIdRange(bin[k], id)
    ensures forall j, k | 0 <= j < k < n && InRowIdRange(bin[j], id) :: !InRowIdRange(bin[k], id)
  {
    if n > 0 {
      TilesCover(bin, lo, n - 1, id);
      assert TileAt(bin, lo, n - 1);
      assert InRowIdRange(bin[n - 1], id) <==> lo + RowsTo(bin, n - 1) <= id < lo + RowsTo(bin, n);
    }
  }

  predicate InSome(bin: seq<Candidate>, id: int) {
    exists k | 0 <= k < |bin| :: InRowIdRange(bin[k], id)
  }

  /** Every id of the interval from `lo` is in exactly one source's range, and no other id
      is in any. */
  ghost predicate CoveredOnce(bin: seq<Candidate>, lo: int) {
    && (forall id :: InSome(bin, id) <==> lo <= id < lo + RowsTo(bin, |bin|))
    && forall id, j, k | 0 <= j < k < |bin| && InRowIdRange(bin[j], id) :: !InRowIdRange(bin[k], id)
  }

  lemma TilesCoverOnce(bin: seq<Candidate>, lo: int)
    requires Tiles(bin, lo)
    ensures CoveredOnce(bin, lo)
  {
    forall id
      ensures InSome(bin, id) <==> lo <= id < lo + RowsTo(bin, |bin|)
    {
      TilesCover(bin, lo, |bin|, id);
    }
    forall id, j, k | 0 <= j < k < |bin| && InRowIdRange(bin[j], id)
      ensures !InRowIdRange(bin[k], id)
    {
      TilesCover(bin, lo, |bin|, id);
    }
  }
}
