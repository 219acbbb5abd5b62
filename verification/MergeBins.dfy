/** The planning of a merge against the catalog it plans for: what is packed from the
    catalog's own listing can be merged in it. */
module MergeBins {
  import opened Bags
  import opened Lake
  import opened Merge
  import opened DeleteAll
  import P = MergePlan

  /** What the catalog knows of a file besides its rows. */
  datatype FileInfo = FileInfo(size: nat, version: Option<int>, partition: P.PartitionKey, rowIdStart: Option<int>,
    rowCount: Option<nat>)

  type Infos = int -> FileInfo

  function Listed(c: Catalog, f: DataFile, info: FileInfo): P.Candidate {
    var live := FindLive(c.deletes, f.id);
    P.Candidate(f.id, info.size, info.version, info.partition, Some(f.begin),
                if live.Some? then Some(live.value.id) else None, info.rowIdStart, info.rowCount)
  }

  /** The listing at the head: the live files, each with its live delete file. */
  function ListingOf(c: Catalog, infos: Infos): seq<P.Candidate> {
    var live := Filter(c.files, IsLive());
    seq(|live|, i requires 0 <= i < |live| => Listed(c, live[i], infos(live[i].id)))
  }

  function IsLive(): DataFile -> bool {
    (f: DataFile) => f.end.None?
  }

  function InlinedFiles(c: Catalog): set<int> {
    set d | d in c.inlinedDeletes :: d.file
  }

  /** Listed at the head are exactly the live files. */
  lemma ListedAtHead(c: Catalog, f: DataFile)
    requires Wf(c) && f in c.files
    ensures f.end.None? <==> LiveAt(f.begin, f.end, c.head)
  {
    assert WfFile(f, c.head);
  }

  lemma ListedIsFile(c: Catalog, infos: Infos, x: P.Candidate) returns (f: DataFile)
    requires x in ListingOf(c, infos)
    ensures f in c.files && f.end.None? && x == Listed(c, f, infos(f.id))
  {
    var live := Filter(c.files, IsLive());
    FilterMembers(c.files, IsLive());
    var i :| 0 <= i < |live| && ListingOf(c, infos)[i] == x;
    f := live[i];
    assert f in live;
  }

  lemma ListingIsDistinct(c: Catalog, infos: Infos)
    requires Wf(c)
    ensures Pairwise(ListingOf(c, infos), ApartBy())
  {
    var live := Filter(c.files, IsLive());
    var apart := (f: DataFile, g: DataFile) => f.id != g.id;
    assert Pairwise(c.files, apart);
    FilterPairwise(c.files, IsLive(), apart);
    forall i, j | 0 <= i < j < |live|
      ensures ListingOf(c, infos)[i].id != ListingOf(c, infos)[j].id
    {
      assert apart(live[i], live[j]);
    }
  }

  function ApartBy(): (P.Candidate, P.Candidate) -> bool {
    (x: P.Candidate, y: P.Candidate) => x.id != y.id
  }

  lemma Twice<T>(xs: seq<T>, i: nat, j: nat)
    requires i < j < |xs| && xs[i] == xs[j]
    ensures multiset(xs)[xs[i]] >= 2
  {
    assert xs == xs[..j] + [xs[j]] + xs[j + 1..];
    assert xs[..j][i] == xs[i] && xs[i] in xs[..j];
  }

  lemma PermutedDistinct<T>(xs: seq<T>, ys: seq<T>)
    requires multiset(xs) == multiset(ys) && Distinct(ys)
    ensures Distinct(xs)
  {
    forall i, j | 0 <= i < j < |xs|
      ensures xs[i] != xs[j]
    {
      DistinctOnce(ys, xs[i]);
      if xs[i] == xs[j] {
        Twice(xs, i, j);
      }
    }
  }

  /** No file is packed twice. */
  lemma PlannedIsDistinct(c: Catalog, infos: Infos, le: P.Order, opts: P.Options, sorted: seq<P.Candidate>,
          xs: seq<P.Candidate>)
    requires Wf(c) && P.IsPlanned(le, ListingOf(c, infos), InlinedFiles(c), opts, sorted, xs)
    ensures Distinct(xs)
  {
    var keep := P.CandidateBy(InlinedFiles(c), opts);
    ListingIsDistinct(c, infos);
    FilterPairwise(ListingOf(c, infos), keep, ApartBy());
    var kept := Filter(ListingOf(c, infos), keep);
    assert forall i, j | 0 <= i < j < |kept| :: ApartBy()(kept[i], kept[j]);
    PermutedDistinct(sorted, kept);
  }

  ghost predicate AreFiles(c: Catalog, infos: Infos, bin: seq<P.Candidate>, fs: seq<DataFile>) {
    |fs| == |bin| && forall i | 0 <= i < |bin| :: IsFileOf(c, infos, bin[i], fs[i])
  }

  ghost predicate IsFileOf(c: Catalog, infos: Infos, x: P.Candidate, f: DataFile) {
    f in c.files && f.end.None? && x == Listed(c, f, infos(f.id))
  }

  lemma {:induction false} FilesOf(c: Catalog, infos: Infos, bin: seq<P.Candidate>) returns (fs: seq<DataFile>)
    requires forall x | x in bin :: x in ListingOf(c, infos)
    ensures AreFiles(c, infos, bin, fs)
  {
    fs := [];
    if bin != [] {
      assert bin[0] in bin && forall x | x in bin[1..] :: x in bin;
      var f := ListedIsFile(c, infos, bin[0]);
      var rest := FilesOf(c, infos, bin[1..]);
      fs := [f] + rest;
      forall i | 0 <= i < |bin|
        ensures IsFileOf(c, infos, bin[i], fs[i])
      {
        if i > 0 {
          assert bin[i] == bin[1..][i - 1] && fs[i] == rest[i - 1];
        }
      }
    }
  }

  lemma CandidateIsReady(c: Catalog, infos: Infos, opts: P.Options, x: P.Candidate, f: DataFile)
    requires Wf(c) && IsFileOf(c, infos, x, f) && P.IsCandidate(x, InlinedFiles(c), opts)
    ensures Viable(f) && !HasLiveDelete(c, f.id) && forall d | d in c.inlinedDeletes :: d.file != f.id
  {
    assert WfFile(f, c.head);
    assert FindLive(c.deletes, f.id).None?;
  }

  /** Every bin packed from a catalog's listing is ready to merge in it, its files being two
      or more live files, each once. */
  lemma BinsAreReady(c: Catalog, infos: Infos, le: P.Order, opts: P.Options, sorted: seq<P.Candidate>,
          xs: seq<P.Candidate>, bin: seq<P.Candidate>) returns (fs: seq<DataFile>)
    requires Wf(c) && P.IsPlanned(le, ListingOf(c, infos), InlinedFiles(c), opts, sorted, xs)
    requires bin in P.Bins(xs, P.Runs(xs, opts.target, 0))
    ensures |fs| >= 2 && AreFiles(c, infos, bin, fs) && MergeReady(c, fs)
  {
    P.PackedBins(le, ListingOf(c, infos), InlinedFiles(c), opts, sorted, xs, bin);
    PlannedIsDistinct(c, infos, le, opts, sorted, xs);
    fs := FilesOf(c, infos, bin);
    BinIsDistinct(xs, P.Runs(xs, opts.target, 0), bin);
    FilesAreDistinct(c, infos, bin, fs);
    FilesAreReady(c, infos, opts, bin, fs);
  }

  lemma BinIsDistinct(xs: seq<P.Candidate>, runs: seq<P.Span>, bin: seq<P.Candidate>)
    requires Distinct(xs) && bin in P.Bins(xs, runs)
    ensures Distinct(bin)
  {
    var r := P.BinIsRun(xs, runs, bin);
    forall i, j | 0 <= i < j < |bin|
      ensures bin[i] != bin[j]
    {
      assert bin[i] == xs[r.lo + i] && bin[j] == xs[r.lo + j];
    }
  }

  lemma FilesAreDistinct(c: Catalog, infos: Infos, bin: seq<P.Candidate>, fs: seq<DataFile>)
    requires AreFiles(c, infos, bin, fs) && Distinct(bin)
    ensures Distinct(fs)
  {
    forall i, j | 0 <= i < j < |fs|
      ensures fs[i] != fs[j]
    {
      assert IsFileOf(c, infos, bin[i], fs[i]) && IsFileOf(c, infos, bin[j], fs[j]);
    }
  }

  lemma FilesAreReady(c: Catalog, infos: Infos, opts: P.Options, bin: seq<P.Candidate>, fs: seq<DataFile>)
    requires Wf(c) && AreFiles(c, infos, bin, fs) && fs != [] && Distinct(fs)
    requires forall x | x in bin :: P.IsCandidate(x, InlinedFiles(c), opts)
    ensures MergeReady(c, fs)
  {
    forall f | f in fs
      ensures f in c.files && f.end.None? && Viable(f) && !HasLiveDelete(c, f.id)
      ensures forall d | d in c.inlinedDeletes :: d.file != f.id
    {
      var i :| 0 <= i < |fs| && fs[i] == f;
      assert bin[i] in bin && IsFileOf(c, infos, bin[i], f);
      CandidateIsReady(c, infos, opts, bin[i], f);
    }
  }

  /** So a pass merges what it packs without changing what any snapshot reads. */
  lemma PassKeepsTimeTravel(c: Catalog, infos: Infos, le: P.Order, opts: P.Options, sorted: seq<P.Candidate>,
          xs: seq<P.Candidate>, bin: seq<P.Candidate>) returns (fs: seq<DataFile>)
    requires Wf(c) && P.IsPlanned(le, ListingOf(c, infos), InlinedFiles(c), opts, sorted, xs)
    requires bin in P.Bins(xs, P.Runs(xs, opts.target, 0))
    ensures AreFiles(c, infos, bin, fs)
    ensures forall out, s | MergeOutput(c, fs, out) :: Scan(MergeCommit(c, fs, out), s) == Scan(c, s)
  {
    fs := BinsAreReady(c, infos, le, opts, sorted, xs, bin);
    forall out, s | MergeOutput(c, fs, out)
      ensures Scan(MergeCommit(c, fs, out), s) == Scan(c, s)
    {
      MergePreservesTimeTravel(c, fs, out, s);
    }
  }
}
