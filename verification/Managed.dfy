/** Tables only these commits ever touched, by writers that stage row mutations. Each data
    file then has at most one delete file, which ends no earlier than the data file, so a
    flush of inlined deletions always covers the history it replaces and needs no further
    condition. */
module Managed {
  import opened Bags
  import opened Lake
  import opened Merge
  import opened FlushDeletes
  import Rows = FlushRows
  import opened Deletes
  import opened DeleteAll
  import opened Rewrite
  import opened History

  predicate OneEach(c: Catalog) {
    forall d, e | d in c.deletes && e in c.deletes && d.file == e.file :: d == e
  }

  predicate EndWithFile(c: Catalog) {
    forall d, f | d in c.deletes && f in c.files && d.file == f.id && d.end.Some? :: f.end == d.end
  }

  predicate Managed(c: Catalog) {
    Wf(c) && OneEach(c) && EndWithFile(c)
  }

  /** In a managed table every planned flush covers what it replaces. */
  lemma ManagedCovers(c: Catalog, f: DataFile, ex: Option<DeleteFile>, plan: Plan)
    requires Managed(c) && Flushable(c, f, ex, plan)
    ensures Covers(c, f, ex, plan)
  {
    assert forall d | d in c.deletes && d.file == f.id && d.end.Some? :: f.end == d.end;
  }

  ghost predicate FlushesAny(c: Catalog, c': Catalog) {
    exists f, ex, plan :: Flushable(c, f, ex, plan) && c' == FlushFile(c, f, plan)
  }

  /** No file's deletions go to a cumulative delete file. */
  predicate Staged(ds: seq<Deletion>) {
    forall i | 0 <= i < |ds| :: !ds[i].route.Cumulative?
  }

  ghost predicate DeletesStaged(c: Catalog, c': Catalog) {
    exists ds :: Statement(c, ds) && Staged(ds) && CommitsAll(c, ds, c')
  }

  ghost predicate ManagedNext(c: Catalog, c': Catalog) {
    c' == Begin(c) || Merges(c, c') || RewritesFile(c, c') || FlushesRows(c, c') || FlushesAny(c, c')
    || DeletesStaged(c, c') || Inserts(c, c') || EndsRows(c, c')
  }

  lemma ManagedIsNext(c: Catalog, c': Catalog)
    requires Managed(c) && ManagedNext(c, c')
    ensures Next(c, c')
  {
    if FlushesAny(c, c') {
      var f, ex, plan :| Flushable(c, f, ex, plan) && c' == FlushFile(c, f, plan);
      ManagedCovers(c, f, ex, plan);
    }
  }

  // ----- Every step keeps it -----

  /** Delete files of files that stay, and files that stay, keep it. */
  lemma FewerKeep(c: Catalog, c': Catalog, out: seq<DataFile>)
    requires Managed(c) && (forall d | d in c'.deletes :: d in c.deletes)
    requires forall f | f in c'.files :: f in c.files || f in out
    requires forall f | f in out :: f.id == c.nextFileId
    ensures OneEach(c') && EndWithFile(c')
  {
  }

  lemma MergeManaged(c: Catalog, c': Catalog)
    requires Managed(c) && Merges(c, c')
    ensures OneEach(c') && EndWithFile(c')
  {
    var bin, out :| MergeReady(c, bin) && MergeOutput(c, bin, out) && c' == MergeCommit(c, bin, out);
    MergedManaged(c, bin, out);
  }

  lemma MergedManaged(c: Catalog, bin: seq<DataFile>, out: Option<DataFile>)
    requires Managed(c) && (out.Some? ==> out.value.id == c.nextFileId)
    ensures OneEach(MergeCommit(c, bin, out)) && EndWithFile(MergeCommit(c, bin, out))
  {
    FilesOutsideWf(c.files, Ids(bin));
    DeletesOutsideWf(c.deletes, Ids(bin));
    FewerKeep(c, MergeCommit(c, bin, out), AsSeq(out));
  }

  lemma EndedOneEach(c: Catalog, k: nat, rows: seq<Row>)
    requires OneEach(c) && k < |c.files|
    ensures OneEach(RewriteFile(c, k, rows))
  {
    EndedMembers(c.deletes, c.files[k].id, c.head);
  }

  lemma EndedWithFile(c: Catalog, k: nat, rows: seq<Row>, d: DeleteFile, i: nat)
    requires Managed(c) && k < |c.files| && c.files[k].end.None?
    requires var c' := RewriteFile(c, k, rows);
             d in c'.deletes && i < |c'.files| && d.file == c'.files[i].id && d.end.Some?
    ensures RewriteFile(c, k, rows).files[i].end == d.end
  {
    var c', file := RewriteFile(c, k, rows), c.files[k].id;
    assert c.files[k] in c.files;
    EndedMembers(c.deletes, file, c.head);
    var e :| e in c.deletes && d == EndDelete(e, file, c.head);
    if i < |c.files| {
      assert c.files[i] in c.files;
      if i != k {
        assert if i < k then c.files[i].id != c.files[k].id else c.files[k].id != c.files[i].id;
      }
    }
  }

  lemma RewriteManaged(c: Catalog, c': Catalog)
    requires Managed(c) && RewritesFile(c, c')
    ensures OneEach(c') && EndWithFile(c')
  {
    var k: nat, rows :| DeleteAll.Settled(c, k) && IsLiveRows(c, k, rows) && c' == RewriteFile(c, k, rows);
    EndedOneEach(c, k, rows);
    forall d, f | d in c'.deletes && f in c'.files && d.file == f.id && d.end.Some?
      ensures f.end == d.end
    {
      var i :| 0 <= i < |c'.files| && c'.files[i] == f;
      EndedWithFile(c, k, rows, d, i);
    }
  }

  lemma AddFlushedManaged(c: Catalog, slice: seq<InlinedRow>)
    requires Managed(c) && slice != [] && Rows.SliceSettled(slice, c.head)
    ensures Managed(Rows.AddFlushed(c, slice))
  {
    Rows.AddFlushedWf(c, slice);
  }

  lemma {:induction false} AddAllManaged(c: Catalog, slices: seq<seq<InlinedRow>>)
    requires Managed(c) && forall slice | slice in slices :: slice != [] && Rows.SliceSettled(slice, c.head)
    ensures Managed(Rows.AddAllFlushed(c, slices))
    decreases |slices|
  {
    if slices != [] {
      assert slices[0] in slices && forall slice | slice in slices[1..] :: slice in slices;
      AddFlushedManaged(c, slices[0]);
      AddAllManaged(Rows.AddFlushed(c, slices[0]), slices[1..]);
    }
  }

  lemma FlushRowsManaged(c: Catalog, c': Catalog)
    requires Managed(c) && FlushesRows(c, c')
    ensures OneEach(c') && EndWithFile(c')
  {
    var slices, base :|
      && (forall slice | slice in slices :: slice != [])
      && multiset(Flatten(slices)) == multiset(Filter(c.inlined, Rows.UpTo(base)))
      && c' == Rows.FlushRowsCommit(c, slices, base);
    Rows.SlicesSettled(c, slices, base);
    AddAllManaged(c, slices);
  }

  lemma FlushDeletesManaged(c: Catalog, f: DataFile, ex: Option<DeleteFile>, plan: Plan)
    requires Managed(c) && Flushable(c, f, ex, plan)
    ensures OneEach(FlushFile(c, f, plan)) && EndWithFile(FlushFile(c, f, plan))
  {
    var c', n := FlushFile(c, f, plan), Planned(c, f, plan);
    ManagedCovers(c, f, ex, plan);
    forall d
      ensures d in c'.deletes <==> d == n || (d in c.deletes && ex != Some(d))
    {
      RestOfDeletes(c, ex, d);
    }
    assert forall d | d in c.deletes && d.file == f.id :: ex == Some(d);
    forall d, g | d in c'.deletes && g in c'.files && d.file == g.id && d.end.Some?
      ensures g.end == d.end
    {
      if d == n {
        SameFile(c.files, f, g);
      }
    }
  }

  lemma DropManaged(c: Catalog, k: nat)
    requires Managed(c) && k < |c.files| && c.files[k].end.None?
    ensures OneEach(DropCommit(c, k)) && EndWithFile(DropCommit(c, k))
  {
    var c' := DropCommit(c, k);
    assert c.files[k] in c.files;
    assert forall g | g in c'.files :: g in c.files || g == c'.files[k];
  }

  lemma RewriteRouteManaged(c: Catalog, k: nat, ps: set<int>, ex: DeleteFile, b: int)
    requires Managed(c) && Rewrites(c, k, ps, ex, b)
    ensures OneEach(RewriteCommit(c, ex, ps, b)) && EndWithFile(RewriteCommit(c, ex, ps, b))
  {
    RewrittenMembers(c, k, ps, ex, b);
  }

  lemma CommitManaged(c: Catalog, k: nat, ps: set<int>, route: Route, c': Catalog)
    requires Managed(c) && Deletable(c, k, ps, route) && Commits(c, k, ps, route, c') && !route.Cumulative?
    ensures OneEach(c') && EndWithFile(c')
  {
    if route.Drop? {
      DropManaged(c, k);
    } else if route.Rewrite? {
      var ex, b :| ex in c.deletes && ex.file == c.files[k].id && ex.end.None?
        && IsFirst(RewrittenDates(c, ex, ps), b) && c' == RewriteCommit(c, ex, ps, b);
      RewriteRouteManaged(c, k, ps, ex, b);
    }
  }

  lemma FirstManaged(c: Catalog, ds: seq<Deletion>, mid: Catalog)
    requires Managed(c) && Statement(c, ds) && Staged(ds) && ds != [] && Commits(c, ds[0].k, ds[0].ps, ds[0].route, mid)
    ensures Managed(mid) && Statement(mid, ds[1..]) && Staged(ds[1..])
  {
    var d := ds[0];
    assert Deletable(c, d.k, d.ps, d.route);
    RecordedDeletions(c, d.k, d.ps, d.route, mid, c.head);
    CommitManaged(c, d.k, d.ps, d.route, mid);
    StatementStep(c, ds, mid);
  }

  lemma {:induction false} StatementManaged(c: Catalog, ds: seq<Deletion>, c': Catalog)
    requires Managed(c) && Statement(c, ds) && Staged(ds) && CommitsAll(c, ds, c')
    ensures Managed(c')
    decreases |ds|
  {
    if ds != [] {
      var mid :| Commits(c, ds[0].k, ds[0].ps, ds[0].route, mid) && CommitsAll(mid, ds[1..], c');
      FirstManaged(c, ds, mid);
      StatementManaged(mid, ds[1..], c');
    }
  }

  lemma InsertManaged(c: Catalog, c': Catalog)
    requires Managed(c) && Inserts(c, c')
    ensures OneEach(c') && EndWithFile(c')
  {
  }

  /** Every step of a managed table keeps it managed. */
  lemma ManagedStep(c: Catalog, c': Catalog)
    requires Managed(c) && ManagedNext(c, c')
    ensures Managed(c') && Next(c, c')
  {
    ManagedIsNext(c, c');
    StepKeepsPast(c, c', c.head - 1);
    if Merges(c, c') {
      MergeManaged(c, c');
    } else if RewritesFile(c, c') {
      RewriteManaged(c, c');
    } else if FlushesRows(c, c') {
      FlushRowsManaged(c, c');
    } else if FlushesAny(c, c') {
      var f, ex, plan :| Flushable(c, f, ex, plan) && c' == FlushFile(c, f, plan);
      FlushDeletesManaged(c, f, ex, plan);
    } else if DeletesStaged(c, c') {
      var ds :| Statement(c, ds) && Staged(ds) && CommitsAll(c, ds, c');
      StatementManaged(c, ds, c');
    } else if Inserts(c, c') {
      InsertManaged(c, c');
    }
  }

  ghost predicate ManagedFollows(run: seq<Catalog>, i: nat) {
    i + 1 < |run| ==> ManagedNext(run[i], run[i + 1])
  }

  lemma ManagedRunStep(run: seq<Catalog>, i: nat, j: nat)
    requires (forall n: nat :: ManagedFollows(run, n)) && j == i + 1 < |run| && Managed(run[i])
    ensures Managed(run[j]) && Next(run[i], run[j])
  {
    assert ManagedFollows(run, i);
    ManagedStep(run[i], run[j]);
  }

  lemma {:induction false} StaysManaged(run: seq<Catalog>, j: nat)
    requires (forall n: nat :: ManagedFollows(run, n)) && j < |run| && Managed(run[0])
    ensures Managed(run[j])
  {
    if j > 0 {
      StaysManaged(run, j - 1);
      ManagedRunStep(run, j - 1, j);
    }
  }

  /** Time travel over every run from a managed table, the empty one included: with no
      condition on any flush, a committed snapshot never reads differently. */
  lemma ManagedRunsKeepHistory(run: seq<Catalog>, i: nat, j: nat, s: int)
    requires (forall n: nat :: ManagedFollows(run, n)) && i <= j < |run| && Managed(run[0]) && s < run[i].head
    ensures Managed(run[j]) && Scan(run[j], s) == Scan(run[i], s)
  {
    StaysManaged(run, i);
    StaysManaged(run, j);
    forall n: nat
      ensures Follows(run, n)
    {
      if n + 1 < |run| {
        StaysManaged(run, n);
        ManagedRunStep(run, n, n + 1);
      }
    }
    CommittedSnapshotsNeverChange(run, i, j, s);
  }

  lemma EmptyTableIsManaged()
    ensures Managed(Catalog(0, 0, [], [], [], {}))
  {
  }
}
