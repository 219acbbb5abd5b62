/** Tables only these commits ever touched never have a position deleted in both encodings,
    so a `DELETE` without `WHERE` counts and removes every row of them. */
module ManagedDeletes {
  import opened Bags
  import opened Lake
  import opened Merge
  import opened FlushDeletes
  import Rows = FlushRows
  import opened Deletes
  import opened DeleteAll
  import opened Rewrite
  import opened History
  import opened Managed

  /** No inlined deletion names a position a delete file names. */
  predicate Separate(c: Catalog) {
    forall d, x | d in c.deletes && x in c.inlinedDeletes && d.file == x.file :: x.pos !in d.entries
  }

  predicate Within(f: DataFile, p: int) {
    0 <= p < |f.rows|
  }

  /** Deletions stay inside their data files. */
  predicate AllInside(c: Catalog) {
    && (forall d, f, p | d in c.deletes && f in c.files && d.file == f.id && p in d.entries :: Within(f, p))
    && forall x, f | x in c.inlinedDeletes && f in c.files && x.file == f.id :: Within(f, x.pos)
  }

  predicate Clean(c: Catalog) {
    Managed.Managed(c) && Separate(c) && AllInside(c)
  }

  /** A delete file with the entries of one before. */
  predicate Old(c: Catalog, d: DeleteFile) {
    exists e | e in c.deletes :: e.file == d.file && e.entries == d.entries
  }

  /** A data file with the rows of one before, or a new one. */
  predicate OldOrNew(c: Catalog, f: DataFile) {
    f.id >= c.nextFileId || exists g | g in c.files :: g.id == f.id && g.rows == f.rows
  }

  lemma NoneAdded(c: Catalog, c': Catalog)
    requires Clean(c) && c'.inlinedDeletes <= c.inlinedDeletes
    requires (forall d | d in c'.deletes :: Old(c, d)) && forall f | f in c'.files :: OldOrNew(c, f)
    ensures Separate(c') && AllInside(c')
  {
    forall d, x | d in c'.deletes && x in c'.inlinedDeletes && d.file == x.file
      ensures x.pos !in d.entries
    {
      assert Old(c, d);
    }
    forall d, f, p | d in c'.deletes && f in c'.files && d.file == f.id && p in d.entries
      ensures Within(f, p)
    {
      assert Old(c, d) && OldOrNew(c, f);
    }
    forall x, f | x in c'.inlinedDeletes && f in c'.files && x.file == f.id
      ensures Within(f, x.pos)
    {
      assert OldOrNew(c, f);
    }
  }

  /** The same deletions, and files kept, ended or new. */
  lemma SameDeletions(c: Catalog, c': Catalog)
    requires Clean(c) && c'.deletes == c.deletes && c'.inlinedDeletes == c.inlinedDeletes
    requires forall f | f in c'.files :: OldOrNew(c, f)
    ensures Separate(c') && AllInside(c')
  {
    assert forall d | d in c'.deletes :: Old(c, d);
    NoneAdded(c, c');
  }

  lemma MergeClean(c: Catalog, c': Catalog)
    requires Clean(c) && Merges(c, c')
    ensures Separate(c') && AllInside(c')
  {
    var bin, out :| MergeReady(c, bin) && MergeOutput(c, bin, out) && c' == MergeCommit(c, bin, out);
    FilesOutsideWf(c.files, Ids(bin));
    DeletesOutsideWf(c.deletes, Ids(bin));
    assert forall d | d in c'.deletes :: Old(c, d);
    assert forall f | f in c'.files :: OldOrNew(c, f);
    NoneAdded(c, c');
  }

  lemma RewrittenOld(c: Catalog, k: nat, rows: seq<Row>)
    requires k < |c.files|
    ensures forall f | f in RewriteFile(c, k, rows).files :: OldOrNew(c, f)
    ensures forall d | d in RewriteFile(c, k, rows).deletes :: Old(c, d)
  {
    var c' := RewriteFile(c, k, rows);
    EndedMembers(c.deletes, c.files[k].id, c.head);
    forall f | f in c'.files
      ensures OldOrNew(c, f)
    {
      var i :| 0 <= i < |c'.files| && c'.files[i] == f;
      if i < |c.files| {
        assert c.files[i] in c.files;
      }
    }
  }

  lemma RewriteClean(c: Catalog, c': Catalog)
    requires Clean(c) && RewritesFile(c, c')
    ensures Separate(c') && AllInside(c')
  {
    var k: nat, rows :| DeleteAll.Settled(c, k) && IsLiveRows(c, k, rows) && c' == RewriteFile(c, k, rows);
    RewrittenOld(c, k, rows);
    NoneAdded(c, c');
  }

  lemma AddFlushedClean(c: Catalog, slice: seq<InlinedRow>)
    requires Clean(c) && slice != [] && Rows.SliceSettled(slice, c.head)
    ensures Clean(Rows.AddFlushed(c, slice))
  {
    var c' := Rows.AddFlushed(c, slice);
    AddFlushedManaged(c, slice);
    forall d, f, p | d in c'.deletes && f in c'.files && d.file == f.id && p in d.entries
      ensures Within(f, p)
    {
      if d in c.deletes {
        assert d.file < c.nextFileId && f in c.files;
      } else {
        assert d.file == c.nextFileId && f == Rows.FlushedFile(slice, c.nextFileId);
      }
    }
  }

  lemma {:induction false} AddAllClean(c: Catalog, slices: seq<seq<InlinedRow>>)
    requires Clean(c) && forall slice | slice in slices :: slice != [] && Rows.SliceSettled(slice, c.head)
    ensures Clean(Rows.AddAllFlushed(c, slices))
    decreases |slices|
  {
    if slices != [] {
      assert slices[0] in slices && forall slice | slice in slices[1..] :: slice in slices;
      AddFlushedClean(c, slices[0]);
      AddAllClean(Rows.AddFlushed(c, slices[0]), slices[1..]);
    }
  }

  lemma FlushRowsClean(c: Catalog, c': Catalog)
    requires Clean(c) && FlushesRows(c, c')
    ensures Separate(c') && AllInside(c')
  {
    var slices, base :|
      && (forall slice | slice in slices :: slice != [])
      && multiset(Flatten(slices)) == multiset(Filter(c.inlined, Rows.UpTo(base)))
      && c' == Rows.FlushRowsCommit(c, slices, base);
    Rows.SlicesSettled(c, slices, base);
    AddAllClean(c, slices);
  }

  lemma FlushDeletesClean(c: Catalog, f: DataFile, ex: Option<DeleteFile>, plan: Plan)
    requires Clean(c) && Flushable(c, f, ex, plan)
    ensures Separate(FlushFile(c, f, plan)) && AllInside(FlushFile(c, f, plan))
  {
    var c', n := FlushFile(c, f, plan), Planned(c, f, plan);
    forall d
      ensures d in c'.deletes <==> d == n || (d in c.deletes && ex != Some(d))
    {
      RestOfDeletes(c, ex, d);
    }
    forall g, p | g in c'.files && g.id == f.id && p in n.entries
      ensures Within(g, p)
    {
      SameFile(c.files, f, g);
      if ex.None? || p !in ex.value.entries {
        var x :| x in InlinedOf(c, f.id) && x.pos == p;
      }
    }
  }

  lemma InlineClean(c: Catalog, k: nat, ps: set<int>)
    requires Clean(c) && Deletable(c, k, ps, Inline)
    ensures Separate(InlineCommit(c, c.files[k].id, ps)) && AllInside(InlineCommit(c, c.files[k].id, ps))
  {
    var c', f := InlineCommit(c, c.files[k].id, ps), c.files[k];
    assert f in c.files;
    forall d, p | d in c.deletes && d.file == f.id && p in ps
      ensures p !in d.entries
    {
      NotAlready(c, k, ps, Inline, d, p);
    }
    forall x, g | x in c'.inlinedDeletes && g in c'.files && x.file == g.id
      ensures Within(g, x.pos)
    {
      if x !in c.inlinedDeletes {
        SameFile(c.files, f, g);
      }
    }
  }

  /** A position that is not deleted is in no delete file of a live file. */
  lemma NotAlready(c: Catalog, k: nat, ps: set<int>, route: Route, d: DeleteFile, p: int)
    requires Clean(c) && Deletable(c, k, ps, route) && d in c.deletes && d.file == c.files[k].id && p in ps
    ensures p !in d.entries
  {
    var f := c.files[k];
    assert f in c.files && HasLiveDelete(c, f.id);
    assert d.end.None?;
    if p in d.entries {
      assert WfDelete(d, c.head) && EntryWithin(d, d.entries[p], c.head);
      assert Joins(d, f.id, c.head) && Records(d, p, c.head);
    }
  }

  lemma NotInlined(c: Catalog, k: nat, ps: set<int>, route: Route, x: InlinedDelete)
    requires Wf(c) && Deletable(c, k, ps, route) && x in c.inlinedDeletes && x.file == c.files[k].id
    ensures x.pos !in ps
  {
    assert x == InlinedDelete(x.file, x.pos, x.begin);
    assert InlinedDead(c, x.file, x.pos, c.head);
  }

  lemma NewClean(c: Catalog, k: nat, ps: set<int>)
    requires Clean(c) && Deletable(c, k, ps, New)
    ensures Separate(NewCommit(c, c.files[k].id, ps)) && AllInside(NewCommit(c, c.files[k].id, ps))
  {
    var c', f, n := NewCommit(c, c.files[k].id, ps), c.files[k], NewFile(c, c.files[k].id, ps);
    assert f in c.files;
    forall x | x in c.inlinedDeletes && x.file == f.id
      ensures x.pos !in n.entries
    {
      NotInlined(c, k, ps, New, x);
    }
    forall g, p | g in c'.files && g.id == f.id && p in n.entries
      ensures Within(g, p)
    {
      SameFile(c.files, f, g);
    }
  }

  lemma RewrittenClean(c: Catalog, k: nat, ps: set<int>, ex: DeleteFile, b: int)
    requires Clean(c) && Rewrites(c, k, ps, ex, b)
    ensures Separate(RewriteCommit(c, ex, ps, b)) && AllInside(RewriteCommit(c, ex, ps, b))
  {
    var c', f, n := RewriteCommit(c, ex, ps, b), c.files[k], RewrittenFile(c, ex, ps, b);
    assert f in c.files;
    RewrittenMembers(c, k, ps, ex, b);
    forall x | x in c.inlinedDeletes && x.file == f.id
      ensures x.pos !in n.entries
    {
      NotInlined(c, k, ps, Rewrite, x);
    }
    forall g, p | g in c'.files && g.id == f.id && p in n.entries
      ensures Within(g, p)
    {
      SameFile(c.files, f, g);
    }
  }

  lemma DropClean(c: Catalog, k: nat)
    requires Clean(c) && k < |c.files|
    ensures Separate(DropCommit(c, k)) && AllInside(DropCommit(c, k))
  {
    var c' := DropCommit(c, k);
    forall f | f in c'.files
      ensures OldOrNew(c, f)
    {
      var i :| 0 <= i < |c'.files| && c'.files[i] == f;
      assert c.files[i] in c.files;
    }
    SameDeletions(c, c');
  }

  lemma CommitClean(c: Catalog, k: nat, ps: set<int>, route: Route, c': Catalog)
    requires Clean(c) && Deletable(c, k, ps, route) && Commits(c, k, ps, route, c') && !route.Cumulative?
    ensures Separate(c') && AllInside(c')
  {
    match route {
      case Nowhere =>
      case Inline => InlineClean(c, k, ps);
      case Drop => DropClean(c, k);
      case New => NewClean(c, k, ps);
      case Rewrite =>
        var ex, b :| ex in c.deletes && ex.file == c.files[k].id && ex.end.None?
          && IsFirst(RewrittenDates(c, ex, ps), b) && c' == RewriteCommit(c, ex, ps, b);
        RewrittenClean(c, k, ps, ex, b);
    }
  }

  lemma FirstClean(c: Catalog, ds: seq<Deletion>, mid: Catalog)
    requires Clean(c) && Statement(c, ds) && Staged(ds) && ds != [] && Commits(c, ds[0].k, ds[0].ps, ds[0].route, mid)
    ensures Clean(mid) && Statement(mid, ds[1..]) && Staged(ds[1..])
  {
    var d := ds[0];
    assert Deletable(c, d.k, d.ps, d.route);
    RecordedDeletions(c, d.k, d.ps, d.route, mid, c.head);
    CommitManaged(c, d.k, d.ps, d.route, mid);
    CommitClean(c, d.k, d.ps, d.route, mid);
    StatementStep(c, ds, mid);
  }

  lemma {:induction false} StatementClean(c: Catalog, ds: seq<Deletion>, c': Catalog)
    requires Clean(c) && Statement(c, ds) && Staged(ds) && CommitsAll(c, ds, c')
    ensures Clean(c')
    decreases |ds|
  {
    if ds != [] {
      var mid :| Commits(c, ds[0].k, ds[0].ps, ds[0].route, mid) && CommitsAll(mid, ds[1..], c');
      FirstClean(c, ds, mid);
      StatementClean(mid, ds[1..], c');
    }
  }

  lemma InsertClean(c: Catalog, c': Catalog)
    requires Clean(c) && Inserts(c, c')
    ensures Separate(c') && AllInside(c')
  {
    SameDeletions(c, c');
  }

  /** Every step keeps the two encodings apart and inside their files. */
  lemma CleanStep(c: Catalog, c': Catalog)
    requires Clean(c) && ManagedNext(c, c')
    ensures Clean(c')
  {
    ManagedStep(c, c');
    if Merges(c, c') {
      MergeClean(c, c');
    } else if RewritesFile(c, c') {
      RewriteClean(c, c');
    } else if FlushesRows(c, c') {
      FlushRowsClean(c, c');
    } else if FlushesAny(c, c') {
      var f, ex, plan :| Flushable(c, f, ex, plan) && c' == FlushFile(c, f, plan);
      FlushDeletesClean(c, f, ex, plan);
    } else if DeletesStaged(c, c') {
      var ds :| Statement(c, ds) && Staged(ds) && CommitsAll(c, ds, c');
      StatementClean(c, ds, c');
    } else if Inserts(c, c') {
      InsertClean(c, c');
    } else {
      SameDeletions(c, c');
    }
  }

  lemma {:induction false} StaysClean(run: seq<Catalog>, j: nat)
    requires (forall n: nat :: ManagedFollows(run, n)) && j < |run| && Clean(run[0])
    ensures Clean(run[j])
  {
    if j > 0 {
      StaysClean(run, j - 1);
      assert ManagedFollows(run, j - 1);
      CleanStep(run[j - 1], run[j]);
    }
  }

  lemma EmptyTableIsClean()
    ensures Clean(Catalog(0, 0, [], [], [], {}))
  {
  }

  lemma CleanFile(c: Catalog, f: DataFile)
    requires Clean(c) && f in c.files
    ensures Inside(c, f) && FromFile(c, f.id) !! Inlined(c, f.id)
  {
  }

  /** A commit opened on such a table finds every file settled. */
  lemma CleanIsReady(c: Catalog)
    requires Clean(c)
    ensures Ready(Begin(c)) && ExactTo(Begin(c), |c.files|)
  {
    var c' := Begin(c);
    BeginWf(c, c.head);
    SameDeletions(c, c');
    assert Clean(c');
    forall k: nat | k < |c'.files|
      ensures Inside(c', c'.files[k]) && Exact(c', c'.files[k])
    {
      assert c'.files[k] in c'.files && c.files[k] in c.files;
      CleanFile(c', c'.files[k]);
    }
    forall k: nat | k < |c'.files| && c'.files[k].end.None?
      ensures DeleteAll.Settled(c', k)
    {
      assert c.files[k] in c.files;
    }
  }

  /** Over every run from an empty table, with no condition on any commit: a `DELETE`
      without `WHERE` reports the number of rows visible, and from its commit on no row is
      visible. */
  lemma ManagedDeleteAll(run: seq<Catalog>, j: nat, inlineLimit: nat, mid: Catalog, s: int)
    requires (forall n: nat :: ManagedFollows(run, n)) && j < |run| && Clean(run[0])
    requires var c := Begin(run[j]); CommitsAll(c, DeletionsTo(c, inlineLimit, |c.files|), mid) && c.head <= s
    ensures var c := Begin(run[j]); LiveRows(c.inlined) + CountTo(c, inlineLimit, |c.files|) == |Scan(c, c.head)|
    ensures Scan(EndInlined(mid), s) == multiset{}
  {
    var c := Begin(run[j]);
    StaysClean(run, j);
    CleanIsReady(run[j]);
    DeleteAllCounts(c, inlineLimit);
    DeleteAllEmpties(c, inlineLimit, mid, s);
    forall k: nat | k < |c.files| && c.files[k].end.None?
      ensures Reached(c, c.files[k]) || Alive(c, c.files[k]) == {}
    {
      ExactIsReached(c, c.files[k]);
    }
  }
}
