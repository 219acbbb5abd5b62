/** What a reader of a committed snapshot may rely on while a table changes under it,
    between two statements of one read. Any step of its history but a merge keeps the
    snapshot's files in place and moves deletions only out of the inlined ones (`Quiet`);
    a merge replaces files, and leaves what `Shifts` says. */
module QuietSteps {
  import opened Bags
  import opened Lake
  import opened Merge
  import opened FlushDeletes
  import Rows = FlushRows
  import opened Deletes
  import opened DeleteAll
  import opened Rewrite
  import opened History

  /** The same file to a reader at `s`. */
  predicate Same(f: DataFile, f': DataFile, s: int) {
    f' == f.(end := f'.end) && LiveAt(f'.begin, f'.end, s) == LiveAt(f.begin, f.end, s)
  }

  predicate FilesKept(c: Catalog, c': Catalog, s: int) {
    && |c.files| <= |c'.files|
    && (forall i | 0 <= i < |c.files| :: Same(c.files[i], c'.files[i], s))
    && (forall i | |c.files| <= i < |c'.files| :: c'.files[i].id >= c.nextFileId)
  }

  ghost predicate DeadKept(c: Catalog, c': Catalog, s: int) {
    forall f, p | f in c.files && LiveAt(f.begin, f.end, s) :: Dead(c', f.id, p, s) == Dead(c, f.id, p, s)
  }

  predicate NoneInlined(c: Catalog, c': Catalog, s: int) {
    forall d | d in c'.inlinedDeletes && d.begin <= s :: d in c.inlinedDeletes
  }

  ghost predicate Quiet(c: Catalog, c': Catalog, s: int) {
    && Wf(c) && Wf(c')
    && c.nextFileId <= c'.nextFileId && c.head <= c'.head
    && FilesKept(c, c', s)
    && DeadKept(c, c', s)
    && NoneInlined(c, c', s)
    && Scan(c', s) == Scan(c, s)
  }

  lemma QuietTrans(c: Catalog, mid: Catalog, c': Catalog, s: int)
    requires Quiet(c, mid, s) && Quiet(mid, c', s)
    ensures Quiet(c, c', s)
  {
    forall i | 0 <= i < |c.files|
      ensures Same(c.files[i], c'.files[i], s)
    {
      assert Same(c.files[i], mid.files[i], s) && Same(mid.files[i], c'.files[i], s);
    }
    forall i | |c.files| <= i < |c'.files|
      ensures c'.files[i].id >= c.nextFileId
    {
      if i < |mid.files| {
        assert Same(mid.files[i], c'.files[i], s);
      }
    }
    forall f, p | f in c.files && LiveAt(f.begin, f.end, s)
      ensures Dead(c', f.id, p, s) == Dead(c, f.id, p, s)
    {
      var i :| 0 <= i < |c.files| && c.files[i] == f;
      assert Same(c.files[i], mid.files[i], s) && mid.files[i] in mid.files;
      assert Dead(c', mid.files[i].id, p, s) == Dead(mid, mid.files[i].id, p, s);
    }
  }

  /** A change of the inlined rows alone. */
  lemma InlinedQuiet(c: Catalog, c': Catalog, s: int)
    requires Wf(c) && Wf(c') && c.head <= c'.head && c.nextFileId <= c'.nextFileId && Scan(c', s) == Scan(c, s)
    requires c'.files == c.files && c'.deletes == c.deletes && c'.inlinedDeletes == c.inlinedDeletes
    ensures Quiet(c, c', s)
  {
    assert forall g, p :: Dead(c', g, p, s) == Dead(c, g, p, s);
  }

  lemma InsertQuiet(c: Catalog, c': Catalog, s: int)
    requires Wf(c) && Inserts(c, c') && s < c.head
    ensures Quiet(c, c', s)
  {
    if rows :| c' == InsertFile(c, rows) {
      InsertFileKeeps(c, rows, s);
      assert forall g, p :: Dead(c', g, p, s) == Dead(c, g, p, s);
    } else {
      var rows :| c' == InsertInlined(c, rows);
      InsertInlinedKeeps(c, rows, s);
      InlinedQuiet(c, c', s);
    }
  }

  /** What adding flushed files keeps, before the inlined rows go. */
  ghost predicate Adds(c: Catalog, c': Catalog, s: int) {
    && c.nextFileId <= c'.nextFileId && c'.head == c.head
    && FilesKept(c, c', s)
    && DeadKept(c, c', s)
    && c'.inlinedDeletes == c.inlinedDeletes
  }

  lemma AddFlushedAdds(c: Catalog, slice: seq<InlinedRow>, s: int)
    requires Wf(c) && slice != []
    ensures Adds(c, Rows.AddFlushed(c, slice), s)
  {
    var c' := Rows.AddFlushed(c, slice);
    forall f, p | f in c.files && LiveAt(f.begin, f.end, s)
      ensures Dead(c', f.id, p, s) == Dead(c, f.id, p, s)
    {
      assert forall d | d in c'.deletes && Joins(d, f.id, s) :: d in c.deletes;
      assert forall d | d in c.deletes :: d in c'.deletes;
      assert InlinedDead(c', f.id, p, s) == InlinedDead(c, f.id, p, s);
    }
  }

  lemma AddsTrans(c: Catalog, mid: Catalog, c': Catalog, s: int)
    requires Adds(c, mid, s) && Adds(mid, c', s)
    ensures Adds(c, c', s)
  {
    forall i | 0 <= i < |c.files|
      ensures Same(c.files[i], c'.files[i], s)
    {
      assert Same(c.files[i], mid.files[i], s) && Same(mid.files[i], c'.files[i], s);
    }
    forall i | |c.files| <= i < |mid.files|
      ensures c'.files[i].id >= c.nextFileId
    {
      assert Same(mid.files[i], c'.files[i], s);
    }
    forall f, p | f in c.files && LiveAt(f.begin, f.end, s)
      ensures Dead(c', f.id, p, s) == Dead(c, f.id, p, s)
    {
      var i :| 0 <= i < |c.files| && c.files[i] == f;
      assert Same(c.files[i], mid.files[i], s) && mid.files[i] in mid.files;
    }
  }

  lemma {:induction false} AddAllAdds(c: Catalog, slices: seq<seq<InlinedRow>>, s: int)
    requires Wf(c) && forall slice | slice in slices :: slice != [] && Rows.SliceSettled(slice, c.head)
    ensures Adds(c, Rows.AddAllFlushed(c, slices), s)
    decreases |slices|
  {
    if slices != [] {
      assert slices[0] in slices;
      var mid := Rows.AddFlushed(c, slices[0]);
      Rows.AddFlushedWf(c, slices[0]);
      AddFlushedAdds(c, slices[0], s);
      AddAllAdds(mid, slices[1..], s);
      AddsTrans(c, mid, Rows.AddAllFlushed(mid, slices[1..]), s);
    }
  }

  lemma FlushRowsAdds(c: Catalog, slices: seq<seq<InlinedRow>>, base: int, s: int)
    requires Wf(c) && (forall slice | slice in slices :: slice != [])
    requires multiset(Flatten(slices)) == multiset(Filter(c.inlined, Rows.UpTo(base)))
    ensures Adds(c, Rows.FlushRowsCommit(c, slices, base), s)
  {
    Rows.SlicesSettled(c, slices, base);
    AddAllAdds(c, slices, s);
    var mid, c' := Rows.AddAllFlushed(c, slices), Rows.FlushRowsCommit(c, slices, base);
    assert forall g, p :: Dead(c', g, p, s) == Dead(mid, g, p, s);
  }

  lemma FlushRowsQuiet(c: Catalog, c': Catalog, s: int)
    requires Wf(c) && FlushesRows(c, c')
    ensures Quiet(c, c', s)
  {
    var slices, base :|
      && (forall slice | slice in slices :: slice != [])
      && multiset(Flatten(slices)) == multiset(Filter(c.inlined, Rows.UpTo(base)))
      && c' == Rows.FlushRowsCommit(c, slices, base);
    Rows.FlushRowsPreservesTimeTravel(c, slices, base, s);
    FlushRowsAdds(c, slices, base, s);
  }

  lemma FlushDeletesQuiet(c: Catalog, c': Catalog, s: int)
    requires Wf(c) && FlushesDeletes(c, c')
    ensures Quiet(c, c', s)
  {
    var f, ex, plan :| Flushable(c, f, ex, plan) && Covers(c, f, ex, plan) && c' == FlushFile(c, f, plan);
    FlushDeletesPreservesTimeTravel(c, f, ex, plan, s);
    FlushDead(c, f, ex, plan, s);
  }

  lemma FlushDead(c: Catalog, f: DataFile, ex: Option<DeleteFile>, plan: Plan, s: int)
    requires Wf(c) && Flushable(c, f, ex, plan) && Covers(c, f, ex, plan)
    ensures DeadKept(c, FlushFile(c, f, plan), s)
  {
    var c' := FlushFile(c, f, plan);
    CoversKeeps(c, f, ex, plan);
    forall g, p | g in c.files && LiveAt(g.begin, g.end, s)
      ensures Dead(c', g.id, p, s) == Dead(c, g.id, p, s)
    {
      if g.id == f.id {
        SameFile(c.files, f, g);
      } else {
        FlushFrame(c, f, ex, plan, g.id, s);
      }
    }
  }

  lemma RewriteAdds(c: Catalog, k: nat, rows: seq<Row>, s: int)
    requires k < |c.files| && s < c.head && c.files[k].end.None?
    ensures Adds(c, RewriteFile(c, k, rows), s)
  {
    forall g, p
      ensures Dead(RewriteFile(c, k, rows), g, p, s) == Dead(c, g, p, s)
    {
      EndedDead(c, k, rows, g, p, s);
    }
  }

  lemma RewriteQuiet(c: Catalog, c': Catalog, s: int)
    requires Wf(c) && RewritesFile(c, c') && s < c.head
    ensures Quiet(c, c', s)
  {
    var k: nat, rows :| DeleteAll.Settled(c, k) && IsLiveRows(c, k, rows) && c' == RewriteFile(c, k, rows);
    RewritePreservesTimeTravel(c, k, rows, s);
    RewriteAdds(c, k, rows, s);
  }

  lemma RouteQuiet(c: Catalog, k: nat, ps: set<int>, route: Route, c': Catalog, s: int)
    requires Wf(c) && Deletable(c, k, ps, route) && Commits(c, k, ps, route, c') && s < c.head
    ensures Quiet(c, c', s)
  {
    RecordedDeletions(c, k, ps, route, c', s);
    RouteDead(c, k, ps, route, c', s);
    RouteFiles(c, k, ps, route, c', s);
  }

  lemma RouteDead(c: Catalog, k: nat, ps: set<int>, route: Route, c': Catalog, s: int)
    requires Wf(c) && Deletable(c, k, ps, route) && Commits(c, k, ps, route, c') && s < c.head
    ensures DeadKept(c, c', s)
  {
    match route {
      case Nowhere =>
      case Inline => InlineMarks(c, k, ps);
      case Drop => assert forall g, p :: Dead(c', g, p, s) == Dead(c, g, p, s);
      case New => NewMarks(c, k, ps);
      case Rewrite =>
        var ex, b :| ex in c.deletes && ex.file == c.files[k].id && ex.end.None?
          && IsFirst(RewrittenDates(c, ex, ps), b) && c' == RewriteCommit(c, ex, ps, b);
        RewriteMarks(c, k, ps, ex, b);
      case Cumulative =>
        var ex :| ex in c.deletes && ex.file == c.files[k].id && ex.end.None? && c' == CumulativeCommit(c, ex, ps);
        CumulativeMarks(c, k, ps, ex);
    }
  }

  lemma RouteFiles(c: Catalog, k: nat, ps: set<int>, route: Route, c': Catalog, s: int)
    requires k < |c.files| && c.files[k].end.None? && Commits(c, k, ps, route, c') && s < c.head
    ensures c.nextFileId <= c'.nextFileId && c.head <= c'.head && FilesKept(c, c', s) && NoneInlined(c, c', s)
  {
  }

  lemma {:induction false} DeleteQuiet(c: Catalog, ds: seq<Deletion>, c': Catalog, s: int)
    requires Wf(c) && Statement(c, ds) && CommitsAll(c, ds, c') && s < c.head
    ensures Quiet(c, c', s)
    decreases |ds|
  {
    if ds != [] {
      var d := ds[0];
      var mid :| Commits(c, d.k, d.ps, d.route, mid) && CommitsAll(mid, ds[1..], c');
      assert Deletable(c, d.k, d.ps, d.route);
      CommitEffect(c, ds, mid, s);
      RouteQuiet(c, d.k, d.ps, d.route, mid, s);
      DeleteQuiet(mid, ds[1..], c', s);
      QuietTrans(c, mid, c', s);
    }
  }

  /** Every step of a table's history but a merge is quiet to a reader of a committed
      snapshot. */
  lemma StepIsQuiet(c: Catalog, c': Catalog, s: int)
    requires Wf(c) && Next(c, c') && !Merges(c, c') && s < c.head
    ensures Quiet(c, c', s)
  {
    if c' == Begin(c) {
      BeginWf(c, s);
      InlinedQuiet(c, c', s);
    } else if RewritesFile(c, c') {
      RewriteQuiet(c, c', s);
    } else if FlushesRows(c, c') {
      FlushRowsQuiet(c, c', s);
    } else if FlushesDeletes(c, c') {
      FlushDeletesQuiet(c, c', s);
    } else if DeletesRows(c, c') {
      var ds :| Statement(c, ds) && CommitsAll(c, ds, c');
      DeleteQuiet(c, ds, c', s);
    } else if Inserts(c, c') {
      InsertQuiet(c, c', s);
    } else {
      var ix :| c' == EndSome(c, ix);
      EndSomeKeeps(c, ix, s);
      InlinedQuiet(c, c', s);
    }
  }

  // ----- Merges included -----

  /** `f'` is file `f` of the catalog before, to a reader at `s`. */
  predicate WasThere(c: Catalog, f': DataFile, s: int) {
    exists f | f in c.files :: f.id == f'.id && Same(f, f', s)
  }

  /** Ids are not given twice: a file no newer than `c` is a file of `c`. */
  predicate FilesFollow(c: Catalog, c': Catalog, s: int) {
    forall f' | f' in c'.files && f'.id < c.nextFileId :: WasThere(c, f', s)
  }

  ghost predicate DeadFollow(c: Catalog, c': Catalog, s: int) {
    forall f', p | f' in c'.files && f'.id < c.nextFileId && LiveAt(f'.begin, f'.end, s) ::
      Dead(c', f'.id, p, s) == Dead(c, f'.id, p, s)
  }

  /** What a reader of `s` may rely on whatever was committed in between: files may have
      gone and others come, but those still there show what they showed, inlined rows
      and deletions only went, and the snapshot reads the same. */
  ghost predicate Shifts(c: Catalog, c': Catalog, s: int) {
    && Wf(c) && Wf(c')
    && c.nextFileId <= c'.nextFileId && c.head <= c'.head
    && FilesFollow(c, c', s)
    && DeadFollow(c, c', s)
    && NoneInlined(c, c', s)
    && Sum(c'.inlined, InlinedBy(s)) <= Sum(c.inlined, InlinedBy(s))
    && Scan(c', s) == Scan(c, s)
  }

  lemma ShiftsSame(c: Catalog, s: int)
    requires Wf(c)
    ensures Shifts(c, c, s)
  {
    forall f' | f' in c.files
      ensures WasThere(c, f', s)
    {
      assert Same(f', f', s);
    }
  }

  lemma FollowTrans(c: Catalog, mid: Catalog, c': Catalog, f': DataFile, s: int)
    requires Shifts(c, mid, s) && Shifts(mid, c', s) && f' in c'.files && f'.id < c.nextFileId
    ensures WasThere(c, f', s)
    ensures LiveAt(f'.begin, f'.end, s) ==> forall p :: Dead(c', f'.id, p, s) == Dead(c, f'.id, p, s)
  {
    assert WasThere(mid, f', s);
    var g :| g in mid.files && g.id == f'.id && Same(g, f', s);
    assert WasThere(c, g, s);
    var f :| f in c.files && f.id == g.id && Same(f, g, s);
    assert Same(f, f', s);
  }

  lemma ShiftsTrans(c: Catalog, mid: Catalog, c': Catalog, s: int)
    requires Shifts(c, mid, s) && Shifts(mid, c', s)
    ensures Shifts(c, c', s)
  {
    forall f' | f' in c'.files && f'.id < c.nextFileId
      ensures WasThere(c, f', s)
      ensures LiveAt(f'.begin, f'.end, s) ==> forall p :: Dead(c', f'.id, p, s) == Dead(c, f'.id, p, s)
    {
      FollowTrans(c, mid, c', f', s);
    }
  }

  /** A file shows a reader the same rows at any later time. */
  lemma StillShows(c: Catalog, c': Catalog, i: nat, s: int)
    requires Quiet(c, c', s) && i < |c.files|
    ensures Shown(c', c'.files[i], s) == Shown(c, c.files[i], s)
  {
    var f, f' := c.files[i], c'.files[i];
    assert Same(f, f', s) && f in c.files;
    ShownExt(c', c, f, s);
    DroppedRows(f, f', DeadBy(c', f.id, s), s);
  }

  lemma KeptShow(c: Catalog, c': Catalog, s: int)
    requires Quiet(c, c', s)
    ensures |c.files| <= |c'.files|
    ensures Sum(c'.files, ShownBy(c', s)) == Sum(c.files, ShownBy(c, s)) + Sum(c'.files[|c.files|..], ShownBy(c', s))
  {
    var n := |c.files|;
    var kept, fresher := c'.files[..n], c'.files[n..];
    forall j | 0 <= j < n
      ensures ShownBy(c', s)(kept[j]) == ShownBy(c, s)(c.files[j])
    {
      StillShows(c, c', j, s);
    }
    SumMap(kept, c.files, ShownBy(c', s), ShownBy(c, s));
    assert c'.files == kept + fresher;
    SumConcat(kept, fresher, ShownBy(c', s));
  }

  lemma OnlyLess<R>(a: multiset<R>, b: multiset<R>, d: multiset<R>, e: multiset<R>)
    requires a + b + d == a + e
    ensures d <= e
  {
    forall r
      ensures d[r] <= e[r]
    {
      assert (a + b + d)[r] == (a + e)[r];
    }
  }

  /** What a quiet step does not show inlined any more, new files show. */
  lemma InlinedShrinks(c: Catalog, c': Catalog, s: int)
    requires Quiet(c, c', s)
    ensures Sum(c'.inlined, InlinedBy(s)) <= Sum(c.inlined, InlinedBy(s))
  {
    KeptShow(c, c', s);
    ScanIsShown(c, s);
    ScanIsShown(c', s);
    OnlyLess(Sum(c.files, ShownBy(c, s)), Sum(c'.files[|c.files|..], ShownBy(c', s)), Sum(c'.inlined, InlinedBy(s)),
      Sum(c.inlined, InlinedBy(s)));
  }

  lemma QuietFollows(c: Catalog, c': Catalog, f': DataFile, s: int)
    requires Quiet(c, c', s) && f' in c'.files && f'.id < c.nextFileId
    ensures WasThere(c, f', s)
    ensures LiveAt(f'.begin, f'.end, s) ==> forall p :: Dead(c', f'.id, p, s) == Dead(c, f'.id, p, s)
  {
    var i :| 0 <= i < |c'.files| && c'.files[i] == f';
    assert i < |c.files| && Same(c.files[i], c'.files[i], s) && c.files[i] in c.files;
  }

  lemma QuietShifts(c: Catalog, c': Catalog, s: int)
    requires Quiet(c, c', s)
    ensures Shifts(c, c', s)
  {
    InlinedShrinks(c, c', s);
    forall f' | f' in c'.files && f'.id < c.nextFileId
      ensures WasThere(c, f', s)
      ensures LiveAt(f'.begin, f'.end, s) ==> forall p :: Dead(c', f'.id, p, s) == Dead(c, f'.id, p, s)
    {
      QuietFollows(c, c', f', s);
    }
  }

  lemma MergeFollows(c: Catalog, bin: seq<DataFile>, out: Option<DataFile>, f': DataFile, s: int)
    requires Wf(c) && MergeOutput(c, bin, out) && f' in MergeCommit(c, bin, out).files && f'.id < c.nextFileId
    ensures WasThere(c, f', s) && forall p :: Dead(MergeCommit(c, bin, out), f'.id, p, s) == Dead(c, f'.id, p, s)
  {
    FilesOutsideWf(c.files, Ids(bin));
    DeletesOutsideWf(c.deletes, Ids(bin));
    assert f' in FilesOutside(c.files, Ids(bin)) && Same(f', f', s);
    assert forall d | Joins(d, f'.id, s) :: d in MergeCommit(c, bin, out).deletes <==> d in c.deletes;
  }

  lemma MergeShifts(c: Catalog, c': Catalog, s: int)
    requires Wf(c) && Merges(c, c')
    ensures Shifts(c, c', s)
  {
    var bin, out :| MergeReady(c, bin) && MergeOutput(c, bin, out) && c' == MergeCommit(c, bin, out);
    assert Wf(c') && Scan(c', s) == Scan(c, s) by {
      MergePreservesTimeTravel(c, bin, out, s);
    }
    forall f' | f' in c'.files && f'.id < c.nextFileId
      ensures WasThere(c, f', s) && forall p :: Dead(c', f'.id, p, s) == Dead(c, f'.id, p, s)
    {
      MergeFollows(c, bin, out, f', s);
    }
  }

  /** Every step of a table's history. */
  lemma StepShifts(c: Catalog, c': Catalog, s: int)
    requires Wf(c) && Next(c, c') && s < c.head
    ensures Shifts(c, c', s)
  {
    if Merges(c, c') {
      MergeShifts(c, c', s);
    } else {
      StepIsQuiet(c, c', s);
      QuietShifts(c, c', s);
    }
  }

  /** Any number of commits: each opens a snapshot above the head, and makes changes. */
  ghost predicate Advances(c: Catalog, c': Catalog) {
    c' == c || exists run :: RunFrom(run, Begin(c), c')
  }

  ghost predicate RunFrom(run: seq<Catalog>, c: Catalog, c': Catalog) {
    run != [] && run[0] == c && run[|run| - 1] == c' && Run(run)
  }

  lemma {:induction false} RunShifts(run: seq<Catalog>, j: nat, s: int)
    requires Run(run) && j < |run| && Wf(run[0]) && s < run[0].head
    ensures Shifts(run[0], run[j], s)
    decreases j
  {
    if j == 0 {
      ShiftsSame(run[0], s);
    } else {
      RunShifts(run, j - 1, s);
      assert History.Follows(run, j - 1);
      StepShifts(run[j - 1], run[j], s);
      ShiftsTrans(run[0], run[j - 1], run[j], s);
    }
  }

  lemma BeginShifts(c: Catalog, s: int)
    requires Wf(c)
    ensures Shifts(c, Begin(c), s)
  {
    BeginWf(c, s);
    InlinedQuiet(c, Begin(c), s);
    QuietShifts(c, Begin(c), s);
  }

  lemma RunFromShifts(run: seq<Catalog>, c: Catalog, c': Catalog, s: int)
    requires RunFrom(run, c, c') && Wf(c) && s < c.head
    ensures Shifts(c, c', s)
  {
    RunShifts(run, |run| - 1, s);
  }

  lemma BeginsAbove(c: Catalog, s: int)
    requires Wf(c) && s <= c.head
    ensures Wf(Begin(c)) && s < Begin(c).head
  {
    BeginWf(c, s);
  }

  /** Whatever is committed, merges included, a committed snapshot's reader may rely on
      `Shifts`. */
  lemma AdvanceShifts(c: Catalog, c': Catalog, s: int)
    requires Wf(c) && Advances(c, c') && s <= c.head
    ensures Shifts(c, c', s)
  {
    if c' == c {
      ShiftsSame(c, s);
    } else {
      var run :| RunFrom(run, Begin(c), c');
      var begun := Begin(c);
      BeginsAbove(c, s);
      RunFromShifts(run, begun, c', s);
      BeginShifts(c, s);
      ShiftsTrans(c, begun, c', s);
    }
  }

  lemma AdvancesBegin(c: Catalog)
    ensures Advances(c, Begin(c))
  {
    var run := [Begin(c)];
    assert forall i: nat :: History.Follows(run, i);
    assert RunFrom(run, Begin(c), Begin(c));
  }

  lemma AdvancesStep(c: Catalog, c': Catalog)
    requires Next(Begin(c), c')
    ensures Advances(c, c')
  {
    var run := [Begin(c), c'];
    assert forall i: nat :: History.Follows(run, i);
    assert RunFrom(run, Begin(c), c');
  }

  lemma RunsJoin(run: seq<Catalog>, run': seq<Catalog>, c: Catalog, mid: Catalog, c': Catalog)
    requires RunFrom(run, c, mid) && RunFrom(run', Begin(mid), c')
    ensures RunFrom(run + run', c, c')
  {
    var all := run + run';
    forall i: nat
      ensures History.Follows(all, i)
    {
      if i + 1 < |run| {
        assert History.Follows(run, i);
      } else if i + 1 > |run| && i + 1 < |all| {
        assert History.Follows(run', i - |run|);
        assert all[i] == run'[i - |run|] && all[i + 1] == run'[i - |run| + 1];
      } else if i + 1 == |run| {
        assert all[i] == mid && all[i + 1] == Begin(mid);
      }
    }
  }

  lemma AdvancesTrans(c: Catalog, mid: Catalog, c': Catalog)
    requires Advances(c, mid) && Advances(mid, c')
    ensures Advances(c, c')
  {
    if mid != c && c' != mid {
      var run :| RunFrom(run, Begin(c), mid);
      var run' :| RunFrom(run', Begin(mid), c');
      RunsJoin(run, run', Begin(c), mid, c');
    }
  }
}
