/** Whole runs of a table: any interleaving of commits, each made of inserts, deletions
    by any route, merges, rewrites and flushes. What a committed snapshot reads never
    changes, whatever the later commits rewrite. */
module History {
  import opened Bags
  import opened Lake
  import opened Merge
  import opened FlushDeletes
  import Rows = FlushRows
  import opened Deletes
  import opened DeleteAll
  import opened Rewrite

  // ----- Changes of one commit -----

  /** Opens the next commit: changes made from here on are made at its snapshot. */
  function Begin(c: Catalog): Catalog {
    c.(head := c.head + 1)
  }

  function InsertFile(c: Catalog, rows: seq<Row>): Catalog {
    c.(nextFileId := c.nextFileId + 1, files := c.files + [DataFile(c.nextFileId, c.head, None, None, rows, None)])
  }

  function InsertInlined(c: Catalog, rows: seq<Row>): Catalog {
    c.(inlined := c.inlined + seq(|rows|, i requires 0 <= i < |rows| => InlinedRow(rows[i], c.head, None)))
  }

  /** Ends the live inlined rows at places `ix`, all inlined before this commit. */
  function EndSome(c: Catalog, ix: set<int>): Catalog {
    c.(inlined := seq(|c.inlined|, i requires 0 <= i < |c.inlined| =>
         if i in ix && c.inlined[i].begin < c.head then EndRow(c.inlined[i], c.head) else c.inlined[i]))
  }

  ghost predicate Merges(c: Catalog, c': Catalog) {
    exists bin, out :: MergeReady(c, bin) && MergeOutput(c, bin, out) && c' == MergeCommit(c, bin, out)
  }

  ghost predicate RewritesFile(c: Catalog, c': Catalog) {
    exists k: nat, rows :: DeleteAll.Settled(c, k) && IsLiveRows(c, k, rows) && c' == RewriteFile(c, k, rows)
  }

  ghost predicate FlushesRows(c: Catalog, c': Catalog) {
    exists slices, base ::
      && (forall slice | slice in slices :: slice != [])
      && multiset(Flatten(slices)) == multiset(Filter(c.inlined, Rows.UpTo(base)))
      && c' == Rows.FlushRowsCommit(c, slices, base)
  }

  ghost predicate FlushesDeletes(c: Catalog, c': Catalog) {
    exists f, ex, plan :: Flushable(c, f, ex, plan) && Covers(c, f, ex, plan) && c' == FlushFile(c, f, plan)
  }

  /** Maintenance moves rows and deletions between encodings and files. */
  ghost predicate Maintains(c: Catalog, c': Catalog) {
    Merges(c, c') || RewritesFile(c, c') || FlushesRows(c, c') || FlushesDeletes(c, c')
  }

  ghost predicate DeletesRows(c: Catalog, c': Catalog) {
    exists ds :: Statement(c, ds) && CommitsAll(c, ds, c')
  }

  ghost predicate Inserts(c: Catalog, c': Catalog) {
    (exists rows :: c' == InsertFile(c, rows)) || exists rows :: c' == InsertInlined(c, rows)
  }

  ghost predicate EndsRows(c: Catalog, c': Catalog) {
    exists ix :: c' == EndSome(c, ix)
  }

  ghost predicate Next(c: Catalog, c': Catalog) {
    c' == Begin(c) || Maintains(c, c') || DeletesRows(c, c') || Inserts(c, c') || EndsRows(c, c')
  }

  // ----- One step -----

  /** Maintenance changes nothing a read can see: no snapshot, past, present or future. */
  lemma MaintenanceIsInvisible(c: Catalog, c': Catalog, s: int)
    requires Wf(c) && Maintains(c, c')
    ensures Wf(c') && c'.head == c.head
    ensures Scan(c', s) == Scan(c, s)
  {
    if Merges(c, c') {
      var bin, out :| MergeReady(c, bin) && MergeOutput(c, bin, out) && c' == MergeCommit(c, bin, out);
      MergePreservesTimeTravel(c, bin, out, s);
    } else if RewritesFile(c, c') {
      var k: nat, rows :| DeleteAll.Settled(c, k) && IsLiveRows(c, k, rows) && c' == RewriteFile(c, k, rows);
      RewritePreservesTimeTravel(c, k, rows, s);
    } else if FlushesRows(c, c') {
      var slices, base :|
        && (forall slice | slice in slices :: slice != [])
        && multiset(Flatten(slices)) == multiset(Filter(c.inlined, Rows.UpTo(base)))
        && c' == Rows.FlushRowsCommit(c, slices, base);
      Rows.FlushRowsPreservesTimeTravel(c, slices, base, s);
      FlushRowsHead(c, slices);
    } else {
      var f, ex, plan :| Flushable(c, f, ex, plan) && Covers(c, f, ex, plan) && c' == FlushFile(c, f, plan);
      FlushDeletesPreservesTimeTravel(c, f, ex, plan, s);
    }
  }

  lemma {:induction false} FlushRowsHead(c: Catalog, slices: seq<seq<InlinedRow>>)
    requires forall slice | slice in slices :: slice != []
    ensures Rows.AddAllFlushed(c, slices).head == c.head
    decreases |slices|
  {
    if slices != [] {
      assert slices[0] in slices && forall slice | slice in slices[1..] :: slice in slices;
      FlushRowsHead(Rows.AddFlushed(c, slices[0]), slices[1..]);
    }
  }

  lemma LaterHead(c: Catalog)
    requires Wf(c)
    ensures Wf(Begin(c))
  {
    var c' := Begin(c);
    SameDeletesStay(c, c');
    forall d | d in c'.deletes
      ensures WfDelete(d, c'.head)
    {
      assert WfDelete(d, c.head);
      assert forall p | p in d.entries :: EntryWithin(d, d.entries[p], c.head);
    }
    assert forall f | f in c'.files :: WfFile(f, c.head);
  }

  lemma BeginWf(c: Catalog, s: int)
    requires Wf(c)
    ensures Wf(Begin(c)) && Scan(Begin(c), s) == Scan(c, s)
  {
    LaterHead(c);
    FilesShow(c, Begin(c), s);
    ScanIsShown(c, s);
    ScanIsShown(Begin(c), s);
  }

  /** The same files and deletions show the same rows. */
  lemma FilesShow(c: Catalog, c': Catalog, s: int)
    requires c'.files == c.files && c'.deletes == c.deletes && c'.inlinedDeletes == c.inlinedDeletes
    ensures Sum(c'.files, ShownBy(c', s)) == Sum(c.files, ShownBy(c, s))
  {
    forall f | f in c.files
      ensures Shown(c', f, s) == Shown(c, f, s)
    {
      ShownExt(c', c, f, s);
    }
    SumExt(c.files, ShownBy(c', s), ShownBy(c, s));
  }

  lemma InsertFileWf(c: Catalog, rows: seq<Row>)
    requires Wf(c)
    ensures Wf(InsertFile(c, rows))
  {
    var c' := InsertFile(c, rows);
    SameDeletesStayWithNew(c, c', c'.files[|c.files|]);
    assert WfFile(c'.files[|c.files|], c.head);
  }

  lemma InsertedShows(c: Catalog, rows: seq<Row>, s: int)
    requires Wf(c)
    ensures Shown(InsertFile(c, rows), InsertFile(c, rows).files[|c.files|], s) == if s < c.head then multiset{}
            else multiset(rows)
  {
    var c' := InsertFile(c, rows);
    var f := c'.files[|c.files|];
    if c.head <= s {
      SumSeq(rows, Each(), RowsBy(f, DeadBy(c', f.id, s), s));
      SumEach(rows);
    }
  }

  lemma InsertFileKeeps(c: Catalog, rows: seq<Row>, s: int)
    requires Wf(c)
    ensures Wf(InsertFile(c, rows))
    ensures Scan(InsertFile(c, rows), s) == Scan(c, s) + if s < c.head then multiset{} else multiset(rows)
  {
    var c' := InsertFile(c, rows);
    InsertFileWf(c, rows);
    ScanIsShown(c, s);
    ScanIsShown(c', s);
    forall g | g in c.files
      ensures Shown(c', g, s) == Shown(c, g, s)
    {
      ShownExt(c', c, g, s);
    }
    SumExt(c.files, ShownBy(c', s), ShownBy(c, s));
    SumLast(c'.files, ShownBy(c', s));
    assert c'.files[..|c.files|] == c.files;
    InsertedShows(c, rows, s);
  }

  lemma SameDeletesStayWithNew(c: Catalog, c': Catalog, f: DataFile)
    requires Wf(c) && c'.deletes == c.deletes && c'.files == c.files + [f] && f.id == c.nextFileId
    ensures DeletesStay(c')
  {
    forall g, d | g in c'.files && d in c'.deletes && d.file == g.id && g.end.None?
      ensures HasLiveDelete(c', g.id)
    {
      assert g in c.files && HasLiveDelete(c, g.id);
    }
  }

  /** Of a scan only the inlined part depends on the inlined rows. */
  lemma InlinedSwap(c: Catalog, inlined: seq<InlinedRow>, s: int)
    requires Wf(c) && forall r | r in inlined :: Lifetime(r.begin, r.end, c.head)
    ensures Wf(c.(inlined := inlined))
    ensures Scan(c.(inlined := inlined), s) == Sum(c.files, ShownBy(c, s)) + Sum(inlined, InlinedBy(s))
    ensures Scan(c, s) == Sum(c.files, ShownBy(c, s)) + Sum(c.inlined, InlinedBy(s))
  {
    var c' := c.(inlined := inlined);
    SameDeletesStay(c, c');
    FilesShow(c, c', s);
    ScanIsShown(c, s);
    ScanIsShown(c', s);
  }

  /** Inlined rows appear from the commit on, and nowhere before. */
  lemma InsertInlinedKeeps(c: Catalog, rows: seq<Row>, s: int)
    requires Wf(c)
    ensures Wf(InsertInlined(c, rows))
    ensures Scan(InsertInlined(c, rows), s) == Scan(c, s) + if s < c.head then multiset{} else multiset(rows)
  {
    var added := seq(|rows|, i requires 0 <= i < |rows| => InlinedRow(rows[i], c.head, None));
    AddedRows(rows, added, c.head, s);
    SumConcat(c.inlined, added, InlinedBy(s));
    InlinedSwap(c, c.inlined + added, s);
  }

  lemma {:induction false} AddedRows(rows: seq<Row>, added: seq<InlinedRow>, t: int, s: int)
    requires |rows| == |added| && forall i | 0 <= i < |rows| :: added[i] == InlinedRow(rows[i], t, None)
    ensures Sum(added, InlinedBy(s)) == if s < t then multiset{} else multiset(rows)
  {
    if rows != [] {
      AddedRows(rows[1..], added[1..], t, s);
      assert rows == [rows[0]] + rows[1..];
    }
  }

  predicate Ends(r: InlinedRow, i: int, ix: set<int>, t: int) {
    i in ix && r.begin < t && r.end.None?
  }

  /** The rows an end of the places `ix` ends: those live and inlined before the commit. */
  ghost function EndedBy(c: Catalog, ix: set<int>): int -> multiset<Row> {
    i => EndedAt(c, ix, i)
  }

  ghost function EndedAt(c: Catalog, ix: set<int>, i: int): multiset<Row> {
    if 0 <= i < |c.inlined| && Ends(c.inlined[i], i, ix, c.head) then multiset{c.inlined[i].row} else multiset{}
  }

  ghost function GoneBy(c: Catalog, ix: set<int>, s: int): int -> multiset<Row> {
    i => if s < c.head then multiset{} else EndedAt(c, ix, i)
  }

  lemma EndSomeAt(c: Catalog, ix: set<int>, s: int, i: nat)
    requires Wf(c) && i < |c.inlined|
    ensures Lifetime(EndSome(c, ix).inlined[i].begin, EndSome(c, ix).inlined[i].end, c.head)
    ensures InlinedBy(s)(c.inlined[i]) == InlinedBy(s)(EndSome(c, ix).inlined[i]) + GoneBy(c, ix, s)(i)
  {
    var r := c.inlined[i];
    assert r in c.inlined;
    var was, now := InlinedBy(s)(r), InlinedBy(s)(EndSome(c, ix).inlined[i]);
    if c.head <= s && Ends(r, i, ix, c.head) {
      assert was == multiset{r.row} && now == multiset{};
    } else {
      assert was == now;
      assert GoneBy(c, ix, s)(i) == multiset{};
    }
  }

  lemma EndSomeSum(c: Catalog, ix: set<int>, s: int)
    requires Wf(c)
    ensures Sum(c.inlined, InlinedBy(s)) ==
            Sum(EndSome(c, ix).inlined, InlinedBy(s)) + SumTo(|c.inlined|, GoneBy(c, ix, s))
  {
    var inlined := EndSome(c, ix).inlined;
    forall i
      ensures Loses(c.inlined, inlined, InlinedBy(s), GoneBy(c, ix, s), i)
    {
      if 0 <= i < |c.inlined| {
        EndSomeAt(c, ix, s, i);
      }
    }
    SumLoses(c.inlined, inlined, InlinedBy(s), GoneBy(c, ix, s));
  }

  lemma GoneIs(c: Catalog, ix: set<int>, s: int)
    ensures SumTo(|c.inlined|, GoneBy(c, ix, s)) ==
            if s < c.head then multiset{} else SumTo(|c.inlined|, EndedBy(c, ix))
  {
    if s < c.head {
      SumToEmpty(|c.inlined|, GoneBy(c, ix, s));
    } else {
      SumToExt(|c.inlined|, GoneBy(c, ix, s), EndedBy(c, ix));
    }
  }

  /** Exactly those rows leave from the commit on, and nothing before changes. */
  lemma EndSomeKeeps(c: Catalog, ix: set<int>, s: int)
    requires Wf(c)
    ensures Wf(EndSome(c, ix))
    ensures Scan(c, s) ==
            Scan(EndSome(c, ix), s) + if s < c.head then multiset{} else SumTo(|c.inlined|, EndedBy(c, ix))
  {
    forall i | 0 <= i < |c.inlined|
      ensures Lifetime(EndSome(c, ix).inlined[i].begin, EndSome(c, ix).inlined[i].end, c.head)
    {
      EndSomeAt(c, ix, s, i);
    }
    InlinedSwap(c, EndSome(c, ix).inlined, s);
    EndSomeSum(c, ix, s);
    GoneIs(c, ix, s);
  }

  /** A step leaves every committed snapshot as it was. */
  lemma StepKeepsPast(c: Catalog, c': Catalog, s: int)
    requires Wf(c) && Next(c, c') && s < c.head
    ensures Wf(c') && c.head <= c'.head
    ensures Scan(c', s) == Scan(c, s)
  {
    if c' == Begin(c) {
      BeginWf(c, s);
    } else if Maintains(c, c') {
      MaintenanceIsInvisible(c, c', s);
    } else if DeletesRows(c, c') {
      var ds :| Statement(c, ds) && CommitsAll(c, ds, c');
      StatementDeletes(c, ds, c', s);
    } else if Inserts(c, c') {
      if rows :| c' == InsertFile(c, rows) {
        InsertFileKeeps(c, rows, s);
      } else {
        var rows :| c' == InsertInlined(c, rows);
        InsertInlinedKeeps(c, rows, s);
      }
    } else {
      var ix :| c' == EndSome(c, ix);
      EndSomeKeeps(c, ix, s);
    }
  }

  // ----- Whole runs -----

  ghost predicate Follows(run: seq<Catalog>, i: nat) {
    i + 1 < |run| ==> Next(run[i], run[i + 1])
  }

  ghost predicate Run(run: seq<Catalog>) {
    forall i: nat :: Follows(run, i)
  }

  lemma RunStep(run: seq<Catalog>, i: nat, j: nat, s: int)
    requires Run(run) && j == i + 1 < |run| && Wf(run[i]) && s < run[i].head
    ensures Wf(run[j]) && run[i].head <= run[j].head
    ensures Scan(run[j], s) == Scan(run[i], s)
  {
    assert Follows(run, i);
    StepKeepsPast(run[i], run[j], s);
  }

  /** Time travel over a whole run: at every later point, however the table was
      compacted, flushed, deleted from or appended to since, a snapshot committed by
      point `i` reads exactly what it read there. */
  lemma {:induction false} CommittedSnapshotsNeverChange(run: seq<Catalog>, i: nat, j: nat, s: int)
    requires Run(run) && i <= j < |run| && Wf(run[i]) && s < run[i].head
    ensures Wf(run[j]) && run[i].head <= run[j].head
    ensures Scan(run[j], s) == Scan(run[i], s)
    decreases j - i
  {
    if i < j {
      CommittedSnapshotsNeverChange(run, i, j - 1, s);
      RunStep(run, j - 1, j, s);
    }
  }
}
