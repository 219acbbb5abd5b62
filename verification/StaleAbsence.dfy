/** A run in which the memo keeps a fill that does not show the catalog. One query's fill
    reads in a consistent read at head 1, where the table has an inlined row. A flush
    commits head 2; the fill of another query, in a consistent read begun there, notes that
    no inlined row is left.
    The first fill then takes that answer for its own, older, state: it reads neither the
    row nor a file that holds it, sees its head unmoved, and is kept. */
module StaleAbsence {
  import opened Bags
  import opened Lake
  import opened History
  import opened QuietSteps
  import Rows = FlushRows
  import F = Fill
  import opened CatalogMemo

  const ROW := Row(0, "a")
  const INLINED := InlinedRow(ROW, 1, None)
  const FLUSHED := DataFile(0, 1, None, Some(1), [ROW], Some([Some(1)]))

  /** The table at each head, for every table id: empty, one inlined row, flushed. */
  function At(h: nat, table: int): Catalog {
    if h == 0 then Catalog(0, 0, [], [], [], {})
    else if h == 1 then Catalog(1, 0, [], [], [INLINED], {})
    else Catalog(h, 2, [FLUSHED], [], [], {})
  }

  function PageAt(h: nat, key: Key, after: Option<int>): seq<F.Listed> {
    if h >= 2 && key.1 >= 1 && F.Past(after, 0) then [F.Listed(FLUSHED, None)] else []
  }

  const WORLD := World(At, 1, PageAt, (r: Reads) => 1, 100)

  lemma AtWf(h: nat, table: int)
    ensures TableOk(WORLD, h, table)
  {
    assert h >= 2 ==> forall f | f in At(h, table).files :: WfFile(f, h);
  }

  lemma FileGives()
    ensures Rows.FlushedFile([INLINED], 0) == FLUSHED && Rows.FlushedDelete([INLINED], 0) == None
  {
    var f := Rows.FlushedFile([INLINED], 0);
    assert f.begin == 1 && f.partialMax == Some(1);
    assert f.rows == [ROW] && f.origins.value == [Some(1)];
    assert [INLINED][1..] == [] && Rows.MinEnd([INLINED]) == None;
  }

  lemma FlushGives(table: int)
    ensures History.Next(Begin(At(1, table)), At(2, table))
  {
    var c, slices := Begin(At(1, table)), [[INLINED]];
    assert slices[0] in slices && slices[1..] == [];
    assert Flatten(slices) == [INLINED] by {
      assert Flatten(slices[1..]) == [];
    }
    assert Filter(c.inlined, Rows.UpTo(1)) == [INLINED] by {
      assert c.inlined[1..] == [];
    }
    FilterNone(c.inlined, Not(Rows.UpTo(1)));
    FileGives();
    assert Rows.AddAllFlushed(c, slices) == Rows.AddFlushed(c, [INLINED]);
    assert At(2, table) == Rows.FlushRowsCommit(c, slices, 1);
    assert FlushesRows(c, At(2, table));
  }

  lemma OneHead(h: nat, table: int)
    ensures Advances(At(h, table), At(h + 1, table))
  {
    if h == 0 {
      var c := Begin(At(0, table));
      assert InsertInlined(c, [ROW]) == At(1, table);
      assert Inserts(c, At(1, table));
      AdvancesStep(At(0, table), At(1, table));
    } else if h == 1 {
      FlushGives(table);
      AdvancesStep(At(1, table), At(2, table));
    } else {
      AdvancesBegin(At(h, table));
    }
  }

  lemma {:induction false} HeadsGrow(h: nat, h': nat, table: int)
    requires h <= h'
    ensures Advances(At(h, table), At(h', table))
    decreases h' - h
  {
    if h < h' {
      HeadsGrow(h, h' - 1, table);
      OneHead(h' - 1, table);
      AdvancesTrans(At(h, table), At(h' - 1, table), At(h', table));
    }
  }

  lemma PagesRight(h: nat, key: Key, after: Option<int>)
    ensures PageOk(WORLD, h, key, after)
  {
    var page := PageAt(h, key, after);
    forall f | f in At(h, key.0).files && LiveAt(f.begin, f.end, key.1) && F.Past(after, f.id)
      ensures F.Lists(page, f.id)
    {
      assert page[0] in page;
    }
  }

  lemma IsWorld()
    ensures WfWorld(WORLD)
  {
    forall h: nat, t: int
      ensures TableOk(WORLD, h, t)
    {
      AtWf(h, t);
    }
    forall h: nat, h': nat, t: int | h <= h'
      ensures CatalogMemo.Grows(WORLD, h, h', t)
    {
      HeadsGrow(h, h', t);
    }
    forall h: nat, key: Key, after: Option<int>
      ensures PageOk(WORLD, h, key, after)
    {
      PagesRight(h, key, after);
    }
  }

  // ----- The run -----

  const KEY: Key := (0, 1)
  const CONTENT := F.TableReads({}, [], F.Inlined([], Some(1), [], None))
  const TRACE := F.Trace(1, 1, 1, 1, 1)

  /** Two queries bound at head 1, each with one call for the table. */
  function Stand(head: nat, bytes: nat, tables: map<Key, Reads>, absent: map<int, int>, noted: map<int, nat>,
          first: Phase, second: Phase): System {
    System(head, MemoState(Some(1), bytes, tables, {}, {}, absent), [Query(1, true, map[]), Query(1, true, map[])],
           [Task(0, KEY, first), Task(1, KEY, second)], noted)
  }

  const READ2 := Read(2, None)
  const AFTER_FLUSH := [READ2, READ2, READ2, READ2]
  const PINNED := [Read(1, None), Read(1, Some(1))]

  const ASKED := Stand(1, 0, map[], map[], map[], Asking, Asking)
  const TO_FILL := Stand(1, 0, map[], map[], map[], Filling([], None), Filling([], None))
  const FLUSHED_SINCE := Stand(2, 0, map[], map[], map[], Filling([], Some(1)), Filling([], Some(2)))
  const SECOND_READ := Stand(2, 0, map[], map[], map[], Filling([], Some(1)), Filling(AFTER_FLUSH, Some(2)))
  const NOTED := Stand(2, 0, map[], map[0 := 1], map[0 := 2], Filling([], Some(1)), Filling(AFTER_FLUSH, Some(2)))
  const FIRST_READ := Stand(2, 0, map[], map[0 := 1], map[0 := 2], Filling(PINNED, Some(1)),
          Filling(AFTER_FLUSH, Some(2)))
  const FILLED := Stand(2, 0, map[], map[0 := 1], map[0 := 2], Filled(CONTENT, Some(1)), Filling(AFTER_FLUSH, Some(2)))
  const KEPT := Stand(2, 1, map[KEY := CONTENT], map[0 := 1], map[0 := 2], Chosen(Own(CONTENT, Some(1))),
          Filling(AFTER_FLUSH, Some(2)))

  lemma {:induction false} LeadsOn(w: World, s: System, run: seq<Move>, mid: System, m: Move)
    requires Leads(w, s, run, mid) && Enabled(w, mid, m)
    ensures Leads(w, s, run + [m], CatalogMemo.Next(w, mid, m))
    decreases |run|
  {
    if run == [] {
      assert ([] + [m])[0] == m && ([] + [m])[1..] == [];
    } else {
      assert (run + [m])[0] == run[0] && (run + [m])[1..] == run[1..] + [m];
      LeadsOn(w, CatalogMemo.Next(w, s, run[0]), run[1..], mid, m);
    }
  }

  lemma Binds() returns (run: seq<Move>)
    ensures Leads(WORLD, Init(1), run, ASKED)
  {
    var w, s := WORLD, Init(1);
    run := [];
    LeadsOn(w, Init(1), run, s, ReadHead);
    run, s := run + [ReadHead], CatalogMemo.Next(w, s, ReadHead);
    LeadsOn(w, Init(1), run, s, ReadHead);
    run, s := run + [ReadHead], CatalogMemo.Next(w, s, ReadHead);
    LeadsOn(w, Init(1), run, s, Bind(0));
    run, s := run + [Bind(0)], CatalogMemo.Next(w, s, Bind(0));
    LeadsOn(w, Init(1), run, s, Bind(1));
    run, s := run + [Bind(1)], CatalogMemo.Next(w, s, Bind(1));
    LeadsOn(w, Init(1), run, s, Ask(0, KEY));
    run, s := run + [Ask(0, KEY)], CatalogMemo.Next(w, s, Ask(0, KEY));
    LeadsOn(w, Init(1), run, s, Ask(1, KEY));
    run, s := run + [Ask(1, KEY)], CatalogMemo.Next(w, s, Ask(1, KEY));
    assert s == ASKED;
  }

  lemma Begins(before: seq<Move>) returns (run: seq<Move>)
    requires Leads(WORLD, Init(1), before, ASKED)
    ensures Leads(WORLD, Init(1), run, TO_FILL)
  {
    var w, s := WORLD, ASKED;
    run := before;
    LeadsOn(w, Init(1), run, s, Look(0));
    run, s := run + [Look(0)], CatalogMemo.Next(w, s, Look(0));
    LeadsOn(w, Init(1), run, s, Consult(0));
    run, s := run + [Consult(0)], CatalogMemo.Next(w, s, Consult(0));
    LeadsOn(w, Init(1), run, s, Look(1));
    run, s := run + [Look(1)], CatalogMemo.Next(w, s, Look(1));
    LeadsOn(w, Init(1), run, s, Consult(1));
    run, s := run + [Consult(1)], CatalogMemo.Next(w, s, Consult(1));
    assert s == TO_FILL;
  }

  lemma Pins(before: seq<Move>) returns (run: seq<Move>)
    requires Leads(WORLD, Init(1), before, TO_FILL)
    ensures Leads(WORLD, Init(1), run, FLUSHED_SINCE)
  {
    var w, s := WORLD, TO_FILL;
    run := before;
    LeadsOn(w, Init(1), run, s, Pin(0, 1));
    run, s := run + [Pin(0, 1)], CatalogMemo.Next(w, s, Pin(0, 1));
    LeadsOn(w, Init(1), run, s, Commit(2));
    run, s := run + [Commit(2)], CatalogMemo.Next(w, s, Commit(2));
    LeadsOn(w, Init(1), run, s, Pin(1, 2));
    run, s := run + [Pin(1, 2)], CatalogMemo.Next(w, s, Pin(1, 2));
    assert s == FLUSHED_SINCE;
  }

  lemma SecondReads(before: seq<Move>) returns (run: seq<Move>)
    requires Leads(WORLD, Init(1), before, FLUSHED_SINCE)
    ensures Leads(WORLD, Init(1), run, SECOND_READ)
  {
    var w, s, m := WORLD, FLUSHED_SINCE, Statement(1, None);
    run := before;
    LeadsOn(w, Init(1), run, s, m);
    run, s := run + [m], CatalogMemo.Next(w, s, m);
    LeadsOn(w, Init(1), run, s, m);
    run, s := run + [m], CatalogMemo.Next(w, s, m);
    LeadsOn(w, Init(1), run, s, m);
    run, s := run + [m], CatalogMemo.Next(w, s, m);
    LeadsOn(w, Init(1), run, s, m);
    run, s := run + [m], CatalogMemo.Next(w, s, m);
    assert s.tasks[1].phase.stmts == AFTER_FLUSH;
    assert s == SECOND_READ;
  }

  lemma AnswersAbsent()
    ensures F.AbsenceAnswer(ProviderOf(WORLD, KEY, AFTER_FLUSH), 1, 1) == Some(1)
  {
    var p := ProviderOf(WORLD, KEY, AFTER_FLUSH);
    ProviderAt(WORLD, KEY, AFTER_FLUSH, 1);
    ProviderAt(WORLD, KEY, AFTER_FLUSH, 2);
    ProviderAt(WORLD, KEY, AFTER_FLUSH, 3);
    assert F.VisibleRows(p.world(2), 1) == [];
  }

  lemma Notes(before: seq<Move>) returns (run: seq<Move>)
    requires Leads(WORLD, Init(1), before, SECOND_READ)
    ensures Leads(WORLD, Init(1), run, NOTED)
  {
    var m := NoteAbsence(1, 1);
    AnswersAbsent();
    LeadsOn(WORLD, Init(1), before, SECOND_READ, m);
    run := before + [m];
    assert CatalogMemo.Next(WORLD, SECOND_READ, m) == NOTED;
  }

  lemma FirstReads(before: seq<Move>) returns (run: seq<Move>)
    requires Leads(WORLD, Init(1), before, NOTED)
    ensures Leads(WORLD, Init(1), run, FIRST_READ)
  {
    var w, s := WORLD, NOTED;
    run := before;
    LeadsOn(w, Init(1), run, s, Statement(0, None));
    run, s := run + [Statement(0, None)], CatalogMemo.Next(w, s, Statement(0, None));
    LeadsOn(w, Init(1), run, s, Statement(0, Some(1)));
    run, s := run + [Statement(0, Some(1))], CatalogMemo.Next(w, s, Statement(0, Some(1)));
    assert s.tasks[0].phase.stmts == PINNED;
    assert s == FIRST_READ;
  }

  lemma ReadsNothing()
    ensures FillReads(WORLD, KEY, PINNED, CONTENT, TRACE)
  {
    var p := ProviderOf(WORLD, KEY, PINNED);
    ProviderAt(WORLD, KEY, PINNED, 0);
    ProviderAt(WORLD, KEY, PINNED, 1);
    assert F.DeletesAt(p.world(0), 1) == {};
    assert F.Complete(p, 1, 1, 1, None, []);
  }

  lemma Keeps(before: seq<Move>) returns (run: seq<Move>)
    requires Leads(WORLD, Init(1), before, FIRST_READ)
    ensures Leads(WORLD, Init(1), run, KEPT)
  {
    var w, end := WORLD, EndFill(0, CONTENT, TRACE, true);
    ReadsNothing();
    LeadsOn(w, Init(1), before, FIRST_READ, end);
    run := before + [end];
    assert CatalogMemo.Next(w, FIRST_READ, end) == FILLED;
    LeadsOn(w, Init(1), run, FILLED, CatalogMemo.Store(0));
    run := run + [CatalogMemo.Store(0)];
    assert CatalogMemo.Next(w, FILLED, CatalogMemo.Store(0)) == KEPT;
  }

  lemma LeavesOut()
    ensures !Shows(WORLD, 1, KEY, CONTENT)
  {
    IsWorld();
    ReadsNothing();
    assert F.VisibleRows(At(1, 0), 1) == [ROW];
    StillFillShows(WORLD, 1, KEY, PINNED, CONTENT, TRACE);
  }

  /** The memo, bound at head 1 and well within its budget, keeps a fill for the snapshot
      of that head which leaves out a row the catalog holds there. */
  lemma StaleAnswerIsKept() returns (run: seq<Move>, s: System)
    ensures WfWorld(WORLD) && Leads(WORLD, Init(1), run, s)
    ensures s.memo.head == Some(1) && KEY in s.memo.tables && !Shows(WORLD, 1, KEY, s.memo.tables[KEY])
  {
    IsWorld();
    run := Binds();
    run := Begins(run);
    run := Pins(run);
    run := SecondReads(run);
    run := Notes(run);
    run := FirstReads(run);
    run := Keeps(run);
    s := KEPT;
    LeavesOut();
  }
}
