/** A fill whose listing repeats a row: two files, a page of one file each, and their merge
    committed between the first page and the second. */
module MergedPages {
  import opened Bags
  import opened Lake
  import opened Merge
  import opened History
  import opened QuietSteps
  import opened Fill

  const FIRST := DataFile(1, 1, None, None, [Row(0, "a")], None)
  const SECOND := DataFile(2, 1, None, None, [Row(1, "b")], None)
  const MERGED := DataFile(3, 1, None, None, [Row(0, "a"), Row(1, "b")], None)

  const BEFORE := Catalog(1, 3, [FIRST, SECOND], [], [], {})
  const AFTER := Catalog(2, 4, [MERGED], [], [], {})

  /** The fill's first page is its statement 3; the merge lands before statement 4. */
  function WorldAt(k: nat): Catalog {
    if k < 4 then BEFORE else AFTER
  }

  function PageAt(k: nat, after: Option<int>): seq<Listed> {
    if k < 4 then
      if Past(after, 1) then [Listed(FIRST, None)] else if Past(after, 2) then [Listed(SECOND, None)] else []
    else if Past(after, 3) then [Listed(MERGED, None)] else []
  }

  const PROVIDER := Provider(WorldAt, 1, PageAt)

  lemma BeforeWf()
    ensures Wf(BEFORE) && Wf(Begin(BEFORE))
  {
    BeginWf(BEFORE, 0);
  }

  lemma BeforeMerges()
    ensures MergeReady(Begin(BEFORE), [FIRST, SECOND]) && MergeOutput(Begin(BEFORE), [FIRST, SECOND], Some(MERGED))
  {
    var bin := [FIRST, SECOND];
    assert bin[..1] == [FIRST] && [FIRST][..0] == [];
    assert BinStamps([FIRST]) == Stamps(FIRST);
    assert BinStamps(bin) == Stamps(FIRST) + Stamps(SECOND) == Stamps(MERGED);
    assert FIRST in bin && FIRST.begin == MERGED.begin;
  }

  lemma CommitsAfter()
    ensures MergeCommit(Begin(BEFORE), [FIRST, SECOND], Some(MERGED)) == AFTER
  {
    var bin := [FIRST, SECOND];
    assert bin[0] in bin && bin[1] in bin;
    FilterNone(bin, OutsideFiles(Ids(bin)));
  }

  lemma MergeCommits()
    ensures Advances(BEFORE, AFTER)
  {
    var c := Begin(BEFORE);
    assert Merges(c, AFTER) by {
      BeforeMerges();
      CommitsAfter();
    }
    var run := [c, AFTER];
    assert forall i: nat :: History.Follows(run, i);
    assert RunFrom(run, c, AFTER);
  }

  lemma PagesRight(k: nat, after: Option<int>)
    ensures IsPage(WorldAt(k), 1, after, 1, PageAt(k, after))
  {
    var page := PageAt(k, after);
    forall f | f in WorldAt(k).files && Past(after, f.id) && page != [] && f.id <= page[|page| - 1].file.id
      ensures Lists(page, f.id)
    {
      assert page[0] in page;
    }
  }

  lemma IsProvider()
    ensures Provides(PROVIDER, 1)
  {
    BeforeWf();
    MergeCommits();
    forall k: nat
      ensures Moves(PROVIDER, k, 1)
    {
    }
    forall k: nat, after: Option<int>
      ensures IsPage(PROVIDER.world(k), 1, after, PROVIDER.limit, PROVIDER.page(k, after))
    {
      PagesRight(k, after);
    }
  }

  const LISTING := [Listed(FIRST, None), Listed(MERGED, None)]
  const CONTENT := TableReads({}, LISTING, Inlined([], Some(1), [], None))
  const TRACE := Trace(1, 2, 3, 3, 5)

  function NoAnswer(): nat -> Option<int> {
    k => None
  }

  lemma ListsTwice(costs: Costs, max: nat)
    requires (forall e :: costs.file(e) > 0) && PageBytes(costs, LISTING) <= max
    ensures ListFrom(PROVIDER, 3, None, None, costs, 0, max) == Files(LISTING)
  {
    var first, second := [Listed(FIRST, None)], [Listed(MERGED, None)];
    assert LISTING == first + second;
    PageBytesConcat(costs, first, second);
    assert PageAt(3, None) == first && PageAt(4, Some(1)) == second && PageAt(5, Some(3)) == [];
    var b := PageBytes(costs, first);
    assert ListFrom(PROVIDER, 5, Some(3), None, costs, b + PageBytes(costs, second), max) == Files([]);
    assert ListFrom(PROVIDER, 4, Some(1), None, costs, b, max) == Files(second);
  }

  lemma CompletesAt5()
    ensures Fill.Complete(PROVIDER, 1, 3, 5, None, LISTING)
  {
    assert IsListed(WorldAt(3), 1, LISTING[0]) && IsListed(WorldAt(4), 1, LISTING[1]);
    assert Came(PROVIDER, 1, LISTING[0], 3, 5) && Came(PROVIDER, 1, LISTING[1], 3, 5);
    assert LISTING[1] in LISTING;
  }

  lemma IsWhatFillReads()
    ensures IsFill(PROVIDER, 1, NoAnswer(), CONTENT, TRACE)
  {
    CompletesAt5();
    assert DeletesAt(BEFORE, 1) == {};
    assert VisibleRows(BEFORE, 1) == [];
  }

  lemma FirstShows()
    ensures Repeats(PROVIDER, 1, 5, LISTING)
  {
    var e := Listed(FIRST, None);
    assert e in LISTING && Gone(AFTER.files)(e);
    assert RowAt(FIRST, 0, EntryDead(DeletesAt(BEFORE, 1), e, 1), 1) == multiset{Row(0, "a")};
    assert EntryRows(DeletesAt(BEFORE, 1), 1)(e) == SumTo(1, RowsBy(FIRST, EntryDead(DeletesAt(BEFORE, 1), e, 1), 1));
  }

  /** Every statement answered truthfully, the listing of this fill holds the first file
      and the merged one, and a scan of it returns row "a" more often than the snapshot
      holds it. */
  lemma MergeBetweenPagesRepeats(costs: Costs, max: nat)
    requires (forall e :: costs.file(e) > 0) && PageBytes(costs, LISTING) <= max
    ensures Provides(PROVIDER, 1) && ListFrom(PROVIDER, 3, None, None, costs, 0, max) == Files(LISTING)
    ensures IsFill(PROVIDER, 1, NoAnswer(), CONTENT, TRACE)
    ensures ReadsShow(CONTENT, CONTENT.inlined.rows, 1) != Scan(BEFORE, 1)
  {
    IsProvider();
    ListsTwice(costs, max);
    IsWhatFillReads();
    FirstShows();
    FillExactly(PROVIDER, 1, NoAnswer(), CONTENT, TRACE);
  }
}
