/** Why a managed table's writers stage row mutations: a cumulative delete file ends the one
    before, and a flush of a deletion another writer inlined in between then overlaps it. */
module Unstaged {
  import opened Lake
  import opened FlushDeletes
  import opened Deletes
  import opened DeleteAll
  import opened History

  const FILE := DataFile(1, 1, None, None, [Row(0, "a"), Row(1, "b"), Row(2, "c")], None)
  const FIRST := DeleteFile(2, 1, 2, None, map[0 := None])

  /** A table of three rows, one of which snapshot 2 deletes and another snapshot 3. */
  const START := Catalog(2, 2, [FILE], [], [], {})
  const DELETED := Catalog(2, 3, [FILE], [FIRST], [], {})
  const INLINED := Catalog(3, 3, [FILE], [FIRST], [], {InlinedDelete(1, 1, 3)})

  /** Snapshot 5 deletes the third through a cumulative delete file. */
  const CUMULATED := Catalog(5, 4, [FILE],
    [FIRST.(end := Some(5)), DeleteFile(3, 1, 5, None, map[0 := None, 2 := None])], [], {InlinedDelete(1, 1, 3)})

  lemma FirstDeletes()
    ensures Wf(START) && Deletable(START, 0, {0}, New) && Commits(START, 0, {0}, New, DELETED)
  {
    assert NewFile(START, 1, {0}) == FIRST;
  }

  lemma ThenInlines()
    ensures Deletable(Begin(DELETED), 0, {1}, Inline) && Commits(Begin(DELETED), 0, {1}, Inline, INLINED)
  {
    assert !Dead(Begin(DELETED), 1, 1, 3);
    assert (set p | p in {1} :: InlinedDelete(1, p, 3)) == {InlinedDelete(1, 1, 3)};
  }

  lemma ThenCumulates()
    ensures var c := Begin(Begin(INLINED));
            Deletable(c, 0, {2}, Cumulative) && Commits(c, 0, {2}, Cumulative, CUMULATED)
  {
    var c := Begin(Begin(INLINED));
    assert !Dead(c, 1, 2, 5);
    assert FIRST in c.deletes;
    assert EndDeletes(c.deletes, 1, 5) == [FIRST.(end := Some(5))];
    assert CumulativeFile(c, FIRST, {2}) == CUMULATED.deletes[1];
    assert CumulativeCommit(c, FIRST, {2}) == CUMULATED;
  }

  /** Three statements of the crate's own routes, the last cumulative, lead from a table of
      one file to a catalog whose flush overlaps the ended delete file. */
  lemma CumulativeReachesOverlap()
    ensures Wf(START) && Commits(START, 0, {0}, New, DELETED) && Commits(Begin(DELETED), 0, {1}, Inline, INLINED)
    ensures Commits(Begin(Begin(INLINED)), 0, {2}, Cumulative, CUMULATED)
    ensures var plan := Plan(Some(3), map[0 := 5, 1 := 3, 2 := 5], 3, 5, None);
            Flushable(CUMULATED, FILE, Some(CUMULATED.deletes[1]), plan)
              && !Keeps(CUMULATED, FlushFile(CUMULATED, FILE, plan), FILE)
  {
    FirstDeletes();
    ThenInlines();
    ThenCumulates();
    LiveFileOverlaps();
  }
}
