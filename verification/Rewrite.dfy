/** `rewrite_data_files`: a file's live rows move to a new file at the commit, the old
    file and its live delete file end there. */
module Rewrite {
  import opened Bags
  import opened Lake
  import opened Merge
  import opened FlushDeletes
  import opened Deletes
  import opened DeleteAll

  /** The file the rewrite writes, none where no row is left. */
  function Output(c: Catalog, rows: seq<Row>): Option<DataFile> {
    if rows == [] then None else Some(DataFile(c.nextFileId, c.head, None, None, rows, None))
  }

  function RewriteFile(c: Catalog, k: nat, rows: seq<Row>): Catalog
    requires k < |c.files|
  {
    c.(nextFileId := c.nextFileId + 1,
       files := c.files[k := c.files[k].(end := Some(c.head))] + AsSeq(Output(c, rows)),
       deletes := EndDeletes(c.deletes, c.files[k].id, c.head))
  }

  /** Ending delete files at the head changes no deletion before it, nor any of another
      file. */
  lemma EndedDead(c: Catalog, k: nat, rows: seq<Row>, g: int, p: int, s: int)
    requires k < |c.files| && (s < c.head || g != c.files[k].id)
    ensures Dead(RewriteFile(c, k, rows), g, p, s) == Dead(c, g, p, s)
  {
    EndedRecords(c.deletes, c.files[k].id, c.head, g, p, s);
    assert InlinedDead(RewriteFile(c, k, rows), g, p, s) == InlinedDead(c, g, p, s);
  }

  lemma RewriteStays(c: Catalog, k: nat, rows: seq<Row>)
    requires Wf(c) && Settled(c, k)
    ensures DeletesStay(RewriteFile(c, k, rows))
  {
    var c', file := RewriteFile(c, k, rows), c.files[k].id;
    EndedMembers(c.deletes, file, c.head);
    forall f, d | f in c'.files && d in c'.deletes && d.file == f.id && f.end.None?
      ensures HasLiveDelete(c', f.id)
    {
      var e :| e in c.deletes && d == EndDelete(e, file, c.head);
      assert f in c.files && f.id != file by {
        assert f.id < c.nextFileId;
        var i :| 0 <= i < |c'.files| && c'.files[i] == f;
        assert i < |c.files| && i != k && c.files[i] == f;
        assert if i < k then c.files[i].id != c.files[k].id else c.files[k].id != c.files[i].id;
      }
      assert HasLiveDelete(c, f.id);
      var live :| live in c.deletes && live.file == f.id && live.end.None?;
      assert EndDelete(live, file, c.head) == live;
    }
  }

  lemma RewriteWf(c: Catalog, k: nat, rows: seq<Row>)
    requires Wf(c) && Settled(c, k)
    ensures Wf(RewriteFile(c, k, rows))
  {
    var c' := RewriteFile(c, k, rows);
    EndedWf(c, c.files[k].id);
    RewriteStays(c, k, rows);
    assert c.files[k] in c.files;
    forall f | f in c'.files
      ensures WfFile(f, c.head) && f.id < c'.nextFileId
    {
      var i :| 0 <= i < |c'.files| && c'.files[i] == f;
      if i < |c.files| {
        assert c.files[i] in c.files && WfFile(c.files[i], c.head);
      }
    }
    forall i, j | 0 <= i < j < |c'.files|
      ensures c'.files[i].id != c'.files[j].id
    {
      assert c.files[i] in c.files;
    }
  }

  /** The live rows of file `k`, in some order. */
  ghost predicate IsLiveRows(c: Catalog, k: nat, rows: seq<Row>)
    requires k < |c.files|
  {
    multiset(rows) == Shown(c, c.files[k], c.head)
  }

  ghost function Each(): Row -> multiset<Row> {
    (r: Row) => multiset{r}
  }

  lemma {:induction false} SumEach(rows: seq<Row>)
    ensures Sum(rows, Each()) == multiset(rows)
  {
    if rows != [] {
      SumEach(rows[1..]);
      assert rows == [rows[0]] + rows[1..];
    }
  }

  lemma FreshShows(id: int, t: int, rows: seq<Row>, dead: int -> bool, s: int)
    requires t <= s && forall p :: !dead(p)
    ensures FileRows(DataFile(id, t, None, None, rows, None), dead, s) == multiset(rows)
  {
    var out := DataFile(id, t, None, None, rows, None);
    SumSeq(rows, Each(), RowsBy(out, dead, s));
    SumEach(rows);
  }

  lemma OutputAlone(c: Catalog, k: nat, rows: seq<Row>, s: int)
    requires Wf(c) && Settled(c, k) && rows != []
    ensures var c', out := RewriteFile(c, k, rows), Output(c, rows).value;
            Shown(c', out, s) == if s < c.head then multiset{} else multiset(rows)
  {
    var c', out := RewriteFile(c, k, rows), Output(c, rows).value;
    if c.head <= s {
      forall p
        ensures !Dead(c', out.id, p, s)
      {
        EndedDead(c, k, rows, out.id, p, s);
      }
      FreshShows(c.nextFileId, c.head, rows, DeadBy(c', out.id, s), s);
    }
  }

  lemma OutputShows(c: Catalog, k: nat, rows: seq<Row>, s: int)
    requires Wf(c) && Settled(c, k)
    ensures Sum(AsSeq(Output(c, rows)), ShownBy(RewriteFile(c, k, rows), s))
         == if s < c.head then multiset{} else multiset(rows)
  {
    if rows != [] {
      var c', out := RewriteFile(c, k, rows), Output(c, rows).value;
      SumLast([out], ShownBy(c', s));
      OutputAlone(c, k, rows, s);
    }
  }

  lemma SourceBefore(c: Catalog, k: nat, rows: seq<Row>, s: int)
    requires k < |c.files| && c.files[k].end.None? && s < c.head
    ensures Shown(c, c.files[k], s) == Shown(RewriteFile(c, k, rows), RewriteFile(c, k, rows).files[k], s)
  {
    var f, c' := c.files[k], RewriteFile(c, k, rows);
    forall p
      ensures Dead(c', f.id, p, s) == Dead(c, f.id, p, s)
    {
      EndedDead(c, k, rows, f.id, p, s);
    }
    FileRowsExt(f, DeadBy(c, f.id, s), DeadBy(c', f.id, s), s);
    DroppedRows(f, c'.files[k], DeadBy(c', f.id, s), s);
  }

  lemma SourceAfter(c: Catalog, k: nat, s: int)
    requires Wf(c) && Settled(c, k) && c.head <= s
    ensures Shown(c, c.files[k], s) == Shown(c, c.files[k], c.head)
  {
    ShownIsAlive(c, k, s);
    ShownIsAlive(c, k, c.head);
  }

  lemma SourceShows(c: Catalog, k: nat, rows: seq<Row>, s: int)
    requires Wf(c) && Settled(c, k) && IsLiveRows(c, k, rows)
    ensures Shown(c, c.files[k], s)
         == Shown(RewriteFile(c, k, rows), RewriteFile(c, k, rows).files[k], s) + if s < c.head then multiset{}
           else multiset(rows)
  {
    if s < c.head {
      SourceBefore(c, k, rows, s);
    } else {
      SourceAfter(c, k, s);
    }
  }

  /** Rewriting a file preserves time travel: earlier snapshots still read the old file,
      later ones the same rows from the new one. */
  lemma RewritePreservesTimeTravel(c: Catalog, k: nat, rows: seq<Row>, s: int)
    requires Wf(c) && Settled(c, k) && IsLiveRows(c, k, rows)
    ensures Wf(RewriteFile(c, k, rows))
    ensures Scan(RewriteFile(c, k, rows), s) == Scan(c, s)
  {
    var c' := RewriteFile(c, k, rows);
    var front := c.files[k := c'.files[k]];
    var moved := if s < c.head then multiset{} else multiset(rows);
    RewriteWf(c, k, rows);
    ScanIsShown(c, s);
    ScanIsShown(c', s);
    forall j | 0 <= j < |c.files| && j != k
      ensures ShownBy(c, s)(c.files[j]) == ShownBy(c', s)(front[j])
    {
      OtherShows(c, k, rows, j, s);
    }
    SourceShows(c, k, rows, s);
    SumAt(c.files, front, k, ShownBy(c, s), ShownBy(c', s));
    OutputShows(c, k, rows, s);
    SumConcat(front, AsSeq(Output(c, rows)), ShownBy(c', s));
    Cancel(Sum(c.files, ShownBy(c, s)), Sum(front, ShownBy(c', s)) + moved, Shown(c', c'.files[k], s));
  }

  lemma OtherShows(c: Catalog, k: nat, rows: seq<Row>, j: nat, s: int)
    requires Wf(c) && k < |c.files| && j < |c.files| && j != k
    ensures Shown(c, c.files[j], s) == Shown(RewriteFile(c, k, rows), c.files[j], s)
  {
    assert c.files[j].id != c.files[k].id by {
      assert if j < k then c.files[j].id != c.files[k].id else c.files[k].id != c.files[j].id;
    }
    forall p
      ensures Dead(RewriteFile(c, k, rows), c.files[j].id, p, s) == Dead(c, c.files[j].id, p, s)
    {
      EndedDead(c, k, rows, c.files[j].id, p, s);
    }
    ShownExt(c, RewriteFile(c, k, rows), c.files[j], s);
  }
}
