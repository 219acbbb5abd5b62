/** `fork_table`: another catalog references the source's files and reads what the source
    read at the forked snapshot. */
module Fork {
  import opened Bags
  import opened Lake
  import opened FlushDeletes
  import opened DeleteAll
  import opened Merge

  // ----- Which rows the fork must mask -----

  /** The delete file the source's listing joins to a file, where deletes do not overlap. */
  function Listed(c: Catalog, f: DataFile, s: int): Option<DeleteFile> {
    var joined := Joined(c.deletes, f.id, s);
    if joined == [] then None else Some(joined[0])
  }

  function InlinedUpTo(c: Catalog, file: int, s: int): set<int> {
    set d | d in c.inlinedDeletes && d.file == file && d.begin <= s :: d.pos
  }

  /** The positions deleted at the snapshot, and those of a partial file inserted after
      it. */
  function DeletedAt(c: Catalog, f: DataFile, s: int): set<int> {
    set p | p in Range(|f.rows|) &&
      (p in InlinedUpTo(c, f.id, s) || (Listed(c, f, s).Some? && Records(Listed(c, f, s).value, p, s))
        || !Born(f, p, s))
  }

  /** Whether the fork may reference the source's delete file, or its lack of one, as it
      is: nothing is deleted inlined, and nothing was deleted or inserted later. */
  predicate References(c: Catalog, f: DataFile, s: int) {
    var maskedLater := s != c.head && (Listed(c, f, s).Some? || (f.partialMax.Some? && s < f.partialMax.value));
    InlinedUpTo(c, f.id, s) == {} && !maskedLater
  }

  /** The delete file the fork registers, at its commit `t`, for the file it gave `id`. */
  function ForkDelete(c: Catalog, f: DataFile, s: int, id: int, t: int): Option<DeleteFile> {
    if References(c, f, s) then
      if Listed(c, f, s).Some? then Some(DeleteFile(id + 1, id, t, None, Listed(c, f, s).value.entries)) else None
    else if DeletedAt(c, f, s) == {} then None
    else Some(DeleteFile(id + 1, id, t, None, map p | p in DeletedAt(c, f, s) :: None))
  }

  function ForkFile(f: DataFile, id: int, t: int): DataFile {
    f.(id := id, begin := t, end := None)
  }

  predicate ForkDead(d: Option<DeleteFile>, p: int, r: int) {
    d.Some? && Records(d.value, p, r)
  }

  lemma ListedIsDead(c: Catalog, f: DataFile, p: int, s: int)
    requires Wf(c)
    ensures Dead(c, f.id, p, s) <==> p in InlinedUpTo(c, f.id, s) || ForkDead(Listed(c, f, s), p, s)
    ensures Listed(c, f, s).Some? ==> Listed(c, f, s).value in c.deletes && Joins(Listed(c, f, s).value, f.id, s)
  {
    JoinedOnce(c.deletes, f.id, s);
    var joined := Joined(c.deletes, f.id, s);
    FilterMembers(c.deletes, (d: DeleteFile) => Joins(d, f.id, s));
    assert forall d :: d in joined <==> d in c.deletes && Joins(d, f.id, s);
    assert joined != [] ==> joined[0] in joined && forall d | d in joined :: d == joined[0];
    if p in InlinedUpTo(c, f.id, s) {
      var d :| d in c.inlinedDeletes && d.file == f.id && d.begin <= s && d.pos == p;
      assert d == InlinedDelete(f.id, p, d.begin);
    }
    if InlinedDead(c, f.id, p, s) {
      var b :| InlinedDelete(f.id, p, b) in c.inlinedDeletes && b <= s;
    }
  }

  /** Row by row: the fork's delete file masks exactly the rows the source did not show
      at the forked snapshot, deleted before it or inserted after. */
  lemma ForkMasksExactly(c: Catalog, f: DataFile, s: int, id: int, t: int, p: int, r: int)
    requires Wf(c) && f in c.files && s <= c.head < t <= r && 0 <= p < |f.rows|
    ensures !ForkDead(ForkDelete(c, f, s, id, t), p, r) <==> !Dead(c, f.id, p, s) && Born(f, p, s)
    ensures Born(ForkFile(f, id, t), p, r)
  {
    assert WfFile(f, c.head);
    ListedIsDead(c, f, p, s);
    var delete := ForkDelete(c, f, s, id, t);
    if !References(c, f, s) {
      assert ForkDead(delete, p, r) <==> p in DeletedAt(c, f, s);
    } else {
      assert p !in InlinedUpTo(c, f.id, s) && Born(f, p, s);
      if Listed(c, f, s).Some? {
        ReferencedApplies(c, Listed(c, f, s).value, p, r);
        assert ForkDead(delete, p, r) <==> p in Listed(c, f, s).value.entries;
      }
    }
  }

  /** At the head, with nothing deleted inlined, a fork shares the source's delete file, dates
      included, or its lack of one; and it writes none of its own where it masks nothing. */
  lemma ForkShares(c: Catalog, f: DataFile, s: int, id: int, t: int)
    ensures s == c.head && InlinedUpTo(c, f.id, s) == {} ==>
              && (ForkDelete(c, f, s, id, t).Some? <==> Listed(c, f, s).Some?)
              && (Listed(c, f, s).Some? ==> ForkDelete(c, f, s, id, t).value.entries == Listed(c, f, s).value.entries)
    ensures Listed(c, f, s).None? && DeletedAt(c, f, s) == {} ==> ForkDelete(c, f, s, id, t).None?
  {
  }

  /** Every date of a delete file lies at or before the head: at the head, and in any fork
      made later, all of it applies. */
  lemma ReferencedApplies(c: Catalog, d: DeleteFile, p: int, r: int)
    requires Wf(c) && d in c.deletes && c.head <= r
    ensures Records(d, p, r) <==> p in d.entries
    ensures Records(d, p, c.head) <==> p in d.entries
  {
    assert WfDelete(d, c.head);
    if p in d.entries {
      assert EntryWithin(d, d.entries[p], c.head);
    }
  }

  // ----- The forked table -----

  function AddForked(fork: Catalog, c: Catalog, f: DataFile, s: int): Catalog {
    fork.(nextFileId := fork.nextFileId + 2,
          files := fork.files + [ForkFile(f, fork.nextFileId, fork.head)],
          deletes := fork.deletes + AsSeq(ForkDelete(c, f, s, fork.nextFileId, fork.head)))
  }

  /** The fork's catalog holds only files and delete files registered by the fork. */
  predicate Forked(fork: Catalog) {
    && fork.inlined == [] && fork.inlinedDeletes == {}
    && Disjoint(fork.deletes)
    && (forall f | f in fork.files :: f.id < fork.nextFileId)
    && forall d | d in fork.deletes :: d.file < fork.nextFileId
  }

  lemma ForkedFileShows(fork: Catalog, c: Catalog, f: DataFile, s: int, r: int)
    requires Forked(fork) && Wf(c) && f in c.files && LiveAt(f.begin, f.end, s) && s <= c.head < fork.head <= r
    ensures var fork' := AddForked(fork, c, f, s);
            Shown(fork', ForkFile(f, fork.nextFileId, fork.head), r) == Shown(c, f, s)
  {
    var fork', id := AddForked(fork, c, f, s), fork.nextFileId;
    var g, d := ForkFile(f, id, fork.head), ForkDelete(c, f, s, id, fork.head);
    forall p | 0 <= p < |f.rows|
      ensures RowsBy(g, DeadBy(fork', id, r), r)(p) == RowsBy(f, DeadBy(c, f.id, s), s)(p)
    {
      ForkMasksExactly(c, f, s, id, fork.head, p, r);
      assert Dead(fork', id, p, r) <==> ForkDead(d, p, r) by {
        if d.Some? {
          assert fork'.deletes[|fork.deletes|] == d.value;
        }
      }
    }
    SumToExt(|f.rows|, RowsBy(g, DeadBy(fork', id, r), r), RowsBy(f, DeadBy(c, f.id, s), s));
  }

  lemma AddForkedKeeps(fork: Catalog, c: Catalog, f: DataFile, s: int, r: int)
    requires Forked(fork)
    ensures Forked(AddForked(fork, c, f, s))
    ensures Sum(fork.files, ShownBy(AddForked(fork, c, f, s), r)) == Sum(fork.files, ShownBy(fork, r))
  {
    var fork' := AddForked(fork, c, f, s);
    forall g | g in fork.files
      ensures Shown(fork', g, r) == Shown(fork, g, r)
    {
      assert forall d | Joins(d, g.id, r) :: d in fork'.deletes <==> d in fork.deletes;
      ShownExt(fork', fork, g, r);
    }
    SumExt(fork.files, ShownBy(fork', r), ShownBy(fork, r));
  }

  /** Forking one more file adds exactly what the source shows of it. */
  lemma AddForkedShows(fork: Catalog, c: Catalog, f: DataFile, s: int, r: int)
    requires Forked(fork) && Wf(c) && f in c.files && LiveAt(f.begin, f.end, s) && s <= c.head < fork.head <= r
    ensures Forked(AddForked(fork, c, f, s))
    ensures Sum(AddForked(fork, c, f, s).files, ShownBy(AddForked(fork, c, f, s), r))
         == Sum(fork.files, ShownBy(fork, r)) + Shown(c, f, s)
  {
    var fork' := AddForked(fork, c, f, s);
    AddForkedKeeps(fork, c, f, s, r);
    SumLast(fork'.files, ShownBy(fork', r));
    assert fork'.files[..|fork.files|] == fork.files;
    ForkedFileShows(fork, c, f, s, r);
  }

  /** The fork of the files the source lists at `s`, one after another. */
  function ForkTo(c: Catalog, s: int, t: int, k: nat): Catalog
    requires k <= |c.files|
  {
    if k == 0 then Catalog(t, 0, [], [], [], {})
    else if LiveAt(c.files[k - 1].begin, c.files[k - 1].end, s) then
      AddForked(ForkTo(c, s, t, k - 1), c, c.files[k - 1], s)
    else ForkTo(c, s, t, k - 1)
  }

  lemma LastFileShown(c: Catalog, k: nat, s: int)
    requires 1 <= k <= |c.files|
    ensures Sum(c.files[..k], ShownBy(c, s)) == Sum(c.files[..k - 1], ShownBy(c, s)) + Shown(c, c.files[k - 1], s)
  {
    SumLast(c.files[..k], ShownBy(c, s));
    assert c.files[..k][..k - 1] == c.files[..k - 1];
  }

  lemma {:induction false} ForkToShows(c: Catalog, s: int, t: int, k: nat, r: int)
    requires Wf(c) && s <= c.head < t <= r && k <= |c.files|
    ensures Forked(ForkTo(c, s, t, k)) && ForkTo(c, s, t, k).head == t
    ensures Sum(ForkTo(c, s, t, k).files, ShownBy(ForkTo(c, s, t, k), r)) == Sum(c.files[..k], ShownBy(c, s))
  {
    if k > 0 {
      var f := c.files[k - 1];
      assert f in c.files;
      ForkToShows(c, s, t, k - 1, r);
      LastFileShown(c, k, s);
      if LiveAt(f.begin, f.end, s) {
        AddForkedShows(ForkTo(c, s, t, k - 1), c, f, s, r);
      }
    }
  }

  /** The source's visible inlined rows, as a file each dated by its own snapshot. */
  function InlinedFile(id: int, t: int, rows: seq<InlinedRow>, partialMax: int): DataFile {
    DataFile(id, t, None, Some(partialMax), seq(|rows|, i requires 0 <= i < |rows| => rows[i].row),
             Some(seq(|rows|, i requires 0 <= i < |rows| => Some(rows[i].begin))))
  }

  function AddInlinedFile(fork: Catalog, rows: seq<InlinedRow>, partialMax: int): Catalog {
    fork.(nextFileId := fork.nextFileId + 1, files := fork.files +
      [InlinedFile(fork.nextFileId, fork.head, rows, partialMax)])
  }

  /** At or after `partialMax` every row of it is read. */
  lemma InlinedFileRows(id: int, t: int, rows: seq<InlinedRow>, partialMax: int, dead: int -> bool, r: int)
    requires partialMax <= t <= r && forall i | 0 <= i < |rows| :: !dead(i)
    ensures FileRows(InlinedFile(id, t, rows, partialMax), dead, r) == Sum(rows, RowOf())
  {
    var g := InlinedFile(id, t, rows, partialMax);
    assert forall i | 0 <= i < |rows| :: RowsBy(g, dead, r)(i) == RowOf()(rows[i]);
    SumSeq(rows, RowOf(), RowsBy(g, dead, r));
  }

  lemma InlinedFileAlone(fork: Catalog, rows: seq<InlinedRow>, partialMax: int, r: int)
    requires Forked(fork) && partialMax <= fork.head <= r
    ensures var fork' := AddInlinedFile(fork, rows, partialMax);
            Shown(fork', fork'.files[|fork.files|], r) == Sum(rows, RowOf())
  {
    var fork' := AddInlinedFile(fork, rows, partialMax);
    InlinedFileRows(fork.nextFileId, fork.head, rows, partialMax, DeadBy(fork', fork.nextFileId, r), r);
  }

  lemma InlinedFileShows(fork: Catalog, rows: seq<InlinedRow>, partialMax: int, r: int)
    requires Forked(fork) && partialMax <= fork.head <= r
    ensures Scan(AddInlinedFile(fork, rows, partialMax), r) == Sum(fork.files, ShownBy(fork, r)) + Sum(rows, RowOf())
  {
    var fork' := AddInlinedFile(fork, rows, partialMax);
    ScanIsShown(fork', r);
    forall h | h in fork.files
      ensures Shown(fork', h, r) == Shown(fork, h, r)
    {
      ShownExt(fork', fork, h, r);
    }
    SumExt(fork.files, ShownBy(fork', r), ShownBy(fork, r));
    SumLast(fork'.files, ShownBy(fork', r));
    assert fork'.files[..|fork.files|] == fork.files;
    InlinedFileAlone(fork, rows, partialMax, r);
  }

  /** A fork reads, from its commit on, exactly what the source read at the forked
      snapshot. `rows` are the source's visible inlined rows in the order written. */
  lemma ForkReadsSource(c: Catalog, s: int, t: int, rows: seq<InlinedRow>, partialMax: int, r: int)
    requires Wf(c) && s <= c.head < t <= r
    requires multiset(rows) == multiset(Filter(c.inlined, VisibleAt(s))) && partialMax <= t
    ensures Scan(AddInlinedFile(ForkTo(c, s, t, |c.files|), rows, partialMax), r) == Scan(c, s)
  {
    ForkToShows(c, s, t, |c.files|, r);
    assert c.files[..|c.files|] == c.files;
    InlinedFileShows(ForkTo(c, s, t, |c.files|), rows, partialMax, r);
    SumPermute(rows, Filter(c.inlined, VisibleAt(s)), RowOf());
    VisibleSum(c.inlined, s);
    ScanIsShown(c, s);
  }

  lemma {:induction false} ForkBegins(c: Catalog, s: int, t: int, k: nat)
    requires k <= |c.files|
    ensures var fork := ForkTo(c, s, t, k);
            fork.head == t && fork.inlined == [] && forall f | f in fork.files :: f.begin == t && f.end.None?
  {
    if k > 0 {
      ForkBegins(c, s, t, k - 1);
    }
  }

  /** Before its commit a fork reads nothing. */
  lemma ForkReadsNothingBefore(c: Catalog, s: int, t: int, rows: seq<InlinedRow>, partialMax: int, r: int)
    requires r < t
    ensures Scan(AddInlinedFile(ForkTo(c, s, t, |c.files|), rows, partialMax), r) == multiset{}
  {
    var fork := AddInlinedFile(ForkTo(c, s, t, |c.files|), rows, partialMax);
    ForkBegins(c, s, t, |c.files|);
    SumEmpty(fork.files, ScanBy(fork, r));
  }

  /** References a file's delete file, or writes one that masks what must not be read. */
  method DecideDelete(c: Catalog, f: DataFile, s: int, id: int, t: int) returns (delete: Option<DeleteFile>)
    ensures delete == ForkDelete(c, f, s, id, t)
  {
    delete := None;
    if !References(c, f, s) {
      var positions := DeletedAt(c, f, s);
      if positions != {} {
        delete := Some(DeleteFile(id + 1, id, t, None, map p | p in positions :: None));
      }
    } else if Listed(c, f, s).Some? {
      delete := Some(DeleteFile(id + 1, id, t, None, Listed(c, f, s).value.entries));
    }
  }

  /** The loop over the source's listing: references or masks file by file. */
  method ForkFiles(c: Catalog, s: int, t: int) returns (fork: Catalog)
    ensures fork == ForkTo(c, s, t, |c.files|)
  {
    fork := Catalog(t, 0, [], [], [], {});
    for k := 0 to |c.files|
      invariant fork == ForkTo(c, s, t, k)
    {
      var f := c.files[k];
      if LiveAt(f.begin, f.end, s) {
        ForkHead(c, s, t, k);
        var delete := DecideDelete(c, f, s, fork.nextFileId, t);
        fork := fork.(nextFileId := fork.nextFileId + 2,
                      files := fork.files + [ForkFile(f, fork.nextFileId, t)],
                      deletes := fork.deletes + AsSeq(delete));
      }
    }
  }

  lemma {:induction false} ForkHead(c: Catalog, s: int, t: int, k: nat)
    requires k <= |c.files|
    ensures ForkTo(c, s, t, k).head == t
  {
    if k > 0 {
      ForkHead(c, s, t, k - 1);
    }
  }
}
