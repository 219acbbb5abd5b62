/** The lazy delete filter against the catalog: over the plan of a listed file it leaves out
    exactly the positions the catalog has deleted at the snapshot. */
module FilteredScan {
  import opened Bags
  import opened Lake
  import opened Fork
  import opened LazyDelete

  /** The plan of file `f` read at `s`: its inlined deletions, and the delete file the listing
      joins to it, stored as entries under `path`. */
  ghost predicate IsPlan(c: Catalog, f: DataFile, s: int, plan: FileDeletes, store: Store) {
    && plan.inlined == InlinedUpTo(c, f.id, s) && plan.readSnapshot == Some(s)
    && (plan.deleteFile.Some? <==> Listed(c, f, s).Some?)
    && (plan.deleteFile.Some? ==> Spells(Listed(c, f, s).value, store(plan.deleteFile.value)))
  }

  ghost predicate Spells(d: DeleteFile, marks: seq<Mark>) {
    forall m :: m in marks <==> m.pos in d.entries && d.entries[m.pos] == m.snapshot
  }

  /** A row survives the filter if and only if the catalog has not deleted it. */
  lemma FilteredIsDead(c: Catalog, f: DataFile, s: int, files: map<int, FileDeletes>, store: Store, row: ScanRow)
    requires Wf(c) && row.file == f.id
    requires if f.id in files then IsPlan(c, f, s, files[f.id], store)
             else InlinedUpTo(c, f.id, s) == {} && Listed(c, f, s).None?
    ensures IsAlive(row, files, store) <==> !Dead(c, f.id, row.pos, s)
  {
    ListedIsDead(c, f, row.pos, s);
    if f.id in files && files[f.id].deleteFile.Some? {
      PositionsAreRecorded(Listed(c, f, s).value, store(files[f.id].deleteFile.value), s, row.pos);
    }
  }

  function IsAliveBy(files: map<int, FileDeletes>, store: Store): ScanRow -> bool {
    (row: ScanRow) => IsAlive(row, files, store)
  }

  /** The filter keeps the rows that survive, all of them and in order. */
  lemma {:induction false} AliveIsFiltered(rows: seq<ScanRow>, files: map<int, FileDeletes>, store: Store)
    ensures Alive(rows, files, store) == Filter(rows, IsAliveBy(files, store))
  {
    if rows != [] {
      AliveIsFiltered(rows[1..], files, store);
    }
  }

  /** So of the rows of a file it keeps those the catalog has not deleted. */
  lemma FilteredRows(c: Catalog, f: DataFile, s: int, rows: seq<ScanRow>, files: map<int, FileDeletes>, store: Store)
    requires Wf(c) && forall row | row in rows :: row.file == f.id
    requires if f.id in files then IsPlan(c, f, s, files[f.id], store)
             else InlinedUpTo(c, f.id, s) == {} && Listed(c, f, s).None?
    ensures Alive(rows, files, store) == Filter(rows, IsAliveBy(files, store))
    ensures forall row :: row in Alive(rows, files, store) <==> row in rows && !Dead(c, f.id, row.pos, s)
  {
    AliveIsFiltered(rows, files, store);
    FilterMembers(rows, IsAliveBy(files, store));
    forall row | row in rows
      ensures IsAliveBy(files, store)(row) <==> !Dead(c, f.id, row.pos, s)
    {
      FilteredIsDead(c, f, s, files, store, row);
    }
  }
}
