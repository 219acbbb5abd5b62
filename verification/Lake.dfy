/** One DuckLake table's catalog, and what a scan of it reads at a snapshot.

    The catalog keeps the table's history in four encodings: data files, with a
    per-row origin snapshot where a file spans several; delete files, with a
    snapshot per deleted position; inlined rows; and inlined deletions of file
    rows. `Scan` is the one definition of what a read at snapshot `s` returns;
    every change to the catalog is judged by it. */
module Lake {
  import opened Bags

  datatype Option<+T> = None | Some(value: T)

  datatype Row = Row(rowid: int, data: string)

  /** `origins` is the embedded `_ducklake_internal_snapshot_id` column where the
      file physically carries it, a NULL being `None`. */
  datatype DataFile = DataFile(
    id: int,
    begin: int,
    end: Option<int>,
    partialMax: Option<int>,
    rows: seq<Row>,
    origins: Option<seq<Option<int>>>)

  /** `entries` maps each deleted position to the snapshot recorded for it, if any. */
  datatype DeleteFile = DeleteFile(id: int, file: int, begin: int, end: Option<int>, entries: map<int, Option<int>>)

  datatype InlinedRow = InlinedRow(row: Row, begin: int, end: Option<int>)

  datatype InlinedDelete = InlinedDelete(file: int, pos: int, begin: int)

  datatype Catalog = Catalog(
    head: int,
    nextFileId: int,
    files: seq<DataFile>,
    deletes: seq<DeleteFile>,
    inlined: seq<InlinedRow>,
    inlinedDeletes: set<InlinedDelete>)

  // ----- Reading -----

  predicate LiveAt(begin: int, end: Option<int>, s: int) {
    begin <= s && (end.Some? ==> s < end.value)
  }

  /** Whether a read at `s` keeps row `i` by its origin: only a partial file read
      below its `partialMax` is filtered, and a NULL origin fails the filter. */
  predicate Born(f: DataFile, i: int, s: int) {
    f.partialMax.Some? && s < f.partialMax.value ==>
      && f.origins.Some?
      && 0 <= i < |f.origins.value|
      && f.origins.value[i].Some?
      && f.origins.value[i].value <= s
  }

  /** Whether delete file `d`, once listed at `s`, deletes position `p`. */
  predicate Records(d: DeleteFile, p: int, s: int) {
    p in d.entries && (d.entries[p].Some? ==> d.entries[p].value <= s)
  }

  ghost predicate InlinedDead(c: Catalog, file: int, p: int, s: int) {
    exists b :: InlinedDelete(file, p, b) in c.inlinedDeletes && b <= s
  }

  ghost function RowAt(f: DataFile, i: int, dead: int -> bool, s: int): multiset<Row> {
    if 0 <= i < |f.rows| && !dead(i) && Born(f, i, s) then multiset{f.rows[i]} else multiset{}
  }

  ghost function RowsBy(f: DataFile, dead: int -> bool, s: int): int -> multiset<Row> {
    i => RowAt(f, i, dead, s)
  }

  ghost function FileRows(f: DataFile, dead: int -> bool, s: int): multiset<Row> {
    SumTo(|f.rows|, RowsBy(f, dead, s))
  }

  predicate Joins(d: DeleteFile, file: int, s: int) {
    d.file == file && LiveAt(d.begin, d.end, s)
  }

  /** The delete files the listing joins to data file `file` at `s`. */
  function Joined(deletes: seq<DeleteFile>, file: int, s: int): seq<DeleteFile> {
    Filter(deletes, (d: DeleteFile) => Joins(d, file, s))
  }

  /** The rows one data file gives a scan. The listing is a left join, so a file
      with two delete files live at `s` is read once for each. */
  ghost function FileScan(c: Catalog, f: DataFile, s: int): multiset<Row> {
    if !LiveAt(f.begin, f.end, s) then multiset{}
    else
      var joined := Joined(c.deletes, f.id, s);
      if joined == [] then FileRows(f, p => InlinedDead(c, f.id, p, s), s)
      else Sum(joined, (d: DeleteFile) => FileRows(f, p => InlinedDead(c, f.id, p, s) || Records(d, p, s), s))
  }

  ghost function ScanBy(c: Catalog, s: int): DataFile -> multiset<Row> {
    (f: DataFile) => FileScan(c, f, s)
  }

  ghost function InlinedScan(r: InlinedRow, s: int): multiset<Row> {
    if LiveAt(r.begin, r.end, s) then multiset{r.row} else multiset{}
  }

  ghost function InlinedBy(s: int): InlinedRow -> multiset<Row> {
    (r: InlinedRow) => InlinedScan(r, s)
  }

  /** What a read of the table at snapshot `s` returns. */
  ghost function Scan(c: Catalog, s: int): multiset<Row> {
    Sum(c.files, ScanBy(c, s)) + Sum(c.inlined, InlinedBy(s))
  }

  // ----- Well-formed catalogs -----

  /** The last snapshot the catalog says a file's rows come from. */
  function LastOrigin(f: DataFile): int {
    if f.partialMax.Some? then f.partialMax.value else f.begin
  }

  predicate OriginWithin(f: DataFile, o: Option<int>) {
    o.Some? && f.begin <= o.value <= LastOrigin(f)
  }

  /** The file's embedded origins are what its catalog row says. */
  predicate Truthful(f: DataFile) {
    && f.begin <= LastOrigin(f)
    && (f.partialMax.Some? ==> f.origins.Some?)
    && (f.origins.Some? ==>
          && |f.origins.value| == |f.rows|
          && forall o | o in f.origins.value :: OriginWithin(f, o))
  }

  predicate Lifetime(begin: int, end: Option<int>, head: int) {
    begin <= head && (end.Some? ==> begin < end.value <= head)
  }

  /** No snapshot lists both delete files. */
  predicate Apart(d: DeleteFile, e: DeleteFile) {
    (d.end.Some? && d.end.value <= e.begin) || (e.end.Some? && e.end.value <= d.begin)
  }

  predicate Disjoint(deletes: seq<DeleteFile>) {
    forall i, j | 0 <= i < j < |deletes| && deletes[i].file == deletes[j].file :: Apart(deletes[i], deletes[j])
  }

  predicate WfFile(f: DataFile, head: int) {
    Truthful(f) && LastOrigin(f) <= head && Lifetime(f.begin, f.end, head)
  }

  predicate EntryWithin(d: DeleteFile, o: Option<int>, head: int) {
    o.Some? ==> d.begin <= o.value <= head
  }

  predicate WfDelete(d: DeleteFile, head: int) {
    Lifetime(d.begin, d.end, head) && forall p | p in d.entries :: EntryWithin(d, d.entries[p], head)
  }

  predicate DistinctFiles(files: seq<DataFile>) {
    forall i, j | 0 <= i < j < |files| :: files[i].id != files[j].id
  }

  predicate DistinctDeletes(deletes: seq<DeleteFile>) {
    forall i, j | 0 <= i < j < |deletes| :: deletes[i].id != deletes[j].id
  }

  predicate HasLiveDelete(c: Catalog, file: int) {
    exists d | d in c.deletes :: d.file == file && d.end.None?
  }

  /** A live data file that was ever deleted from by a delete file has a live one. */
  predicate DeletesStay(c: Catalog) {
    forall f, d | f in c.files && d in c.deletes && d.file == f.id && f.end.None? :: HasLiveDelete(c, f.id)
  }

  predicate Wf(c: Catalog) {
    && DistinctFiles(c.files)
    && DistinctDeletes(c.deletes)
    && Disjoint(c.deletes)
    && DeletesStay(c)
    && (forall f | f in c.files :: WfFile(f, c.head) && f.id < c.nextFileId)
    && (forall d | d in c.deletes :: WfDelete(d, c.head) && d.id < c.nextFileId && d.file < c.nextFileId)
    && (forall r | r in c.inlined :: Lifetime(r.begin, r.end, c.head))
    && (forall d | d in c.inlinedDeletes :: d.begin <= c.head && d.file < c.nextFileId)
  }

  // ----- The read without the join -----

  /** Position `p` of data file `file` is deleted at `s`, by either encoding. */
  ghost predicate Dead(c: Catalog, file: int, p: int, s: int) {
    InlinedDead(c, file, p, s) || exists d | d in c.deletes :: Joins(d, file, s) && Records(d, p, s)
  }

  ghost function DeadBy(c: Catalog, file: int, s: int): int -> bool {
    p => Dead(c, file, p, s)
  }

  ghost function Shown(c: Catalog, f: DataFile, s: int): multiset<Row> {
    if LiveAt(f.begin, f.end, s) then FileRows(f, DeadBy(c, f.id, s), s) else multiset{}
  }

  ghost function ShownBy(c: Catalog, s: int): DataFile -> multiset<Row> {
    (f: DataFile) => Shown(c, f, s)
  }

  lemma FileRowsExt(f: DataFile, dead: int -> bool, dead': int -> bool, s: int)
    requires forall i | 0 <= i < |f.rows| :: dead(i) == dead'(i)
    ensures FileRows(f, dead, s) == FileRows(f, dead', s)
  {
    SumToExt(|f.rows|, RowsBy(f, dead, s), RowsBy(f, dead', s));
  }

  /** Delete files that do not overlap leave at most one for a file at a snapshot. */
  lemma {:induction false} JoinedOnce(deletes: seq<DeleteFile>, file: int, s: int)
    requires Disjoint(deletes)
    ensures |Joined(deletes, file, s)| <= 1
  {
    if deletes != [] {
      var keep := (d: DeleteFile) => Joins(d, file, s);
      JoinedOnce(deletes[1..], file, s);
      if keep(deletes[0]) {
        forall d | d in deletes[1..]
          ensures !keep(d)
        {
          var j :| 1 <= j < |deletes| && deletes[j] == d;
          assert d.file == file ==> Apart(deletes[0], deletes[j]);
        }
        FilterNone(deletes[1..], keep);
      }
    }
  }

  /** Where delete files do not overlap, the left join reads each live file once,
      without the rows deleted by either encoding. */
  lemma JoinReadsOnce(c: Catalog, f: DataFile, s: int)
    requires Disjoint(c.deletes)
    ensures FileScan(c, f, s) == Shown(c, f, s)
  {
    if LiveAt(f.begin, f.end, s) {
      JoinedOnce(c.deletes, f.id, s);
      var joined := Joined(c.deletes, f.id, s);
      FilterMembers(c.deletes, (d: DeleteFile) => Joins(d, f.id, s));
      assert forall d :: d in joined <==> d in c.deletes && Joins(d, f.id, s);
      if joined == [] {
        FileRowsExt(f, p => InlinedDead(c, f.id, p, s), DeadBy(c, f.id, s), s);
      } else {
        var d := joined[0];
        var g := (d: DeleteFile) => FileRows(f, p => InlinedDead(c, f.id, p, s) || Records(d, p, s), s);
        assert joined == [d] && Sum(joined, g) == g(d);
        assert forall e | e in joined :: e == d;
        assert forall p :: Dead(c, f.id, p, s) == (InlinedDead(c, f.id, p, s) || Records(d, p, s));
        FileRowsExt(f, p => InlinedDead(c, f.id, p, s) || Records(d, p, s), DeadBy(c, f.id, s), s);
      }
    }
  }

  lemma ScanIsShown(c: Catalog, s: int)
    requires Disjoint(c.deletes)
    ensures Scan(c, s) == Sum(c.files, ShownBy(c, s)) + Sum(c.inlined, InlinedBy(s))
  {
    forall f | f in c.files
      ensures FileScan(c, f, s) == Shown(c, f, s)
    {
      JoinReadsOnce(c, f, s);
    }
    SumExt(c.files, ScanBy(c, s), ShownBy(c, s));
  }

  /** Two catalogs whose deletions of a file agree at `s` show the same rows of it. */
  lemma ShownExt(c: Catalog, c': Catalog, f: DataFile, s: int)
    requires LiveAt(f.begin, f.end, s) ==> forall p | 0 <= p < |f.rows| :: Dead(c, f.id, p, s) == Dead(c', f.id, p, s)
    ensures Shown(c, f, s) == Shown(c', f, s)
  {
    if LiveAt(f.begin, f.end, s) {
      FileRowsExt(f, DeadBy(c, f.id, s), DeadBy(c', f.id, s), s);
    }
  }

  // ----- Leaving files out -----

  function OutsideFiles(ids: set<int>): DataFile -> bool {
    (f: DataFile) => f.id !in ids
  }

  function OutsideDeletes(ids: set<int>): DeleteFile -> bool {
    (d: DeleteFile) => d.file !in ids
  }

  /** The data files not named by `ids`. */
  function FilesOutside(files: seq<DataFile>, ids: set<int>): seq<DataFile> {
    Filter(files, OutsideFiles(ids))
  }

  /** The delete files of data files not named by `ids`. */
  function DeletesOutside(deletes: seq<DeleteFile>, ids: set<int>): seq<DeleteFile> {
    Filter(deletes, OutsideDeletes(ids))
  }

  lemma FilesOutsideWf(files: seq<DataFile>, ids: set<int>)
    requires DistinctFiles(files)
    ensures DistinctFiles(FilesOutside(files, ids))
    ensures forall f :: f in FilesOutside(files, ids) <==> f in files && f.id !in ids
  {
    FilterMembers(files, OutsideFiles(ids));
    FilterPairwise(files, OutsideFiles(ids), (f: DataFile, g: DataFile) => f.id != g.id);
  }

  lemma DeletesOutsideWf(deletes: seq<DeleteFile>, ids: set<int>)
    requires DistinctDeletes(deletes) && Disjoint(deletes)
    ensures DistinctDeletes(DeletesOutside(deletes, ids)) && Disjoint(DeletesOutside(deletes, ids))
    ensures forall d :: d in DeletesOutside(deletes, ids) <==> d in deletes && d.file !in ids
  {
    FilterMembers(deletes, OutsideDeletes(ids));
    FilterPairwise(deletes, OutsideDeletes(ids), (d: DeleteFile, e: DeleteFile) => d.id != e.id);
    FilterPairwise(deletes, OutsideDeletes(ids), (d: DeleteFile, e: DeleteFile) => d.file == e.file ==> Apart(d, e));
  }

  lemma SameFile(files: seq<DataFile>, f: DataFile, g: DataFile)
    requires DistinctFiles(files) && f in files && g in files && f.id == g.id
    ensures f == g
  {
    var i :| 0 <= i < |files| && files[i] == f;
    var j :| 0 <= j < |files| && files[j] == g;
  }

  function Ids(files: seq<DataFile>): set<int> {
    set f | f in files :: f.id
  }

  /** A sum over the files is one over those left out, and one over the rest. */
  lemma SumOutside(files: seq<DataFile>, gone: seq<DataFile>, g: DataFile -> multiset<Row>)
    requires DistinctFiles(files) && Distinct(gone) && forall f | f in gone :: f in files
    ensures Sum(files, g) == Sum(FilesOutside(files, Ids(gone)), g) + Sum(gone, g)
  {
    var ids := Ids(gone);
    var taken := Not(OutsideFiles(ids));
    FilterMembers(files, taken);
    FilterPairwise(files, taken, (f: DataFile, h: DataFile) => f.id != h.id);
    forall f
      ensures f in Filter(files, taken) <==> f in gone
    {
      if f in Filter(files, taken) {
        assert f.id in ids;
        var h :| h in gone && h.id == f.id;
        SameFile(files, f, h);
      }
    }
    SameMembers(Filter(files, taken), gone);
    SumPermute(Filter(files, taken), gone, g);
    SumSplit(files, OutsideFiles(ids), g);
  }

  // ----- The inlined rows a read lists -----

  function VisibleAt(s: int): InlinedRow -> bool {
    (r: InlinedRow) => LiveAt(r.begin, r.end, s)
  }

  ghost function RowOf(): InlinedRow -> multiset<Row> {
    (r: InlinedRow) => multiset{r.row}
  }

  lemma {:induction false} VisibleSum(rows: seq<InlinedRow>, s: int)
    ensures Sum(Filter(rows, VisibleAt(s)), RowOf()) == Sum(rows, InlinedBy(s))
  {
    if rows != [] {
      VisibleSum(rows[1..], s);
      var rest := Filter(rows[1..], VisibleAt(s));
      assert VisibleAt(s)(rows[0]) ==> ([rows[0]] + rest)[1..] == rest;
    }
  }
}
