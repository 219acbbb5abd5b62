/** A fill of the catalog memo over a provider that cannot begin a consistent read: each
    statement and each page of the listing reads whatever state the table is in by then.

    Statement number `k` reads the catalog `world(k)`; between two statements any number
    of commits may land, merges included. */
module Fill {
  import opened Bags
  import opened Lake
  import opened Merge
  import Rows = FlushRows
  import opened Deletes
  import opened DeleteAll
  import opened History
  import opened QuietSteps

  const SCAN_READ_ATTEMPTS: nat := 10

  /** A file of a listing, with the delete file joined to it. */
  datatype Listed = Listed(file: DataFile, delete: Option<DeleteFile>)

  datatype Inlined = Inlined(rows: seq<Row>, absentThrough: Option<int>, visible: seq<Row>, nextFileId: Option<int>)

  datatype Listing = Files(files: seq<Listed>) | WrittenSince | OverBudget

  /** `rows` are the inlined rows as a plain scan takes them, `visible` as a `rowid` scan
      does: two reads of the same rows. */
  datatype TableReads = TableReads(deletes: set<InlinedDelete>, listing: seq<Listed>, inlined: Inlined)

  datatype Filled = Filled(content: TableReads) | TooLarge | KeptMoving

  /** The estimated sizes of what a fill holds. */
  datatype Costs = Costs(deletion: nat, rows: seq<Row> -> nat, visible: seq<Row> -> nat, file: Listed -> nat)

  // ----- Statements -----

  function DeletesAt(c: Catalog, s: int): set<InlinedDelete> {
    set d | d in c.inlinedDeletes && d.begin <= s
  }

  function RowsOf(rs: seq<InlinedRow>): seq<Row> {
    seq(|rs|, i requires 0 <= i < |rs| => rs[i].row)
  }

  function VisibleRows(c: Catalog, s: int): seq<Row> {
    RowsOf(Filter(c.inlined, VisibleAt(s)))
  }

  function LargestId(files: seq<DataFile>): (id: int)
    ensures -1 <= id && (forall f | f in files :: f.id <= id) && (id == -1 || exists f | f in files :: f.id == id)
  {
    if files == [] then -1
    else
      var rest := LargestId(files[1..]);
      if rest < files[0].id then files[0].id else rest
  }

  /** One past the largest committed data file id. */
  function NextFileId(c: Catalog): int {
    LargestId(c.files) + 1
  }

  /** No inlined row begins at or below `through`. */
  predicate AbsentThrough(c: Catalog, through: int) {
    forall r | r in c.inlined :: through < r.begin
  }

  predicate IsListed(c: Catalog, s: int, e: Listed) {
    && e.file in c.files && LiveAt(e.file.begin, e.file.end, s)
    && (e.delete.Some? ==> e.delete.value in c.deletes && Joins(e.delete.value, e.file.id, s))
    && (e.delete.None? ==> forall d | d in c.deletes :: !Joins(d, e.file.id, s))
  }

  predicate Ascending(page: seq<Listed>) {
    forall i, j | 0 <= i < j < |page| :: page[i].file.id < page[j].file.id
  }

  predicate Past(after: Option<int>, id: int) {
    after.Some? ==> after.value < id
  }

  predicate Lists(page: seq<Listed>, id: int) {
    exists e | e in page :: e.file.id == id
  }

  /** A page of the listing: the files after `after`, in id order, at most `limit`, and
      without a gap up to the last. */
  predicate IsPage(c: Catalog, s: int, after: Option<int>, limit: nat, page: seq<Listed>) {
    && |page| <= limit && Ascending(page)
    && (forall e | e in page :: IsListed(c, s, e) && Past(after, e.file.id))
    && forall f | f in c.files && LiveAt(f.begin, f.end, s) && Past(after, f.id) ::
         |page| < limit || (page != [] && f.id <= page[|page| - 1].file.id) ==> Lists(page, f.id)
  }

  /** The catalog each statement reads, and the pages of at most `limit` files it would
      answer with. */
  datatype Provider = Provider(world: nat -> Catalog, limit: nat, page: (nat, Option<int>) -> seq<Listed>)

  /** Between statement `k` and the next: nothing, or commits made while `s` is committed. */
  ghost predicate Moves(p: Provider, k: nat, s: int) {
    p.world(k + 1) == p.world(k) || (s <= p.world(k).head && Advances(p.world(k), p.world(k + 1)))
  }

  ghost predicate Provides(p: Provider, s: int) {
    && Wf(p.world(0)) && 0 <= p.world(0).nextFileId && 0 < p.limit
    && (forall k: nat :: Moves(p, k, s))
    && forall k: nat, after :: IsPage(p.world(k), s, after, p.limit, p.page(k, after))
  }

  lemma MoveShifts(p: Provider, s: int, k: nat)
    requires Moves(p, k, s) && Wf(p.world(k))
    ensures Shifts(p.world(k), p.world(k + 1), s)
  {
    if p.world(k + 1) == p.world(k) {
      ShiftsSame(p.world(k), s);
    } else {
      AdvanceShifts(p.world(k), p.world(k + 1), s);
    }
  }

  lemma ShiftsOn(p: Provider, s: int, i: nat, j: nat)
    requires Shifts(p.world(i), p.world(j), s) && Moves(p, j, s)
    ensures Shifts(p.world(i), p.world(j + 1), s)
  {
    MoveShifts(p, s, j);
    ShiftsTrans(p.world(i), p.world(j), p.world(j + 1), s);
  }

  ghost predicate Goes<T(!new)>(w: nat -> T, rel: (T, T) -> bool, i: nat, k: nat) {
    rel(w(i), w(k)) ==> rel(w(i), w(k + 1))
  }

  lemma {:induction false} Reaches<T(!new)>(w: nat -> T, rel: (T, T) -> bool, i: nat, j: nat)
    requires i <= j && rel(w(i), w(i)) && forall k: nat :: Goes(w, rel, i, k)
    ensures rel(w(i), w(j))
    decreases j - i
  {
    if i < j {
      Reaches(w, rel, i, j - 1);
      assert Goes(w, rel, i, j - 1);
    }
  }

  ghost function ShiftsBy(s: int): (Catalog, Catalog) -> bool {
    (c, c') => Shifts(c, c', s)
  }

  lemma ShiftsFrom(p: Provider, s: int, i: nat, j: nat)
    requires (forall k: nat :: Moves(p, k, s)) && i <= j && Wf(p.world(i))
    ensures Shifts(p.world(i), p.world(j), s)
  {
    forall k: nat
      ensures Goes(p.world, ShiftsBy(s), i, k)
    {
      assert Moves(p, k, s);
      if Shifts(p.world(i), p.world(k), s) {
        ShiftsOn(p, s, i, k);
      }
    }
    ShiftsSame(p.world(i), s);
    Reaches(p.world, ShiftsBy(s), i, j);
  }

  lemma ShiftsBetween(p: Provider, s: int, i: nat, j: nat)
    requires Provides(p, s) && i <= j
    ensures Shifts(p.world(i), p.world(j), s)
  {
    ShiftsFrom(p, s, 0, i);
    ShiftsFrom(p, s, i, j);
  }

  lemma WfAt(p: Provider, s: int, k: nat)
    requires Provides(p, s)
    ensures Wf(p.world(k))
  {
    ShiftsBetween(p, s, 0, k);
  }

  lemma IdsGrow(p: Provider, s: int, i: nat, j: nat)
    requires Provides(p, s) && i <= j
    ensures 0 <= p.world(i).nextFileId <= p.world(j).nextFileId
  {
    ShiftsBetween(p, s, 0, i);
    ShiftsBetween(p, s, i, j);
  }

  // ----- What the reads show -----

  predicate Holds(deletes: set<InlinedDelete>, file: int, p: int) {
    exists d | d in deletes :: d.file == file && d.pos == p
  }

  ghost function EntryDead(deletes: set<InlinedDelete>, e: Listed, s: int): int -> bool {
    p => Holds(deletes, e.file.id, p) || (e.delete.Some? && Records(e.delete.value, p, s))
  }

  ghost function EntryRows(deletes: set<InlinedDelete>, s: int): Listed -> multiset<Row> {
    (e: Listed) => FileRows(e.file, EntryDead(deletes, e, s), s)
  }

  /** What a scan of these reads returns, taking the inlined rows from `rows`. */
  ghost function ReadsShow(r: TableReads, rows: seq<Row>, s: int): multiset<Row> {
    multiset(rows) + Sum(r.listing, EntryRows(r.deletes, s))
  }

  lemma {:induction false} RowsOfSum(rs: seq<InlinedRow>)
    ensures multiset(RowsOf(rs)) == Sum(rs, RowOf())
  {
    if rs != [] {
      RowsOfSum(rs[1..]);
      assert RowsOf(rs) == [rs[0].row] + RowsOf(rs[1..]);
    }
  }

  /** Deletions read first and the listing later miss none: one flushed in between is in
      both, and none is in neither. */
  lemma EntryDeadIsDead(c0: Catalog, c: Catalog, e: Listed, p: int, s: int)
    requires Shifts(c0, c, s) && IsListed(c, s, e)
    ensures EntryDead(DeletesAt(c0, s), e, s)(p) == Dead(c, e.file.id, p, s)
  {
    var id := e.file.id;
    if d :| d in DeletesAt(c0, s) && d.file == id && d.pos == p {
      assert id < c0.nextFileId && InlinedDelete(id, p, d.begin) in c0.inlinedDeletes;
      assert Dead(c0, id, p, s);
    }
    if b :| InlinedDelete(id, p, b) in c.inlinedDeletes && b <= s {
      assert InlinedDelete(id, p, b) in DeletesAt(c0, s);
    }
    if d :| d in c.deletes && Joins(d, id, s) && Records(d, p, s) {
      OneJoined(c.deletes, d, e.delete.value, id, s);
    }
  }

  lemma OneJoined(deletes: seq<DeleteFile>, d: DeleteFile, e: DeleteFile, file: int, s: int)
    requires Disjoint(deletes) && d in deletes && e in deletes && Joins(d, file, s) && Joins(e, file, s)
    ensures d == e
  {
    JoinedOnce(deletes, file, s);
    FilterMembers(deletes, (x: DeleteFile) => Joins(x, file, s));
    assert d in Joined(deletes, file, s) && e in Joined(deletes, file, s);
  }

  lemma EntryIsShown(c0: Catalog, c: Catalog, e: Listed, s: int)
    requires Shifts(c0, c, s) && IsListed(c, s, e)
    ensures EntryRows(DeletesAt(c0, s), s)(e) == Shown(c, e.file, s)
  {
    forall p
      ensures EntryDead(DeletesAt(c0, s), e, s)(p) == DeadBy(c, e.file.id, s)(p)
    {
      EntryDeadIsDead(c0, c, e, p, s);
    }
    FileRowsExt(e.file, EntryDead(DeletesAt(c0, s), e, s), DeadBy(c, e.file.id, s), s);
  }

  /** A file still there shows a reader the rows it showed. */
  lemma FollowerShows(c: Catalog, c': Catalog, f: DataFile, f': DataFile, s: int)
    requires Shifts(c, c', s) && f in c.files && f' in c'.files && f.id == f'.id
    ensures Shown(c', f', s) == Shown(c, f, s)
  {
    assert WasThere(c, f', s);
    var g :| g in c.files && g.id == f'.id && Same(g, f', s);
    SameFile(c.files, f, g);
    ShownExt(c', c, f, s);
    DroppedRows(f, f', DeadBy(c', f.id, s), s);
  }

  lemma EntryStillShows(p: Provider, s: int, t: nat, z: nat, e: Listed, f: DataFile)
    requires Provides(p, s) && t <= z && IsListed(p.world(t), s, e) && f in p.world(z).files && f.id == e.file.id
    ensures EntryRows(DeletesAt(p.world(0), s), s)(e) == Shown(p.world(z), f, s)
  {
    ShiftsBetween(p, s, 0, t);
    ShiftsBetween(p, s, t, z);
    EntryIsShown(p.world(0), p.world(t), e, s);
    FollowerShows(p.world(t), p.world(z), e.file, f, s);
  }

  /** An entry of a file that was there before shows what the file showed then. */
  lemma EntryShowed(p: Provider, s: int, t: nat, k: nat, e: Listed) returns (f: DataFile)
    requires Provides(p, s) && t <= k && IsListed(p.world(k), s, e) && e.file.id < p.world(t).nextFileId
    ensures f in p.world(t).files && f.id == e.file.id
    ensures EntryRows(DeletesAt(p.world(0), s), s)(e) == Shown(p.world(t), f, s)
  {
    ShiftsBetween(p, s, t, k);
    ShiftsBetween(p, s, 0, k);
    assert WasThere(p.world(t), e.file, s);
    f :| f in p.world(t).files && f.id == e.file.id && Same(f, e.file, s);
    EntryIsShown(p.world(0), p.world(k), e, s);
    FollowerShows(p.world(t), p.world(k), f, e.file, s);
  }

  // ----- A listing against the files of a catalog -----

  predicate HasId(files: seq<DataFile>, id: int) {
    exists f | f in files :: f.id == id
  }

  ghost predicate Agree(listing: seq<Listed>, files: seq<DataFile>, g: Listed -> multiset<Row>,
          h: DataFile -> multiset<Row>) {
    && (forall e, f | e in listing && f in files && f.id == e.file.id :: g(e) == h(f))
    && (forall e | e in listing :: HasId(files, e.file.id) || g(e) == multiset{})
    && (forall f | f in files :: Lists(listing, f.id) || h(f) == multiset{})
  }

  lemma AgreeRest(listing: seq<Listed>, files: seq<DataFile>, f: DataFile, g: Listed -> multiset<Row>,
          h: DataFile -> multiset<Row>)
    requires listing != [] && Ascending(listing) && DistinctFiles(files) && Agree(listing, files, g, h)
    requires f in files && f.id == listing[0].file.id
    ensures Agree(listing[1..], FilesOutside(files, {f.id}), g, h)
  {
    var rest, others := listing[1..], FilesOutside(files, {f.id});
    FilesOutsideWf(files, {f.id});
    forall e | e in rest
      ensures e in listing && e.file.id != f.id && (HasId(others, e.file.id) || g(e) == multiset{})
    {
      var i :| 0 <= i < |rest| && rest[i] == e;
      assert listing[0].file.id < listing[i + 1].file.id;
      if HasId(files, e.file.id) {
        var x :| x in files && x.id == e.file.id;
        assert x in others;
      }
    }
    forall x | x in others
      ensures Lists(rest, x.id) || h(x) == multiset{}
    {
      if Lists(listing, x.id) {
        var e :| e in listing && e.file.id == x.id;
        assert e in rest;
      }
    }
  }

  lemma AgreeUnmatched(listing: seq<Listed>, files: seq<DataFile>, g: Listed -> multiset<Row>,
          h: DataFile -> multiset<Row>)
    requires listing != [] && Agree(listing, files, g, h) && forall f | f in files :: f.id != listing[0].file.id
    ensures Agree(listing[1..], files, g, h) && g(listing[0]) == multiset{}
  {
    assert listing[0] in listing;
    forall x | x in files && Lists(listing, x.id)
      ensures Lists(listing[1..], x.id)
    {
      var e :| e in listing && e.file.id == x.id;
      assert e in listing[1..];
    }
  }

  lemma SumWithout(files: seq<DataFile>, f: DataFile, h: DataFile -> multiset<Row>)
    requires DistinctFiles(files) && f in files
    ensures Sum(files, h) == h(f) + Sum(FilesOutside(files, {f.id}), h)
  {
    assert Ids([f]) == {f.id} by {
      assert f in [f];
    }
    SumOutside(files, [f], h);
    assert Sum([f], h) == h(f);
  }

  /** Matched by id, a listing sums to what the files do. */
  lemma {:induction false} SumMatch(listing: seq<Listed>, files: seq<DataFile>, g: Listed -> multiset<Row>,
          h: DataFile -> multiset<Row>)
    requires Ascending(listing) && DistinctFiles(files) && Agree(listing, files, g, h)
    ensures Sum(listing, g) == Sum(files, h)
    decreases |listing|
  {
    if listing == [] {
      SumEmpty(files, h);
    } else if f :| f in files && f.id == listing[0].file.id {
      AgreeRest(listing, files, f, g, h);
      FilesOutsideWf(files, {f.id});
      SumMatch(listing[1..], FilesOutside(files, {f.id}), g, h);
      SumWithout(files, f, h);
      assert g(listing[0]) == h(f);
    } else {
      AgreeUnmatched(listing, files, g, h);
      SumMatch(listing[1..], files, g, h);
    }
  }

  // ----- Exactness -----

  /** The entry was listed by a page read at some time from `from` to `z`. */
  ghost predicate Came(p: Provider, s: int, e: Listed, from: nat, z: nat) {
    exists t: nat :: from <= t <= z && IsListed(p.world(t), s, e)
  }

  /** What the listing loop leaves behind that read its first page at statement `from` and
      its last at `z`: files listed on the way, among them every file live at the end. */
  ghost predicate Complete(p: Provider, s: int, from: nat, z: nat, guard: Option<int>, listing: seq<Listed>) {
    && from <= z && Ascending(listing)
    && (forall e | e in listing :: Came(p, s, e, from, z) && (guard.Some? ==> e.file.id < guard.value))
    && (forall f | f in p.world(z).files && LiveAt(f.begin, f.end, s) :: Lists(listing, f.id))
  }

  /** The listed file is not among these. */
  function Gone(files: seq<DataFile>): Listed -> bool {
    (e: Listed) => !HasId(files, e.file.id)
  }

  /** A listed file with a row visible at `s` was merged away before the last page: its
      rows are in the output too. */
  ghost predicate Repeats(p: Provider, s: int, z: nat, listing: seq<Listed>) {
    exists e | e in listing :: Gone(p.world(z).files)(e) && EntryRows(DeletesAt(p.world(0), s), s)(e) != multiset{}
  }

  /** The rows listed a second time. */
  ghost function Extra(p: Provider, s: int, z: nat, listing: seq<Listed>): multiset<Row> {
    Sum(Filter(listing, Gone(p.world(z).files)), EntryRows(DeletesAt(p.world(0), s), s))
  }

  lemma ExtraMeansRepeats(p: Provider, s: int, z: nat, listing: seq<Listed>)
    ensures Extra(p, s, z, listing) == multiset{} <==> !Repeats(p, s, z, listing)
  {
    FilterMembers(listing, Gone(p.world(z).files));
    SumNothing(Filter(listing, Gone(p.world(z).files)), EntryRows(DeletesAt(p.world(0), s), s));
  }

  lemma KeptAscend(listing: seq<Listed>, keep: Listed -> bool)
    requires Ascending(listing)
    ensures Ascending(Filter(listing, keep))
  {
    var before := (e: Listed, e': Listed) => e.file.id < e'.file.id;
    FilterPairwise(listing, keep, before);
    var kept := Filter(listing, keep);
    assert forall i, j | 0 <= i < j < |kept| :: before(kept[i], kept[j]);
  }

  lemma StillListed(p: Provider, s: int, from: nat, z: nat, guard: Option<int>, listing: seq<Listed>)
    requires Provides(p, s) && Complete(p, s, from, z, guard, listing)
    ensures var c := p.world(z);
            Agree(Filter(listing, Not(Gone(c.files))), c.files, EntryRows(DeletesAt(p.world(0), s), s), ShownBy(c, s))
  {
    var c, g := p.world(z), EntryRows(DeletesAt(p.world(0), s), s);
    var kept := Filter(listing, Not(Gone(c.files)));
    FilterMembers(listing, Not(Gone(c.files)));
    forall e, f | e in kept && f in c.files && f.id == e.file.id
      ensures g(e) == ShownBy(c, s)(f)
    {
      assert Came(p, s, e, from, z);
      var t: nat :| from <= t <= z && IsListed(p.world(t), s, e);
      EntryStillShows(p, s, t, z, e, f);
    }
    forall f | f in c.files
      ensures Lists(kept, f.id) || ShownBy(c, s)(f) == multiset{}
    {
      if LiveAt(f.begin, f.end, s) {
        var e :| e in listing && e.file.id == f.id;
        assert e in kept;
      }
    }
  }

  /** The listing shows the files of its last page's time, and the rows listed twice. */
  lemma ListingShows(p: Provider, s: int, from: nat, z: nat, guard: Option<int>, listing: seq<Listed>)
    requires Provides(p, s) && Complete(p, s, from, z, guard, listing)
    ensures Sum(listing, EntryRows(DeletesAt(p.world(0), s), s)) ==
            Sum(p.world(z).files, ShownBy(p.world(z), s)) + Extra(p, s, z, listing)
  {
    var c, g := p.world(z), EntryRows(DeletesAt(p.world(0), s), s);
    var kept := Filter(listing, Not(Gone(c.files)));
    ShiftsBetween(p, s, z, z);
    StillListed(p, s, from, z, guard, listing);
    KeptAscend(listing, Not(Gone(c.files)));
    SumMatch(kept, c.files, g, ShownBy(c, s));
    SumSplit(listing, Gone(c.files), g);
  }

  function ListedId(listing: seq<Listed>): DataFile -> bool {
    (f: DataFile) => Lists(listing, f.id)
  }

  lemma EntryWithin(p: Provider, s: int, t: nat, from: nat, z: nat, e: Listed, olds: seq<DataFile>,
          listing: seq<Listed>)
    requires Provides(p, s) && t <= from && Came(p, s, e, from, z) && e.file.id < p.world(t).nextFileId && e in listing
    requires olds == Filter(p.world(t).files, ListedId(listing))
    ensures HasId(olds, e.file.id)
    ensures forall f | f in olds && f.id == e.file.id ::
            EntryRows(DeletesAt(p.world(0), s), s)(e) == Shown(p.world(t), f, s)
  {
    var c := p.world(t);
    var k: nat :| from <= k <= z && IsListed(p.world(k), s, e);
    var f := EntryShowed(p, s, t, k, e);
    FilterMembers(c.files, ListedId(listing));
    WfAt(p, s, t);
    assert f in olds;
    forall f' | f' in olds && f'.id == e.file.id
      ensures f' == f
    {
      SameFile(c.files, f, f');
    }
  }

  lemma DistinctKept(files: seq<DataFile>, keep: DataFile -> bool)
    requires DistinctFiles(files)
    ensures DistinctFiles(Filter(files, keep))
  {
    var differ := (f: DataFile, f': DataFile) => f.id != f'.id;
    FilterPairwise(files, keep, differ);
    var kept := Filter(files, keep);
    assert forall i, j | 0 <= i < j < |kept| :: differ(kept[i], kept[j]);
  }

  /** A guard no later than time `t` lets the listing show only files of time `t`. */
  lemma GuardedWithin(p: Provider, s: int, t: nat, from: nat, z: nat, guard: int, listing: seq<Listed>)
    requires Provides(p, s) && t <= from && Complete(p, s, from, z, Some(guard), listing)
             && guard <= p.world(t).nextFileId
    ensures Sum(listing, EntryRows(DeletesAt(p.world(0), s), s)) <= Sum(p.world(t).files, ShownBy(p.world(t), s))
  {
    var c, g := p.world(t), EntryRows(DeletesAt(p.world(0), s), s);
    var olds := Filter(c.files, ListedId(listing));
    forall e | e in listing
      ensures HasId(olds, e.file.id) && forall f | f in olds && f.id == e.file.id :: g(e) == Shown(c, f, s)
    {
      EntryWithin(p, s, t, from, z, e, olds, listing);
    }
    assert DistinctFiles(olds) by {
      WfAt(p, s, t);
      DistinctKept(c.files, ListedId(listing));
    }
    FilterMembers(c.files, ListedId(listing));
    SumMatch(listing, olds, g, ShownBy(c, s));
    SumSplit(c.files, ListedId(listing), ShownBy(c, s));
  }

  lemma Conserved<R>(f: multiset<R>, i: multiset<R>, f': multiset<R>, i': multiset<R>, extra: multiset<R>)
    requires f + i == f' + i' && f' + extra <= f && i' <= i
    ensures extra == multiset{} && i' == i
  {
    forall r
      ensures extra[r] == 0 && i'[r] == i[r]
    {
      assert (f + i)[r] == (f' + i')[r] && (f' + extra)[r] <= f[r];
    }
  }

  /** Under a guard nothing repeats: the output of a merge since would have been listed,
      and refused. Nor has a row left the inlined ones. */
  lemma GuardedRepeatsNothing(p: Provider, s: int, t: nat, from: nat, z: nat, guard: int, listing: seq<Listed>)
    requires Provides(p, s) && t <= from && Complete(p, s, from, z, Some(guard), listing)
             && guard <= p.world(t).nextFileId
    ensures Extra(p, s, z, listing) == multiset{}
    ensures Sum(p.world(z).inlined, InlinedBy(s)) == Sum(p.world(t).inlined, InlinedBy(s))
  {
    ShiftsBetween(p, s, t, z);
    GuardedWithin(p, s, t, from, z, guard, listing);
    ListingShows(p, s, from, z, Some(guard), listing);
    ScanIsShown(p.world(t), s);
    ScanIsShown(p.world(z), s);
    Conserved(Sum(p.world(t).files, ShownBy(p.world(t), s)), Sum(p.world(t).inlined, InlinedBy(s)),
              Sum(p.world(z).files, ShownBy(p.world(z), s)), Sum(p.world(z).inlined, InlinedBy(s)),
                Extra(p, s, z, listing));
  }

  /** The rows read at time `t` need no guard, or have one. */
  ghost predicate Guarded(p: Provider, s: int, t: nat, guard: Option<int>) {
    Sum(p.world(t).inlined, InlinedBy(s)) == multiset{} || (guard.Some? && guard.value <= p.world(t).nextFileId)
  }

  lemma SameInlined(p: Provider, s: int, t: nat, from: nat, z: nat, guard: Option<int>, listing: seq<Listed>)
    requires Provides(p, s) && t <= from && Complete(p, s, from, z, guard, listing) && Guarded(p, s, t, guard)
    ensures Sum(p.world(z).inlined, InlinedBy(s)) == Sum(p.world(t).inlined, InlinedBy(s))
  {
    if Sum(p.world(t).inlined, InlinedBy(s)) == multiset{} {
      ShiftsBetween(p, s, t, z);
    } else {
      GuardedRepeatsNothing(p, s, t, from, z, guard.value, listing);
    }
  }

  lemma NoExtra<R>(a: multiset<R>, extra: multiset<R>)
    ensures a + extra == a <==> extra == multiset{}
  {
    if a + extra == a {
      forall r
        ensures extra[r] == 0
      {
        assert (a + extra)[r] == a[r];
      }
    }
  }

  /** Reads of inlined rows at time `t`, then of the listing, show the snapshot exactly,
      each row once, if and only if no listed file with a visible row was merged away
      before the last page. */
  lemma ReadsExactly(p: Provider, s: int, t: nat, from: nat, z: nat, guard: Option<int>, r: TableReads, rows: seq<Row>)
    requires Provides(p, s) && t <= from && Complete(p, s, from, z, guard, r.listing) && Guarded(p, s, t, guard)
    requires r.deletes == DeletesAt(p.world(0), s)
    requires multiset(rows) == Sum(p.world(t).inlined, InlinedBy(s))
    ensures ReadsShow(r, rows, s) == Scan(p.world(0), s) <==> !Repeats(p, s, z, r.listing)
  {
    ShiftsBetween(p, s, 0, z);
    SameInlined(p, s, t, from, z, guard, r.listing);
    ListingShows(p, s, from, z, guard, r.listing);
    ScanIsShown(p.world(z), s);
    assert ReadsShow(r, rows, s) == Scan(p.world(0), s) + Extra(p, s, z, r.listing);
    NoExtra(Scan(p.world(0), s), Extra(p, s, z, r.listing));
    ExtraMeansRepeats(p, s, z, r.listing);
  }

  // ----- What a fill reads -----

  lemma VisibleRowsSum(c: Catalog, s: int)
    ensures multiset(VisibleRows(c, s)) == Sum(c.inlined, InlinedBy(s))
    ensures VisibleRows(c, s) == [] ==> Sum(c.inlined, InlinedBy(s)) == multiset{}
    ensures AbsentThrough(c, s) ==> VisibleRows(c, s) == []
  {
    VisibleSum(c.inlined, s);
    RowsOfSum(Filter(c.inlined, VisibleAt(s)));
    if AbsentThrough(c, s) {
      FilterNone(c.inlined, VisibleAt(s));
    }
  }

  /** A next file id read no later than the rows guards them. */
  lemma RowsGuarded(p: Provider, s: int, i: nat, t: nat, guard: Option<int>)
    requires Provides(p, s) && i <= t
    requires VisibleRows(p.world(t), s) != [] ==> guard.Some? && guard.value <= NextFileId(p.world(i))
    ensures Guarded(p, s, t, guard)
  {
    NextIdBelow(p, s, i, t);
    VisibleRowsSum(p.world(t), s);
  }

  function MinOption(a: Option<int>, b: Option<int>): Option<int> {
    if a.None? then b else if b.None? || a.value <= b.value then a else b
  }

  /** The absence answer of a scan from statement `k` on: the registry with the head, then
      the rows, then whether a row begins at or below the snapshot. */
  function AbsenceAnswer(p: Provider, s: int, k: nat): Option<int> {
    var through := if s < p.world(k).head then s else p.world(k).head;
    if VisibleRows(p.world(k + 1), s) == [] && AbsentThrough(p.world(k + 2), through) then Some(through) else None
  }

  /** The next file id kept with a read, if it read rows. */
  function GuardOf(rows: seq<Row>, nextId: int): Option<int> {
    if rows != [] then Some(nextId) else None
  }

  predicate Skips(known: Option<int>, s: int) {
    known.Some? && s <= known.value
  }

  /** `r` is what reading the inlined rows from statement `k` on gives, with and without
      row ids, at times `t` and `u`, `known` being a kept absence answer. */
  predicate IsInlined(p: Provider, s: int, k: nat, known: Option<int>, r: Inlined, t: nat, u: nat, next: nat) {
    if Skips(known, s) then t == u == next == k && r == Inlined([], known, [], None)
    else
      && t == k + 1 && k + 2 <= u == next <= k + 3
      && r.rows == VisibleRows(p.world(t), s) && r.visible == VisibleRows(p.world(u), s)
      && r.absentThrough == AbsenceAnswer(p, s, k)
      && r.nextFileId == MinOption(GuardOf(r.rows, NextFileId(p.world(k))),
         GuardOf(r.visible, NextFileId(p.world(k + 2))))
  }

  /** When a fill read what: the inlined rows from statement `k` on, at times `t` and `u`,
      and the listing from `from` to `z`. */
  datatype Trace = Trace(k: nat, t: nat, u: nat, from: nat, z: nat)

  /** `content` is what a fill read. `known(k)` is the absence answer it knew before
      statement `k`. A listing shorter than a page was read at one time. */
  ghost predicate IsFill(p: Provider, s: int, known: nat -> Option<int>, content: TableReads, tr: Trace) {
    && content.deletes == DeletesAt(p.world(0), s)
    && IsInlined(p, s, tr.k, known(tr.k), content.inlined, tr.t, tr.u, tr.from)
    && Complete(p, s, tr.from, tr.z, content.inlined.nextFileId, content.listing)
    && (|content.listing| < p.limit ==> tr.z == tr.from)
  }

  lemma NextIdBelow(p: Provider, s: int, i: nat, j: nat)
    requires Provides(p, s) && i <= j
    ensures NextFileId(p.world(i)) <= p.world(j).nextFileId
  {
    WfAt(p, s, i);
    IdsGrow(p, s, i, j);
  }

  lemma InlinedGuarded(p: Provider, s: int, k: nat, known: Option<int>, r: Inlined, t: nat, u: nat, next: nat)
    requires Provides(p, s) && IsInlined(p, s, k, known, r, t, u, next)
    requires Skips(known, s) ==> VisibleRows(p.world(k), s) == []
    ensures k <= t <= u <= next && r.rows == VisibleRows(p.world(t), s) && r.visible == VisibleRows(p.world(u), s)
    ensures Guarded(p, s, t, r.nextFileId) && Guarded(p, s, u, r.nextFileId)
    ensures r.nextFileId.Some? ==> r.nextFileId.value <= p.world(next).nextFileId
  {
    if Skips(known, s) {
      VisibleRowsSum(p.world(k), s);
    } else {
      RowsGuarded(p, s, k, t, r.nextFileId);
      RowsGuarded(p, s, k + 2, u, r.nextFileId);
      NextIdBelow(p, s, k, next);
      NextIdBelow(p, s, k + 2, next);
    }
  }

  lemma OnePageRepeatsNothing(p: Provider, s: int, z: nat, guard: Option<int>, listing: seq<Listed>)
    requires Complete(p, s, z, z, guard, listing)
    ensures !Repeats(p, s, z, listing)
  {
    forall e | e in listing
      ensures HasId(p.world(z).files, e.file.id)
    {
      assert Came(p, s, e, z, z);
    }
  }

  /** What a fill over separate statements returns, with any commits between any two of
      them: a plain scan and a `rowid` scan of it show every row visible at the snapshot
      exactly once if and only if no listed file with a visible row was merged away
      before the last page. That cannot be where the reads hold a next file id, nor where
      the listing is shorter than a page. */
  lemma FillExactly(p: Provider, s: int, known: nat -> Option<int>, content: TableReads, tr: Trace)
    requires Provides(p, s) && IsFill(p, s, known, content, tr)
    requires Skips(known(tr.k), s) ==> VisibleRows(p.world(tr.k), s) == []
    ensures ReadsShow(content, content.inlined.rows, s) == Scan(p.world(0), s) <==>
            !Repeats(p, s, tr.z, content.listing)
    ensures ReadsShow(content, content.inlined.visible, s) == Scan(p.world(0), s) <==>
            !Repeats(p, s, tr.z, content.listing)
    ensures content.inlined.nextFileId.Some? || |content.listing| < p.limit ==> !Repeats(p, s, tr.z, content.listing)
  {
    var r := content.inlined;
    InlinedGuarded(p, s, tr.k, known(tr.k), r, tr.t, tr.u, tr.from);
    VisibleRowsSum(p.world(tr.t), s);
    VisibleRowsSum(p.world(tr.u), s);
    ReadsExactly(p, s, tr.t, tr.from, tr.z, r.nextFileId, content, r.rows);
    ReadsExactly(p, s, tr.u, tr.from, tr.z, r.nextFileId, content, r.visible);
    if r.nextFileId.Some? {
      GuardedRepeatsNothing(p, s, tr.from, tr.from, tr.z, r.nextFileId.value, content.listing);
      ExtraMeansRepeats(p, s, tr.z, content.listing);
    } else if |content.listing| < p.limit {
      OnePageRepeatsNothing(p, s, tr.z, r.nextFileId, content.listing);
    }
  }

  /** The table did not change while it was read. */
  ghost predicate StandsStill(p: Provider) {
    forall k: nat :: p.world(k) == p.world(0)
  }

  lemma StillRepeatsNothing(p: Provider, s: int, from: nat, z: nat, guard: Option<int>, listing: seq<Listed>)
    requires StandsStill(p) && Complete(p, s, from, z, guard, listing)
    ensures !Repeats(p, s, z, listing)
  {
    forall e | e in listing
      ensures HasId(p.world(z).files, e.file.id)
    {
      assert Came(p, s, e, from, z);
      var t: nat :| from <= t <= z && IsListed(p.world(t), s, e);
      assert p.world(t) == p.world(0) && p.world(z) == p.world(0);
    }
  }

  lemma SomethingMissing<R>(a: multiset<R>, i: multiset<R>)
    requires i != multiset{}
    ensures a != a + i
  {
    assert |a + i| == |a| + |i|;
  }

  /** A fill that leaves the inlined rows unread leaves out those visible. */
  lemma SkippedLoses(p: Provider, s: int, known: nat -> Option<int>, content: TableReads, tr: Trace)
    requires Provides(p, s) && StandsStill(p) && IsFill(p, s, known, content, tr)
    requires Skips(known(tr.k), s) && VisibleRows(p.world(0), s) != []
    ensures ReadsShow(content, content.inlined.rows, s) != Scan(p.world(0), s)
  {
    var z := tr.z;
    assert p.world(z) == p.world(0);
    ListingShows(p, s, tr.from, z, content.inlined.nextFileId, content.listing);
    StillRepeatsNothing(p, s, tr.from, z, content.inlined.nextFileId, content.listing);
    ExtraMeansRepeats(p, s, z, content.listing);
    ScanIsShown(p.world(0), s);
    VisibleRowsSum(p.world(0), s);
    SomethingMissing(Sum(p.world(0).files, ShownBy(p.world(0), s)), Sum(p.world(0).inlined, InlinedBy(s)));
  }

  /** A fill of a table that stands still shows it exactly, in both kinds of scan, if and
      only if it did not leave visible inlined rows unread for an absence answer. */
  lemma StillFillExactly(p: Provider, s: int, known: nat -> Option<int>, content: TableReads, tr: Trace)
    requires Provides(p, s) && StandsStill(p) && IsFill(p, s, known, content, tr)
    ensures ReadsShow(content, content.inlined.rows, s) == Scan(p.world(0), s)
            && ReadsShow(content, content.inlined.visible, s) == Scan(p.world(0), s)
       <==> (Skips(known(tr.k), s) ==> VisibleRows(p.world(0), s) == [])
  {
    assert p.world(tr.k) == p.world(0);
    if Skips(known(tr.k), s) && VisibleRows(p.world(0), s) != [] {
      SkippedLoses(p, s, known, content, tr);
    } else {
      FillExactly(p, s, known, content, tr);
      StillRepeatsNothing(p, s, tr.from, tr.z, content.inlined.nextFileId, content.listing);
    }
  }

  // ----- The fill -----

  /** The registry with the head and the next file id, then the rows, then whether a row
      begins at or below the snapshot. */
  method ScanNotingAbsence(p: Provider, s: int, k: nat) returns (rows: seq<Row>, absentThrough: Option<int>,
          nextId: int)
    ensures rows == VisibleRows(p.world(k + 1), s) && nextId == NextFileId(p.world(k))
    ensures absentThrough == AbsenceAnswer(p, s, k)
    ensures var through := if s < p.world(k).head then s else p.world(k).head;
            && (absentThrough.Some? <==> rows == [] && forall r | r in p.world(k + 2).inlined :: through < r.begin)
            && (absentThrough.Some? ==> absentThrough.value == through)
    ensures absentThrough.Some? ==>
            AbsentThrough(p.world(k + 2), absentThrough.value) && absentThrough.value <= p.world(k).head
  {
    var head := p.world(k).head;
    nextId := NextFileId(p.world(k));
    rows := VisibleRows(p.world(k + 1), s);
    var through := if s < head then s else head;
    absentThrough := if rows == [] && AbsentThrough(p.world(k + 2), through) then Some(through) else None;
  }

  /** The rows with their row ids, unless the first read showed that there are none. */
  method FillVisible(p: Provider, s: int, k: nat, absentThrough: Option<int>, costs: Costs, bytes: nat)
    returns (next: nat, visible: seq<Row>, nextId: Option<int>, total: nat)
    requires absentThrough.Some? ==> AbsentThrough(p.world(k), absentThrough.value)
    ensures k <= next <= k + 1 && visible == VisibleRows(p.world(next), s)
    ensures nextId == GuardOf(visible, NextFileId(p.world(k)))
    ensures bytes <= total <= bytes + costs.visible(visible)
  {
    if absentThrough.Some? && s <= absentThrough.value {
      VisibleRowsSum(p.world(k), s);
      return k, [], None, bytes;
    }
    next, visible := k + 1, VisibleRows(p.world(k + 1), s);
    nextId := GuardOf(visible, NextFileId(p.world(k)));
    total := bytes + costs.visible(visible);
  }

  /** The inlined rows of a fill, unless they exceed the budget. */
  method FillInlined(p: Provider, s: int, k: nat, known: Option<int>, costs: Costs, bytes: nat, max: nat)
    returns (next: nat, r: Option<Inlined>, total: nat, ghost t: nat, ghost u: nat)
    requires bytes <= max
    ensures k <= t <= u <= next
    ensures total <= bytes + costs.rows(VisibleRows(p.world(t), s)) + costs.visible(VisibleRows(p.world(u), s))
    ensures r.Some? <==> total <= max
    ensures r.Some? ==> IsInlined(p, s, k, known, r.value, t, u, next)
  {
    if known.Some? && s <= known.value {
      return k, Some(Inlined([], known, [], None)), bytes, k, k;
    }
    var rows, absentThrough, nextId := ScanNotingAbsence(p, s, k);
    total := bytes + costs.rows(rows);
    if total > max {
      return k + 2, None, total, k + 1, k + 2;
    }
    var first := GuardOf(rows, nextId);
    var visible, second;
    next, visible, second, total := FillVisible(p, s, k + 2, absentThrough, costs, total);
    t, u := k + 1, next;
    if total > max {
      return next, None, total, t, u;
    }
    r := Some(Inlined(rows, absentThrough, visible, MinOption(first, second)));
  }

  function PageBytes(costs: Costs, page: seq<Listed>): nat {
    if page == [] then 0 else costs.file(page[0]) + PageBytes(costs, page[1..])
  }

  predicate Since(page: seq<Listed>, guard: Option<int>) {
    guard.Some? && exists e | e in page :: e.file.id >= guard.value
  }

  /** A file the guard does not allow was live at the snapshot at some time. */
  ghost predicate SawNewer(p: Provider, s: int, from: nat, guard: Option<int>) {
    guard.Some? && exists i: nat, f :: from <= i && f in p.world(i).files && guard.value <= f.id
  }

  /** The listing so far, up to file `after`, the last page read at time `k`: every file
      live at time `k` up to there is in it. */
  ghost predicate SoFar(p: Provider, s: int, from: nat, k: nat, guard: Option<int>, listing: seq<Listed>,
          after: Option<int>) {
    && Ascending(listing)
    && (forall e | e in listing :: Came(p, s, e, from, k) && (guard.Some? ==> e.file.id < guard.value))
    && (forall e | e in listing :: after.Some? && e.file.id <= after.value)
    && (after.Some? ==> after.value < p.world(k).nextFileId)
    && (after.Some? ==> forall f | f in p.world(k).files && LiveAt(f.begin, f.end, s)
       && f.id <= after.value :: Lists(listing, f.id))
  }

  lemma AppendAscends(listing: seq<Listed>, page: seq<Listed>, after: Option<int>)
    requires Ascending(listing) && Ascending(page)
    requires forall e | e in listing :: after.Some? && e.file.id <= after.value
    requires forall e | e in page :: Past(after, e.file.id)
    ensures Ascending(listing + page)
  {
    forall i, j | 0 <= i < |listing| && 0 <= j < |page|
      ensures listing[i].file.id < page[j].file.id
    {
      assert listing[i] in listing && page[j] in page;
    }
  }

  /** What comes later has later ids, so the listing so far stays what it is. */
  lemma StaysSoFar(p: Provider, s: int, from: nat, k: nat, guard: Option<int>, listing: seq<Listed>, after: Option<int>)
    requires Provides(p, s) && SoFar(p, s, from, k, guard, listing, after)
    ensures SoFar(p, s, from, k + 1, guard, listing, after)
  {
    ShiftsBetween(p, s, k, k + 1);
    forall e | e in listing
      ensures Came(p, s, e, from, k + 1)
    {
      assert Came(p, s, e, from, k);
    }
    if after.Some? {
      forall f' | f' in p.world(k + 1).files && LiveAt(f'.begin, f'.end, s) && f'.id <= after.value
        ensures Lists(listing, f'.id)
      {
        assert WasThere(p.world(k), f', s);
        var f :| f in p.world(k).files && f.id == f'.id && Same(f, f', s);
      }
    }
  }

  lemma PageCame(p: Provider, s: int, from: nat, k: nat, after: Option<int>, e: Listed)
    requires Provides(p, s) && from <= k && e in p.page(k, after)
    ensures Came(p, s, e, from, k) && Past(after, e.file.id) && e.file.id < p.world(k).nextFileId
    ensures e.file.id <= p.page(k, after)[|p.page(k, after)| - 1].file.id
  {
    var page := p.page(k, after);
    assert IsPage(p.world(k), s, after, p.limit, page);
    assert IsListed(p.world(k), s, e);
    assert e.file.id < p.world(k).nextFileId by {
      WfAt(p, s, k);
    }
    var i :| 0 <= i < |page| && page[i] == e;
  }

  lemma AddPage(p: Provider, s: int, from: nat, k: nat, guard: Option<int>, listing: seq<Listed>, after: Option<int>,
          page: seq<Listed>, more: seq<Listed>)
    requires Provides(p, s) && from <= k && SoFar(p, s, from, k, guard, listing, after)
    requires page == p.page(k, after) && page != [] && !Since(page, guard) && more == listing + page
    ensures SoFar(p, s, from, k, guard, more, Some(page[|page| - 1].file.id))
  {
    var last := page[|page| - 1].file.id;
    assert IsPage(p.world(k), s, after, p.limit, page);
    AppendAscends(listing, page, after);
    assert page[|page| - 1] in page && Past(after, last);
    PageCame(p, s, from, k, after, page[|page| - 1]);
    forall e | e in page
      ensures e.file.id <= last && Came(p, s, e, from, k)
    {
      PageCame(p, s, from, k, after, e);
    }
    forall f | f in p.world(k).files && LiveAt(f.begin, f.end, s) && f.id <= last
      ensures Lists(more, f.id)
    {
      ListedSoFar(listing, page, after, f.id);
    }
  }

  lemma ListedSoFar(listing: seq<Listed>, page: seq<Listed>, after: Option<int>, id: int)
    requires Past(after, id) ==> Lists(page, id)
    requires !Past(after, id) ==> Lists(listing, id)
    ensures Lists(listing + page, id)
  {
    if Past(after, id) {
      var e :| e in page && e.file.id == id;
      assert e in listing + page;
    } else {
      var e :| e in listing && e.file.id == id;
      assert e in listing + page;
    }
  }

  lemma LastPage(p: Provider, s: int, from: nat, k: nat, guard: Option<int>, listing: seq<Listed>, after: Option<int>)
    requires Provides(p, s) && from <= k && SoFar(p, s, from, k, guard, listing, after)
    requires var page := p.page(k, after); |page| < p.limit && !Since(page, guard)
    ensures Complete(p, s, from, k, guard, listing + p.page(k, after))
  {
    var page := p.page(k, after);
    assert IsPage(p.world(k), s, after, p.limit, page);
    if page == [] {
      assert listing + page == listing;
    } else {
      AddPage(p, s, from, k, guard, listing, after, page, listing + page);
    }
    forall f | f in p.world(k).files && LiveAt(f.begin, f.end, s)
      ensures Lists(listing + page, f.id)
    {
      ListedSoFar(listing, page, after, f.id);
    }
  }

  lemma {:induction false} PageCosts(costs: Costs, page: seq<Listed>)
    requires page != [] && forall e | e in page :: costs.file(e) > 0
    ensures PageBytes(costs, page) > 0
  {
    assert page[0] in page;
  }

  lemma {:induction false} PageBytesConcat(costs: Costs, xs: seq<Listed>, ys: seq<Listed>)
    ensures PageBytes(costs, xs + ys) == PageBytes(costs, xs) + PageBytes(costs, ys)
  {
    if xs == [] {
      assert xs + ys == ys;
    } else {
      assert (xs + ys)[1..] == xs[1..] + ys;
      PageBytesConcat(costs, xs[1..], ys);
    }
  }

  /** Files of the snapshot, none twice, each listed at some time. */
  ghost predicate Parts(p: Provider, s: int, from: nat, z: nat, listing: seq<Listed>) {
    Ascending(listing) && forall e | e in listing :: Came(p, s, e, from, z)
  }

  lemma PageIsNewer(p: Provider, s: int, from: nat, k: nat, guard: Option<int>, after: Option<int>)
    requires Provides(p, s) && from <= k && Since(p.page(k, after), guard)
    ensures SawNewer(p, s, from, guard)
  {
    var page := p.page(k, after);
    var e :| e in page && e.file.id >= guard.value;
    assert IsPage(p.world(k), s, after, p.limit, page);
    assert e.file in p.world(k).files;
  }

  /** A page the guard allows extends the listing, and completes it when it is short. */
  lemma NextPage(p: Provider, s: int, from: nat, k: nat, guard: Option<int>, listing: seq<Listed>, after: Option<int>,
          costs: Costs)
    requires Provides(p, s) && from <= k && SoFar(p, s, from, k, guard, listing, after)
    requires (forall e :: costs.file(e) > 0) && !Since(p.page(k, after), guard)
    ensures var page := p.page(k, after);
            && PageBytes(costs, listing + page) == PageBytes(costs, listing) + PageBytes(costs, page)
            && Parts(p, s, from, k, listing + page)
            && (page != [] ==>
               PageBytes(costs, page) > 0
               && SoFar(p, s, from, k, guard, listing + page, Some(page[|page| - 1].file.id)))
            && (|page| < p.limit ==> Complete(p, s, from, k, guard, listing + page))
  {
    var page := p.page(k, after);
    PageBytesConcat(costs, listing, page);
    if page != [] {
      PageCosts(costs, page);
      AddPage(p, s, from, k, guard, listing, after, page, listing + page);
    } else {
      assert listing + page == listing;
    }
    if |page| < p.limit {
      LastPage(p, s, from, k, guard, listing, after);
    }
  }

  /** The pages from statement `k` on, until a short one. */
  function ListFrom(p: Provider, k: nat, after: Option<int>, guard: Option<int>, costs: Costs, bytes: nat,
          max: nat): Listing
    requires 0 < p.limit && bytes <= max && forall e :: costs.file(e) > 0
    decreases max - bytes
  {
    var page := p.page(k, after);
    var total := bytes + PageBytes(costs, page);
    if Since(page, guard) then WrittenSince
    else if total > max then OverBudget
    else if |page| < p.limit then Files(page)
    else
      PageCosts(costs, page);
      Prepend(page, ListFrom(p, k + 1, Some(page[|page| - 1].file.id), guard, costs, total, max))
  }

  function Prepend(page: seq<Listed>, rest: Listing): Listing {
    if rest.Files? then Files(page + rest.files) else rest
  }

  lemma PrependMore(listing: seq<Listed>, page: seq<Listed>, rest: Listing)
    ensures Prepend(listing, Prepend(page, rest)) == Prepend(listing + page, rest)
  {
    if rest.Files? {
      assert listing + (page + rest.files) == listing + page + rest.files;
    }
  }

  lemma ListStep(p: Provider, k: nat, after: Option<int>, guard: Option<int>, costs: Costs, bytes: nat, max: nat,
          listing: seq<Listed>)
    requires 0 < p.limit && bytes <= max && forall e :: costs.file(e) > 0
    ensures var page, rest := p.page(k, after), ListFrom(p, k, after, guard, costs, bytes, max);
            var total := bytes + PageBytes(costs, page);
            && (Since(page, guard) ==> Prepend(listing, rest) == WrittenSince)
            && (!Since(page, guard) && total > max ==> Prepend(listing, rest) == OverBudget)
            && (!Since(page, guard) && total <= max && |page| < p.limit ==>
               Prepend(listing, rest) == Files(listing + page))
            && (!Since(page, guard) && total <= max && |page| >= p.limit ==>
                  Prepend(listing, rest) == Prepend(listing + page,
                    ListFrom(p, k + 1, Some(page[|page| - 1].file.id), guard, costs, total, max)))
  {
    var page := p.page(k, after);
    var total := bytes + PageBytes(costs, page);
    if !Since(page, guard) && total <= max && |page| >= p.limit {
      PageCosts(costs, page);
      PrependMore(listing, page, ListFrom(p, k + 1, Some(page[|page| - 1].file.id), guard, costs, total, max));
    }
  }

  /** What is to hold of a complete listing, when a newer file stops it, and of files past
      the budget, `z` being the time of the last page. */
  datatype Promise = Promise(complete: seq<Listed> -> bool, newer: bool, parts: seq<Listed> -> bool)

  ghost function PromiseOf(p: Provider, s: int, from: nat, z: nat, guard: Option<int>): Promise {
    Promise((l: seq<Listed>) => Complete(p, s, from, z, guard, l), SawNewer(p, s, from, guard),
      (l: seq<Listed>) => Parts(p, s, from, z, l))
  }

  ghost predicate Outcome(o: Promise, listing: seq<Listed>, r: Listing, seen: seq<Listed>, costs: Costs, bytes: nat,
          max: nat) {
    match r
    case Files(files) => o.complete(listing + files)
    case WrittenSince => o.newer
    case OverBudget => o.parts(listing + seen) && bytes + PageBytes(costs, seen) > max
  }

  lemma OutcomePrepend(o: Promise, listing: seq<Listed>, page: seq<Listed>, rest: Listing, seen: seq<Listed>,
          costs: Costs, bytes: nat, max: nat)
    requires Outcome(o, listing + page, rest, seen, costs, bytes + PageBytes(costs, page), max)
    ensures Outcome(o, listing, Prepend(page, rest), page + seen, costs, bytes, max)
  {
    PageBytesConcat(costs, page, seen);
    assert listing + (page + seen) == listing + page + seen;
    assert rest.Files? ==> listing + (page + rest.files) == listing + page + rest.files;
  }

  /** What the listing makes of its last page, or of one that stops it. */
  function EndOf(page: seq<Listed>, guard: Option<int>, total: nat, max: nat): Listing {
    if Since(page, guard) then WrittenSince else if total > max then OverBudget else Files(page)
  }

  lemma ListEnds(p: Provider, k: nat, after: Option<int>, guard: Option<int>, costs: Costs, bytes: nat, max: nat)
    requires 0 < p.limit && bytes <= max && forall e :: costs.file(e) > 0
    requires var page := p.page(k, after);
             Since(page, guard) || bytes + PageBytes(costs, page) > max || |page| < p.limit
    ensures ListFrom(p, k, after, guard, costs, bytes, max) == EndOf(p.page(k, after), guard,
            bytes + PageBytes(costs, p.page(k, after)), max)
  {
  }

  lemma PageEnds(p: Provider, s: int, from: nat, k: nat, guard: Option<int>, listing: seq<Listed>, after: Option<int>,
          costs: Costs, bytes: nat, max: nat)
    requires Provides(p, s) && from <= k && SoFar(p, s, from, k, guard, listing, after) && forall e :: costs.file(e) > 0
    requires var page := p.page(k, after);
             Since(page, guard) || bytes + PageBytes(costs, page) > max || |page| < p.limit
    ensures var page := p.page(k, after);
            Outcome(PromiseOf(p, s, from, k, guard), listing, EndOf(page, guard, bytes + PageBytes(costs, page), max),
              page, costs, bytes, max)
  {
    var page := p.page(k, after);
    var o := PromiseOf(p, s, from, k, guard);
    if Since(page, guard) {
      PageIsNewer(p, s, from, k, guard, after);
      assert o.newer;
    } else {
      assert o.parts(listing + page) && (|page| < p.limit ==> o.complete(listing + page)) by {
        NextPage(p, s, from, k, guard, listing, after, costs);
      }
    }
  }

  lemma PageGoesOn(p: Provider, s: int, from: nat, k: nat, guard: Option<int>, listing: seq<Listed>,
          after: Option<int>, page: seq<Listed>, more: seq<Listed>)
    requires Provides(p, s) && from <= k && SoFar(p, s, from, k, guard, listing, after)
    requires page == p.page(k, after) && page != [] && !Since(page, guard) && more == listing + page
    ensures SoFar(p, s, from, k + 1, guard, more, Some(page[|page| - 1].file.id))
  {
    var last := Some(page[|page| - 1].file.id);
    assert SoFar(p, s, from, k, guard, more, last) by {
      AddPage(p, s, from, k, guard, listing, after, page, more);
    }
    StaysSoFar(p, s, from, k, guard, more, last);
  }

  type Standing = (nat, seq<Listed>, Option<int>) -> bool

  /** Reading one page from where the listing stands ends it as promised, or leaves it
      standing further on. */
  ghost predicate Steps(p: Provider, so: Standing, o: nat -> Promise, guard: Option<int>, costs: Costs, max: nat,
                        k: nat, listing: seq<Listed>, after: Option<int>, bytes: nat) {
    var page := p.page(k, after);
    var total := bytes + PageBytes(costs, page);
    if Since(page, guard) || total > max
      || |page| < p.limit then Outcome(o(k), listing, EndOf(page, guard, total, max), page, costs, bytes, max)
    else page != [] && so(k + 1, listing + page, Some(page[|page| - 1].file.id))
  }

  lemma MorePages(p: Provider, o: Promise, k: nat, guard: Option<int>, listing: seq<Listed>, after: Option<int>,
                  costs: Costs, bytes: nat, max: nat, seen: seq<Listed>)
    requires 0 < p.limit && bytes <= max && forall e :: costs.file(e) > 0
    requires var page := p.page(k, after);
             var total := bytes + PageBytes(costs, page);
             && !Since(page, guard) && total <= max && |page| >= p.limit
             && Outcome(o, listing + page, ListFrom(p, k + 1, Some(page[|page| - 1].file.id), guard, costs, total,
                max), seen, costs, total, max)
    ensures var r := ListFrom(p, k, after, guard, costs, bytes, max);
            && Outcome(o, listing, r, p.page(k, after) + seen, costs, bytes, max)
            && (r.Files? ==> |r.files| >= p.limit)
  {
    var page := p.page(k, after);
    var rest := ListFrom(p, k + 1, Some(page[|page| - 1].file.id), guard, costs, bytes + PageBytes(costs, page), max);
    OutcomePrepend(o, listing, page, rest, seen, costs, bytes, max);
  }

  /** By induction over the pages: the listing ends as promised. */
  lemma {:induction false} ListFromShows(p: Provider, so: Standing, o: nat -> Promise, k: nat, guard: Option<int>,
          listing: seq<Listed>, after: Option<int>,
                                         costs: Costs, bytes: nat, max: nat) returns (z: nat, seen: seq<Listed>)
    requires 0 < p.limit && bytes <= max && so(k, listing, after) && forall e :: costs.file(e) > 0
    requires forall k', l, a, b: nat | so(k', l, a) && b <= max :: Steps(p, so, o, guard, costs, max, k', l, a, b)
    ensures k <= z
    ensures var r := ListFrom(p, k, after, guard, costs, bytes, max);
            && Outcome(o(z), listing, r, seen, costs, bytes, max)
            && (r.Files? && |r.files| < p.limit ==> z == k)
    decreases max - bytes
  {
    var page := p.page(k, after);
    var total := bytes + PageBytes(costs, page);
    z, seen := k, page;
    assert Steps(p, so, o, guard, costs, max, k, listing, after, bytes);
    if Since(page, guard) || total > max || |page| < p.limit {
      ListEnds(p, k, after, guard, costs, bytes, max);
    } else {
      PageCosts(costs, page);
      z, seen := ListFromShows(p, so, o, k + 1, guard, listing + page, Some(page[|page| - 1].file.id), costs, total,
        max);
      MorePages(p, o(z), k, guard, listing, after, costs, bytes, max, seen);
      seen := page + seen;
    }
  }

  ghost function SoFarBy(p: Provider, s: int, from: nat, guard: Option<int>): Standing {
    (k: nat, l: seq<Listed>, a: Option<int>) => from <= k && SoFar(p, s, from, k, guard, l, a)
  }

  ghost function PromisedBy(p: Provider, s: int, from: nat, guard: Option<int>): nat -> Promise {
    (z: nat) => PromiseOf(p, s, from, z, guard)
  }

  lemma SoFarSteps(p: Provider, s: int, from: nat, guard: Option<int>, costs: Costs, max: nat, k: nat,
          listing: seq<Listed>, after: Option<int>, bytes: nat)
    requires Provides(p, s) && (forall e :: costs.file(e) > 0) && SoFarBy(p, s, from, guard)(k, listing, after)
    ensures Steps(p, SoFarBy(p, s, from, guard), PromisedBy(p, s, from, guard), guard, costs, max, k, listing, after,
            bytes)
  {
    var page := p.page(k, after);
    if Since(page, guard) || bytes + PageBytes(costs, page) > max || |page| < p.limit {
      PageEnds(p, s, from, k, guard, listing, after, costs, bytes, max);
    } else {
      PageGoesOn(p, s, from, k, guard, listing, after, page, listing + page);
    }
  }

  lemma StepsAll(p: Provider, s: int, k: nat, guard: Option<int>, costs: Costs, max: nat)
    requires Provides(p, s) && forall e :: costs.file(e) > 0
    ensures SoFarBy(p, s, k, guard)(k, [], None)
    ensures forall k', l, a, b: nat | SoFarBy(p, s, k, guard)(k', l, a) && b <= max ::
              Steps(p, SoFarBy(p, s, k, guard), PromisedBy(p, s, k, guard), guard, costs, max, k', l, a, b)
  {
    forall k', l, a, b: nat | SoFarBy(p, s, k, guard)(k', l, a) && b <= max
      ensures Steps(p, SoFarBy(p, s, k, guard), PromisedBy(p, s, k, guard), guard, costs, max, k', l, a, b)
    {
      SoFarSteps(p, s, k, guard, costs, max, k', l, a, b);
    }
  }

  lemma OutcomeMeans(p: Provider, s: int, from: nat, z: nat, guard: Option<int>, r: Listing, seen: seq<Listed>,
          costs: Costs, bytes: nat, max: nat)
    requires Outcome(PromiseOf(p, s, from, z, guard), [], r, seen, costs, bytes, max)
    ensures r.Files? ==> Complete(p, s, from, z, guard, r.files)
    ensures r.WrittenSince? ==> SawNewer(p, s, from, guard)
    ensures r.OverBudget? ==> Parts(p, s, from, z, seen) && bytes + PageBytes(costs, seen) > max
  {
    assert [] + seen == seen && (r.Files? ==> [] + r.files == r.files);
  }

  /** What `ListFrom` gives, `z` being the time of its last page: a complete listing
      without a file the guard does not allow, a newer file that exists, or files past
      the budget. */
  lemma ListingFrom(p: Provider, s: int, k: nat, guard: Option<int>, costs: Costs, bytes: nat,
          max: nat) returns (z: nat, seen: seq<Listed>)
    requires Provides(p, s) && bytes <= max && forall e :: costs.file(e) > 0
    ensures k <= z
    ensures var r := ListFrom(p, k, None, guard, costs, bytes, max);
            && (r.Files? ==> Complete(p, s, k, z, guard, r.files) && (|r.files| < p.limit ==> z == k))
            && (r.WrittenSince? ==> SawNewer(p, s, k, guard))
            && (r.OverBudget? ==> Parts(p, s, k, z, seen) && bytes + PageBytes(costs, seen) > max)
  {
    StepsAll(p, s, k, guard, costs, max);
    z, seen := ListFromShows(p, SoFarBy(p, s, k, guard), PromisedBy(p, s, k, guard), k, guard, [], None, costs, bytes,
      max);
    OutcomeMeans(p, s, k, z, guard, ListFrom(p, k, None, guard, costs, bytes, max), seen, costs, bytes, max);
  }

  lemma PrependNothing(rest: Listing)
    ensures Prepend([], rest) == rest
  {
    assert rest.Files? ==> [] + rest.files == rest.files;
  }

  /** The whole listing, page by page until a short page. */
  method FillListing(p: Provider, k: nat, guard: Option<int>, costs: Costs, bytes: nat, max: nat) returns (next: nat,
          r: Listing, total: nat)
    requires 0 < p.limit && bytes <= max && forall e :: costs.file(e) > 0
    ensures k < next && r == ListFrom(p, k, None, guard, costs, bytes, max)
    ensures r.Files? ==> total <= max
  {
    var listing, after: Option<int> := [], None;
    next, total := k, bytes;
    ghost var whole := ListFrom(p, k, None, guard, costs, bytes, max);
    PrependNothing(whole);
    while true
      invariant k <= next && total <= max
      invariant Prepend(listing, ListFrom(p, next, after, guard, costs, total, max)) == whole
      decreases max - total
    {
      var page := p.page(next, after);
      ListStep(p, next, after, guard, costs, total, max, listing);
      if Since(page, guard) {
        return next + 1, WrittenSince, total;
      }
      listing := listing + page;
      if total + PageBytes(costs, page) > max {
        return next + 1, OverBudget, total;
      }
      total := total + PageBytes(costs, page);
      if |page| < p.limit {
        return next + 1, Files(listing), total;
      }
      PageCosts(costs, page);
      after, next := Some(page[|page| - 1].file.id), next + 1;
    }
  }

  ghost predicate HasMoved(p: Provider) {
    exists i: nat :: p.world(i) != p.world(0)
  }

  ghost predicate SawRows(p: Provider, s: int) {
    exists i: nat :: VisibleRows(p.world(i), s) != []
  }

  /** A retry needs a commit, and inlined rows: nothing newer is seen of a catalog that
      stands still, nor looked for without rows to guard. */
  lemma NewerMeansMoved(p: Provider, s: int, k: nat, known: Option<int>, r: Inlined, t: nat, u: nat, from: nat)
    requires IsInlined(p, s, k, known, r, t, u, from) && SawNewer(p, s, from, r.nextFileId)
    ensures HasMoved(p) && SawRows(p, s)
  {
    var i: nat, f :| from <= i && f in p.world(i).files && r.nextFileId.value <= f.id;
    var j := if r.rows != [] && r.nextFileId == Some(NextFileId(p.world(k))) then k else k + 2;
    assert r.nextFileId.value == NextFileId(p.world(j));
    assert p.world(i) != p.world(j);
    if p.world(i) == p.world(0) {
      assert p.world(j) != p.world(0);
    }
    assert VisibleRows(p.world(t), s) != [] || VisibleRows(p.world(u), s) != [];
  }

  /** What the reads take that hold the rows of times `i` and `j` and these files. */
  function ReadsBytes(p: Provider, s: int, costs: Costs, i: nat, j: nat, listing: seq<Listed>): nat {
    |DeletesAt(p.world(0), s)| * costs.deletion + costs.rows(VisibleRows(p.world(i), s))
      + costs.visible(VisibleRows(p.world(j), s)) + PageBytes(costs, listing)
  }

  /** Reads of the snapshot exceed the budget. */
  ghost predicate Exceeds(p: Provider, s: int, costs: Costs, max: nat) {
    exists i: nat, j: nat, z: nat, listing :: Parts(p, s, 0, z, listing) && ReadsBytes(p, s, costs, i, j, listing) > max
  }

  lemma ExceedsAt(p: Provider, s: int, costs: Costs, max: nat, i: nat, j: nat, from: nat, z: nat, listing: seq<Listed>)
    requires Parts(p, s, from, z, listing) && ReadsBytes(p, s, costs, i, j, listing) > max
    ensures Exceeds(p, s, costs, max)
  {
    forall e | e in listing
      ensures Came(p, s, e, 0, z)
    {
      assert Came(p, s, e, from, z);
    }
    assert Parts(p, s, 0, z, listing);
  }

  /** A try whose inlined rows were read from statement `k` on saw a file their guard does
      not allow. */
  ghost predicate Overtaken(p: Provider, s: int, known: nat -> Option<int>, k: nat) {
    exists r, t, u, from :: IsInlined(p, s, k, known(k), r, t, u, from) && SawNewer(p, s, from, r.nextFileId)
  }

  /** Tries that were all overtaken, each begun after the one before it and before `k`. */
  ghost predicate Overtook(p: Provider, s: int, known: nat -> Option<int>, tries: seq<nat>, k: nat) {
    && (forall i | 0 <= i < |tries| :: Overtaken(p, s, known, tries[i]) && tries[i] < k)
    && forall i, j | 0 <= i < j < |tries| :: tries[i] < tries[j]
  }

  lemma OvertookAgain(p: Provider, s: int, known: nat -> Option<int>, tries: seq<nat>, k: nat, next: nat, r: Inlined,
                      t: nat, u: nat, from: nat)
    requires Overtook(p, s, known, tries, k) && k < next
    requires IsInlined(p, s, k, known(k), r, t, u, from) && SawNewer(p, s, from, r.nextFileId)
    ensures Overtook(p, s, known, tries + [k], next) && HasMoved(p) && SawRows(p, s)
  {
    NewerMeansMoved(p, s, k, known(k), r, t, u, from);
    assert Overtaken(p, s, known, k);
  }

  /** One try of a fill: the inlined rows, then the whole listing of files against their
      guard, from statement `k` on. */
  method FillOnce(p: Provider, s: int, k: nat, known: Option<int>, costs: Costs, bytes: nat, max: nat)
    returns (next: nat, inlined: Inlined, r: Listing, ghost t: nat, ghost u: nat, ghost rows: nat, ghost z: nat)
    requires Provides(p, s) && forall e :: costs.file(e) > 0
    requires bytes == |DeletesAt(p.world(0), s)| * costs.deletion <= max
    ensures r.OverBudget? ==> Exceeds(p, s, costs, max)
    ensures !r.OverBudget? ==> k < next && IsInlined(p, s, k, known, inlined, t, u, rows)
    ensures r.WrittenSince? ==> SawNewer(p, s, rows, inlined.nextFileId)
    ensures r.Files? ==> Complete(p, s, rows, z, inlined.nextFileId, r.files) && (|r.files| < p.limit ==> z == rows)
  {
    next, inlined, r := k, Inlined([], None, [], None), OverBudget;
    t, u, rows, z := k, k, k, k;
    var at, read, total;
    at, read, total, t, u := FillInlined(p, s, k, known, costs, bytes, max);
    if read.None? {
      ExceedsAt(p, s, costs, max, t, u, 0, 0, []);
      return;
    }
    inlined, rows := read.value, at;
    var whole;
    next, r, whole := FillListing(p, at, inlined.nextFileId, costs, total, max);
    ghost var seen;
    z, seen := ListingFrom(p, s, at, inlined.nextFileId, costs, total, max);
    if r.OverBudget? {
      ExceedsAt(p, s, costs, max, t, u, at, z, seen);
    }
  }

  /** A fill over separate statements, any commits landing between any two of them. It
      returns what it read, or gives up: for commits only if there are any and inlined
      rows to guard, after as many tries as it has, each of which saw a newer file; for the
      budget only if reads of the snapshot exceed it. */
  method FillFrom(p: Provider, s: int, known: nat -> Option<int>, costs: Costs, max: nat)
    returns (r: Filled, ghost tr: Trace, ghost tries: seq<nat>)
    requires Provides(p, s) && forall e :: costs.file(e) > 0
    ensures r.Filled? ==> IsFill(p, s, known, r.content, tr)
    ensures r.KeptMoving? ==> HasMoved(p) && SawRows(p, s)
    ensures r.KeptMoving? ==> |tries| == SCAN_READ_ATTEMPTS && exists k :: Overtook(p, s, known, tries, k)
    ensures r.TooLarge? ==> Exceeds(p, s, costs, max)
  {
    var deletes := DeletesAt(p.world(0), s);
    var k: nat := 1;
    tr, tries := Trace(0, 0, 0, 0, 0), [];
    var bytes := |deletes| * costs.deletion;
    if bytes > max {
      ExceedsAt(p, s, costs, max, 0, 0, 0, 0, []);
      return TooLarge, tr, tries;
    }
    for attempt := 0 to SCAN_READ_ATTEMPTS
      invariant attempt > 0 ==> HasMoved(p) && SawRows(p, s)
      invariant |tries| == attempt && Overtook(p, s, known, tries, k)
    {
      var next, inlined, listing, t, u, rows, z := FillOnce(p, s, k, known(k), costs, bytes, max);
      match listing {
        case Files(files) =>
          return Filled(TableReads(deletes, files, inlined)), Trace(k, t, u, rows, z), tries;
        case WrittenSince =>
          OvertookAgain(p, s, known, tries, k, next, inlined, t, u, rows);
          tries, k := tries + [k], next;
        case OverBudget =>
          return TooLarge, tr, tries;
      }
    }
    return KeptMoving, tr, tries;
  }

  // ----- Absence answers -----

  lemma FlushKeepsAbsence(c: Catalog, c': Catalog, through: int)
    requires FlushesRows(c, c') && AbsentThrough(c, through)
    ensures AbsentThrough(c', through)
  {
    var slices, base :|
      && (forall slice | slice in slices :: slice != [])
      && multiset(Flatten(slices)) == multiset(Filter(c.inlined, Rows.UpTo(base)))
      && c' == Rows.FlushRowsCommit(c, slices, base);
    FilterMembers(c.inlined, Not(Rows.UpTo(base)));
  }

  lemma EndingKeepsAbsence(c: Catalog, ix: set<int>, through: int)
    requires AbsentThrough(c, through)
    ensures AbsentThrough(EndSome(c, ix), through)
  {
    var c' := EndSome(c, ix);
    forall r | r in c'.inlined
      ensures through < r.begin
    {
      var i :| 0 <= i < |c.inlined| && c'.inlined[i] == r;
      assert c.inlined[i] in c.inlined;
    }
  }

  lemma MaintenanceKeepsAbsence(c: Catalog, c': Catalog, through: int)
    requires Maintains(c, c') && AbsentThrough(c, through)
    ensures AbsentThrough(c', through)
  {
    if FlushesRows(c, c') {
      FlushKeepsAbsence(c, c', through);
    }
  }

  /** No step of the history, merges included, begins an inlined row at or below a
      committed snapshot. */
  lemma AbsenceStays(c: Catalog, c': Catalog, through: int)
    requires Wf(c) && Next(c, c') && AbsentThrough(c, through) && through < c.head
    ensures AbsentThrough(c', through)
  {
    if Maintains(c, c') {
      MaintenanceKeepsAbsence(c, c', through);
    } else if DeletesRows(c, c') {
      var ds :| Statement(c, ds) && CommitsAll(c, ds, c');
      StatementDeletes(c, ds, c', through);
    } else if EndsRows(c, c') {
      var ix :| c' == EndSome(c, ix);
      EndingKeepsAbsence(c, ix, through);
    }
  }

  /** An absence answer, once true, holds at every later point of every run. */
  lemma {:induction false} AbsenceHolds(run: seq<Catalog>, i: nat, j: nat, through: int)
    requires Run(run) && i <= j < |run| && Wf(run[i]) && AbsentThrough(run[i], through) && through < run[i].head
    ensures Wf(run[j]) && AbsentThrough(run[j], through) && through < run[j].head
    decreases j - i
  {
    if i < j {
      AbsenceHolds(run, i, j - 1, through);
      assert Follows(run, j - 1);
      AbsenceStays(run[j - 1], run[j], through);
      StepKeepsPast(run[j - 1], run[j], through);
    }
  }

  /** An absence answer through a committed snapshot outlives any commits. */
  lemma AdvanceKeepsAbsence(c: Catalog, c': Catalog, through: int)
    requires Wf(c) && Advances(c, c') && AbsentThrough(c, through) && through <= c.head
    ensures AbsentThrough(c', through)
  {
    if c' != c {
      var run :| RunFrom(run, Begin(c), c');
      BeginsAbove(c, through);
      AbsenceHolds(run, 0, |run| - 1, through);
    }
  }

  // ----- Serving the kept listing -----

  /** How many entries are at or before `after`: the listing is in id order. */
  function StartAfter(listing: seq<Listed>, after: Option<int>): (i: nat)
    ensures i <= |listing| && (forall k | 0 <= k < i :: !Past(after, listing[k].file.id))
    ensures i < |listing| ==> Past(after, listing[i].file.id)
  {
    StartFrom(listing, after, 0)
  }

  function StartFrom(listing: seq<Listed>, after: Option<int>, from: nat): (i: nat)
    requires from <= |listing|
    ensures from <= i <= |listing| && (forall k | from <= k < i :: !Past(after, listing[k].file.id))
    ensures i < |listing| ==> Past(after, listing[i].file.id)
    decreases |listing| - from
  {
    if from == |listing| || Past(after, listing[from].file.id) then from else StartFrom(listing, after, from + 1)
  }

  /** `listing_page`. */
  function ListingPage(listing: seq<Listed>, after: Option<int>, limit: nat): seq<Listed> {
    var i := StartAfter(listing, after);
    listing[i..if i + limit <= |listing| then i + limit else |listing|]
  }

  lemma StartAt(listing: seq<Listed>, i: nat, after: Option<int>)
    requires Ascending(listing) && i < |listing| && after == Some(listing[i].file.id)
    ensures StartAfter(listing, after) == i + 1
  {
    assert forall k | 0 <= k <= i :: !Past(after, listing[k].file.id);
    assert i + 1 < |listing| ==> Past(after, listing[i + 1].file.id);
  }

  /** The pages a scan reads of a kept listing, one after the other until a short one. */
  function Pages(listing: seq<Listed>, after: Option<int>, limit: nat): seq<Listed>
    requires limit > 0 && Ascending(listing)
    decreases |listing| - StartAfter(listing, after)
  {
    var page := ListingPage(listing, after, limit);
    if |page| < limit then page
    else
      var last := Some(page[limit - 1].file.id);
      StartAt(listing, StartAfter(listing, after) + limit - 1, last);
      page + Pages(listing, last, limit)
  }

  lemma CutAt<T>(xs: seq<T>, i: nat, n: nat)
    requires 0 < n && i + n <= |xs|
    ensures xs[i..] == xs[i..i + n] + xs[i + n..] && xs[i..i + n][n - 1] == xs[i + n - 1]
  {
  }

  lemma LastPages(listing: seq<Listed>, after: Option<int>, limit: nat, i: nat)
    requires limit > 0 && Ascending(listing) && i == StartAfter(listing, after) && i + limit > |listing|
    ensures Pages(listing, after, limit) == listing[i..]
  {
    assert ListingPage(listing, after, limit) == listing[i..];
  }

  lemma PagesStep(listing: seq<Listed>, after: Option<int>, limit: nat, i: nat)
    requires limit > 0 && Ascending(listing) && i == StartAfter(listing, after) && i + limit <= |listing|
    ensures var last := Some(listing[i + limit - 1].file.id);
            && StartAfter(listing, last) == i + limit
            && Pages(listing, after, limit) == listing[i..i + limit] + Pages(listing, last, limit)
  {
    StartAt(listing, i + limit - 1, Some(listing[i + limit - 1].file.id));
    assert ListingPage(listing, after, limit) == listing[i..i + limit];
  }

  lemma {:induction false} PagesFrom(listing: seq<Listed>, after: Option<int>, limit: nat, i: nat)
    requires limit > 0 && Ascending(listing) && i == StartAfter(listing, after)
    ensures Pages(listing, after, limit) == listing[i..]
    decreases |listing| - i
  {
    if i + limit > |listing| {
      LastPages(listing, after, limit, i);
    } else {
      PagesStep(listing, after, limit, i);
      PagesFrom(listing, Some(listing[i + limit - 1].file.id), limit, i + limit);
      CutAt(listing, i, limit);
    }
  }

  /** Paging through a kept listing gives every file once, in order, whatever the page
      size. */
  lemma PagesAreTheListing(listing: seq<Listed>, after: Option<int>, limit: nat)
    requires limit > 0 && Ascending(listing)
    ensures Pages(listing, after, limit) == listing[StartAfter(listing, after)..]
  {
    PagesFrom(listing, after, limit, StartAfter(listing, after));
  }
}
