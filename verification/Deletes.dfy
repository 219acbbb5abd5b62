/** `DELETE`: the routes a statement's deletions of file rows take, four of a writer that
    stages row mutations and one of a writer that does not, and what each leaves every
    snapshot reading. Each change below is part of a commit at snapshot
    `c.head`, to a catalog that held nothing of the file at that snapshot yet. */
module Deletes {
  import opened Bags
  import opened Lake
  import opened FlushDeletes

  // ----- Where a statement's deletions go -----

  /** A data file a statement deletes from: its row count, and its live delete file with
      the snapshot it begins at and the positions it deletes. */
  datatype Target = Target(file: int, recordCount: Option<int>, live: Option<DeleteFile>)

  datatype InlinedFileDelete = InlinedFileDelete(file: int, positions: seq<int>, expected: Option<int>)
  datatype DroppedFile = DroppedFile(file: int, expected: Option<int>)
  datatype NewDeleteFile = NewDeleteFile(file: int, positions: seq<int>)
  datatype RewrittenDelete = RewrittenDelete(file: int, replaced: int, existing: map<int, int>, positions: seq<int>)

  /** `Cumulative` is the route of a writer that does not stage row mutations. */
  datatype Route = Nowhere | Inline | Drop | New | Rewrite | Cumulative

  function RouteOf(target: Target, n: nat, inlineLimit: nat): Route {
    if n == 0 then Nowhere
    else if 0 < inlineLimit && n <= inlineLimit then Inline
    else if target.recordCount == Some(n + if target.live.Some? then |target.live.value.entries| else 0) then Drop
    else if target.live.None? then New
    else Rewrite
  }

  /** Where the positions go, by their number: nowhere if there are none, inlined within the
      limit, with the file if they are all it has left, to a new delete file if it has
      none, and otherwise to one that replaces its own. */
  lemma RouteExactly(target: Target, n: nat, inlineLimit: nat)
    ensures var r, deleted := RouteOf(target, n, inlineLimit), if target.live.Some? then |target.live.value.entries|
            else 0;
            && (r.Nowhere? <==> n == 0)
            && (r.Inline? <==> 1 <= n <= inlineLimit)
            && (r.Drop? <==> n > inlineLimit && target.recordCount == Some(n + deleted))
            && (r.New? <==> n > inlineLimit && target.recordCount != Some(n + deleted) && target.live.None?)
            && (r.Rewrite? <==> n > inlineLimit && target.recordCount != Some(n + deleted) && target.live.Some?)
  {
  }

  /** The snapshot a rewrite is expected to commit at: the catalog's next, and after the
      base. */
  function Later(base: int, next: Option<int>): (r: int)
    ensures base < r && (next.Some? ==> next.value <= r) && (r == base + 1 || next == Some(r))
  {
    if next.Some? && next.value > base then next.value else base + 1
  }

  /** The positions of a delete file with the snapshot that deleted each, an undated one
      at the file's own. */
  function Dated(d: DeleteFile): map<int, int> {
    map p | p in d.entries :: DateOf(d, p)
  }

  /** How one statement records its deletions of file rows. */
  class FileDeletions {
    var positional: seq<NewDeleteFile>
    var rewritten: seq<RewrittenDelete>
    var inlined: seq<InlinedFileDelete>
    var dropped: seq<DroppedFile>
    var commitSnapshot: Option<int>

    constructor ()
      ensures positional == [] && rewritten == [] && inlined == [] && dropped == [] && commitSnapshot.None?
    {
      positional, rewritten, inlined, dropped, commitSnapshot := [], [], [], [], None;
    }

    /** Records the deletion of `positions`, none of them deleted already, from `target`.
        `nextSnapshot` is the id the catalog's next snapshot is expected to take. */
    method Record(target: Target, positions: seq<int>, inlineLimit: nat, baseSnapshot: int, nextSnapshot: Option<int>)
      modifies this
      ensures var route := RouteOf(target, |positions|, inlineLimit);
        && inlined == old(inlined) + (if route.Inline? then
             [InlinedFileDelete(target.file, positions, if target.live.Some? then Some(target.live.value.id)
               else None)] else [])
        && dropped == old(dropped) + (if route.Drop? then
             [DroppedFile(target.file, if target.live.Some? then Some(target.live.value.id) else None)] else [])
        && positional == old(positional) + (if route.New? then [NewDeleteFile(target.file, positions)] else [])
        && rewritten == old(rewritten) + (if route.Rewrite? then
             [RewrittenDelete(target.file, target.live.value.id, Dated(target.live.value), positions)] else [])
        && commitSnapshot == if route.Rewrite? && old(commitSnapshot).None? then Some(Later(baseSnapshot, nextSnapshot))
             else old(commitSnapshot)
    {
      if positions == [] {
        return;
      }
      var expected := if target.live.Some? then Some(target.live.value.id) else None;
      if 0 < inlineLimit && |positions| <= inlineLimit {
        inlined := inlined + [InlinedFileDelete(target.file, positions, expected)];
        return;
      }
      if target.live.None? {
        if target.recordCount == Some(|positions|) {
          dropped := dropped + [DroppedFile(target.file, None)];
        } else {
          positional := positional + [NewDeleteFile(target.file, positions)];
        }
        return;
      }
      if target.recordCount == Some(|target.live.value.entries| + |positions|) {
        dropped := dropped + [DroppedFile(target.file, expected)];
        return;
      }
      if commitSnapshot.None? {
        commitSnapshot := Some(if nextSnapshot.Some? && nextSnapshot.value > baseSnapshot then nextSnapshot.value
          else baseSnapshot + 1);
      }
      rewritten := rewritten +
        [RewrittenDelete(target.file, target.live.value.id, Dated(target.live.value), positions)];
    }
  }

  // ----- What each route commits -----

  function InlineCommit(c: Catalog, file: int, ps: set<int>): Catalog {
    c.(inlinedDeletes := c.inlinedDeletes + set p | p in ps :: InlinedDelete(file, p, c.head))
  }

  function DropCommit(c: Catalog, k: nat): Catalog
    requires k < |c.files|
  {
    c.(files := c.files[k := c.files[k].(end := Some(c.head))])
  }

  function NewFile(c: Catalog, file: int, ps: set<int>): DeleteFile {
    DeleteFile(c.nextFileId, file, c.head, None, map p | p in ps :: None)
  }

  function NewCommit(c: Catalog, file: int, ps: set<int>): Catalog {
    c.(nextFileId := c.nextFileId + 1, deletes := c.deletes + [NewFile(c, file, ps)])
  }

  function RewrittenDates(c: Catalog, ex: DeleteFile, ps: set<int>): map<int, int> {
    Dated(ex) + map p | p in ps :: c.head
  }

  ghost predicate IsFirst(m: map<int, int>, b: int) {
    (exists p | p in m :: m[p] == b) && forall p | p in m :: b <= m[p]
  }

  /** The rewritten delete file: every position of the replaced one at its own date, the
      statement's at the commit, beginning at the earliest. */
  function RewrittenFile(c: Catalog, ex: DeleteFile, ps: set<int>, begin: int): DeleteFile {
    DeleteFile(c.nextFileId, ex.file, begin, None, Entries(RewrittenDates(c, ex, ps)))
  }

  function RewriteCommit(c: Catalog, ex: DeleteFile, ps: set<int>, begin: int): Catalog {
    c.(nextFileId := c.nextFileId + 1,
       deletes := Filter(c.deletes, NotId(Some(ex.id))) + [RewrittenFile(c, ex, ps, begin)])
  }

  function EndDelete(d: DeleteFile, file: int, t: int): DeleteFile {
    if d.file == file && d.end.None? then d.(end := Some(t)) else d
  }

  function EndDeletes(deletes: seq<DeleteFile>, file: int, t: int): seq<DeleteFile> {
    seq(|deletes|, i requires 0 <= i < |deletes| => EndDelete(deletes[i], file, t))
  }

  /** A delete file with the positions of the one before and the statement's, undated. */
  function CumulativeFile(c: Catalog, ex: DeleteFile, ps: set<int>): DeleteFile {
    DeleteFile(c.nextFileId, ex.file, c.head, None, map p | p in ex.entries.Keys + ps :: None)
  }

  /** Ends the delete file before at the commit, where the new one begins. */
  function CumulativeCommit(c: Catalog, ex: DeleteFile, ps: set<int>): Catalog {
    c.(nextFileId := c.nextFileId + 1,
       deletes := EndDeletes(c.deletes, ex.file, c.head) + [CumulativeFile(c, ex, ps)])
  }

  /** A catalog reached by `route`, deleting positions `ps` of file `k`. */
  ghost predicate Commits(c: Catalog, k: nat, ps: set<int>, route: Route, c': Catalog)
    requires k < |c.files|
  {
    var f := c.files[k];
    match route
    case Nowhere => c' == c
    case Inline => c' == InlineCommit(c, f.id, ps)
    case Drop => c' == DropCommit(c, k)
    case New => c' == NewCommit(c, f.id, ps)
    case Rewrite => exists ex, b ::
      && ex in c.deletes && ex.file == f.id && ex.end.None?
      && IsFirst(RewrittenDates(c, ex, ps), b)
      && c' == RewriteCommit(c, ex, ps, b)
    case Cumulative => exists ex ::
      ex in c.deletes && ex.file == f.id && ex.end.None? && c' == CumulativeCommit(c, ex, ps)
  }

  /** What a statement knows of a target when it records it: the file live and committed
      before, every position inside it and none deleted, and `route` one that fits. */
  ghost predicate Deletable(c: Catalog, k: nat, ps: set<int>, route: Route) {
    && k < |c.files|
    && var f := c.files[k];
    && f.end.None?
    && f.begin < c.head && LastOrigin(f) < c.head
    && (forall d | d in c.deletes && d.file == f.id :: d.begin < c.head)
    && (forall p | p in ps :: 0 <= p < |f.rows| && !Dead(c, f.id, p, c.head))
    && (route.Nowhere? ==> ps == {})
    && (route.New? ==> forall d | d in c.deletes :: d.file != f.id)
    && (route.Drop? ==> forall p | 0 <= p < |f.rows| :: Dead(c, f.id, p, c.head) || p in ps)
  }

  // ----- The effect -----

  ghost function RemovedBy(f: DataFile, ps: set<int>): int -> multiset<Row> {
    i => if i in ps && 0 <= i < |f.rows| then multiset{f.rows[i]} else multiset{}
  }

  /** The rows at positions `ps`. */
  ghost function Removed(f: DataFile, ps: set<int>): multiset<Row> {
    SumTo(|f.rows|, RemovedBy(f, ps))
  }

  lemma RowsRemoved(f: DataFile, dead: int -> bool, dead': int -> bool, ps: set<int>, s: int)
    requires forall i | 0 <= i < |f.rows| :: dead'(i) == (dead(i) || i in ps)
    requires forall i | i in ps :: !dead(i) && Born(f, i, s)
    ensures FileRows(f, dead, s) == FileRows(f, dead', s) + Removed(f, ps)
  {
    SumToAdd(|f.rows|, RowsBy(f, dead, s), RowsBy(f, dead', s), RemovedBy(f, ps));
  }

  /** What a change must do to file `k`'s deletions for `ps` to leave from the head on. */
  ghost predicate Marks(c: Catalog, c': Catalog, k: nat, ps: set<int>)
    requires k < |c.files|
  {
    forall g, p, s ::
      Dead(c', g, p, s) == (Dead(c, g, p, s) || (g == c.files[k].id && p in ps && c.head <= s))
  }

  lemma UnmarkedShown(c: Catalog, c': Catalog, k: nat, ps: set<int>, j: nat, s: int)
    requires DistinctFiles(c.files) && k < |c.files| && j < |c.files| && j != k && Marks(c, c', k, ps)
    ensures Shown(c, c.files[j], s) == Shown(c', c.files[j], s)
  {
    assert c.files[j].id != c.files[k].id by {
      assert if j < k then c.files[j].id != c.files[k].id else c.files[k].id != c.files[j].id;
    }
    ShownExt(c, c', c.files[j], s);
  }

  lemma MarkedShown(c: Catalog, c': Catalog, k: nat, ps: set<int>, route: Route, s: int)
    requires Wf(c) && Deletable(c, k, ps, route) && Marks(c, c', k, ps)
    ensures Shown(c, c.files[k], s) == Shown(c', c.files[k], s) + if c.head <= s then Removed(c.files[k], ps)
            else multiset{}
  {
    var f := c.files[k];
    if s < c.head {
      ShownExt(c, c', f, s);
    } else {
      StillAlive(c, k, ps, route, s);
      RowsRemoved(f, DeadBy(c, f.id, s), DeadBy(c', f.id, s), ps, s);
    }
  }

  lemma MarkedScan(c: Catalog, c': Catalog, k: nat, ps: set<int>, route: Route, s: int)
    requires Wf(c) && Wf(c') && Deletable(c, k, ps, route) && Marks(c, c', k, ps)
    requires c'.files == c.files && c'.inlined == c.inlined
    ensures Scan(c, s) == Scan(c', s) + if c.head <= s then Removed(c.files[k], ps) else multiset{}
  {
    var f := c.files[k];
    ScanIsShown(c, s);
    ScanIsShown(c', s);
    var gone := if c.head <= s then Removed(f, ps) else multiset{};
    forall j | 0 <= j < |c.files| && j != k
      ensures Shown(c, c.files[j], s) == Shown(c', c.files[j], s)
    {
      UnmarkedShown(c, c', k, ps, j, s);
    }
    MarkedShown(c, c', k, ps, route, s);
    SumAt(c.files, c.files, k, ShownBy(c, s), ShownBy(c', s));
    Balance(Sum(c.files, ShownBy(c, s)), Sum(c.files, ShownBy(c', s)), Shown(c, f, s), Shown(c', f, s), gone);
    Regroup(Sum(c.files, ShownBy(c', s)), gone, Sum(c.inlined, InlinedBy(s)));
  }

  lemma Balance(a: multiset<Row>, b: multiset<Row>, x: multiset<Row>, y: multiset<Row>, gone: multiset<Row>)
    requires a + y == b + x && x == y + gone
    ensures a == b + gone
  {
    Cancel(a, b + gone, y);
  }

  lemma Regroup(a: multiset<Row>, b: multiset<Row>, d: multiset<Row>)
    ensures a + b + d == a + d + b
  {
  }

  /** Nothing of the file is dated after the head, so what lives at the head lives on. */
  lemma StillAlive(c: Catalog, k: nat, ps: set<int>, route: Route, s: int)
    requires Wf(c) && Deletable(c, k, ps, route) && c.head <= s
    ensures forall i | i in ps :: !Dead(c, c.files[k].id, i, s) && Born(c.files[k], i, s)
    ensures forall i :: Dead(c, c.files[k].id, i, s) == Dead(c, c.files[k].id, i, c.head)
  {
    var f := c.files[k];
    forall i
      ensures Dead(c, f.id, i, s) == Dead(c, f.id, i, c.head)
    {
      forall d | d in c.deletes && d.file == f.id
        ensures Joins(d, f.id, s) && Records(d, i, s) <==> Joins(d, f.id, c.head) && Records(d, i, c.head)
      {
        assert WfDelete(d, c.head);
        if i in d.entries {
          assert EntryWithin(d, d.entries[i], c.head);
        }
      }
    }
  }

  // ----- Each route -----

  lemma InlineMarks(c: Catalog, k: nat, ps: set<int>)
    requires Wf(c) && Deletable(c, k, ps, Inline)
    ensures Wf(InlineCommit(c, c.files[k].id, ps)) && Marks(c, InlineCommit(c, c.files[k].id, ps), k, ps)
  {
    var f, c' := c.files[k], InlineCommit(c, c.files[k].id, ps);
    assert f in c.files;
    SameDeletesStay(c, c');
    forall g, p, s
      ensures Dead(c', g, p, s) == (Dead(c, g, p, s) || (g == f.id && p in ps && c.head <= s))
    {
      assert InlinedDead(c', g, p, s) == (InlinedDead(c, g, p, s) || (g == f.id && p in ps && c.head <= s)) by {
        if g == f.id && p in ps && c.head <= s {
          assert InlinedDelete(g, p, c.head) in c'.inlinedDeletes;
        }
        if InlinedDead(c, g, p, s) {
          var b :| InlinedDelete(g, p, b) in c.inlinedDeletes && b <= s;
          assert InlinedDelete(g, p, b) in c'.inlinedDeletes;
        }
      }
    }
  }

  lemma SameDeletesStay(c: Catalog, c': Catalog)
    requires DeletesStay(c) && c'.deletes == c.deletes
    requires forall f | f in c'.files && f.end.None? :: f in c.files
    ensures DeletesStay(c')
  {
    forall f, d | f in c'.files && d in c'.deletes && d.file == f.id && f.end.None?
      ensures HasLiveDelete(c', f.id)
    {
      assert HasLiveDelete(c, f.id);
    }
  }

  lemma NewMarks(c: Catalog, k: nat, ps: set<int>)
    requires Wf(c) && Deletable(c, k, ps, New)
    ensures Wf(NewCommit(c, c.files[k].id, ps)) && Marks(c, NewCommit(c, c.files[k].id, ps), k, ps)
  {
    var f, c', n := c.files[k], NewCommit(c, c.files[k].id, ps), NewFile(c, c.files[k].id, ps);
    assert f in c.files;
    AppendedStays(c, c', n);
    assert n in c'.deletes;
    forall g, p, s
      ensures Dead(c', g, p, s) == (Dead(c, g, p, s) || (g == f.id && p in ps && c.head <= s))
    {
      assert Joins(n, g, s) && Records(n, p, s) <==> g == f.id && p in ps && c.head <= s;
      assert InlinedDead(c', g, p, s) == InlinedDead(c, g, p, s);
      assert forall d :: d in c'.deletes <==> d in c.deletes || d == n;
    }
  }

  /** Every delete file kept and a live one added: files keep their live delete files. */
  lemma AppendedStays(c: Catalog, c': Catalog, n: DeleteFile)
    requires DeletesStay(c) && c'.files == c.files && n.end.None?
    requires c'.deletes == c.deletes + [n]
    ensures DeletesStay(c')
  {
    forall f, d | f in c'.files && d in c'.deletes && d.file == f.id && f.end.None?
      ensures HasLiveDelete(c', f.id)
    {
      if d == n {
        assert n in c'.deletes;
      } else {
        assert HasLiveDelete(c, f.id);
        var live :| live in c.deletes && live.file == f.id && live.end.None?;
        assert live in c'.deletes;
      }
    }
  }

  /** The catalog holds `ex` as the live delete file of `f`, and `n` replaces it. */
  ghost predicate Rewrites(c: Catalog, k: nat, ps: set<int>, ex: DeleteFile, b: int) {
    && Deletable(c, k, ps, Rewrite)
    && ex in c.deletes && ex.file == c.files[k].id && ex.end.None?
    && IsFirst(RewrittenDates(c, ex, ps), b)
  }

  lemma RewrittenWf(c: Catalog, k: nat, ps: set<int>, ex: DeleteFile, b: int)
    requires Wf(c) && Rewrites(c, k, ps, ex, b)
    ensures WfDelete(RewrittenFile(c, ex, ps, b), c.head) && ex.begin <= b
  {
    var m, n := RewrittenDates(c, ex, ps), RewrittenFile(c, ex, ps, b);
    assert WfDelete(ex, c.head);
    forall p | p in m
      ensures ex.begin <= m[p] <= c.head
    {
      if p in ex.entries {
        assert EntryWithin(ex, ex.entries[p], c.head);
      }
    }
  }

  lemma RewrittenMembers(c: Catalog, k: nat, ps: set<int>, ex: DeleteFile, b: int)
    requires Wf(c) && Rewrites(c, k, ps, ex, b)
    ensures var c', n := RewriteCommit(c, ex, ps, b), RewrittenFile(c, ex, ps, b);
            forall d :: d in c'.deletes <==> d == n || (d in c.deletes && d != ex)
  {
    forall d
      ensures d in Filter(c.deletes, NotId(Some(ex.id))) <==> d in c.deletes && d != ex
    {
      RestOfDeletes(c, Some(ex), d);
    }
  }

  lemma RewrittenDisjoint(c: Catalog, k: nat, ps: set<int>, ex: DeleteFile, b: int)
    requires Wf(c) && Rewrites(c, k, ps, ex, b)
    ensures Disjoint(RewriteCommit(c, ex, ps, b).deletes) && DistinctDeletes(RewriteCommit(c, ex, ps, b).deletes)
  {
    var keep := NotId(Some(ex.id));
    var rest, n := Filter(c.deletes, keep), RewrittenFile(c, ex, ps, b);
    FilterPairwise(c.deletes, keep, (d: DeleteFile, e: DeleteFile) => d.id != e.id);
    FilterPairwise(c.deletes, keep, (d: DeleteFile, e: DeleteFile) => d.file == e.file ==> Apart(d, e));
    RewrittenWf(c, k, ps, ex, b);
    forall i | 0 <= i < |rest|
      ensures rest[i].id != n.id && (rest[i].file == n.file ==> Apart(rest[i], n))
    {
      assert rest[i] in rest;
      RestOfDeletes(c, Some(ex), rest[i]);
      if rest[i].file == ex.file {
        ApartOf(c.deletes, rest[i], ex);
      }
    }
  }

  lemma RewriteKeepsWf(c: Catalog, k: nat, ps: set<int>, ex: DeleteFile, b: int)
    requires Wf(c) && Rewrites(c, k, ps, ex, b)
    ensures Wf(RewriteCommit(c, ex, ps, b))
  {
    var c', n := RewriteCommit(c, ex, ps, b), RewrittenFile(c, ex, ps, b);
    RewrittenWf(c, k, ps, ex, b);
    RewrittenMembers(c, k, ps, ex, b);
    RewrittenDisjoint(c, k, ps, ex, b);
    forall f, d | f in c'.files && d in c'.deletes && d.file == f.id && f.end.None?
      ensures HasLiveDelete(c', f.id)
    {
      if f.id == ex.file {
        assert n in c'.deletes;
      } else {
        assert HasLiveDelete(c, f.id);
        var live :| live in c.deletes && live.file == f.id && live.end.None?;
        assert live in c'.deletes;
      }
    }
  }

  lemma RewriteMarks(c: Catalog, k: nat, ps: set<int>, ex: DeleteFile, b: int)
    requires Wf(c) && Rewrites(c, k, ps, ex, b)
    ensures Marks(c, RewriteCommit(c, ex, ps, b), k, ps)
  {
    var c', n, f := RewriteCommit(c, ex, ps, b), RewrittenFile(c, ex, ps, b), c.files[k];
    RewrittenWf(c, k, ps, ex, b);
    RewrittenMembers(c, k, ps, ex, b);
    forall g, p, s
      ensures Dead(c', g, p, s) == (Dead(c, g, p, s) || (g == f.id && p in ps && c.head <= s))
    {
      assert InlinedDead(c', g, p, s) == InlinedDead(c, g, p, s);
      DatedPart(n, g, p, s, c.head);
      DatedPart(ex, g, p, s, c.head);
      NotAlready(c, k, ps, ex, b, p);
      assert Joins(n, g, s) && Records(n, p, s) <==>
        (Joins(ex, g, s) && Records(ex, p, s)) || (g == f.id && p in ps && c.head <= s);
    }
  }

  /** A statement's position is not one the replaced delete file holds. */
  lemma NotAlready(c: Catalog, k: nat, ps: set<int>, ex: DeleteFile, b: int, p: int)
    requires Wf(c) && Rewrites(c, k, ps, ex, b)
    ensures p in ps ==> p !in ex.entries
  {
    if p in ps && p in ex.entries {
      assert WfDelete(ex, c.head) && EntryWithin(ex, ex.entries[p], c.head);
      assert Joins(ex, c.files[k].id, c.head) && Records(ex, p, c.head);
      assert false;
    }
  }

  lemma EndedMembers(deletes: seq<DeleteFile>, file: int, t: int)
    ensures forall d | d in deletes :: EndDelete(d, file, t) in EndDeletes(deletes, file, t)
    ensures forall d | d in EndDeletes(deletes, file, t) :: exists e | e in deletes :: d == EndDelete(e, file, t)
  {
    var ended := EndDeletes(deletes, file, t);
    forall d | d in deletes
      ensures EndDelete(d, file, t) in ended
    {
      var i :| 0 <= i < |deletes| && deletes[i] == d;
      assert ended[i] == EndDelete(d, file, t);
    }
    forall d | d in ended
      ensures exists e | e in deletes :: d == EndDelete(e, file, t)
    {
      var i :| 0 <= i < |deletes| && ended[i] == d;
      assert deletes[i] in deletes;
    }
  }

  /** What a delete file records, of `g` at `s`. */
  ghost predicate Recorded(deletes: seq<DeleteFile>, g: int, p: int, s: int) {
    exists d | d in deletes :: Joins(d, g, s) && Records(d, p, s)
  }

  lemma EndedRecords(deletes: seq<DeleteFile>, file: int, t: int, g: int, p: int, s: int)
    requires s < t || g != file
    ensures Recorded(EndDeletes(deletes, file, t), g, p, s) == Recorded(deletes, g, p, s)
  {
    var ended := EndDeletes(deletes, file, t);
    EndedMembers(deletes, file, t);
    if d :| d in deletes && Joins(d, g, s) && Records(d, p, s) {
      var e := EndDelete(d, file, t);
      assert e in ended && Joins(e, g, s) && Records(e, p, s);
    }
    if d :| d in ended && Joins(d, g, s) && Records(d, p, s) {
      var e :| e in deletes && d == EndDelete(e, file, t);
      assert Joins(e, g, s) && Records(e, p, s);
    }
  }

  lemma EndedWf(c: Catalog, file: int)
    requires Wf(c) && forall d | d in c.deletes && d.file == file :: d.begin < c.head
    ensures var ended := EndDeletes(c.deletes, file, c.head);
            && DistinctDeletes(ended) && Disjoint(ended)
            && forall d | d in ended :: WfDelete(d, c.head) && d.id < c.nextFileId && d.file < c.nextFileId
  {
    var ended := EndDeletes(c.deletes, file, c.head);
    forall i, j | 0 <= i < j < |ended| && ended[i].file == ended[j].file
      ensures Apart(ended[i], ended[j])
    {
      assert Apart(c.deletes[i], c.deletes[j]);
    }
    forall d | d in ended
      ensures WfDelete(d, c.head) && d.id < c.nextFileId && d.file < c.nextFileId
    {
      EndedMembers(c.deletes, file, c.head);
      var e :| e in c.deletes && d == EndDelete(e, file, c.head);
      assert WfDelete(e, c.head);
      forall p | p in d.entries
        ensures EntryWithin(d, d.entries[p], c.head)
      {
        assert EntryWithin(e, e.entries[p], c.head);
      }
    }
  }

  /** `ex` is the live delete file of file `k`. */
  ghost predicate Cumulates(c: Catalog, k: nat, ps: set<int>, ex: DeleteFile) {
    Deletable(c, k, ps, Cumulative) && ex in c.deletes && ex.file == c.files[k].id && ex.end.None?
  }

  lemma CumulativeStays(c: Catalog, k: nat, ps: set<int>, ex: DeleteFile)
    requires Wf(c) && Cumulates(c, k, ps, ex)
    ensures DeletesStay(CumulativeCommit(c, ex, ps))
  {
    var c', n := CumulativeCommit(c, ex, ps), CumulativeFile(c, ex, ps);
    EndedMembers(c.deletes, ex.file, c.head);
    assert c'.deletes[|c.deletes|] == n;
    forall f, d | f in c'.files && d in c'.deletes && d.file == f.id && f.end.None?
      ensures HasLiveDelete(c', f.id)
    {
      if f.id == ex.file {
        assert n in c'.deletes;
      } else {
        var e :| e in c.deletes && d == EndDelete(e, ex.file, c.head);
        assert HasLiveDelete(c, f.id);
        var live :| live in c.deletes && live.file == f.id && live.end.None?;
        assert EndDelete(live, ex.file, c.head) == live && live in c'.deletes;
      }
    }
  }

  lemma CumulativeWf(c: Catalog, k: nat, ps: set<int>, ex: DeleteFile)
    requires Wf(c) && Cumulates(c, k, ps, ex)
    ensures Wf(CumulativeCommit(c, ex, ps))
  {
    var c', n := CumulativeCommit(c, ex, ps), CumulativeFile(c, ex, ps);
    var ended := EndDeletes(c.deletes, ex.file, c.head);
    EndedWf(c, ex.file);
    CumulativeStays(c, k, ps, ex);
    forall i | 0 <= i < |ended|
      ensures ended[i].id != n.id && (ended[i].file == n.file ==> Apart(ended[i], n))
    {
      assert ended[i] in ended && c.deletes[i] in c.deletes && WfDelete(ended[i], c.head);
    }
  }

  /** From the head on only the new delete file is left of the file's. */
  lemma CumulativeAfter(c: Catalog, k: nat, ps: set<int>, ex: DeleteFile, p: int, s: int)
    requires Wf(c) && Cumulates(c, k, ps, ex) && c.head <= s
    ensures Recorded(CumulativeCommit(c, ex, ps).deletes, ex.file, p, s) <==> p in ex.entries || p in ps
    ensures Recorded(c.deletes, ex.file, p, s) <==> p in ex.entries
  {
    var c', n := CumulativeCommit(c, ex, ps), CumulativeFile(c, ex, ps);
    EndedMembers(c.deletes, ex.file, c.head);
    assert c'.deletes[|c.deletes|] == n;
    assert Joins(n, ex.file, s) && (Records(n, p, s) <==> p in ex.entries || p in ps);
    assert forall d | d in EndDeletes(c.deletes, ex.file, c.head) :: !Joins(d, ex.file, s) by {
      assert forall d | d in c.deletes && d.end.Some? :: WfDelete(d, c.head);
    }
    assert WfDelete(ex, c.head) && (p in ex.entries ==> EntryWithin(ex, ex.entries[p], c.head));
    assert Joins(ex, ex.file, s) && (Records(ex, p, s) <==> p in ex.entries);
    forall d | d in c.deletes && Joins(d, ex.file, s)
      ensures d == ex
    {
      assert WfDelete(d, c.head);
      if d != ex {
        ApartOf(c.deletes, d, ex);
      }
    }
  }

  lemma CumulativeElsewhere(c: Catalog, ex: DeleteFile, ps: set<int>, g: int, p: int, s: int)
    requires s < c.head || g != ex.file
    ensures Recorded(CumulativeCommit(c, ex, ps).deletes, g, p, s) == Recorded(c.deletes, g, p, s)
  {
    var c', n := CumulativeCommit(c, ex, ps), CumulativeFile(c, ex, ps);
    EndedRecords(c.deletes, ex.file, c.head, g, p, s);
    assert !Joins(n, g, s);
    assert forall d :: d in c'.deletes <==> d in EndDeletes(c.deletes, ex.file, c.head) || d == n;
  }

  /** A cumulative delete file marks exactly the named positions from the commit on. */
  lemma CumulativeMarks(c: Catalog, k: nat, ps: set<int>, ex: DeleteFile)
    requires Wf(c) && Cumulates(c, k, ps, ex)
    ensures Marks(c, CumulativeCommit(c, ex, ps), k, ps)
  {
    var c' := CumulativeCommit(c, ex, ps);
    forall g, p, s
      ensures Dead(c', g, p, s) == (Dead(c, g, p, s) || (g == c.files[k].id && p in ps && c.head <= s))
    {
      assert InlinedDead(c', g, p, s) == InlinedDead(c, g, p, s);
      assert Dead(c, g, p, s) == (InlinedDead(c, g, p, s) || Recorded(c.deletes, g, p, s));
      assert Dead(c', g, p, s) == (InlinedDead(c', g, p, s) || Recorded(c'.deletes, g, p, s));
      if s < c.head || g != ex.file {
        CumulativeElsewhere(c, ex, ps, g, p, s);
      } else {
        CumulativeAfter(c, k, ps, ex, p, s);
      }
    }
  }

  lemma DropWf(c: Catalog, k: nat, ps: set<int>)
    requires Wf(c) && Deletable(c, k, ps, Drop)
    ensures Wf(DropCommit(c, k))
  {
    var f, c' := c.files[k], DropCommit(c, k);
    assert f in c.files && WfFile(f, c.head) && WfFile(c'.files[k], c.head);
    assert forall g | g in c'.files :: g == c'.files[k] || g in c.files;
    assert DistinctFiles(c'.files);
    SameDeletesStay(c, c');
  }

  lemma DropShows(c: Catalog, k: nat, ps: set<int>, s: int)
    requires Wf(c) && Deletable(c, k, ps, Drop)
    ensures Shown(c, c.files[k], s)
         == Shown(DropCommit(c, k), DropCommit(c, k).files[k], s) + if c.head <= s then Removed(c.files[k], ps)
           else multiset{}
  {
    var f, c' := c.files[k], DropCommit(c, k);
    var f' := c'.files[k];
    if s < c.head {
      FileRowsExt(f, DeadBy(c, f.id, s), DeadBy(c', f.id, s), s);
      DroppedRows(f, f', DeadBy(c', f.id, s), s);
    } else {
      StillAlive(c, k, ps, Drop, s);
      SumToExt(|f.rows|, RowsBy(f, DeadBy(c, f.id, s), s), RemovedBy(f, ps));
    }
  }

  lemma DropFiles(c: Catalog, k: nat, ps: set<int>, s: int, gone: multiset<Row>)
    requires Wf(c) && Deletable(c, k, ps, Drop)
    requires gone == if c.head <= s then Removed(c.files[k], ps) else multiset{}
    ensures Sum(c.files, ShownBy(c, s)) == Sum(DropCommit(c, k).files, ShownBy(DropCommit(c, k), s)) + gone
  {
    var c' := DropCommit(c, k);
    DropShows(c, k, ps, s);
    forall j | 0 <= j < |c.files| && j != k
      ensures ShownBy(c, s)(c.files[j]) == ShownBy(c', s)(c'.files[j])
    {
      ShownExt(c', c, c.files[j], s);
    }
    SumAt(c.files, c'.files, k, ShownBy(c, s), ShownBy(c', s));
    Balance(Sum(c.files, ShownBy(c, s)), Sum(c'.files, ShownBy(c', s)), Shown(c, c.files[k], s),
            Shown(c', c'.files[k], s), gone);
  }

  /** Dropping a file whose every row is deleted or named removes exactly those named. */
  lemma DropScan(c: Catalog, k: nat, ps: set<int>, s: int)
    requires Wf(c) && Deletable(c, k, ps, Drop)
    ensures Wf(DropCommit(c, k))
    ensures Scan(c, s) == Scan(DropCommit(c, k), s) + if c.head <= s then Removed(c.files[k], ps) else multiset{}
  {
    var c' := DropCommit(c, k);
    var gone := if c.head <= s then Removed(c.files[k], ps) else multiset{};
    DropWf(c, k, ps);
    DropFiles(c, k, ps, s, gone);
    ScanIsShown(c, s);
    ScanIsShown(c', s);
    Regroup(Sum(c'.files, ShownBy(c', s)), gone, Sum(c.inlined, InlinedBy(s)));
  }

  lemma DroppedRows(f: DataFile, f': DataFile, dead: int -> bool, s: int)
    requires f' == f.(end := f'.end)
    ensures FileRows(f', dead, s) == FileRows(f, dead, s)
  {
    SumToExt(|f.rows|, RowsBy(f', dead, s), RowsBy(f, dead, s));
  }

  /** Recording deletions by any route leaves every earlier snapshot unchanged and
      removes exactly the named rows from the commit on. */
  lemma RecordedDeletions(c: Catalog, k: nat, ps: set<int>, route: Route, c': Catalog, s: int)
    requires Wf(c) && Deletable(c, k, ps, route) && Commits(c, k, ps, route, c')
    ensures Wf(c')
    ensures Scan(c, s) == Scan(c', s) + if c.head <= s then Removed(c.files[k], ps) else multiset{}
  {
    match route {
      case Nowhere =>
        SumToEmpty(|c.files[k].rows|, RemovedBy(c.files[k], ps));
      case Inline =>
        InlineMarks(c, k, ps);
        MarkedScan(c, c', k, ps, route, s);
      case Drop =>
        DropScan(c, k, ps, s);
      case New =>
        NewMarks(c, k, ps);
        MarkedScan(c, c', k, ps, route, s);
      case Rewrite =>
        var ex, b :| ex in c.deletes && ex.file == c.files[k].id && ex.end.None?
          && IsFirst(RewrittenDates(c, ex, ps), b) && c' == RewriteCommit(c, ex, ps, b);
        RewriteKeepsWf(c, k, ps, ex, b);
        RewriteMarks(c, k, ps, ex, b);
        MarkedScan(c, c', k, ps, route, s);
      case Cumulative =>
        var ex :| ex in c.deletes && ex.file == c.files[k].id && ex.end.None? && c' == CumulativeCommit(c, ex, ps);
        CumulativeWf(c, k, ps, ex);
        CumulativeMarks(c, k, ps, ex);
        MarkedScan(c, c', k, ps, route, s);
    }
  }
}
