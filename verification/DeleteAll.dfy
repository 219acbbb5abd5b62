/** The statement level of `DELETE`: the route each file's deletions take fits them, and
    a `DELETE` without `WHERE` leaves nothing behind. */
module DeleteAll {
  import opened Bags
  import opened Lake
  import opened FlushDeletes
  import opened Deletes

  // ----- What the statement reads of a file -----

  function Range(n: nat): (r: set<int>)
    ensures forall i :: i in r <==> 0 <= i < n
    ensures |r| == n
  {
    if n == 0 then {} else Range(n - 1) + {n - 1}
  }

  function FindLive(deletes: seq<DeleteFile>, file: int): (d: Option<DeleteFile>)
    ensures d.Some? ==> d.value in deletes && d.value.file == file && d.value.end.None?
    ensures d.None? ==> forall e | e in deletes && e.file == file :: e.end.Some?
  {
    if deletes == [] then None
    else if deletes[0].file == file && deletes[0].end.None? then Some(deletes[0])
    else FindLive(deletes[1..], file)
  }

  /** The positions the file's live delete file deletes. */
  function FromFile(c: Catalog, file: int): set<int> {
    var d := FindLive(c.deletes, file);
    if d.None? then {} else d.value.entries.Keys
  }

  /** The positions inlined deletions delete. */
  function Inlined(c: Catalog, file: int): set<int> {
    set d | d in c.inlinedDeletes && d.file == file :: d.pos
  }

  /** The file's deletions stay inside it, and the catalog's counts are truthful. */
  predicate Inside(c: Catalog, f: DataFile) {
    FromFile(c, f.id) <= Range(|f.rows|) && Inlined(c, f.id) <= Range(|f.rows|)
  }

  /** The rows of a live file the statement finds. */
  function Alive(c: Catalog, f: DataFile): set<int> {
    Range(|f.rows|) - FromFile(c, f.id) - Inlined(c, f.id)
  }

  /** At the head, what is deleted is what the live delete file and the inlined
      deletions name. */
  lemma DeadAtHead(c: Catalog, k: nat, p: int)
    requires Wf(c) && k < |c.files| && c.files[k].end.None?
    ensures Dead(c, c.files[k].id, p, c.head) <==> p in FromFile(c, c.files[k].id) || p in Inlined(c, c.files[k].id)
  {
    var f := c.files[k];
    var live := FindLive(c.deletes, f.id);
    forall d | d in c.deletes && d.file == f.id
      ensures Joins(d, f.id, c.head) <==> live == Some(d)
    {
      assert WfDelete(d, c.head);
      if live.Some? && live.value != d {
        ApartOf(c.deletes, live.value, d);
        assert WfDelete(live.value, c.head);
      }
    }
    if live.Some? && p in live.value.entries {
      assert WfDelete(live.value, c.head) && EntryWithin(live.value, live.value.entries[p], c.head);
      assert Joins(live.value, f.id, c.head) && Records(live.value, p, c.head);
    }
    if p in Inlined(c, f.id) {
      var d :| d in c.inlinedDeletes && d.file == f.id && d.pos == p;
      assert d == InlinedDelete(f.id, p, d.begin);
    }
    if InlinedDead(c, f.id, p, c.head) {
      var b :| InlinedDelete(f.id, p, b) in c.inlinedDeletes && b <= c.head;
    }
  }

  // ----- The route fits -----

  function TargetOf(c: Catalog, f: DataFile): Target {
    Target(f.id, Some(|f.rows|), FindLive(c.deletes, f.id))
  }

  /** The file is live, and was committed with all its deletions before the head. */
  predicate Settled(c: Catalog, k: nat) {
    && k < |c.files|
    && c.files[k].end.None?
    && c.files[k].begin < c.head && LastOrigin(c.files[k]) < c.head
    && forall d | d in c.deletes && d.file == c.files[k].id :: d.begin < c.head
  }

  /** The route `Record` takes for live positions is one whose commit deletes them: a
      file is dropped only when nothing of it is left. */
  lemma RouteFits(c: Catalog, k: nat, ps: set<int>, inlineLimit: nat)
    requires Wf(c) && Settled(c, k) && Inside(c, c.files[k]) && ps <= Alive(c, c.files[k])
    ensures Deletable(c, k, ps, RouteOf(TargetOf(c, c.files[k]), |ps|, inlineLimit))
  {
    var f := c.files[k];
    assert f in c.files;
    var live := FindLive(c.deletes, f.id);
    var route := RouteOf(TargetOf(c, f), |ps|, inlineLimit);
    forall p
      ensures Dead(c, f.id, p, c.head) <==> p in FromFile(c, f.id) || p in Inlined(c, f.id)
    {
      DeadAtHead(c, k, p);
    }
    if route.Drop? {
      AllCovered(c, f, ps);
    }
    if route.New? {
      assert forall d | d in c.deletes && d.file == f.id :: HasLiveDelete(c, f.id);
    }
  }

  /** Past the inline limit a file is dropped if and only if its delete file and the named
      positions cover it. */
  lemma DropsExactly(c: Catalog, f: DataFile, ps: set<int>, inlineLimit: nat)
    requires Inside(c, f) && ps <= Alive(c, f) && |ps| > inlineLimit
    ensures RouteOf(TargetOf(c, f), |ps|, inlineLimit).Drop? <==> ps + FromFile(c, f.id) == Range(|f.rows|)
  {
    var all, part := Range(|f.rows|), ps + FromFile(c, f.id);
    assert |part| == |ps| + |FromFile(c, f.id)|;
    if |part| == |all| {
      Full(all, part);
    }
  }

  lemma AllCovered(c: Catalog, f: DataFile, ps: set<int>)
    requires Inside(c, f) && ps <= Alive(c, f)
    requires |ps| + |FromFile(c, f.id)| == |f.rows|
    ensures forall p | 0 <= p < |f.rows| :: p in FromFile(c, f.id) || p in ps
  {
    Full(Range(|f.rows|), ps + FromFile(c, f.id));
    assert forall p | 0 <= p < |f.rows| :: p in Range(|f.rows|);
  }

  lemma Full(all: set<int>, part: set<int>)
    requires part <= all && |part| == |all|
    ensures part == all
  {
    assert |all - part| == 0;
  }

  method CommitRewrite(c: Catalog, ex: DeleteFile, ps: set<int>) returns (c': Catalog)
    requires ps != {}
    ensures exists b :: IsFirst(RewrittenDates(c, ex, ps), b) && c' == RewriteCommit(c, ex, ps, b)
  {
    var dates := RewrittenDates(c, ex, ps);
    var p := Witness(ps);
    assert p in dates;
    var begin := Earliest(dates);
    c' := RewriteCommit(c, ex, ps, begin);
  }

  /** Records positions of file `k` and commits them. */
  method DeletePositions(c: Catalog, k: nat, ps: set<int>, inlineLimit: nat) returns (c': Catalog)
    requires Wf(c) && Settled(c, k) && Inside(c, c.files[k]) && ps <= Alive(c, c.files[k])
    ensures Commits(c, k, ps, RouteOf(TargetOf(c, c.files[k]), |ps|, inlineLimit), c')
  {
    var f := c.files[k];
    var target := TargetOf(c, f);
    RouteFits(c, k, ps, inlineLimit);
    match RouteOf(target, |ps|, inlineLimit) {
      case Nowhere => c' := c;
      case Inline => c' := InlineCommit(c, f.id, ps);
      case Drop => c' := DropCommit(c, k);
      case New => c' := NewCommit(c, f.id, ps);
      case Rewrite =>
        c' := CommitRewrite(c, target.live.value, ps);
    }
  }

  // ----- DELETE without WHERE -----

  datatype FilePlan = FilePlan(count: nat, route: Route, positions: set<int>)

  /** What the statement does with one file, from the catalog's counts. */
  function PlanOf(c: Catalog, f: DataFile, inlineLimit: nat): FilePlan {
    var live := |f.rows| - |FromFile(c, f.id)| - |Inlined(c, f.id)|;
    if live <= 0 then FilePlan(0, Nowhere, {})
    else if Inlined(c, f.id) == {} && (inlineLimit == 0 || inlineLimit < live) then
      FilePlan(live, Drop, Alive(c, f))
    else
      FilePlan(live, RouteOf(TargetOf(c, f), |Alive(c, f)|, inlineLimit), Alive(c, f))
  }

  lemma Sizes(all: set<int>, d: set<int>, i: set<int>)
    requires d <= all && i <= all
    ensures |all - (d + i)| == |all| - |d| - |i| + |d * i|
  {
    assert all == (all - (d + i)) + (d + i);
    assert d + i == d + (i - d) && i == (i - d) + (d * i);
  }

  predicate Exact(c: Catalog, f: DataFile) {
    FromFile(c, f.id) !! Inlined(c, f.id) || Alive(c, f) == {}
  }

  /** The count of a file is never above its live rows, and is theirs exactly when no
      position is deleted in both encodings, or nothing is left. */
  lemma CountIsExact(c: Catalog, f: DataFile, inlineLimit: nat)
    requires Inside(c, f)
    ensures PlanOf(c, f, inlineLimit).count <= |Alive(c, f)|
    ensures PlanOf(c, f, inlineLimit).count == |Alive(c, f)| <==> Exact(c, f)
  {
    var d, i, all := FromFile(c, f.id), Inlined(c, f.id), Range(|f.rows|);
    Sizes(all, d, i);
    assert Alive(c, f) == all - (d + i);
    assert |d * i| == 0 <==> d !! i;
  }

  /** The plan of a file counts its live rows and deletes them all exactly when no
      position is deleted in both encodings, or nothing of the file is left. */
  lemma PlanIsExact(c: Catalog, f: DataFile, inlineLimit: nat)
    requires Inside(c, f)
    ensures PlanOf(c, f, inlineLimit).count == |Alive(c, f)| && PlanOf(c, f, inlineLimit).positions == Alive(c, f)
       <==> Exact(c, f)
  {
    CountIsExact(c, f, inlineLimit);
    if PlanOf(c, f, inlineLimit).count == 0 == |Alive(c, f)| {
      assert Alive(c, f) == {};
    }
  }

  /** A file with a position deleted in both encodings: the statement counts nothing
      left in it, and leaves a row behind. */
  lemma DoublyDeletedMiscounts()
    ensures var f := DataFile(1, 1, None, None, [Row(0, "a"), Row(1, "b"), Row(2, "c")], None);
            var c := Catalog(5, 3, [f], [DeleteFile(2, 1, 2, None, map[0 := None, 1 := None])], [],
              {InlinedDelete(1, 0, 3)});
            Wf(c) && Inside(c, f) && 2 in Alive(c, f) && PlanOf(c, f, 0).route == Nowhere
              && PlanOf(c, f, 0).count != |Alive(c, f)|
  {
    var f := DataFile(1, 1, None, None, [Row(0, "a"), Row(1, "b"), Row(2, "c")], None);
    var d := DeleteFile(2, 1, 2, None, map[0 := None, 1 := None]);
    var c := Catalog(5, 3, [f], [d], [], {InlinedDelete(1, 0, 3)});
    assert FromFile(c, 1) == {0, 1};
    assert Inlined(c, 1) == {0} by {
      assert InlinedDelete(1, 0, 3) in c.inlinedDeletes;
    }
  }

  function EndRow(r: InlinedRow, t: int): InlinedRow {
    if r.end.None? then r.(end := Some(t)) else r
  }

  /** Ends every live inlined row at the commit. */
  function EndInlined(c: Catalog): Catalog {
    c.(inlined := seq(|c.inlined|, i requires 0 <= i < |c.inlined| => EndRow(c.inlined[i], c.head)))
  }

  function LiveRows(rows: seq<InlinedRow>): nat {
    if rows == [] then 0 else (if rows[0].end.None? then 1 else 0) + LiveRows(rows[1..])
  }

  lemma {:induction false} LiveRowsCount(rows: seq<InlinedRow>, head: int)
    requires forall r | r in rows :: Lifetime(r.begin, r.end, head)
    ensures LiveRows(rows) == |Sum(rows, InlinedBy(head))|
  {
    if rows != [] {
      assert rows[0] in rows;
      LiveRowsCount(rows[1..], head);
    }
  }

  lemma {:induction false} CountRemoved(f: DataFile, n: nat, ps: set<int>)
    requires n <= |f.rows| && ps <= Range(n)
    ensures |SumTo(n, RemovedBy(f, ps))| == |ps|
  {
    if n == 0 {
      assert ps == {};
    } else {
      var rest := ps - {n - 1};
      assert rest <= Range(n - 1);
      CountRemoved(f, n - 1, rest);
      SumToExt(n - 1, RemovedBy(f, ps), RemovedBy(f, rest));
      LastRemoved(f, n, ps);
    }
  }

  lemma LastRemoved(f: DataFile, n: nat, ps: set<int>)
    requires 1 <= n <= |f.rows|
    ensures |SumTo(n, RemovedBy(f, ps))| == |SumTo(n - 1, RemovedBy(f, ps))| + |ps| - |ps - {n - 1}|
  {
    var last := RemovedBy(f, ps)(n - 1);
    if n - 1 in ps {
      assert |last| == 1 && |ps| == |ps - {n - 1}| + 1;
    } else {
      assert last == multiset{} && ps - {n - 1} == ps;
    }
  }

  /** A live file shows, at the head, its live positions. */
  lemma ShownIsAlive(c: Catalog, k: nat, s: int)
    requires Wf(c) && Settled(c, k) && c.head <= s
    ensures Shown(c, c.files[k], s) == Removed(c.files[k], Alive(c, c.files[k]))
    ensures |Shown(c, c.files[k], s)| == |Alive(c, c.files[k])|
  {
    var f := c.files[k];
    assert Deletable(c, k, {}, Nowhere);
    StillAlive(c, k, {}, Nowhere, s);
    assert f in c.files;
    forall i | 0 <= i < |f.rows|
      ensures RowsBy(f, DeadBy(c, f.id, s), s)(i) == RemovedBy(f, Alive(c, f))(i)
    {
      DeadAtHead(c, k, i);
    }
    SumToExt(|f.rows|, RowsBy(f, DeadBy(c, f.id, s), s), RemovedBy(f, Alive(c, f)));
    CountRemoved(f, |f.rows|, Alive(c, f));
  }

  // ----- One statement, many files -----

  /** A statement's deletion from file `k`, by `route`. */
  datatype Deletion = Deletion(k: nat, ps: set<int>, route: Route)

  /** One commit records every file's deletion. */
  ghost predicate CommitsAll(c: Catalog, ds: seq<Deletion>, c': Catalog)
    decreases |ds|
  {
    if ds == [] then c' == c
    else ds[0].k < |c.files| && exists mid ::
      Commits(c, ds[0].k, ds[0].ps, ds[0].route, mid) && CommitsAll(mid, ds[1..], c')
  }

  ghost predicate Statement(c: Catalog, ds: seq<Deletion>) {
    && (forall i | 0 <= i < |ds| :: Deletable(c, ds[i].k, ds[i].ps, ds[i].route))
    && forall i, j | 0 <= i < j < |ds| :: ds[i].k != ds[j].k
  }

  ghost predicate SameFor(c: Catalog, c': Catalog, g: int) {
    && (forall d: DeleteFile | d.file == g :: d in c.deletes <==> d in c'.deletes)
    && (forall d: InlinedDelete | d.file == g :: d in c.inlinedDeletes <==> d in c'.inlinedDeletes)
  }

  lemma SameForDead(c: Catalog, c': Catalog, g: int, p: int, s: int)
    requires SameFor(c, c', g)
    ensures Dead(c, g, p, s) == Dead(c', g, p, s)
  {
    assert InlinedDead(c, g, p, s) == InlinedDead(c', g, p, s) by {
      assert forall b :: InlinedDelete(g, p, b) in c.inlinedDeletes <==> InlinedDelete(g, p, b) in c'.inlinedDeletes;
    }
    assert forall d | Joins(d, g, s) :: d in c.deletes <==> d in c'.deletes;
  }

  /** A file's commit touches no other file's deletions. */
  lemma CommitsElsewhere(c: Catalog, k: nat, ps: set<int>, route: Route, c': Catalog, g: int)
    requires Wf(c) && Deletable(c, k, ps, route) && Commits(c, k, ps, route, c') && g != c.files[k].id
    ensures SameFor(c, c', g)
  {
    if route.Rewrite? {
      var ex, b :| ex in c.deletes && ex.file == c.files[k].id && ex.end.None?
        && IsFirst(RewrittenDates(c, ex, ps), b) && c' == RewriteCommit(c, ex, ps, b);
      RewrittenMembers(c, k, ps, ex, b);
    } else if route.Cumulative? {
      var ex :| ex in c.deletes && ex.file == c.files[k].id && ex.end.None? && c' == CumulativeCommit(c, ex, ps);
      CumulativeOthers(c, ex, ps, g);
    }
  }

  lemma CumulativeOthers(c: Catalog, ex: DeleteFile, ps: set<int>, g: int)
    requires g != ex.file
    ensures SameFor(c, CumulativeCommit(c, ex, ps), g)
  {
    var c' := CumulativeCommit(c, ex, ps);
    EndedMembers(c.deletes, ex.file, c.head);
    assert forall d ::
           d in c'.deletes <==> d in EndDeletes(c.deletes, ex.file, c.head) || d == CumulativeFile(c, ex, ps);
    assert forall d | d in c.deletes && d.file == g :: EndDelete(d, ex.file, c.head) == d;
  }

  /** The route of a writer that does not stage row mutations. */
  function UnstagedRoute(c: Catalog, f: DataFile, ps: set<int>): Route {
    if ps == {} then Nowhere else if FindLive(c.deletes, f.id).None? then New else Cumulative
  }

  /** It fits too, and a commit of it is reached. */
  lemma UnstagedFits(c: Catalog, k: nat, ps: set<int>)
    requires Wf(c) && Settled(c, k) && ps <= Alive(c, c.files[k])
    ensures Deletable(c, k, ps, UnstagedRoute(c, c.files[k], ps))
    ensures exists c' :: Commits(c, k, ps, UnstagedRoute(c, c.files[k], ps), c')
  {
    var f := c.files[k];
    assert f in c.files;
    DeadIsNotAlive(c, k);
    var live := FindLive(c.deletes, f.id);
    if ps != {} {
      if live.None? {
        assert forall d | d in c.deletes && d.file == f.id :: HasLiveDelete(c, f.id);
        assert Commits(c, k, ps, New, NewCommit(c, f.id, ps));
      } else {
        assert Commits(c, k, ps, Cumulative, CumulativeCommit(c, live.value, ps));
      }
    } else {
      assert Commits(c, k, ps, Nowhere, c);
    }
  }

  lemma DeletableElsewhere(c: Catalog, k: nat, ps: set<int>, route: Route, c': Catalog, d: Deletion)
    requires Wf(c) && Deletable(c, k, ps, route) && Commits(c, k, ps, route, c')
    requires Deletable(c, d.k, d.ps, d.route) && d.k != k
    ensures Deletable(c', d.k, d.ps, d.route) && c'.files[d.k] == c.files[d.k]
  {
    var f := c.files[d.k];
    assert f.id != c.files[k].id by {
      assert if d.k < k then c.files[d.k].id != c.files[k].id else c.files[k].id != c.files[d.k].id;
    }
    CommitsElsewhere(c, k, ps, route, c', f.id);
    forall p
      ensures Dead(c', f.id, p, c.head) == Dead(c, f.id, p, c.head)
    {
      SameForDead(c, c', f.id, p, c.head);
    }
  }

  ghost function RemovedOf(files: seq<DataFile>): Deletion -> multiset<Row> {
    (d: Deletion) => if d.k < |files| then Removed(files[d.k], d.ps) else multiset{}
  }

  lemma StatementStep(c: Catalog, ds: seq<Deletion>, mid: Catalog)
    requires Wf(c) && Statement(c, ds) && ds != [] && Commits(c, ds[0].k, ds[0].ps, ds[0].route, mid)
    ensures Statement(mid, ds[1..])
    ensures Sum(ds[1..], RemovedOf(mid.files)) == Sum(ds[1..], RemovedOf(c.files))
  {
    var d := ds[0];
    forall i | 0 <= i < |ds[1..]|
      ensures Deletable(mid, ds[1..][i].k, ds[1..][i].ps, ds[1..][i].route)
      ensures RemovedOf(mid.files)(ds[1..][i]) == RemovedOf(c.files)(ds[1..][i])
    {
      DeletableElsewhere(c, d.k, d.ps, d.route, mid, ds[i + 1]);
    }
    SumExt(ds[1..], RemovedOf(mid.files), RemovedOf(c.files));
  }

  ghost function RemovedFrom(c: Catalog, ds: seq<Deletion>, s: int): multiset<Row> {
    if c.head <= s then Sum(ds, RemovedOf(c.files)) else multiset{}
  }

  lemma FirstCommit(c: Catalog, ds: seq<Deletion>, c': Catalog, s: int) returns (mid: Catalog)
    requires Wf(c) && Statement(c, ds) && ds != [] && CommitsAll(c, ds, c')
    ensures Wf(mid) && Statement(mid, ds[1..]) && CommitsAll(mid, ds[1..], c')
    ensures mid.head == c.head && mid.inlined == c.inlined
    ensures Scan(c, s) + RemovedFrom(mid, ds[1..], s) == Scan(mid, s) + RemovedFrom(c, ds, s)
  {
    var d := ds[0];
    mid :| Commits(c, d.k, d.ps, d.route, mid) && CommitsAll(mid, ds[1..], c');
    CommitEffect(c, ds, mid, s);
  }

  lemma CommitEffect(c: Catalog, ds: seq<Deletion>, mid: Catalog, s: int)
    requires Wf(c) && Statement(c, ds) && ds != [] && Commits(c, ds[0].k, ds[0].ps, ds[0].route, mid)
    ensures Wf(mid) && Statement(mid, ds[1..])
    ensures mid.head == c.head && mid.inlined == c.inlined
    ensures Scan(c, s) + RemovedFrom(mid, ds[1..], s) == Scan(mid, s) + RemovedFrom(c, ds, s)
  {
    var d := ds[0];
    assert Deletable(c, d.k, d.ps, d.route);
    StatementStep(c, ds, mid);
    RecordedDeletions(c, d.k, d.ps, d.route, mid, s);
    if c.head <= s {
      assert RemovedFrom(c, ds, s) == Removed(c.files[d.k], d.ps) + RemovedFrom(mid, ds[1..], s);
    }
  }

  /** A statement over any number of files leaves every earlier snapshot unchanged and
      removes exactly the rows it names from its commit on. */
  lemma {:induction false} StatementDeletes(c: Catalog, ds: seq<Deletion>, c': Catalog, s: int)
    requires Wf(c) && Statement(c, ds) && CommitsAll(c, ds, c')
    ensures Wf(c') && c'.head == c.head && c'.inlined == c.inlined
    ensures Scan(c, s) == Scan(c', s) + RemovedFrom(c, ds, s)
    decreases |ds|
  {
    if ds != [] {
      var mid := FirstCommit(c, ds, c', s);
      StatementDeletes(mid, ds[1..], c', s);
      Cancel(Scan(c, s), Scan(c', s) + RemovedFrom(c, ds, s), RemovedFrom(mid, ds[1..], s));
    }
  }

  // ----- Nothing is left -----

  predicate AllSettled(c: Catalog) {
    && (forall k: nat | k < |c.files| && c.files[k].end.None? :: Settled(c, k) && Inside(c, c.files[k]))
    && forall r | r in c.inlined :: r.begin < c.head
  }

  /** Every file settled before the statement. */
  predicate Ready(c: Catalog) {
    Wf(c) && AllSettled(c)
  }

  /** The catalog's counts leave rows of the file. */
  predicate Reached(c: Catalog, f: DataFile) {
    |f.rows| > |FromFile(c, f.id)| + |Inlined(c, f.id)|
  }

  function PlannedFor(c: Catalog, inlineLimit: nat, k: nat): Deletion
    requires k < |c.files|
  {
    Deletion(k, PlanOf(c, c.files[k], inlineLimit).positions, PlanOf(c, c.files[k], inlineLimit).route)
  }

  /** The deletions planned for the first `k` files. */
  function DeletionsTo(c: Catalog, inlineLimit: nat, k: nat): seq<Deletion>
    requires k <= |c.files|
  {
    if k == 0 then []
    else if c.files[k - 1].end.None? then DeletionsTo(c, inlineLimit, k - 1) + [PlannedFor(c, inlineLimit, k - 1)]
    else DeletionsTo(c, inlineLimit, k - 1)
  }

  function CountOf(c: Catalog, inlineLimit: nat, k: nat): nat
    requires k < |c.files|
  {
    if c.files[k].end.None? then PlanOf(c, c.files[k], inlineLimit).count else 0
  }

  /** The rows counted in the first `k` files. */
  function CountTo(c: Catalog, inlineLimit: nat, k: nat): nat
    requires k <= |c.files|
  {
    if k == 0 then 0
    else CountTo(c, inlineLimit, k - 1) + CountOf(c, inlineLimit, k - 1)
  }

  /** Plans the whole statement from the catalog's counts. */
  method PlanAll(c: Catalog, inlineLimit: nat) returns (ds: seq<Deletion>, total: nat)
    ensures ds == DeletionsTo(c, inlineLimit, |c.files|)
    ensures total == LiveRows(c.inlined) + CountTo(c, inlineLimit, |c.files|)
  {
    ds, total := [], LiveRows(c.inlined);
    for k := 0 to |c.files|
      invariant ds == DeletionsTo(c, inlineLimit, k)
      invariant total == LiveRows(c.inlined) + CountTo(c, inlineLimit, k)
    {
      if c.files[k].end.None? {
        var plan := PlanOf(c, c.files[k], inlineLimit);
        ds, total := ds + [Deletion(k, plan.positions, plan.route)], total + plan.count;
      }
    }
  }

  lemma DeadIsNotAlive(c: Catalog, k: nat)
    requires Wf(c) && Settled(c, k)
    ensures forall p | 0 <= p < |c.files[k].rows| :: Dead(c, c.files[k].id, p, c.head) <==> p !in Alive(c, c.files[k])
  {
    forall p | 0 <= p < |c.files[k].rows|
      ensures Dead(c, c.files[k].id, p, c.head) <==> p !in Alive(c, c.files[k])
    {
      DeadAtHead(c, k, p);
    }
  }

  /** A file's plan takes every live row of it if the counts leave any, else none. */
  lemma PlanFits(c: Catalog, k: nat, inlineLimit: nat)
    requires Wf(c) && Settled(c, k) && Inside(c, c.files[k])
    ensures var plan := PlanOf(c, c.files[k], inlineLimit);
            && Deletable(c, k, plan.positions, plan.route)
            && plan.positions == if Reached(c, c.files[k]) then Alive(c, c.files[k]) else {}
  {
    var f := c.files[k];
    PlanRoutes(c, f, inlineLimit);
    if Reached(c, f) {
      RouteFits(c, k, Alive(c, f), inlineLimit);
      RouteAlike(c, k, Alive(c, f), RouteOf(TargetOf(c, f), |Alive(c, f)|, inlineLimit),
        PlanOf(c, f, inlineLimit).route);
    }
  }

  lemma PlanRoutes(c: Catalog, f: DataFile, inlineLimit: nat)
    ensures var plan := PlanOf(c, f, inlineLimit);
            && plan.positions == (if Reached(c, f) then Alive(c, f) else {})
            && (!Reached(c, f) ==> plan.route.Nowhere?)
            && (Reached(c, f) ==> plan.route == RouteOf(TargetOf(c, f), |Alive(c, f)|, inlineLimit) || plan.route.Drop?)
  {
  }

  /** Deleting every live row, a file may also be dropped; deleting none, left alone. */
  lemma RouteAlike(c: Catalog, k: nat, ps: set<int>, fitting: Route, route: Route)
    requires Wf(c) && Settled(c, k) && Deletable(c, k, ps, fitting)
    requires route == fitting || (route.Nowhere? && ps == {}) || (route.Drop? && ps == Alive(c, c.files[k]))
    ensures Deletable(c, k, ps, route)
  {
    DeadIsNotAlive(c, k);
  }

  /** What the statement takes of a file, and what it leaves. */
  ghost function TakenBy(c: Catalog, s: int): DataFile -> multiset<Row> {
    (f: DataFile) => if f.end.None? && Reached(c, f) then Shown(c, f, s) else multiset{}
  }

  ghost function LeftBy(c: Catalog, s: int): DataFile -> multiset<Row> {
    (f: DataFile) => if f.end.None? && !Reached(c, f) then Shown(c, f, s) else multiset{}
  }

  lemma RemovedNone(f: DataFile)
    ensures Removed(f, {}) == multiset{}
  {
    SumToEmpty(|f.rows|, RemovedBy(f, {}));
  }

  /** One file's plan deletes what it takes. */
  lemma PlanRemoves(c: Catalog, inlineLimit: nat, k: nat, s: int)
    requires Ready(c) && k < |c.files| && c.head <= s
    ensures c.files[k].end.None? ==> RemovedOf(c.files)(PlannedFor(c, inlineLimit, k)) == TakenBy(c, s)(c.files[k])
    ensures c.files[k].end.Some? ==> Shown(c, c.files[k], s) == multiset{}
  {
    assert c.files[k] in c.files;
    if c.files[k].end.None? {
      PlanFits(c, k, inlineLimit);
      ShownIsAlive(c, k, s);
      RemovedNone(c.files[k]);
    }
  }

  lemma ReadyFits(c: Catalog, inlineLimit: nat, k: nat)
    requires Ready(c) && k < |c.files| && c.files[k].end.None?
    ensures var d := PlannedFor(c, inlineLimit, k); Deletable(c, d.k, d.ps, d.route)
  {
    assert c.files[k] in c.files;
    PlanFits(c, k, inlineLimit);
  }

  /** The plans are of live files, each file's own, in order. */
  lemma {:induction false} PlansInOrder(c: Catalog, inlineLimit: nat, k: nat, ds: seq<Deletion>)
    requires k <= |c.files| && ds == DeletionsTo(c, inlineLimit, k)
    ensures forall i | 0 <= i < |ds| :: ds[i].k < k && IsPlanned(c, inlineLimit, ds[i])
    ensures forall i, j | 0 <= i < j < |ds| :: ds[i].k < ds[j].k
  {
    if k > 0 {
      PlansInOrder(c, inlineLimit, k - 1, DeletionsTo(c, inlineLimit, k - 1));
    }
  }

  predicate IsPlanned(c: Catalog, inlineLimit: nat, d: Deletion) {
    d.k < |c.files| && c.files[d.k].end.None? && d == PlannedFor(c, inlineLimit, d.k)
  }

  lemma PlansAreStatement(c: Catalog, inlineLimit: nat)
    requires Ready(c)
    ensures Statement(c, DeletionsTo(c, inlineLimit, |c.files|))
  {
    var ds := DeletionsTo(c, inlineLimit, |c.files|);
    PlansInOrder(c, inlineLimit, |c.files|, ds);
    forall i | 0 <= i < |ds|
      ensures Deletable(c, ds[i].k, ds[i].ps, ds[i].route)
    {
      assert IsPlanned(c, inlineLimit, ds[i]);
      ReadyFits(c, inlineLimit, ds[i].k);
    }
  }

  ghost function RemovedTo(c: Catalog, inlineLimit: nat): int -> multiset<Row> {
    k => if 0 <= k <= |c.files| then Sum(DeletionsTo(c, inlineLimit, k), RemovedOf(c.files)) else multiset{}
  }

  lemma RemovedIs(c: Catalog, inlineLimit: nat, k: nat)
    requires k <= |c.files|
    ensures RemovedTo(c, inlineLimit)(k) == Sum(DeletionsTo(c, inlineLimit, k), RemovedOf(c.files))
  {
  }

  lemma RemovedGrows(c: Catalog, inlineLimit: nat, k: nat, s: int)
    requires Ready(c) && k < |c.files| && c.head <= s
    ensures GrowsBy(RemovedTo(c, inlineLimit), c.files, TakenBy(c, s), k)
  {
    PlanStep(c, inlineLimit, k, s);
    RemovedIs(c, inlineLimit, k);
    RemovedIs(c, inlineLimit, k + 1);
    GrowsFrom(RemovedTo(c, inlineLimit), c.files, TakenBy(c, s), k,
              Sum(DeletionsTo(c, inlineLimit, k), RemovedOf(c.files)));
  }

  lemma PlansRemove(c: Catalog, inlineLimit: nat, s: int)
    requires Ready(c) && c.head <= s
    ensures Sum(DeletionsTo(c, inlineLimit, |c.files|), RemovedOf(c.files)) == Sum(c.files, TakenBy(c, s))
  {
    var removed := RemovedTo(c, inlineLimit);
    RemovedIs(c, inlineLimit, 0);
    RemovedIs(c, inlineLimit, |c.files|);
    forall j | 0 <= j < |c.files|
      ensures GrowsBy(removed, c.files, TakenBy(c, s), j)
    {
      RemovedGrows(c, inlineLimit, j, s);
    }
    Telescopes(removed, c.files, TakenBy(c, s), |c.files|);
    assert c.files[..|c.files|] == c.files;
  }

  lemma PlanStep(c: Catalog, inlineLimit: nat, k: nat, s: int)
    requires Ready(c) && k < |c.files| && c.head <= s
    ensures Sum(DeletionsTo(c, inlineLimit, k + 1), RemovedOf(c.files))
         == Sum(DeletionsTo(c, inlineLimit, k), RemovedOf(c.files)) + TakenBy(c, s)(c.files[k])
  {
    PlanRemoves(c, inlineLimit, k, s);
    NextDeletion(c, inlineLimit, k);
  }

  lemma NextDeletion(c: Catalog, inlineLimit: nat, k: nat)
    requires k < |c.files|
    ensures Sum(DeletionsTo(c, inlineLimit, k + 1), RemovedOf(c.files))
         == Sum(DeletionsTo(c, inlineLimit, k), RemovedOf(c.files))
            + (if c.files[k].end.None? then RemovedOf(c.files)(PlannedFor(c, inlineLimit, k)) else multiset{})
  {
    if c.files[k].end.None? {
      SumAppend(DeletionsTo(c, inlineLimit, k), PlannedFor(c, inlineLimit, k), RemovedOf(c.files));
    }
  }

  /** No position is deleted in both encodings of the first `k` files, or nothing is left
      of those where one is. */
  predicate ExactTo(c: Catalog, k: nat)
    requires k <= |c.files|
  {
    forall j: nat | j < k && c.files[j].end.None? :: Exact(c, c.files[j])
  }

  ghost predicate CountFits(c: Catalog, inlineLimit: nat, j: nat, g: DataFile -> multiset<Row>) {
    j < |c.files| &&
    var count := CountOf(c, inlineLimit, j);
    count <= |g(c.files[j])| && (count == |g(c.files[j])| <==> IsExact(c)(c.files[j]))
  }

  ghost function IsExact(c: Catalog): DataFile -> bool {
    (f: DataFile) => f.end.None? ==> Exact(c, f)
  }

  ghost function Counted(c: Catalog, inlineLimit: nat): int -> int {
    k => if 0 <= k <= |c.files| then CountTo(c, inlineLimit, k) else 0
  }

  lemma CountedNext(c: Catalog, inlineLimit: nat, k: nat)
    requires k < |c.files|
    ensures Counted(c, inlineLimit)(k + 1) - Counted(c, inlineLimit)(k) == CountOf(c, inlineLimit, k)
  {
  }

  lemma CountsAt(c: Catalog, inlineLimit: nat, k: nat)
    requires Ready(c) && k < |c.files|
    ensures CountsBy(Counted(c, inlineLimit), c.files, ShownBy(c, c.head), IsExact(c), k)
  {
    CountedNext(c, inlineLimit, k);
    PlanCounts(c, inlineLimit, k);
  }

  lemma AllExact(c: Catalog)
    ensures ExactTo(c, |c.files|) <==> forall j | 0 <= j < |c.files| :: IsExact(c)(c.files[j])
  {
  }

  lemma PlansCount(c: Catalog, inlineLimit: nat)
    requires Ready(c)
    ensures CountTo(c, inlineLimit, |c.files|) <= |Sum(c.files, ShownBy(c, c.head))|
    ensures CountTo(c, inlineLimit, |c.files|) == |Sum(c.files, ShownBy(c, c.head))| <==> ExactTo(c, |c.files|)
  {
    var counted := Counted(c, inlineLimit);
    forall j | 0 <= j < |c.files|
      ensures CountsBy(counted, c.files, ShownBy(c, c.head), IsExact(c), j)
    {
      CountsAt(c, inlineLimit, j);
    }
    CountsUp(counted, c.files, ShownBy(c, c.head), IsExact(c), |c.files|);
    assert c.files[..|c.files|] == c.files;
    AllExact(c);
  }

  lemma EndedShows(c: Catalog, f: DataFile, s: int)
    requires Wf(c) && f in c.files && f.end.Some? && c.head <= s
    ensures Shown(c, f, s) == multiset{}
  {
  }

  lemma PlanCounts(c: Catalog, inlineLimit: nat, k: nat)
    requires Ready(c) && k < |c.files|
    ensures CountFits(c, inlineLimit, k, ShownBy(c, c.head))
  {
    var f := c.files[k];
    if f.end.None? {
      CountIsExact(c, f, inlineLimit);
      ShownIsAlive(c, k, c.head);
      CountsLive(c, inlineLimit, k, |Shown(c, f, c.head)|);
    } else {
      EndedShows(c, f, c.head);
    }
  }

  lemma CountsLive(c: Catalog, inlineLimit: nat, k: nat, shown: nat)
    requires k < |c.files| && c.files[k].end.None? && shown == |Alive(c, c.files[k])|
    requires PlanOf(c, c.files[k], inlineLimit).count <= shown
    requires PlanOf(c, c.files[k], inlineLimit).count == shown <==> Exact(c, c.files[k])
    ensures CountOf(c, inlineLimit, k) <= shown && (CountOf(c, inlineLimit, k) == shown <==> IsExact(c)(c.files[k]))
  {
  }

  /** The statement reports the number of rows visible before it if and only if no file
      with a row left has a position deleted in both encodings; else it reports fewer. */
  lemma DeleteAllCounts(c: Catalog, inlineLimit: nat)
    requires Ready(c)
    ensures LiveRows(c.inlined) + CountTo(c, inlineLimit, |c.files|) <= |Scan(c, c.head)|
    ensures LiveRows(c.inlined) + CountTo(c, inlineLimit, |c.files|) == |Scan(c, c.head)| <==> ExactTo(c, |c.files|)
  {
    PlansCount(c, inlineLimit);
    LiveRowsCount(c.inlined, c.head);
    ScanIsShown(c, c.head);
  }

  lemma {:induction false} EndedSum(rows: seq<InlinedRow>, ended: seq<InlinedRow>, t: int, s: int)
    requires |rows| == |ended| && forall i | 0 <= i < |rows| :: ended[i] == EndRow(rows[i], t)
    requires forall r | r in rows :: Lifetime(r.begin, r.end, t)
    ensures Sum(ended, InlinedBy(s)) == if s < t then Sum(rows, InlinedBy(s)) else multiset{}
  {
    if rows != [] {
      assert rows[0] in rows;
      EndedSum(rows[1..], ended[1..], t, s);
    }
  }

  lemma EndInlinedWf(c: Catalog)
    requires Wf(c) && forall r | r in c.inlined :: r.begin < c.head
    ensures Wf(EndInlined(c))
  {
    var c' := EndInlined(c);
    SameDeletesStay(c, c');
    forall r | r in c'.inlined
      ensures Lifetime(r.begin, r.end, c'.head)
    {
      var i :| 0 <= i < |c.inlined| && c'.inlined[i] == r;
      assert c.inlined[i] in c.inlined;
    }
  }

  /** The file part of a scan does not see the inlined rows. */
  lemma FilesPart(c: Catalog, c': Catalog, s: int)
    requires Disjoint(c.deletes) && c' == c.(inlined := c'.inlined)
    ensures Scan(c', s) == Sum(c.files, ShownBy(c, s)) + Sum(c'.inlined, InlinedBy(s))
  {
    ScanIsShown(c', s);
    forall f | f in c.files
      ensures Shown(c', f, s) == Shown(c, f, s)
    {
      ShownExt(c', c, f, s);
    }
    SumExt(c.files, ShownBy(c', s), ShownBy(c, s));
  }

  /** `DELETE` without `WHERE`: every earlier snapshot reads what it read, and from the
      commit on only the files the counts show as empty show their rows. */
  lemma DeleteAllLeaves(c: Catalog, inlineLimit: nat, mid: Catalog, s: int)
    requires Ready(c) && CommitsAll(c, DeletionsTo(c, inlineLimit, |c.files|), mid)
    ensures Wf(EndInlined(mid))
    ensures Scan(EndInlined(mid), s) == if s < c.head then Scan(c, s) else Sum(c.files, LeftBy(c, s))
  {
    var ds, c' := DeletionsTo(c, inlineLimit, |c.files|), EndInlined(mid);
    PlansAreStatement(c, inlineLimit);
    StatementDeletes(c, ds, mid, s);
    EndInlinedWf(mid);
    EndedSum(mid.inlined, c'.inlined, c.head, s);
    FilesPart(mid, c', s);
    FilesPart(mid, mid, s);
    if c.head <= s {
      AllTaken(c, inlineLimit, s);
      WhatIsLeft(Sum(c.files, TakenBy(c, s)), Sum(c.files, LeftBy(c, s)), Sum(c.inlined, InlinedBy(s)),
        Sum(mid.files, ShownBy(mid, s)));
    }
  }

  lemma TakenOrLeft(c: Catalog, s: int)
    requires Ready(c) && c.head <= s
    ensures Sum(c.files, ShownBy(c, s)) == Sum(c.files, TakenBy(c, s)) + Sum(c.files, LeftBy(c, s))
  {
    forall f | f in c.files
      ensures ShownBy(c, s)(f) == TakenBy(c, s)(f) + LeftBy(c, s)(f)
    {
      var k :| 0 <= k < |c.files| && c.files[k] == f;
      PlanRemoves(c, 0, k, s);
    }
    SumAdd(c.files, ShownBy(c, s), TakenBy(c, s), LeftBy(c, s));
  }

  lemma AllTaken(c: Catalog, inlineLimit: nat, s: int)
    requires Ready(c) && c.head <= s
    ensures RemovedFrom(c, DeletionsTo(c, inlineLimit, |c.files|), s) == Sum(c.files, TakenBy(c, s))
    ensures Scan(c, s) == Sum(c.files, TakenBy(c, s)) + Sum(c.files, LeftBy(c, s)) + Sum(c.inlined, InlinedBy(s))
  {
    PlansRemove(c, inlineLimit, s);
    FilesPart(c, c, s);
    TakenOrLeft(c, s);
  }

  lemma WhatIsLeft<R>(taken: multiset<R>, left: multiset<R>, rows: multiset<R>, shown: multiset<R>)
    requires taken + left + rows == (shown + rows) + taken
    ensures shown == left
  {
    assert taken + left + rows == left + (rows + taken) && (shown + rows) + taken == shown + (rows + taken);
    Cancel(left, shown, rows + taken);
  }

  /** Nothing is visible from the commit on if and only if the counts leave rows of every
      live file that has any. */
  lemma DeleteAllEmpties(c: Catalog, inlineLimit: nat, mid: Catalog, s: int)
    requires Ready(c) && CommitsAll(c, DeletionsTo(c, inlineLimit, |c.files|), mid) && c.head <= s
    ensures Scan(EndInlined(mid), s) == multiset{} <==>
            forall k: nat | k < |c.files| && c.files[k].end.None? :: Reached(c, c.files[k])
              || Alive(c, c.files[k]) == {}
  {
    DeleteAllLeaves(c, inlineLimit, mid, s);
    SumNothing(c.files, LeftBy(c, s));
    forall k: nat | k < |c.files|
      ensures LeftBy(c, s)(c.files[k]) == multiset{} <==>
              c.files[k].end.None? ==> Reached(c, c.files[k]) || Alive(c, c.files[k]) == {}
    {
      if c.files[k].end.None? {
        ShownIsAlive(c, k, s);
        RemovedNone(c.files[k]);
        assert Alive(c, c.files[k]) == {} <==> |Alive(c, c.files[k])| == 0;
      }
    }
    assert forall f | f in c.files :: exists k: nat | k < |c.files| :: c.files[k] == f;
  }

  /** No position deleted twice is enough for both. */
  lemma ExactIsReached(c: Catalog, f: DataFile)
    requires Inside(c, f) && Exact(c, f)
    ensures Reached(c, f) || Alive(c, f) == {}
  {
    CountIsExact(c, f, 0);
  }
}
