/** The change ledger against what the commits do: each step of a table's history is recorded
    with its kind of change, and a snapshot whose kinds are not row changes is one whose
    steps changed no row. So over every run of commits, a window in which nothing is
    detected reads the same at both its ends. */
module ChangeHistory {
  import opened Bags
  import opened Lake
  import opened FlushDeletes
  import opened Deletes
  import opened DeleteAll
  import opened History
  import C = ChangeDetection
  import H = Chains

  // ----- The kinds of steps -----

  type Row = Option<seq<C.Token>>

  /** The statement's deletions of file rows, by where they went. */
  predicate RecordsRoutes(made: Row, table: int, ds: seq<Deletion>) {
    forall i | 0 <= i < |ds| ::
      match ds[i].route
      case Nowhere => true
      case Inline => C.Has(made, table, C.Kind.InlinedDelete)
      case _ => C.Has(made, table, C.Deleted)
  }

  ghost predicate DeletesRecorded(c: Catalog, c': Catalog, made: Row, table: int) {
    exists ds :: Statement(c, ds) && CommitsAll(c, ds, c') && RecordsRoutes(made, table, ds)
  }

  /** The ledger row of the commit records the step's kind: `table_storage_tokens`, and the
      tokens of flushes and compactions. */
  ghost predicate Recorded(c: Catalog, c': Catalog, made: Row, table: int) {
    || c' == c
    || ((Merges(c, c') || RewritesFile(c, c')) && C.Has(made, table, C.Compaction))
    || ((FlushesRows(c, c') || FlushesDeletes(c, c')) && C.Has(made, table, C.Flush))
    || ((exists rows :: c' == InsertFile(c, rows)) && C.Has(made, table, C.Inserted))
    || ((exists rows :: c' == InsertInlined(c, rows)) && C.Has(made, table, C.InlinedInsert))
    || (EndsRows(c, c') && C.Has(made, table, C.Kind.InlinedDelete))
    || DeletesRecorded(c, c', made, table)
  }

  /** A step of a commit with a ledger row is recorded; without one it may be any. */
  ghost predicate Steps(c: Catalog, c': Catalog, made: Row, table: int) {
    if made.Some? then Recorded(c, c', made, table)
    else c' == c || Maintains(c, c') || DeletesRows(c, c') || Inserts(c, c') || EndsRows(c, c')
  }

  ghost predicate StepsAt(steps: seq<Catalog>, i: nat, made: Row, table: int) {
    i + 1 < |steps| ==> Steps(steps[i], steps[i + 1], made, table)
  }

  /** The steps of one commit from `c` to `c'`. */
  ghost predicate IsCommit(c: Catalog, c': Catalog, made: Row, table: int, steps: seq<Catalog>) {
    && steps != [] && steps[0] == Begin(c) && steps[|steps| - 1] == c'
    && forall i: nat :: StepsAt(steps, i, made, table)
  }

  ghost predicate Commits(c: Catalog, c': Catalog, made: Row, table: int) {
    exists steps :: IsCommit(c, c', made, table, steps)
  }

  lemma StepIsNext(c: Catalog, c': Catalog, made: Row, table: int)
    requires Steps(c, c', made, table)
    ensures c' == c || Next(c, c')
  {
    if made.Some? && DeletesRecorded(c, c', made, table) {
      var ds :| Statement(c, ds) && CommitsAll(c, ds, c') && RecordsRoutes(made, table, ds);
      assert DeletesRows(c, c');
    }
  }

  // ----- Steps of kinds that are no row changes -----

  /** A statement none of whose deletions went anywhere changes nothing. */
  lemma {:induction false} NowhereKeeps(c: Catalog, ds: seq<Deletion>, c': Catalog)
    requires CommitsAll(c, ds, c') && forall i | 0 <= i < |ds| :: ds[i].route.Nowhere?
    ensures c' == c
    decreases |ds|
  {
    if ds != [] {
      var mid :| Deletes.Commits(c, ds[0].k, ds[0].ps, ds[0].route, mid) && CommitsAll(mid, ds[1..], c');
      assert ds[0].route.Nowhere?;
      NowhereKeeps(mid, ds[1..], c');
    }
  }

  lemma NoRowKind(made: Row, table: int)
    requires !C.Says(made, table).Changed?
    ensures !C.Has(made, table, C.Inserted) && !C.Has(made, table, C.Deleted) && !C.Has(made, table, C.InlinedInsert)
    ensures !C.Has(made, table, C.Kind.InlinedDelete) && made.Some?
  {
    C.SaysExactly(made, table);
  }

  /** A step recorded with no row change leaves every snapshot as it was. */
  lemma UnreportedStep(c: Catalog, c': Catalog, made: Row, table: int, s: int)
    requires Wf(c) && Steps(c, c', made, table) && !C.Says(made, table).Changed?
    ensures Wf(c') && c'.head == c.head && Scan(c', s) == Scan(c, s)
  {
    NoRowKind(made, table);
    if c' != c {
      if DeletesRecorded(c, c', made, table) {
        var ds: seq<Deletion> :| Statement(c, ds) && CommitsAll(c, ds, c') && RecordsRoutes(made, table, ds);
        assert forall i | 0 <= i < |ds| :: ds[i].route.Nowhere?;
        NowhereKeeps(c, ds, c');
      } else {
        MaintenanceIsInvisible(c, c', s);
      }
    }
  }

  ghost predicate Carries(xs: seq<Catalog>, good: Catalog -> bool, i: nat) {
    i + 1 < |xs| && good(xs[i]) ==> good(xs[i + 1])
  }

  lemma {:induction false} CarriedTo(xs: seq<Catalog>, good: Catalog -> bool, n: nat)
    requires n < |xs| && good(xs[0]) && forall i: nat :: Carries(xs, good, i)
    ensures good(xs[n])
  {
    if n > 0 {
      CarriedTo(xs, good, n - 1);
      assert Carries(xs, good, n - 1);
    }
  }

  ghost function ReadsAs(head: int, s: int, rows: multiset<Lake.Row>): Catalog -> bool {
    (c: Catalog) => Wf(c) && c.head == head && Scan(c, s) == rows
  }

  lemma UnreportedAt(steps: seq<Catalog>, i: nat, made: Row, table: int, s: int, head: int, rows: multiset<Lake.Row>)
    requires StepsAt(steps, i, made, table) && !C.Says(made, table).Changed?
    ensures Carries(steps, ReadsAs(head, s, rows), i)
  {
    if i + 1 < |steps| && ReadsAs(head, s, rows)(steps[i]) {
      UnreportedStep(steps[i], steps[i + 1], made, table, s);
    }
  }

  lemma UnreportedCommit(c: Catalog, c': Catalog, made: Row, table: int, s: int)
    requires Wf(c) && Commits(c, c', made, table) && !C.Says(made, table).Changed?
    ensures Wf(c') && c'.head == c.head + 1 && Scan(c', s) == Scan(c, s)
  {
    var steps :| IsCommit(c, c', made, table, steps);
    BeginWf(c, s);
    var good := ReadsAs(c.head + 1, s, Scan(c, s));
    forall i: nat
      ensures Carries(steps, good, i)
    {
      assert StepsAt(steps, i, made, table);
      UnreportedAt(steps, i, made, table, s, c.head + 1, Scan(c, s));
    }
    CarriedTo(steps, good, |steps| - 1);
  }

  // ----- Past the head a table reads as at the head -----

  lemma DeadFromHead(c: Catalog, g: int, p: int, s: int)
    requires Wf(c) && c.head <= s
    ensures Dead(c, g, p, s) == Dead(c, g, p, c.head)
  {
    forall d | d in c.deletes && d.file == g
      ensures Joins(d, g, s) && Records(d, p, s) <==> Joins(d, g, c.head) && Records(d, p, c.head)
    {
      assert WfDelete(d, c.head);
      if p in d.entries {
        assert EntryWithin(d, d.entries[p], c.head);
      }
    }
  }

  lemma ShownFromHead(c: Catalog, f: DataFile, s: int)
    requires Wf(c) && f in c.files && c.head <= s
    ensures Shown(c, f, s) == Shown(c, f, c.head)
  {
    assert WfFile(f, c.head);
    forall i | 0 <= i < |f.rows|
      ensures RowsBy(f, DeadBy(c, f.id, s), s)(i) == RowsBy(f, DeadBy(c, f.id, c.head), c.head)(i)
    {
      DeadFromHead(c, f.id, i, s);
    }
    SumToExt(|f.rows|, RowsBy(f, DeadBy(c, f.id, s), s), RowsBy(f, DeadBy(c, f.id, c.head), c.head));
  }

  lemma ReadsFromHead(c: Catalog, s: int)
    requires Wf(c) && c.head <= s
    ensures Scan(c, s) == Scan(c, c.head)
  {
    ScanIsShown(c, s);
    ScanIsShown(c, c.head);
    forall f | f in c.files
      ensures ShownBy(c, s)(f) == ShownBy(c, c.head)(f)
    {
      ShownFromHead(c, f, s);
    }
    SumExt(c.files, ShownBy(c, s), ShownBy(c, c.head));
    SumExt(c.inlined, InlinedBy(s), InlinedBy(c.head));
  }

  // ----- Commits -----

  lemma {:induction false} StepsKeepPast(steps: seq<Catalog>, n: nat, made: Row, table: int, s: int)
    requires n < |steps| && Wf(steps[0]) && s < steps[0].head && forall i: nat :: StepsAt(steps, i, made, table)
    ensures Wf(steps[n]) && steps[n].head >= steps[0].head && Scan(steps[n], s) == Scan(steps[0], s)
  {
    if n > 0 {
      StepsKeepPast(steps, n - 1, made, table, s);
      assert StepsAt(steps, n - 1, made, table);
      StepIsNext(steps[n - 1], steps[n], made, table);
      if steps[n] != steps[n - 1] {
        StepKeepsPast(steps[n - 1], steps[n], s);
      }
    }
  }

  /** A commit leaves what was committed before as it was. */
  lemma CommitKeepsPast(c: Catalog, c': Catalog, made: Row, table: int, s: int)
    requires Wf(c) && Commits(c, c', made, table) && s <= c.head
    ensures Wf(c') && Scan(c', s) == Scan(c, s)
  {
    var steps :| IsCommit(c, c', made, table, steps);
    BeginWf(c, s);
    StepsKeepPast(steps, |steps| - 1, made, table, s);
  }

  /** A commit that changes what the table reads is recorded as a row change. */
  lemma ChangesAreReported(c: Catalog, c': Catalog, made: Row, table: int)
    requires Wf(c) && Commits(c, c', made, table) && Scan(c', c.head + 1) != Scan(c, c.head)
    ensures C.Says(made, table).Changed?
  {
    if !C.Says(made, table).Changed? {
      UnreportedCommit(c, c', made, table, c.head + 1);
      ReadsFromHead(c, c.head + 1);
    }
  }

  // ----- Whole histories -----

  /** The table after each of the snapshots 0 to `n`, each committed from the one before. */
  ghost predicate IsHistory(heads: seq<Catalog>, made: seq<Row>, table: int) {
    && |heads| == |made| >= 1 && Wf(heads[0])
    && forall i: nat | i < |heads| :: Committed(heads, made, table, i)
  }

  ghost predicate Committed(heads: seq<Catalog>, made: seq<Row>, table: int, i: nat)
    requires |heads| == |made| && i < |heads|
  {
    heads[i].head == i && (i > 0 ==> Commits(heads[i - 1], heads[i], made[i], table))
  }

  /** The rules of a table's commits, as runs follow them. */
  ghost function RulesOf(table: int): H.Rules<Catalog, Row, multiset<Lake.Row>> {
    H.Rules((c: Catalog) => Wf(c), (c: Catalog, c': Catalog, made: Row) => Commits(c, c', made, table),
            (c: Catalog) => c.head, (c: Catalog, s: int) => Scan(c, s), (made: Row) => C.Says(made, table).Changed?)
  }

  lemma PastIsKept(r: H.Rules<Catalog, Row, multiset<Lake.Row>>, table: int, c: Catalog, c': Catalog, made: Row)
    requires r == RulesOf(table) && r.wf(c) && r.commits(c, c', made)
    ensures r.wf(c') && H.SamePast(r, c, c')
  {
    CommitKeepsPast(c, c', made, table, c.head);
    forall s | s <= c.head
      ensures r.read(c', s) == r.read(c, s)
    {
      CommitKeepsPast(c, c', made, table, s);
    }
  }

  lemma ReadsReported(r: H.Rules<Catalog, Row, multiset<Lake.Row>>, table: int, c: Catalog, c': Catalog, made: Row)
    requires r == RulesOf(table) && r.wf(c) && r.commits(c, c', made)
    ensures H.Differ(r, c, r.head(c), c', r.head(c) + 1) ==> r.reports(made)
  {
    if Scan(c', c.head + 1) != Scan(c, c.head) {
      ChangesAreReported(c, c', made, table);
    }
  }

  lemma CommitIsHonest(r: H.Rules<Catalog, Row, multiset<Lake.Row>>, table: int, c: Catalog, c': Catalog, made: Row)
    requires r == RulesOf(table) && r.wf(c) && r.commits(c, c', made)
    ensures H.IsHonest(r, c, c', made)
  {
    PastIsKept(r, table, c, c', made);
    ReadsReported(r, table, c, c', made);
  }

  lemma CommitsAreHonest(r: H.Rules<Catalog, Row, multiset<Lake.Row>>, table: int)
    requires r == RulesOf(table)
    ensures H.Honest(r)
  {
    forall c, c', made | r.wf(c) && r.commits(c, c', made)
      ensures H.IsHonest(r, c, c', made)
    {
      CommitIsHonest(r, table, c, c', made);
    }
  }

  lemma HistoryIsChain(heads: seq<Catalog>, made: seq<Row>, table: int)
    requires IsHistory(heads, made, table)
    ensures H.IsChain(RulesOf(table), heads, made) && heads[|heads| - 1].head == |heads| - 1
  {
    var r := RulesOf(table);
    forall i: nat | i < |heads|
      ensures H.Follows(r, heads, made, i)
    {
      assert Committed(heads, made, table, i);
    }
    assert Committed(heads, made, table, |heads| - 1);
  }

  /** What the feed would report, and at which snapshots the table can be resolved. */
  datatype Feed = Feed(deletions: int -> bool, insertions: int -> bool, visible: int -> bool)

  /** The ledger of a history some of whose snapshots were expired: a snapshot changed the
      table if a scan at it returns other rows than one at the snapshot before. */
  ghost function LedgerOf(heads: seq<Catalog>, made: seq<Row>, table: int, present: set<int>, feed: Feed): C.Ledger
    requires |heads| == |made| >= 1
  {
    LedgerFor(made, present, H.ChangedIn(RulesOf(table), heads[|heads| - 1]), feed)
  }

  function LedgerFor(made: seq<Row>, present: set<int>, changed: int -> bool, feed: Feed): C.Ledger
    requires made != []
  {
    C.Ledger(true, None, |made| - 1, Range(|made|), present, map s | 0 <= s < |made| :: made[s],
             changed, feed.deletions, feed.insertions, feed.visible)
  }

  predicate Survive(present: set<int>, n: int) {
    n in present && forall s | s in present :: 0 <= s <= n
  }

  lemma LedgerTells(made: seq<Row>, table: int, present: set<int>, changed: int -> bool, feed: Feed)
    requires made != [] && Survive(present, |made| - 1)
    requires forall s | changed(s) :: 1 <= s < |made| && C.Says(made[s], table).Changed?
    ensures C.Truthful(LedgerFor(made, present, changed, feed), table)
  {
  }

  lemma ChangesReported(r: H.Rules<Catalog, Row, multiset<Lake.Row>>, table: int, made: seq<Row>, changed: int -> bool)
    requires r == RulesOf(table) && forall s | changed(s) :: 1 <= s < |made| && r.reports(made[s])
    ensures forall s | changed(s) :: 1 <= s < |made| && C.Says(made[s], table).Changed?
  {
  }

  /** Such a ledger tells of every row change. */
  lemma HistoryIsTruthful(heads: seq<Catalog>, made: seq<Row>, table: int, present: set<int>, feed: Feed)
    requires IsHistory(heads, made, table) && Survive(present, |heads| - 1)
    ensures C.Truthful(LedgerOf(heads, made, table, present, feed), table)
  {
    var r := RulesOf(table);
    var changed := H.ChangedIn(r, heads[|heads| - 1]);
    CommitsAreHonest(r, table);
    HistoryIsChain(heads, made, table);
    H.ChangesAllShow(r, heads, made, changed);
    ChangesReported(r, table, made, changed);
    LedgerTells(made, table, present, changed, feed);
  }

  /** Over every history of commits, whatever was expired since and whatever the feed would
      report: a window in which nothing is detected reads the same at both its ends. */
  lemma UndetectedReadsTheSame(heads: seq<Catalog>, made: seq<Row>, table: int, present: set<int>, feed: Feed,
          after: int, through: int)
    requires IsHistory(heads, made, table) && Survive(present, |heads| - 1) && 0 <= after < |heads|
    requires !C.Detects(LedgerOf(heads, made, table, present, feed), table, after, through)
    ensures var last := heads[|heads| - 1];
            Scan(last, C.Max(after, C.Min(through, last.head))) == Scan(last, after)
  {
    var r, last := RulesOf(table), heads[|heads| - 1];
    HistoryIsChain(heads, made, table);
    HistoryIsTruthful(heads, made, table, present, feed);
    Undetected(LedgerOf(heads, made, table, present, feed), table, after, through);
    H.SameAcross(r, last, H.ChangedIn(r, last), after, C.Max(after, C.Min(through, last.head)));
  }

  lemma Undetected(l: C.Ledger, table: int, after: int, through: int)
    requires C.Truthful(l, table) && l.consecutive && !C.Detects(l, table, after, through)
    ensures forall s | after < s <= C.Min(through, l.head) :: !l.changed(s)
  {
    forall s | after < s <= C.Min(through, l.head) && l.changed(s)
      ensures false
    {
      C.ChangesAreDetected(l, table, after, through, s);
    }
  }
}
