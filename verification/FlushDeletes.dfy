/** The flush of inlined deletions: each data file's inlined deletions merge with its
    delete file into one that dates every position. */
module FlushDeletes {
  import opened Bags
  import opened Lake

  /** The snapshot a delete file deleted position `p` at: the recorded one, else the
      file's own. */
  function DateOf(d: DeleteFile, p: int): int
    requires p in d.entries
  {
    if d.entries[p].Some? then d.entries[p].value else d.begin
  }

  /** The inlined deletions of `file` a flush at the head reads. */
  function InlinedOf(c: Catalog, file: int): set<InlinedDelete> {
    set d | d in c.inlinedDeletes && d.file == file
  }

  /** The delete file the deletions merge with: a live data file's live one, a retired
      one's latest, ended or not. */
  predicate IsExisting(c: Catalog, f: DataFile, ex: Option<DeleteFile>) {
    if ex.None? then
      forall d | d in c.deletes && d.file == f.id :: f.end.None? && d.end.Some?
    else
      && ex.value in c.deletes
      && ex.value.file == f.id
      && (f.end.None? ==> ex.value.end.None?)
      && (f.end.Some? ==> forall d | d in c.deletes && d.file == f.id :: d.begin <= ex.value.begin)
  }

  /** The latest end among the data file's delete files that begin before `ex`. */
  predicate IsEarlierEnd(c: Catalog, f: DataFile, ex: DeleteFile, end: Option<int>) {
    && (forall d | d in c.deletes && d.file == f.id && d.begin < ex.begin && d.end.Some? ::
          end.Some? && d.end.value <= end.value)
    && (end.Some? ==> exists d | d in c.deletes :: d.file == f.id && d.begin < ex.begin && d.end == end)
  }

  datatype Plan = Plan(expectedPrev: Option<int>, deletions: map<int, int>, begin: int, partialMax: int,
    end: Option<int>)

  // ----- Planning -----

  predicate Dates(m: map<int, int>, inlined: set<InlinedDelete>) {
    && (forall d | d in inlined :: d.pos in m && m[d.pos] <= d.begin)
    && forall p | p in m :: InlinedAt(inlined, p, m[p])
  }

  predicate InlinedAt(inlined: set<InlinedDelete>, p: int, date: int) {
    exists d | d in inlined :: d.pos == p && d.begin == date
  }

  /** `m` dates exactly the positions of the inlined deletions and of the delete file,
      each at the earlier of the snapshots they record. */
  predicate MergedDates(m: map<int, int>, inlined: set<InlinedDelete>, ex: Option<DeleteFile>) {
    && (forall d | d in inlined :: d.pos in m && m[d.pos] <= d.begin)
    && (ex.Some? ==> forall p | p in ex.value.entries :: p in m && m[p] <= DateOf(ex.value, p))
    && forall p | p in m ::
         InlinedAt(inlined, p, m[p]) || (ex.Some? && p in ex.value.entries && m[p] == DateOf(ex.value, p))
  }

  function MinOf(a: int, b: int): int {
    if b < a then b else a
  }

  /** The inlined deletions of one file, by position, with the last of their snapshots. */
  method GroupInlined(inlined: set<InlinedDelete>) returns (m: map<int, int>, last: int)
    requires inlined != {}
    ensures Dates(m, inlined) && m != map[]
    ensures forall p | p in m :: m[p] <= last
    ensures exists p | p in m :: m[p] == last
  {
    m := map[];
    var todo := inlined;
    while todo != {}
      invariant todo <= inlined
      invariant Dates(m, inlined - todo)
      decreases todo
    {
      var d :| d in todo;
      ghost var done, before := inlined - todo, m;
      m := m[d.pos := if d.pos in m then MinOf(m[d.pos], d.begin) else d.begin];
      todo := todo - {d};
      assert inlined - todo == done + {d};
      forall p | p in m
        ensures InlinedAt(inlined - todo, p, m[p])
      {
        if p in before && m[p] == before[p] {
          var e :| e in done && e.pos == p && e.begin == before[p];
        }
      }
    }
    assert inlined - todo == inlined;
    last := Latest(m);
  }

  method Latest(m: map<int, int>) returns (last: int)
    requires m != map[]
    ensures forall p | p in m :: m[p] <= last
    ensures exists p | p in m :: m[p] == last
  {
    ghost var key := Witness(m.Keys);
    var some :| some in m;
    last := m[some];
    var todo := m.Keys;
    while todo != {}
      invariant todo <= m.Keys
      invariant forall p | p in m.Keys - todo :: m[p] <= last
      invariant exists p | p in m :: m[p] == last
      decreases todo
    {
      ghost var key := Witness(todo);
      var p :| p in todo;
      last := if last < m[p] then m[p] else last;
      todo := todo - {p};
    }
  }

  method Earliest(m: map<int, int>) returns (first: int)
    requires m != map[]
    ensures forall p | p in m :: first <= m[p]
    ensures exists p | p in m :: m[p] == first
  {
    ghost var key := Witness(m.Keys);
    var some :| some in m;
    first := m[some];
    var todo := m.Keys;
    while todo != {}
      invariant todo <= m.Keys
      invariant forall p | p in m.Keys - todo :: first <= m[p]
      invariant exists p | p in m :: m[p] == first
      decreases todo
    {
      ghost var key := Witness(todo);
      var p :| p in todo;
      first := MinOf(first, m[p]);
      todo := todo - {p};
    }
  }

  /** Adds the delete file's positions, keeping the earlier snapshot of each. */
  method MergeExisting(m0: map<int, int>, inlined: set<InlinedDelete>, ex: DeleteFile) returns (m: map<int, int>)
    requires Dates(m0, inlined)
    ensures MergedDates(m, inlined, Some(ex))
    ensures m0.Keys <= m.Keys
  {
    m := m0;
    var todo := ex.entries.Keys;
    while todo != {}
      invariant todo <= ex.entries.Keys
      invariant m0.Keys <= m.Keys && forall p | p in m0 :: m[p] <= m0[p]
      invariant forall p | p in ex.entries.Keys - todo :: p in m && m[p] <= DateOf(ex, p)
      invariant forall p | p in m :: (p in m0 && m[p] == m0[p]) || (p in ex.entries && m[p] == DateOf(ex, p))
      decreases todo
    {
      ghost var key := Witness(todo);
      var p :| p in todo;
      m := m[p := if p in m then MinOf(m[p], DateOf(ex, p)) else DateOf(ex, p)];
      todo := todo - {p};
    }
    assert ex.entries.Keys - todo == ex.entries.Keys;
  }

  /** What a plan for `f` holds, and when there is one: always, but for a retired file
      with delete files, whose merged file must begin after the earlier ones end and
      hold no deletion from the latest one's end on. */
  ghost predicate IsPlan(c: Catalog, f: DataFile, ex: Option<DeleteFile>, plan: Plan) {
    && MergedDates(plan.deletions, InlinedOf(c, f.id), ex)
    && plan.expectedPrev == (if ex.Some? then Some(ex.value.id) else None)
    && (forall p | p in plan.deletions :: plan.begin <= plan.deletions[p] <= plan.partialMax)
    && (exists p | p in plan.deletions :: plan.deletions[p] == plan.begin)
    && (exists p | p in plan.deletions :: plan.deletions[p] == plan.partialMax)
    && plan.end == (if f.end.Some? && ex.Some? then ex.value.end else None)
  }

  /** A delete file that begins before `ex` ends after `begin`. */
  predicate OverlapsEarlier(c: Catalog, f: DataFile, ex: DeleteFile, begin: int) {
    exists d | d in c.deletes :: d.file == f.id && d.begin < ex.begin && d.end.Some? && d.end.value > begin
  }

  /** Some position was deleted only from the latest delete file's end on. */
  predicate OutlivesEnd(c: Catalog, f: DataFile, ex: DeleteFile) {
    ex.end.Some? && exists d | d in InlinedOf(c, f.id) :: LateOnly(c, f, ex.end.value, d.pos)
  }

  predicate LateOnly(c: Catalog, f: DataFile, end: int, p: int) {
    forall e | e in InlinedOf(c, f.id) && e.pos == p :: end <= e.begin
  }

  predicate MustStay(c: Catalog, f: DataFile, ex: Option<DeleteFile>, begin: int) {
    f.end.Some? && ex.Some? && (OverlapsEarlier(c, f, ex.value, begin) || OutlivesEnd(c, f, ex.value))
  }

  /** Plans one data file's delete file, or leaves its deletions inlined. `earlier` is
      the latest end among the delete files that begin before `ex`. */
  method PlanFile(c: Catalog, f: DataFile, ex: Option<DeleteFile>, earlier: Option<int>)
    returns (plan: Option<Plan>, begin: int)
    requires InlinedOf(c, f.id) != {} && IsExisting(c, f, ex)
    requires ex.Some? ==> IsEarlierEnd(c, f, ex.value, earlier)
    ensures plan.None? <==> MustStay(c, f, ex, begin)
    ensures f.end.None? || ex.None? ==> plan.Some?
    ensures f.end.Some? && ex.Some? ==> (plan.None? <==>
              || (exists d | d in c.deletes ::
                 d.file == f.id && d.begin < ex.value.begin && d.end.Some? && begin < d.end.value)
              || (ex.value.end.Some? && exists d | d in InlinedOf(c, f.id) ::
                 LateOnly(c, f, ex.value.end.value, d.pos)))
    ensures plan.Some? ==> IsPlan(c, f, ex, plan.value) && plan.value.begin == begin
  {
    var inlined := InlinedOf(c, f.id);
    var m, last := GroupInlined(inlined);
    ghost var dates := m;
    if ex.Some? {
      m := MergeExisting(m, inlined, ex.value);
    }
    begin := Earliest(m);
    var partialMax := Latest(m);
    var end: Option<int> := None;
    if f.end.Some? && ex.Some? {
      var overlaps := earlier.Some? && earlier.value > begin;
      var outlives := ex.value.end.Some? && last >= ex.value.end.value;
      assert overlaps <==> OverlapsEarlier(c, f, ex.value, begin);
      OutlivesIsLast(c, f, ex.value, dates, last);
      if overlaps || outlives {
        return None, begin;
      }
      end := ex.value.end;
    }
    plan := Some(Plan(if ex.Some? then Some(ex.value.id) else None, m, begin, partialMax, end));
  }

  lemma OutlivesIsLast(c: Catalog, f: DataFile, ex: DeleteFile, m: map<int, int>, last: int)
    requires Dates(m, InlinedOf(c, f.id))
    requires (forall p | p in m :: m[p] <= last) && exists p | p in m :: m[p] == last
    ensures OutlivesEnd(c, f, ex) <==> ex.end.Some? && last >= ex.end.value
  {
    if ex.end.Some? && last >= ex.end.value {
      var p :| p in m && m[p] == last;
      assert InlinedAt(InlinedOf(c, f.id), p, last);
      var d :| d in InlinedOf(c, f.id) && d.pos == p && d.begin == last;
      assert LateOnly(c, f, ex.end.value, d.pos);
    }
    if OutlivesEnd(c, f, ex) {
      var d :| d in InlinedOf(c, f.id) && LateOnly(c, f, ex.end.value, d.pos);
      assert InlinedAt(InlinedOf(c, f.id), d.pos, m[d.pos]);
    }
  }

  // ----- The commit -----

  function NotId(id: Option<int>): DeleteFile -> bool {
    (d: DeleteFile) => id != Some(d.id)
  }

  function Entries(m: map<int, int>): map<int, Option<int>> {
    map p | p in m :: Some(m[p])
  }

  function Planned(c: Catalog, f: DataFile, plan: Plan): DeleteFile {
    DeleteFile(c.nextFileId, f.id, plan.begin, plan.end, Entries(plan.deletions))
  }

  /** The replaced delete file leaves the catalog, the planned one enters it, and the
      file's inlined deletions go. */
  function FlushFile(c: Catalog, f: DataFile, plan: Plan): Catalog {
    c.(nextFileId := c.nextFileId + 1,
       deletes := Filter(c.deletes, NotId(plan.expectedPrev)) + [Planned(c, f, plan)],
       inlinedDeletes := set d | d in c.inlinedDeletes && d.file != f.id)
  }

  lemma RestOfDeletes(c: Catalog, ex: Option<DeleteFile>, d: DeleteFile)
    requires Wf(c) && (ex.Some? ==> ex.value in c.deletes)
    ensures d in Filter(c.deletes, NotId(if ex.Some? then Some(ex.value.id) else None)) <==>
            d in c.deletes && ex != Some(d)
  {
    var id := if ex.Some? then Some(ex.value.id) else None;
    FilterMembers(c.deletes, NotId(id));
    if d in c.deletes && ex.Some? && d.id == ex.value.id {
      SameDelete(c.deletes, d, ex.value);
    }
  }

  lemma SameDelete(deletes: seq<DeleteFile>, d: DeleteFile, e: DeleteFile)
    requires DistinctDeletes(deletes) && d in deletes && e in deletes && d.id == e.id
    ensures d == e
  {
    var i :| 0 <= i < |deletes| && deletes[i] == d;
    var j :| 0 <= j < |deletes| && deletes[j] == e;
  }

  lemma ApartOf(deletes: seq<DeleteFile>, d: DeleteFile, e: DeleteFile)
    requires Disjoint(deletes) && d in deletes && e in deletes && d.file == e.file && d != e
    ensures Apart(d, e)
  {
    var i :| 0 <= i < |deletes| && deletes[i] == d;
    var j :| 0 <= j < |deletes| && deletes[j] == e;
    assert if i < j then Apart(deletes[i], deletes[j]) else Apart(deletes[j], deletes[i]);
  }

  // ----- What the flush preserves, and exactly when -----

  /** At every snapshot that lists `f`, it is listed once, with the same positions
      deleted as before. */
  ghost predicate Keeps(c: Catalog, c': Catalog, f: DataFile) {
    forall s | LiveAt(f.begin, f.end, s) ::
      |Joined(c'.deletes, f.id, s)| <= 1 && forall p :: Dead(c', f.id, p, s) == Dead(c, f.id, p, s)
  }

  /** The planned file covers the history of what it replaces: it begins after every
      other delete file of the data file ended, and a retired file's latest delete
      file ended no earlier than the data file. */
  predicate Covers(c: Catalog, f: DataFile, ex: Option<DeleteFile>, plan: Plan) {
    && (forall d | d in c.deletes && d.file == f.id && ex != Some(d) :: d.end.Some? && d.end.value <= plan.begin)
    && (ex.Some? && f.end.Some? && ex.value.end.Some? ==> f.end.value <= ex.value.end.value)
  }

  /** `c` holds the file's deletions as this crate and official record them: none
      before the file, and all of them applying to it. */
  predicate DeletesFollow(c: Catalog, f: DataFile) {
    && (forall d | d in c.deletes && d.file == f.id :: f.begin <= d.begin)
    && forall d | d in c.inlinedDeletes && d.file == f.id :: f.begin <= d.begin
  }

  /** The one delete file's part of what is deleted: from its date on, until it ends. */
  lemma DatedPart(d: DeleteFile, file: int, p: int, s: int, head: int)
    requires WfDelete(d, head)
    ensures Joins(d, file, s) && Records(d, p, s) <==>
            d.file == file && p in d.entries && DateOf(d, p) <= s && (d.end.Some? ==> s < d.end.value)
  {
    if p in d.entries {
      assert EntryWithin(d, d.entries[p], head);
    }
  }

  ghost predicate DeadElsewhere(c: Catalog, f: DataFile, ex: Option<DeleteFile>, p: int, s: int) {
    exists d | d in c.deletes :: ex != Some(d) && Joins(d, f.id, s) && Records(d, p, s)
  }

  lemma DeadBefore(c: Catalog, f: DataFile, ex: Option<DeleteFile>, plan: Plan, p: int, s: int)
    requires Wf(c) && IsExisting(c, f, ex) && IsPlan(c, f, ex, plan)
    requires ex.Some? && ex.value.end.Some? ==> s < ex.value.end.value
    ensures Dead(c, f.id, p, s) <==> DeadElsewhere(c, f, ex, p, s) || (p in plan.deletions && plan.deletions[p] <= s)
  {
    if ex.Some? {
      DatedPart(ex.value, f.id, p, s, c.head);
    }
    if InlinedDead(c, f.id, p, s) {
      var b :| InlinedDelete(f.id, p, b) in c.inlinedDeletes && b <= s;
      assert InlinedDelete(f.id, p, b) in InlinedOf(c, f.id);
    }
    if p in plan.deletions && plan.deletions[p] <= s && InlinedAt(InlinedOf(c, f.id), p, plan.deletions[p]) {
      assert InlinedDelete(f.id, p, plan.deletions[p]) in c.inlinedDeletes;
    }
  }

  lemma PlannedDate(c: Catalog, f: DataFile, ex: Option<DeleteFile>, plan: Plan, p: int)
    requires Wf(c) && IsExisting(c, f, ex) && IsPlan(c, f, ex, plan) && p in plan.deletions
    ensures plan.deletions[p] <= c.head
  {
    if InlinedAt(InlinedOf(c, f.id), p, plan.deletions[p]) {
      var d :| d in InlinedOf(c, f.id) && d.pos == p && d.begin == plan.deletions[p];
    } else {
      assert WfDelete(ex.value, c.head) && EntryWithin(ex.value, ex.value.entries[p], c.head);
    }
  }

  /** The planned file begins before it ends. */
  lemma PlannedEnds(c: Catalog, f: DataFile, ex: Option<DeleteFile>, plan: Plan)
    requires IsPlan(c, f, ex, plan) && !MustStay(c, f, ex, plan.begin) && InlinedOf(c, f.id) != {}
    ensures plan.end.Some? ==> plan.begin < plan.end.value
  {
    if plan.end.Some? {
      var d :| d in InlinedOf(c, f.id);
      assert !LateOnly(c, f, ex.value.end.value, d.pos);
      var e :| e in InlinedOf(c, f.id) && e.pos == d.pos && e.begin < ex.value.end.value;
      assert plan.begin <= plan.deletions[e.pos];
    }
  }

  lemma PlannedWf(c: Catalog, f: DataFile, ex: Option<DeleteFile>, plan: Plan)
    requires Wf(c) && f in c.files && IsExisting(c, f, ex) && IsPlan(c, f, ex, plan) && !MustStay(c, f, ex, plan.begin)
    requires InlinedOf(c, f.id) != {}
    ensures WfDelete(Planned(c, f, plan), c.head)
  {
    var n := Planned(c, f, plan);
    forall p | p in plan.deletions
      ensures EntryWithin(n, n.entries[p], c.head) && plan.begin <= c.head
    {
      PlannedDate(c, f, ex, plan, p);
    }
    PlannedEnds(c, f, ex, plan);
    if plan.end.Some? {
      assert WfDelete(ex.value, c.head);
    }
  }

  lemma DeadAfter(c: Catalog, f: DataFile, ex: Option<DeleteFile>, plan: Plan, p: int, s: int)
    requires Wf(c) && f in c.files && IsExisting(c, f, ex) && IsPlan(c, f, ex, plan)
    requires WfDelete(Planned(c, f, plan), c.head)
    ensures Dead(FlushFile(c, f, plan), f.id, p, s) <==>
            DeadElsewhere(c, f, ex, p, s) ||
            (p in plan.deletions && plan.deletions[p] <= s && (plan.end.Some? ==> s < plan.end.value))
  {
    var c', n := FlushFile(c, f, plan), Planned(c, f, plan);
    DatedPart(n, f.id, p, s, c.head);
    forall d
      ensures d in c'.deletes <==> d == n || (d in c.deletes && ex != Some(d))
    {
      RestOfDeletes(c, ex, d);
    }
    assert !InlinedDead(c', f.id, p, s);
    if DeadElsewhere(c, f, ex, p, s) {
      var d :| d in c.deletes && ex != Some(d) && Joins(d, f.id, s) && Records(d, p, s);
      assert d in c'.deletes;
    }
  }

  ghost predicate Flushable(c: Catalog, f: DataFile, ex: Option<DeleteFile>, plan: Plan) {
    && f in c.files
    && InlinedOf(c, f.id) != {}
    && IsExisting(c, f, ex)
    && IsPlan(c, f, ex, plan)
    && !MustStay(c, f, ex, plan.begin)
  }

  /** A planned file that covers its history overlaps no other delete file. */
  lemma CoversIsDisjoint(c: Catalog, f: DataFile, ex: Option<DeleteFile>, plan: Plan)
    requires Wf(c) && Flushable(c, f, ex, plan) && Covers(c, f, ex, plan)
    ensures Disjoint(FlushFile(c, f, plan).deletes)
    ensures DistinctDeletes(FlushFile(c, f, plan).deletes)
  {
    var keep := NotId(plan.expectedPrev);
    var rest := Filter(c.deletes, keep);
    FilterPairwise(c.deletes, keep, (d: DeleteFile, e: DeleteFile) => d.id != e.id);
    FilterPairwise(c.deletes, keep, (d: DeleteFile, e: DeleteFile) => d.file == e.file ==> Apart(d, e));
    forall i | 0 <= i < |rest|
      ensures rest[i].id != c.nextFileId && (rest[i].file == f.id ==> Apart(rest[i], Planned(c, f, plan)))
    {
      assert rest[i] in rest;
      RestOfDeletes(c, ex, rest[i]);
    }
  }

  lemma CoversKeeps(c: Catalog, f: DataFile, ex: Option<DeleteFile>, plan: Plan)
    requires Wf(c) && Flushable(c, f, ex, plan) && Covers(c, f, ex, plan)
    ensures Keeps(c, FlushFile(c, f, plan), f)
  {
    PlannedWf(c, f, ex, plan);
    CoversIsDisjoint(c, f, ex, plan);
    forall s | LiveAt(f.begin, f.end, s)
      ensures |Joined(FlushFile(c, f, plan).deletes, f.id, s)| <= 1
      ensures forall p :: Dead(FlushFile(c, f, plan), f.id, p, s) == Dead(c, f.id, p, s)
    {
      JoinedOnce(FlushFile(c, f, plan).deletes, f.id, s);
      forall p
        ensures Dead(FlushFile(c, f, plan), f.id, p, s) == Dead(c, f.id, p, s)
      {
        DeadBefore(c, f, ex, plan, p, s);
        DeadAfter(c, f, ex, plan, p, s);
      }
    }
  }

  /** Two delete files live at `s` make the listing repeat their data file. */
  lemma OverlapRepeats(deletes: seq<DeleteFile>, d: DeleteFile, n: DeleteFile, s: int)
    requires d in deletes && Joins(d, n.file, s) && Joins(n, n.file, s)
    ensures |Joined(deletes + [n], n.file, s)| > 1
  {
    var keep := (e: DeleteFile) => Joins(e, n.file, s);
    FilterConcat(deletes, [n], keep);
    FilterMembers(deletes, keep);
    assert d in Filter(deletes, keep);
    assert Filter([n], keep) == [n];
  }

  lemma OverlapBreaks(c: Catalog, f: DataFile, ex: Option<DeleteFile>, plan: Plan, d: DeleteFile)
    requires Wf(c) && Flushable(c, f, ex, plan) && DeletesFollow(c, f)
    requires d in c.deletes && d.file == f.id && ex != Some(d) && !(d.end.Some? && d.end.value <= plan.begin)
    ensures !Keeps(c, FlushFile(c, f, plan), f)
  {
    var n := Planned(c, f, plan);
    PlannedWf(c, f, ex, plan);
    if ex.Some? {
      ApartOf(c.deletes, d, ex.value);
    }
    assert WfDelete(d, c.head);
    var s := if d.begin < plan.begin then plan.begin else d.begin;
    assert Joins(d, f.id, s) && Joins(n, f.id, s);
    RestOfDeletes(c, ex, d);
    OverlapRepeats(Filter(c.deletes, NotId(plan.expectedPrev)), d, n, s);
    PlanFollows(c, f, ex, plan);
  }

  lemma PlanFollows(c: Catalog, f: DataFile, ex: Option<DeleteFile>, plan: Plan)
    requires Wf(c) && IsExisting(c, f, ex) && IsPlan(c, f, ex, plan) && DeletesFollow(c, f)
    ensures f.begin <= plan.begin
  {
    var p :| p in plan.deletions && plan.deletions[p] == plan.begin;
    if InlinedAt(InlinedOf(c, f.id), p, plan.begin) {
      var d :| d in InlinedOf(c, f.id) && d.pos == p && d.begin == plan.begin;
    } else {
      assert WfDelete(ex.value, c.head) && EntryWithin(ex.value, ex.value.entries[p], c.head);
    }
  }

  lemma EarlyEndBreaks(c: Catalog, f: DataFile, ex: DeleteFile, plan: Plan)
    requires Wf(c) && Flushable(c, f, Some(ex), plan) && DeletesFollow(c, f)
    requires f.end.Some? && ex.end.Some? && ex.end.value < f.end.value
    ensures !Keeps(c, FlushFile(c, f, plan), f)
  {
    var s := ex.end.value;
    var d :| d in InlinedOf(c, f.id);
    assert !LateOnly(c, f, ex.end.value, d.pos);
    var e :| e in InlinedOf(c, f.id) && e.pos == d.pos && e.begin < ex.end.value;
    assert Dead(c, f.id, e.pos, s) by {
      assert e == InlinedDelete(f.id, e.pos, e.begin) && InlinedDead(c, f.id, e.pos, s);
    }
    PlannedWf(c, f, Some(ex), plan);
    DeadAfter(c, f, Some(ex), plan, e.pos, s);
    if DeadElsewhere(c, f, Some(ex), e.pos, s) {
      var o :| o in c.deletes && Some(ex) != Some(o) && Joins(o, f.id, s) && Records(o, e.pos, s);
      ApartOf(c.deletes, o, ex);
      assert false;
    }
    assert WfDelete(ex, c.head) && LiveAt(f.begin, f.end, s);
  }

  /** Flushing a file's inlined deletions keeps what every snapshot deletes from it
      exactly when the planned delete file covers the history of what it replaces. The
      guards ensure the first half of that for retired files; for a live file with an
      earlier, ended delete file nothing does. */
  lemma FlushKeepsExactly(c: Catalog, f: DataFile, ex: Option<DeleteFile>, plan: Plan)
    requires Wf(c) && Flushable(c, f, ex, plan) && DeletesFollow(c, f)
    ensures Keeps(c, FlushFile(c, f, plan), f) <==> Covers(c, f, ex, plan)
  {
    if Covers(c, f, ex, plan) {
      CoversKeeps(c, f, ex, plan);
    } else if d :| d in c.deletes && d.file == f.id && ex != Some(d) && !(d.end.Some? && d.end.value <= plan.begin) {
      OverlapBreaks(c, f, ex, plan, d);
    } else {
      EarlyEndBreaks(c, f, ex.value, plan);
    }
  }

  lemma FlushKeepsWf(c: Catalog, f: DataFile, ex: Option<DeleteFile>, plan: Plan)
    requires Wf(c) && Flushable(c, f, ex, plan) && Covers(c, f, ex, plan)
    ensures Wf(FlushFile(c, f, plan))
  {
    var c' := FlushFile(c, f, plan);
    CoversIsDisjoint(c, f, ex, plan);
    PlannedWf(c, f, ex, plan);
    forall d
      ensures d in c'.deletes <==> d == Planned(c, f, plan) || (d in c.deletes && ex != Some(d))
    {
      RestOfDeletes(c, ex, d);
    }
    forall g, d | g in c'.files && d in c'.deletes && d.file == g.id && g.end.None?
      ensures HasLiveDelete(c', g.id)
    {
      if g.id == f.id {
        SameFile(c.files, f, g);
        assert Planned(c, f, plan) in c'.deletes;
      } else {
        assert HasLiveDelete(c, g.id);
        var live :| live in c.deletes && live.file == g.id && live.end.None?;
        assert live in c'.deletes;
      }
    }
  }

  /** Moving a file's inlined deletions into a delete file that covers their history
      leaves every snapshot's rows as they were. */
  lemma FlushDeletesPreservesTimeTravel(c: Catalog, f: DataFile, ex: Option<DeleteFile>, plan: Plan, s: int)
    requires Wf(c) && Flushable(c, f, ex, plan) && Covers(c, f, ex, plan)
    ensures Wf(FlushFile(c, f, plan))
    ensures Scan(FlushFile(c, f, plan), s) == Scan(c, s)
  {
    var c' := FlushFile(c, f, plan);
    FlushKeepsWf(c, f, ex, plan);
    CoversKeeps(c, f, ex, plan);
    ScanIsShown(c, s);
    ScanIsShown(c', s);
    forall g | g in c.files
      ensures Shown(c', g, s) == Shown(c, g, s)
    {
      if g.id == f.id {
        SameFile(c.files, f, g);
      } else {
        FlushFrame(c, f, ex, plan, g.id, s);
      }
      ShownExt(c', c, g, s);
    }
    SumExt(c.files, ShownBy(c', s), ShownBy(c, s));
  }

  lemma FlushFrame(c: Catalog, f: DataFile, ex: Option<DeleteFile>, plan: Plan, other: int, s: int)
    requires Wf(c) && Flushable(c, f, ex, plan) && other != f.id
    ensures forall p :: Dead(FlushFile(c, f, plan), other, p, s) == Dead(c, other, p, s)
  {
    var c' := FlushFile(c, f, plan);
    forall d: DeleteFile | d.file == other
      ensures d in c'.deletes <==> d in c.deletes
    {
      RestOfDeletes(c, ex, d);
    }
    forall p
      ensures InlinedDead(c', other, p, s) == InlinedDead(c, other, p, s)
    {
      assert forall b :: InlinedDelete(other, p, b) in c'.inlinedDeletes <==>
             InlinedDelete(other, p, b) in c.inlinedDeletes;
    }
  }

  /** A live file with an ended delete file, a later one, and an inlined deletion made
      while the first was live: the planned file overlaps the first. */
  lemma LiveFileOverlaps()
    ensures var f := DataFile(1, 1, None, None, [Row(0, "a"), Row(1, "b"), Row(2, "c")], None);
            var first, live := DeleteFile(2, 1, 2, Some(5), map[0 := None]),
              DeleteFile(3, 1, 5, None, map[0 := None, 2 := None]);
            var c := Catalog(5, 4, [f], [first, live], [], {InlinedDelete(1, 1, 3)});
            var plan := Plan(Some(3), map[0 := 5, 1 := 3, 2 := 5], 3, 5, None);
            Wf(c) && Flushable(c, f, Some(live), plan) && !Keeps(c, FlushFile(c, f, plan), f)
  {
    var f := DataFile(1, 1, None, None, [Row(0, "a"), Row(1, "b"), Row(2, "c")], None);
    var first, live := DeleteFile(2, 1, 2, Some(5), map[0 := None]),
      DeleteFile(3, 1, 5, None, map[0 := None, 2 := None]);
    var c := Catalog(5, 4, [f], [first, live], [], {InlinedDelete(1, 1, 3)});
    var plan := Plan(Some(3), map[0 := 5, 1 := 3, 2 := 5], 3, 5, None);
    assert live in c.deletes && first in c.deletes && f in c.files;
    assert InlinedDelete(1, 1, 3) in InlinedOf(c, 1);
    assert plan.deletions[1] == 3 && plan.deletions[0] == 5;
    assert IsPlan(c, f, Some(live), plan);
    FlushKeepsExactly(c, f, Some(live), plan);
  }

  /** A retired file whose latest delete file ended before it: the flush forgets its
      deletions from there on. */
  lemma RetiredFileForgets()
    ensures var f := DataFile(1, 1, Some(9), None, [Row(0, "a")], None);
            var ended := DeleteFile(2, 1, 2, Some(5), map[]);
            var c := Catalog(9, 4, [f], [ended], [], {InlinedDelete(1, 0, 3)});
            var plan := Plan(Some(2), map[0 := 3], 3, 3, Some(5));
            Wf(c) && Flushable(c, f, Some(ended), plan) && !Keeps(c, FlushFile(c, f, plan), f)
  {
    var f := DataFile(1, 1, Some(9), None, [Row(0, "a")], None);
    var ended := DeleteFile(2, 1, 2, Some(5), map[]);
    var c := Catalog(9, 4, [f], [ended], [], {InlinedDelete(1, 0, 3)});
    var plan := Plan(Some(2), map[0 := 3], 3, 3, Some(5));
    assert ended in c.deletes && f in c.files;
    assert InlinedDelete(1, 0, 3) in InlinedOf(c, 1);
    assert plan.deletions[0] == 3;
    FlushKeepsExactly(c, f, Some(ended), plan);
  }
}
