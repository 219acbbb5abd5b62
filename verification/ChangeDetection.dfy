/** What the snapshots of a window did to a table, told from the change ledger, from the
    snapshot ids that are missing because they expired, and, where the ledger names only
    a flush or a compaction, from the change feed. */
module ChangeDetection {
  import opened Lake

  datatype Kind =
    | Inserted | Deleted | InlinedInsert | InlinedDelete | Dropped
    | Flush | Compaction | Altered | OtherObject | Unknown

  /** One token of a snapshot's `changes_made`. */
  datatype Token = Token(kind: Kind, table: int)

  /** A flag is set for each kind of change seen, `Unknown` for a change that is not
      recorded. */
  datatype Changes = Changes(flags: set<Kind>, historyIncomplete: bool, lastRows: Option<int>, last: Option<int>)

  datatype SnapshotRows = Unchanged | Moved | Changed

  predicate RowsChanged(ch: Changes) {
    (exists k | k in ch.flags :: IsRowKind(k)) || ch.historyIncomplete
  }

  predicate Names(t: Token, table: int) {
    t.table == table && !t.kind.OtherObject?
  }

  predicate IsRowKind(k: Kind) {
    k.Inserted? || k.Deleted? || k.InlinedInsert? || k.InlinedDelete? || k.Dropped? || k.Unknown?
  }

  /** The snapshot's ledger row records a change of this kind; with no ledger row at all
      the change is an unknown one. */
  predicate Has(made: Option<seq<Token>>, table: int, kind: Kind) {
    if made.None? then kind.Unknown? else exists t | t in made.value :: Names(t, table) && t.kind == kind
  }

  predicate HasRows(made: Option<seq<Token>>, table: int) {
    exists k :: IsRowKind(k) && Has(made, table, k)
  }

  predicate HasMove(made: Option<seq<Token>>, table: int) {
    Has(made, table, Flush) || Has(made, table, Compaction)
  }

  predicate HasAny(made: Option<seq<Token>>, table: int) {
    exists k :: Has(made, table, k)
  }

  /** What a snapshot's ledger row says of the table's rows. */
  function Says(made: Option<seq<Token>>, table: int): SnapshotRows {
    if HasRows(made, table) then Changed else if HasMove(made, table) then Moved else Unchanged
  }

  /** By constructors: rows changed where the ledger row is missing or names the table with
      any kind but a flush, a compaction, an alteration or another object's; they moved
      where not that and a flush or a compaction names it. */
  lemma SaysExactly(made: Option<seq<Token>>, table: int)
    ensures Says(made, table).Changed? <==> made.None? || exists t | t in made.value ::
                t.table == table && t.kind !in {Flush, Compaction, Altered, OtherObject}
    ensures Says(made, table).Moved? <==>
            !Says(made, table).Changed? && exists t | t in made.value ::
              t.table == table && t.kind in {Flush, Compaction}
  {
    if made.None? {
      assert IsRowKind(Unknown) && Has(made, table, Unknown);
    } else {
      if t :| t in made.value && t.table == table && t.kind !in {Flush, Compaction, Altered, OtherObject} {
        assert IsRowKind(t.kind) && Has(made, table, t.kind);
      }
      if t :| t in made.value && t.table == table && (t.kind.Flush? || t.kind.Compaction?) {
        assert Has(made, table, t.kind);
      }
    }
  }

  lemma HasNext(tokens: seq<Token>, t: Token, table: int, kind: Kind)
    ensures Has(Some(tokens + [t]), table, kind) <==>
            Has(Some(tokens), table, kind) || (Names(t, table) && t.kind == kind)
  {
    if Names(t, table) && t.kind == kind {
      assert t in tokens + [t];
    }
  }

  lemma SaidNext(tokens: seq<Token>, t: Token, table: int)
    ensures var now, next := Some(tokens), Some(tokens + [t]);
            && (HasRows(next, table) <==> HasRows(now, table) || (Names(t, table) && IsRowKind(t.kind)))
            && (HasMove(next, table) <==>
               HasMove(now, table) || (Names(t, table) && (t.kind.Flush? || t.kind.Compaction?)))
            && (HasAny(next, table) <==> HasAny(now, table) || Names(t, table))
  {
    forall kind
      ensures Has(Some(tokens + [t]), table, kind) <==>
              Has(Some(tokens), table, kind) || (Names(t, table) && t.kind == kind)
    {
      HasNext(tokens, t, table, kind);
    }
    if Names(t, table) {
      assert Has(Some(tokens + [t]), table, t.kind);
    }
  }

  // ----- Recording -----

  class TableDataChanges {
    var flags: set<Kind>
    var historyIncomplete: bool
    var lastRows: Option<int>
    var last: Option<int>

    function State(): Changes
      reads this
    {
      Changes(flags, historyIncomplete, lastRows, last)
    }

    constructor ()
      ensures State() == Changes({}, false, None, None)
    {
      flags, historyIncomplete, lastRows, last := {}, false, None, None;
    }

    /** One snapshot's ledger row: the flags of what it records are set, and the snapshot
        becomes the last that changed the table, or its rows. */
    method Record(snapshot: int, made: Option<seq<Token>>, table: int) returns (r: SnapshotRows)
      modifies this
      ensures r == Says(made, table)
      ensures r.Changed? <==> made.None? || exists t | t in made.value ::
                t.table == table && t.kind !in {Flush, Compaction, Altered, OtherObject}
      ensures r.Moved? <==>
              !r.Changed? && exists t | t in made.value :: t.table == table && t.kind in {Flush, Compaction}
      ensures forall k :: k in flags <==> k in old(flags) || Has(made, table, k)
      ensures lastRows == if r.Changed? then Some(snapshot) else old(lastRows)
      ensures last == if HasAny(made, table) then Some(snapshot) else old(last)
      ensures historyIncomplete == old(historyIncomplete)
    {
      SaysExactly(made, table);
      if made.None? {
        assert Has(made, table, Unknown) && IsRowKind(Unknown);
        flags := flags + {Unknown};
        lastRows := Some(snapshot);
        last := Some(snapshot);
        return Changed;
      }
      var rows, moved, any := false, false, false;
      ghost var tokens := made.value;
      for i := 0 to |made.value|
        invariant rows <==> HasRows(Some(tokens[..i]), table)
        invariant moved <==> HasMove(Some(tokens[..i]), table)
        invariant any <==> HasAny(Some(tokens[..i]), table)
        invariant forall k :: k in flags <==> k in old(flags) || Has(Some(tokens[..i]), table, k)
        invariant lastRows == old(lastRows) && last == old(last) && historyIncomplete == old(historyIncomplete)
      {
        var t := made.value[i];
        assert tokens[..i + 1] == tokens[..i] + [t];
        SaidNext(tokens[..i], t, table);
        if Names(t, table) {
          any := true;
          flags := flags + {t.kind};
          match t.kind {
            case Flush | Compaction => moved := true;
            case Altered =>
            case _ => rows := true;
          }
        }
        forall k
          ensures k in flags <==> k in old(flags) || Has(Some(tokens[..i + 1]), table, k)
        {
          HasNext(tokens[..i], t, table, k);
        }
      }
      assert tokens[..|tokens|] == tokens && made == Some(tokens);
      if any {
        last := Some(snapshot);
      }
      if rows {
        lastRows := Some(snapshot);
        r := Changed;
      } else {
        r := if moved then Moved else Unchanged;
      }
    }

    /** Snapshots up to `bound` were expired. */
    method RecordGap(bound: int)
      modifies this
      ensures historyIncomplete && flags == old(flags)
      ensures lastRows == Raised(old(lastRows), bound) && last == Raised(old(last), bound)
    {
      historyIncomplete := true;
      lastRows := Some(if lastRows.Some? && bound <= lastRows.value then lastRows.value else bound);
      last := Some(if last.Some? && bound <= last.value then last.value else bound);
    }
  }

  /** The later of a snapshot, if any, and a bound. */
  function Raised(last: Option<int>, bound: int): (r: Option<int>)
    ensures r.Some? && bound <= r.value && (last.Some? ==> last.value <= r.value)
    ensures r == last || r == Some(bound)
  {
    Some(if last.Some? && bound <= last.value then last.value else bound)
  }

  // ----- The catalog -----

  /** The snapshots a catalog took, up to `head`, of which those in `present` survive,
      each with its ledger row; whether their ids are consecutive, or shared with other
      catalogs; the table's first snapshot, as its surviving rows give it; which snapshots
      really changed the table's rows; and which deletions and insertions the change feed
      would report. */
  datatype Ledger = Ledger(
    consecutive: bool, created: Option<int>, head: int, taken: set<int>, present: set<int>,
    made: map<int, Option<seq<Token>>>,
    changed: int -> bool, deletions: int -> bool, insertions: int -> bool, visible: int -> bool)

  /** The head never expires; a ledger row that names no row change and no move of the
      table, or a move the feed reports nothing of, belongs to a snapshot that changed
      none of its rows; official's snapshot 0 creates only the schema. */
  ghost predicate Truthful(l: Ledger, table: int) {
    && l.head in l.present && l.present <= l.taken
    && (forall s | s in l.taken :: 0 <= s <= l.head)
    && (l.created.Some? ==> l.created.value in l.taken)
    && (l.consecutive ==> forall s | 1 <= s <= l.head :: s in l.taken)
    && (forall s | s in l.present :: s in l.made)
    && (forall s | l.changed(s) :: s in l.taken && 1 <= s)
    && (forall s | s in l.present && l.changed(s) :: Tells(l, table, s))
  }

  predicate Tells(l: Ledger, table: int, s: int)
    requires s in l.made
  {
    var says := Says(l.made[s], table);
    says.Changed? || (says.Moved? && (l.deletions(s) || l.insertions(s)))
  }

  function Min(a: int, b: int): int {
    if a < b then a else b
  }

  function Max(a: int, b: int): int {
    if a < b then b else a
  }

  predicate Ascending(ids: seq<int>) {
    forall i, j | 0 <= i < j < |ids| :: ids[i] < ids[j]
  }

  /** The surviving ids from `lo` through `hi`, ascending. */
  function IdsBetween(present: set<int>, lo: int, hi: int): (ids: seq<int>)
    ensures forall s :: s in ids <==> lo <= s <= hi && s in present
    ensures forall i | 0 <= i < |ids| :: lo <= ids[i] <= hi
    ensures Ascending(ids)
    decreases hi - lo
  {
    if hi < lo then [] else IdsBetween(present, lo, hi - 1) + (if hi in present then [hi] else [])
  }

  // ----- Expired snapshots -----

  /** The first surviving id after `id`, else the window's end. */
  predicate IsFirstAfter(ids: seq<int>, id: int, end: int, r: int) {
    && ((r in ids && id < r) || r == end)
    && forall s | s in ids && id < s :: r <= s
  }

  method FirstAfter(ids: seq<int>, id: int, end: int) returns (r: int)
    requires Ascending(ids) && forall i | 0 <= i < |ids| :: ids[i] <= end
    ensures IsFirstAfter(ids, id, end, r) && r <= end
  {
    for i := 0 to |ids|
      invariant forall j | 0 <= j < i :: ids[j] <= id
    {
      if ids[i] > id {
        return ids[i];
      }
    }
    return end;
  }

  /** The latest id of `first` through `end` that is missing, else one below `first`. */
  method LatestMissing(present: set<int>, first: int, end: int) returns (id: int)
    requires first <= end
    ensures first - 1 <= id <= end
    ensures forall s | id < s <= end :: s in present
    ensures first <= id ==> id !in present
  {
    id := end;
    while id >= first && id in present
      invariant first - 1 <= id <= end
      invariant forall s | id < s <= end :: s in present
    {
      id := id - 1;
    }
  }

  /** An id of the window that was taken and expired. Official's snapshot 0 changes no
      table and does not count. */
  predicate Missing(present: set<int>, after: int, end: int, s: int) {
    Max(after + 1, 1) <= s <= end && s !in present
  }

  ghost predicate AnyMissing(present: set<int>, after: int, end: int) {
    exists s :: Missing(present, after, end, s)
  }

  /** A bound exactly when an id of the window is missing, at or above every missing id,
      and within the window. */
  ghost predicate IsGapBound(present: set<int>, after: int, end: int, bound: Option<int>) {
    && (bound.Some? <==> AnyMissing(present, after, end))
    && (forall s | Missing(present, after, end, s) :: bound.Some? && s <= bound.value)
    && (bound.Some? ==> after < bound.value <= end)
  }

  lemma NoneLeft(present: set<int>, after: int, end: int, ids: seq<int>)
    requires after < 0 && ids == IdsBetween(present, 0, end) && ids == []
    ensures IsGapBound(present, after, end, if end >= 1 then Some(end) else None)
  {
    assert end >= 1 ==> end !in ids && Missing(present, after, end, end);
  }

  lemma FirstIsLate(present: set<int>, after: int, end: int, ids: seq<int>)
    requires after < 0 && ids == IdsBetween(present, 0, end) && ids != [] && ids[0] > 1
    ensures Missing(present, after, end, 1)
  {
    assert 1 !in ids by {
      forall i | 0 <= i < |ids|
        ensures ids[i] >= ids[0]
      {
      }
    }
    assert ids[0] in ids;
  }

  /** `expired_in_window` over consecutive ids. */
  method ExpiredInWindow(present: set<int>, head: int, after: int, through: int) returns (bound: Option<int>)
    ensures IsGapBound(present, after, Min(through, head), bound)
  {
    var end := Min(through, head);
    var ids := IdsBetween(present, Max(after, 0), end);
    bound := None;
    var first := after + 1;
    if after < 0 {
      if ids == [] {
        NoneLeft(present, after, end, ids);
        return if end >= 1 then Some(end) else None;
      }
      first := ids[0];
      if ids[0] > 1 {
        bound := Some(ids[0]);
        FirstIsLate(present, after, end, ids);
      }
    }
    if first > end {
      return bound;
    }
    var missing := LatestMissing(present, first, end);
    if missing >= first {
      var gapEnd := FirstAfter(ids, missing, end);
      bound := Some(if bound.Some? then Max(bound.value, gapEnd) else gapEnd);
      if after < 0 {
        assert ids[0] in ids;
      }
      assert Missing(present, after, end, missing);
    }
  }

  // ----- Expired snapshots of a shared id sequence -----

  predicate NoneIn(present: set<int>, from: int, to: int) {
    forall p | from <= p <= to :: p !in present
  }

  /** The snapshot the window starts after is gone; of a whole history, every snapshot. */
  predicate StartLost(present: set<int>, after: int, end: int) {
    if after < 0 then end >= 0 && NoneIn(present, 0, end) else after > end || after !in present
  }

  /** The table was created in the window, at a snapshot since expired. */
  predicate CreationLost(present: set<int>, created: Option<int>, after: int, end: int) {
    created.Some? && after < created.value <= end && created.value !in present
  }

  /** What a gap among shared ids is told from: the window's start or the table's creation
      is lost, and nothing survives from there through `m`. */
  predicate Told(present: set<int>, created: Option<int>, after: int, end: int, m: int) {
    || (StartLost(present, after, end) && (after >= 0 ==> NoneIn(present, after, m)))
    || (CreationLost(present, created, after, end) && NoneIn(present, created.value, m))
  }

  lemma StartSurvives(present: set<int>, after: int, end: int)
    requires 0 <= after
    ensures var ids := IdsBetween(present, after, end);
            ids != [] && ids[0] == after <==> after <= end && after in present
  {
    var ids := IdsBetween(present, after, end);
    if after <= end && after in present {
      assert after in ids && forall i | 0 <= i < |ids| :: ids[0] <= ids[i];
    }
    if ids != [] {
      assert ids[0] in ids;
    }
  }

  /** The first surviving id after `id` is the first surviving one there is, and so tells
      of exactly the missing ids that none survives before. */
  lemma FirstTells(present: set<int>, lo: int, end: int, id: int, r: int, m: int)
    requires lo <= id <= end && id !in present && IsFirstAfter(IdsBetween(present, lo, end), id, end, r)
    requires m <= end && m !in present
    ensures m <= r <==> NoneIn(present, id, m)
  {
    var ids := IdsBetween(present, lo, end);
    if m <= r {
      forall p | id <= p <= m
        ensures p !in present
      {
        assert p in ids <==> p in present;
      }
    } else {
      assert r in ids;
    }
  }

  ghost predicate TellsFrom(present: set<int>, after: int, end: int, from: int, next: int) {
    forall m | after < m <= end && m !in present :: m <= next <==> NoneIn(present, from, m)
  }

  /** The first surviving id after a lost one. */
  method NextSurviving(present: set<int>, lo: int, end: int, ids: seq<int>, after: int, from: int) returns (next: int)
    requires ids == IdsBetween(present, lo, end) && lo <= from <= end && after <= from && from !in present
    ensures next <= end && (from < end ==> from < next) && TellsFrom(present, after, end, from, next)
  {
    next := FirstAfter(ids, from, end);
    forall m | after < m <= end && m !in present
      ensures m <= next <==> NoneIn(present, from, m)
    {
      FirstTells(present, lo, end, from, next, m);
    }
  }

  /** Told by the window's start. */
  method LostStart(present: set<int>, end: int, ids: seq<int>, after: int) returns (bound: Option<int>)
    requires ids == IdsBetween(present, Max(after, 0), end)
    ensures bound.Some? <==> StartLost(present, after, end)
    ensures bound.Some? ==> bound.value <= end && (after < end ==> after < bound.value)
    ensures bound.Some? ==> forall m | after < m <= end && m !in present :: m <= bound.value <==>
            (after >= 0 ==> NoneIn(present, after, m))
  {
    if after < 0 {
      assert ids != [] ==> ids[0] in ids;
      assert forall p | 0 <= p <= end :: p in ids <==> p in present;
      return if ids == [] && end >= 0 then Some(end) else None;
    }
    StartSurvives(present, after, end);
    if ids == [] || ids[0] != after {
      if after > end {
        return Some(end);
      }
      var next := NextSurviving(present, after, end, ids, after, after);
      return Some(next);
    }
    return None;
  }

  /** `expired_in_window` over a shared id sequence. It tells of a gap if and only if the
      window's start or the table's creation is lost, and of exactly the missing ids that
      no surviving one lies before from there. */
  method ExpiredInShared(present: set<int>, head: int, created: Option<int>, after: int,
          through: int) returns (bound: Option<int>)
    requires (forall s | s in present :: 0 <= s) && (created.Some? ==> 0 <= created.value)
    ensures var end := Min(through, head);
            && (bound.Some? <==> StartLost(present, after, end) || CreationLost(present, created, after, end))
            && (bound.Some? ==> bound.value <= end && (after < end ==> after < bound.value))
            && forall m | after < m <= end && m !in present ::
                 bound.Some? && m <= bound.value <==> Told(present, created, after, end, m)
  {
    var end := Min(through, head);
    var ids := IdsBetween(present, Max(after, 0), end);
    bound := LostStart(present, end, ids, after);
    if created.Some? && created.value > after && created.value <= end && created.value !in ids {
      assert created.value !in present;
      var next := NextSurviving(present, Max(after, 0), end, ids, after, created.value);
      bound := Raised(bound, next);
    }
  }

  /** Expiry by age removes the oldest snapshots of the catalog. */
  predicate ByAge(l: Ledger) {
    forall s, p | s in l.taken && p in l.present && p <= s :: s in l.present
  }

  /** A snapshot expired by age is told of if and only if the window starts after a
      snapshot, or nothing of it is left, or the table's creation is lost, as it is when it
      lies no later. */
  lemma ByAgeIsTold(l: Ledger, table: int, after: int, through: int, m: int)
    requires Truthful(l, table) && ByAge(l)
    requires after < m <= Min(through, l.head) && m in l.taken && m !in l.present
    ensures var end := Min(through, l.head);
            Told(l.present, l.created, after, end, m) <==>
              after >= 0 || NoneIn(l.present, 0, end) || CreationLost(l.present, l.created, after, end)
    ensures l.created.Some? && after < l.created.value <= m ==>
            CreationLost(l.present, l.created, after, Min(through, l.head))
  {
    assert forall p | p in l.present :: m < p;
  }

  // ----- The ledger -----

  function WindowIds(l: Ledger, after: int, through: int): seq<int> {
    IdsBetween(l.present, after + 1, Min(through, l.head))
  }

  predicate SaysOf(l: Ledger, table: int, s: int, r: SnapshotRows) {
    s in l.made && Says(l.made[s], table) == r
  }

  /** The latest of the ids that satisfy `p`, if any. */
  ghost predicate IsLastOf(ids: seq<int>, p: int -> bool, last: Option<int>) {
    && (last.Some? ==> last.value in ids && p(last.value))
    && (forall s | s in ids && p(s) :: last.Some? && s <= last.value)
  }

  function ChangedAt(l: Ledger, table: int): int -> bool {
    s => SaysOf(l, table, s, Changed)
  }

  function NamedAt(l: Ledger, table: int): int -> bool {
    s => s in l.made && HasAny(l.made[s], table)
  }

  ghost predicate IsMoved(l: Ledger, table: int, ids: seq<int>, moved: seq<int>) {
    Ascending(moved) && forall s :: s in moved <==> s in ids && SaysOf(l, table, s, Moved)
  }

  /** Some snapshot of the ids records a change of this kind. */
  ghost predicate Recorded(l: Ledger, table: int, ids: seq<int>, kind: Kind) {
    exists s | s in ids :: RecordedAt(l, table, s, kind)
  }

  predicate RecordedAt(l: Ledger, table: int, s: int, kind: Kind) {
    s in l.made && Has(l.made[s], table, kind)
  }

  lemma AscendingPrefix(ids: seq<int>, i: nat)
    requires Ascending(ids) && i < |ids|
    ensures Ascending(ids[..i]) && forall s | s in ids[..i] :: s < ids[i]
  {
  }

  lemma LastStep(ids: seq<int>, p: int -> bool, i: nat, was: Option<int>, now: Option<int>)
    requires Ascending(ids) && i < |ids| && IsLastOf(ids[..i], p, was)
    requires now == if p(ids[i]) then Some(ids[i]) else was
    ensures IsLastOf(ids[..i + 1], p, now)
  {
    AscendingPrefix(ids, i);
    assert ids[..i + 1] == ids[..i] + [ids[i]];
  }

  lemma MovedStep(l: Ledger, table: int, ids: seq<int>, i: nat, moved: seq<int>)
    requires Ascending(ids) && i < |ids| && ids[i] in l.made && IsMoved(l, table, ids[..i], moved)
    ensures IsMoved(l, table, ids[..i + 1], if SaysOf(l, table, ids[i], Moved) then moved + [ids[i]] else moved)
  {
    AscendingPrefix(ids, i);
    assert ids[..i + 1] == ids[..i] + [ids[i]];
    assert forall k | 0 <= k < |moved| :: moved[k] in moved;
  }

  lemma RecordedStep(l: Ledger, table: int, ids: seq<int>, i: nat, kind: Kind)
    requires i < |ids| && ids[i] in l.made
    ensures Recorded(l, table, ids[..i + 1], kind) <==>
            Recorded(l, table, ids[..i], kind) || Has(l.made[ids[i]], table, kind)
  {
    assert ids[..i + 1] == ids[..i] + [ids[i]];
    if Recorded(l, table, ids[..i], kind) {
      var s :| s in ids[..i] && RecordedAt(l, table, s, kind);
      assert s in ids[..i + 1];
    }
    if Has(l.made[ids[i]], table, kind) {
      assert RecordedAt(l, table, ids[i], kind) && ids[i] in ids[..i + 1];
    }
  }

  /** What the ledger alone tells: a flag for each kind of change it records, and the last
      snapshots that changed rows or anything. */
  ghost predicate LedgerTold(l: Ledger, table: int, ids: seq<int>, ch: Changes) {
    && (forall k :: k in ch.flags <==> Recorded(l, table, ids, k)) && !ch.historyIncomplete
    && IsLastOf(ids, ChangedAt(l, table), ch.lastRows)
    && IsLastOf(ids, NamedAt(l, table), ch.last)
  }

  lemma ToldStep(l: Ledger, table: int, ids: seq<int>, i: nat, was: Changes, now: Changes)
    requires Ascending(ids) && i < |ids| && ids[i] in l.made && LedgerTold(l, table, ids[..i], was)
    requires (forall k :: k in now.flags <==> k in was.flags || Has(l.made[ids[i]], table, k)) && !now.historyIncomplete
    requires now.lastRows == if Says(l.made[ids[i]], table).Changed? then Some(ids[i]) else was.lastRows
    requires now.last == if HasAny(l.made[ids[i]], table) then Some(ids[i]) else was.last
    ensures LedgerTold(l, table, ids[..i + 1], now)
  {
    forall k
      ensures Recorded(l, table, ids[..i + 1], k) <==> Recorded(l, table, ids[..i], k) || Has(l.made[ids[i]], table, k)
    {
      RecordedStep(l, table, ids, i, k);
    }
    LastStep(ids, ChangedAt(l, table), i, was.lastRows, now.lastRows);
    LastStep(ids, NamedAt(l, table), i, was.last, now.last);
  }

  /** A row change is flagged exactly when some snapshot says the rows changed. */
  lemma FlaggedRows(l: Ledger, table: int, ids: seq<int>, ch: Changes)
    requires LedgerTold(l, table, ids, ch)
    ensures RowsChanged(ch) <==> ch.lastRows.Some?
  {
    if k :| k in ch.flags && IsRowKind(k) {
      assert Recorded(l, table, ids, k);
      var s :| s in ids && RecordedAt(l, table, s, k);
      assert HasRows(l.made[s], table) && ChangedAt(l, table)(s);
    }
    if ch.lastRows.Some? {
      var s := ch.lastRows.value;
      assert HasRows(l.made[s], table);
      var k :| IsRowKind(k) && Has(l.made[s], table, k);
      assert RecordedAt(l, table, s, k) && Recorded(l, table, ids, k);
    }
  }

  /** The ledger rows of the window, in order. */
  method ReadLedger(l: Ledger, table: int, ids: seq<int>, changes: TableDataChanges) returns (moved: seq<int>)
    requires Ascending(ids) && (forall s | s in ids :: s in l.made)
    requires changes.State() == Changes({}, false, None, None)
    modifies changes
    ensures IsMoved(l, table, ids, moved) && LedgerTold(l, table, ids, changes.State())
  {
    moved := [];
    for i := 0 to |ids|
      invariant IsMoved(l, table, ids[..i], moved) && LedgerTold(l, table, ids[..i], changes.State())
    {
      ghost var was := changes.State();
      assert ids[i] in ids;
      var r := changes.Record(ids[i], l.made[ids[i]], table);
      ToldStep(l, table, ids, i, was, changes.State());
      MovedStep(l, table, ids, i, moved);
      if r.Moved? {
        moved := moved + [ids[i]];
      }
    }
    assert ids[..|ids|] == ids;
  }

  // ----- Gaps -----

  ghost predicate HasGap(l: Ledger, after: int, through: int) {
    var end := Min(through, l.head);
    if l.consecutive then AnyMissing(l.present, after, end)
    else StartLost(l.present, after, end) || CreationLost(l.present, l.created, after, end)
  }

  /** An expired snapshot of the window that the ids tell of: any, where they are
      consecutive. */
  predicate Seen(l: Ledger, after: int, through: int, s: int) {
    l.consecutive || Told(l.present, l.created, after, Min(through, l.head), s)
  }

  predicate Expired(l: Ledger, after: int, through: int, s: int) {
    after < s <= Min(through, l.head) && 1 <= s && s !in l.present
  }

  /** A bound exactly when there is a gap, at or above exactly the expired snapshots the
      ids tell of, and within the window. */
  ghost predicate IsGap(l: Ledger, after: int, through: int, bound: Option<int>) {
    && (bound.Some? <==> HasGap(l, after, through))
    && (bound.Some? ==> bound.value <= Min(through, l.head) && (after < Min(through, l.head) ==> after < bound.value))
    && forall s | Expired(l, after, through, s) :: bound.Some? && s <= bound.value <==> Seen(l, after, through, s)
  }

  method FindGap(l: Ledger, after: int, through: int) returns (bound: Option<int>)
    requires (forall s | s in l.present :: 0 <= s) && (l.created.Some? ==> 0 <= l.created.value)
    ensures IsGap(l, after, through, bound)
  {
    if !l.consecutive {
      bound := ExpiredInShared(l.present, l.head, l.created, after, through);
      return;
    }
    bound := ExpiredInWindow(l.present, l.head, after, through);
    assert forall s | Expired(l, after, through, s) :: Missing(l.present, after, Min(through, l.head), s);
  }

  // ----- The feed -----

  /** Whether the change feed over `from` through `to` yields a row. */
  predicate FeedReports(l: Ledger, from: int, to: int) {
    exists s | from <= s <= to :: l.deletions(s) || l.insertions(s)
  }

  /** A snapshot that only moved rows, after the last change already known. */
  predicate Unsettled(l: Ledger, table: int, ids: seq<int>, settled: Option<int>, s: int) {
    s in ids && SaysOf(l, table, s, Moved) && (settled.Some? ==> settled.value < s)
  }

  /** An unsettled snapshot, the table gone at the window's end, or between two of them a
      row the feed reports. */
  ghost predicate MovesDetected(l: Ledger, table: int, ids: seq<int>, settled: Option<int>, through: int) {
    exists first, last ::
      && Unsettled(l, table, ids, settled, first) && Unsettled(l, table, ids, settled, last)
      && (forall s | Unsettled(l, table, ids, settled, s) :: first <= s <= last)
      && (!l.visible(through) || FeedReports(l, first, last))
  }

  /** What any analysis of the window answers `rows_changed` with. */
  ghost predicate Detects(l: Ledger, table: int, after: int, through: int) {
    var ids := WindowIds(l, after, through);
    || (exists s | s in ids :: SaysOf(l, table, s, Changed))
    || HasGap(l, after, through)
    || MovesDetected(l, table, ids, None, through)
  }

  /** The last row change of a complete analysis: the last one known, or past it, where the
      feed detects any, the last moved snapshot it reports, or the last moved one when it
      reports none of them alone or the table is gone. */
  ghost predicate IsLastRows(l: Ledger, table: int, ids: seq<int>, settled: Option<int>, through: int,
          lastRows: Option<int>) {
    if !MovesDetected(l, table, ids, settled, through) then lastRows == settled
    else
      && lastRows.Some? && Unsettled(l, table, ids, settled, lastRows.value)
      && (forall s | Unsettled(l, table, ids, settled, s) && lastRows.value < s ::
         l.visible(through) && !FeedReports(l, s, s))
      && (l.visible(through) && !FeedReports(l, lastRows.value, lastRows.value) ==>
            forall s | Unsettled(l, table, ids, settled, s) :: s <= lastRows.value && !FeedReports(l, s, s))
  }

  lemma EndsOf(moved: seq<int>)
    requires moved != [] && Ascending(moved)
    ensures forall s | s in moved :: moved[0] <= s <= moved[|moved| - 1]
  {
  }

  /** The latest of the moved snapshots the feed reports on its own, else the last. */
  method LatestReported(l: Ledger, moved: seq<int>) returns (latest: int)
    requires moved != [] && Ascending(moved)
    ensures latest in moved && forall s | s in moved && latest < s :: !FeedReports(l, s, s)
    ensures !FeedReports(l, latest, latest) ==> forall s | s in moved :: s <= latest && !FeedReports(l, s, s)
  {
    EndsOf(moved);
    latest := moved[|moved| - 1];
    for k := |moved| downto 0
      invariant latest == moved[|moved| - 1]
      invariant forall j | k <= j < |moved| :: !FeedReports(l, moved[j], moved[j])
    {
      if FeedReports(l, moved[k], moved[k]) {
        latest := moved[k];
        assert forall j | 0 <= j < |moved| && moved[k] < moved[j] :: k < j;
        return;
      }
    }
  }

  method Retain(moved: seq<int>, settled: Option<int>) returns (kept: seq<int>)
    requires Ascending(moved)
    ensures Ascending(kept) && forall s :: s in kept <==> s in moved && (settled.Some? ==> settled.value < s)
  {
    kept := [];
    for i := 0 to |moved|
      invariant Ascending(kept) && (forall s :: s in kept <==> s in moved[..i] && (settled.Some? ==> settled.value < s))
    {
      AscendingPrefix(moved, i);
      assert moved[..i + 1] == moved[..i] + [moved[i]];
      assert forall k | 0 <= k < |kept| :: kept[k] in kept;
      if settled.None? || moved[i] > settled.value {
        kept := kept + [moved[i]];
      }
    }
    assert moved[..|moved|] == moved;
  }

  predicate FeedDetects(l: Ledger, moved: seq<int>, through: int) {
    moved != [] && (!l.visible(through) || FeedReports(l, moved[0], moved[|moved| - 1]))
  }

  ghost predicate IsUnsettled(l: Ledger, table: int, ids: seq<int>, settled: Option<int>, kept: seq<int>) {
    Ascending(kept) && forall s :: s in kept <==> Unsettled(l, table, ids, settled, s)
  }

  /** Asking the feed of the unsettled snapshots detects what their moves hide. */
  lemma DetectsByFeed(l: Ledger, table: int, ids: seq<int>, settled: Option<int>, kept: seq<int>, through: int)
    requires IsUnsettled(l, table, ids, settled, kept)
    ensures MovesDetected(l, table, ids, settled, through) <==> FeedDetects(l, kept, through)
  {
    if FeedDetects(l, kept, through) {
      FeedIsDetected(l, table, ids, settled, kept, through);
    }
    if MovesDetected(l, table, ids, settled, through) {
      var first, last :|
        && Unsettled(l, table, ids, settled, first) && Unsettled(l, table, ids, settled, last)
        && (forall s | Unsettled(l, table, ids, settled, s) :: first <= s <= last)
        && (!l.visible(through) || FeedReports(l, first, last));
      assert first in kept && last in kept;
      EndsOf(kept);
      assert kept[0] in kept && kept[|kept| - 1] in kept;
      assert first == kept[0] && last == kept[|kept| - 1];
    }
  }

  lemma FeedIsDetected(l: Ledger, table: int, ids: seq<int>, settled: Option<int>, kept: seq<int>, through: int)
    requires IsUnsettled(l, table, ids, settled, kept) && FeedDetects(l, kept, through)
    ensures MovesDetected(l, table, ids, settled, through)
  {
    EndsOf(kept);
    var first, last := kept[0], kept[|kept| - 1];
    assert first in kept && last in kept;
    assert Unsettled(l, table, ids, settled, first) && Unsettled(l, table, ids, settled, last);
  }

  /** The flags the feed adds: insertions and deletions it reports, or that what happened
      is unknown where the table is gone. */
  predicate FeedAdds(l: Ledger, moved: seq<int>, through: int, k: Kind) {
    moved != [] &&
    if !l.visible(through) then k == Unknown
    else
      || (k == Inserted && exists s | moved[0] <= s <= moved[|moved| - 1] :: l.insertions(s))
      || (k == Deleted && exists s | moved[0] <= s <= moved[|moved| - 1] :: l.deletions(s))
  }

  lemma AddsWhenDetects(l: Ledger, moved: seq<int>, through: int)
    ensures FeedDetects(l, moved, through) <==> exists k :: FeedAdds(l, moved, through, k) && IsRowKind(k)
  {
    if moved != [] && FeedDetects(l, moved, through) {
      if !l.visible(through) {
        assert FeedAdds(l, moved, through, Unknown);
      } else {
        var s :| moved[0] <= s <= moved[|moved| - 1] && (l.deletions(s) || l.insertions(s));
        assert FeedAdds(l, moved, through, if l.deletions(s) then Deleted else Inserted);
      }
    }
  }

  /** The change feed over what is left unsettled. */
  method AskFeed(l: Ledger, through: int, moved: seq<int>, complete: bool, changes: TableDataChanges)
    requires Ascending(moved)
    modifies changes
    ensures forall k :: k in changes.flags <==> k in old(changes.flags) || FeedAdds(l, moved, through, k)
    ensures changes.historyIncomplete == old(changes.historyIncomplete) && changes.last == old(changes.last)
    ensures !FeedDetects(l, moved, through) ==> changes.lastRows == old(changes.lastRows)
    ensures FeedDetects(l, moved, through) ==> changes.lastRows.Some? && changes.lastRows.value in moved
    ensures FeedDetects(l, moved, through) && complete ==> var latest := changes.lastRows.value;
              && (forall s | s in moved && latest < s :: l.visible(through) && !FeedReports(l, s, s))
              && (l.visible(through) && !FeedReports(l, latest, latest) ==> forall s | s in moved ::
                 s <= latest && !FeedReports(l, s, s))
  {
    if moved == [] {
      return;
    }
    EndsOf(moved);
    var first, last := moved[0], moved[|moved| - 1];
    if !l.visible(through) {
      changes.flags := changes.flags + {Unknown};
      changes.lastRows := Some(last);
      return;
    }
    var deleted := exists s | first <= s <= last :: l.deletions(s);
    var inserted := exists s | first <= s <= last :: l.insertions(s);
    if !deleted && !inserted {
      return;
    }
    changes.flags := changes.flags + (if deleted then {Deleted} else {}) + (if inserted then {Inserted} else {});
    var latest := last;
    if complete && |moved| > 1 {
      latest := LatestReported(l, moved);
    }
    changes.lastRows := Some(latest);
  }

  lemma AddedRows(l: Ledger, moved: seq<int>, through: int, was: Changes, now: Changes)
    requires (forall k :: k in now.flags <==> k in was.flags || FeedAdds(l, moved, through, k))
             && now.historyIncomplete == was.historyIncomplete
    ensures RowsChanged(now) <==> RowsChanged(was) || FeedDetects(l, moved, through)
  {
    AddsWhenDetects(l, moved, through);
    if FeedDetects(l, moved, through) {
      var k :| FeedAdds(l, moved, through, k) && IsRowKind(k);
      assert k in now.flags;
    }
    if RowsChanged(was) && !was.historyIncomplete {
      var k :| k in was.flags && IsRowKind(k);
      assert k in now.flags;
    }
  }

  // ----- The analysis -----

  function SettledBy(recorded: Option<int>, bound: Option<int>): Option<int> {
    if bound.None? then recorded else Raised(recorded, bound.value)
  }

  /** The ledger rows of the window and its gaps. */
  ghost predicate WindowTold(l: Ledger, table: int, after: int, through: int, recorded: Option<int>,
          named: Option<int>, bound: Option<int>) {
    var ids := WindowIds(l, after, through);
    IsLastOf(ids, ChangedAt(l, table), recorded) && IsLastOf(ids, NamedAt(l, table), named)
      && IsGap(l, after, through, bound)
  }

  method ReadWindow(l: Ledger, table: int, after: int, through: int, changes: TableDataChanges)
    returns (moved: seq<int>, ghost recorded: Option<int>, ghost named: Option<int>, ghost bound: Option<int>)
    requires Truthful(l, table) && changes.State() == Changes({}, false, None, None)
    modifies changes
    ensures IsMoved(l, table, WindowIds(l, after, through), moved)
    ensures WindowTold(l, table, after, through, recorded, named, bound)
    ensures forall k :: k in changes.flags <==> Recorded(l, table, WindowIds(l, after, through), k)
    ensures changes.lastRows == SettledBy(recorded, bound) && changes.last == SettledBy(named, bound)
    ensures changes.historyIncomplete <==> bound.Some?
    ensures RowsChanged(changes.State()) <==> changes.lastRows.Some?
  {
    var ids := WindowIds(l, after, through);
    moved := ReadLedger(l, table, ids, changes);
    FlaggedRows(l, table, ids, changes.State());
    recorded, named := changes.lastRows, changes.last;
    var gap := FindGap(l, after, through);
    bound := gap;
    if gap.Some? {
      changes.RecordGap(gap.value);
    }
  }

  /** Every snapshot of the window that changed rows and that the ids tell of, if it
      expired, is at or before the answer. */
  ghost predicate Covers(l: Ledger, after: int, through: int, lastRows: Option<int>) {
    forall s | after < s <= Min(through, l.head) && l.changed(s) && (s in l.present || Seen(l, after, through, s)) ::
      lastRows.Some? && s <= lastRows.value
  }

  lemma LastRowsCover(l: Ledger, table: int, after: int, through: int, recorded: Option<int>, bound: Option<int>,
          lastRows: Option<int>)
    requires var ids := WindowIds(l, after, through);
             && Truthful(l, table) && IsLastOf(ids, ChangedAt(l, table), recorded) && IsGap(l, after, through, bound)
             && IsLastRows(l, table, ids, SettledBy(recorded, bound), through, lastRows)
    ensures Covers(l, after, through, lastRows)
  {
    forall s | after < s <= Min(through, l.head) && l.changed(s) && (s in l.present || Seen(l, after, through, s))
      ensures lastRows.Some? && s <= lastRows.value
    {
      LastRowsCovers(l, table, after, through, recorded, bound, lastRows, s);
    }
  }

  lemma LastRowsCovers(l: Ledger, table: int, after: int, through: int, recorded: Option<int>, bound: Option<int>,
          lastRows: Option<int>, s: int)
    requires var ids := WindowIds(l, after, through);
             && Truthful(l, table) && IsLastOf(ids, ChangedAt(l, table), recorded) && IsGap(l, after, through, bound)
             && IsLastRows(l, table, ids, SettledBy(recorded, bound), through, lastRows)
    requires after < s <= Min(through, l.head) && l.changed(s) && (s in l.present || Seen(l, after, through, s))
    ensures lastRows.Some? && s <= lastRows.value
  {
    var ids, settled := WindowIds(l, after, through), SettledBy(recorded, bound);
    if s !in l.present {
      assert Expired(l, after, through, s);
    } else {
      assert s in ids && Tells(l, table, s);
      if !ChangedAt(l, table)(s) && (settled.None? || settled.value < s) {
        assert Unsettled(l, table, ids, settled, s) && FeedReports(l, s, s);
        MovedIsDetected(l, table, ids, settled, through, s);
      }
    }
  }

  lemma MovedIsDetected(l: Ledger, table: int, ids: seq<int>, settled: Option<int>, through: int, s: int)
    requires Ascending(ids) && Unsettled(l, table, ids, settled, s) && (l.deletions(s) || l.insertions(s))
    ensures MovesDetected(l, table, ids, settled, through)
  {
    var kept := UnsettledOf(l, table, ids, settled);
    EndsOf(kept);
    assert FeedReports(l, kept[0], kept[|kept| - 1]);
    DetectsByFeed(l, table, ids, settled, kept, through);
  }

  lemma {:induction false} UnsettledOf(l: Ledger, table: int, ids: seq<int>,
          settled: Option<int>) returns (kept: seq<int>)
    requires Ascending(ids)
    ensures IsUnsettled(l, table, ids, settled, kept)
  {
    if ids == [] {
      kept := [];
    } else {
      var n := |ids| - 1;
      AscendingPrefix(ids, n);
      kept := UnsettledOf(l, table, ids[..n], settled);
      assert ids == ids[..n] + [ids[n]];
      assert forall k | 0 <= k < |kept| :: kept[k] in kept;
      if Unsettled(l, table, ids, settled, ids[n]) {
        kept := kept + [ids[n]];
      }
    }
  }

  /** A known change or gap decides the answer, otherwise the unsettled moves do. */
  lemma DetectsWhat(l: Ledger, table: int, after: int, through: int, recorded: Option<int>, bound: Option<int>)
    requires IsLastOf(WindowIds(l, after, through), ChangedAt(l, table), recorded) && IsGap(l, after, through, bound)
    ensures var ids, settled := WindowIds(l, after, through), SettledBy(recorded, bound);
            Detects(l, table, after, through) <==> settled.Some? || MovesDetected(l, table, ids, settled, through)
  {
    var ids := WindowIds(l, after, through);
    if recorded.Some? {
      assert recorded.value in ids && SaysOf(l, table, recorded.value, Changed);
    }
    assert forall s | s in ids && SaysOf(l, table, s, Changed) :: ChangedAt(l, table)(s);
  }

  lemma FlagsExactly()
    ensures forall ch :: RowsChanged(ch) <==>
            ch.historyIncomplete || ch.flags * {Inserted, Deleted, InlinedInsert, Kind.InlinedDelete, Dropped,
              Unknown} != {}
  {
    var kinds := {Inserted, Deleted, InlinedInsert, Kind.InlinedDelete, Dropped, Unknown};
    assert forall k :: IsRowKind(k) <==> k in kinds;
    forall ch: Changes
      ensures ch.flags * kinds != {} <==> exists k | k in ch.flags :: IsRowKind(k)
    {
      if k :| k in ch.flags && IsRowKind(k) {
        assert k in ch.flags * kinds;
      }
      if ch.flags * kinds != {} {
        var k :| k in ch.flags * kinds;
      }
    }
  }

  /** A snapshot of the window whose ledger row is missing, or names the table with any kind
      but a flush, a compaction, an alteration or another object's, is detected. */
  lemma RecordedIsDetected(l: Ledger, table: int, after: int, through: int, s: int)
    requires s in WindowIds(l, after, through) && s in l.made
    requires l.made[s].None? || exists t | t in l.made[s].value ::
                t.table == table && t.kind !in {Flush, Compaction, Altered, OtherObject}
    ensures Detects(l, table, after, through)
  {
    SaysExactly(l.made[s], table);
    assert SaysOf(l, table, s, Changed);
  }

  /** And nothing is detected where the ids tell of no gap and every ledger row names the
      table with an alteration or another object's change, if at all. */
  lemma QuietIsUndetected(l: Ledger, table: int, after: int, through: int)
    requires !HasGap(l, after, through) && forall s | s in WindowIds(l, after, through) ::
             s in l.made && l.made[s].Some?
    requires forall s, t | s in WindowIds(l, after, through) && t in l.made[s].value && t.table == table ::
               t.kind.Altered? || t.kind.OtherObject?
    ensures !Detects(l, table, after, through)
  {
    forall s | s in WindowIds(l, after, through)
      ensures Says(l.made[s], table).Unchanged?
    {
      SaysExactly(l.made[s], table);
    }
  }

  /** The analysis of a window. It answers `rows_changed` the same whether it stops at
      the first change it finds or goes on; a complete one's last row change is the last
      Changed snapshot, the bound of the gaps, or what the feed adds past both, and is at
      or after every snapshot that changed rows and was not lost unseen. */
  method Analyse(l: Ledger, table: int, after: int, through: int, complete: bool)
    returns (ch: Changes, ghost recorded: Option<int>, ghost named: Option<int>, ghost bound: Option<int>)
    requires Truthful(l, table)
    ensures RowsChanged(ch) <==> after < through && Detects(l, table, after, through)
    ensures RowsChanged(ch) <==>
            ch.historyIncomplete || ch.flags * {Inserted, Deleted, InlinedInsert, Kind.InlinedDelete, Dropped,
              Unknown} != {}
    ensures after < through ==> WindowTold(l, table, after, through, recorded, named, bound)
    ensures after < through ==> ch.last == SettledBy(named, bound) && (ch.historyIncomplete <==> bound.Some?)
    ensures forall k | after < through && Recorded(l, table, WindowIds(l, after, through), k) :: k in ch.flags
    ensures forall k | k in ch.flags ::
            Recorded(l, table, WindowIds(l, after, through), k) || k in {Inserted, Deleted, Unknown}
    ensures complete && after < through ==>
              IsLastRows(l, table, WindowIds(l, after, through), SettledBy(recorded, bound), through, ch.lastRows)
    ensures complete ==> Covers(l, after, through, ch.lastRows)
  {
    FlagsExactly();
    var changes := new TableDataChanges();
    recorded, named, bound := None, None, None;
    if after >= through {
      return changes.State(), None, None, None;
    }
    var moved;
    moved, recorded, named, bound := ReadWindow(l, table, after, through, changes);
    DetectsWhat(l, table, after, through, recorded, bound);
    if !complete && RowsChanged(changes.State()) {
      return changes.State(), recorded, named, bound;
    }
    ghost var ids := WindowIds(l, after, through);
    var settled := changes.lastRows;
    var kept := Retain(moved, settled);
    assert IsUnsettled(l, table, ids, settled, kept);
    DetectsByFeed(l, table, ids, settled, kept, through);
    ghost var was := changes.State();
    AskFeed(l, through, kept, complete, changes);
    AddedRows(l, kept, through, was, changes.State());
    ch := changes.State();
    if complete {
      LastRowsCover(l, table, after, through, recorded, bound, ch.lastRows);
    }
  }

  /** A snapshot of the window that changed rows is detected, unless it was lost unseen: a
      window in which nothing is detected changed none. */
  lemma ChangesAreDetected(l: Ledger, table: int, after: int, through: int, s: int)
    requires Truthful(l, table) && after < s <= Min(through, l.head) && l.changed(s)
    requires s in l.present || Seen(l, after, through, s)
    ensures Detects(l, table, after, through)
  {
    var ids := WindowIds(l, after, through);
    if s in l.present {
      assert s in ids && Tells(l, table, s);
      if Says(l.made[s], table).Changed? {
        assert SaysOf(l, table, s, Changed);
      } else {
        MovedIsDetected(l, table, ids, None, through, s);
      }
    } else if l.consecutive {
      assert Missing(l.present, after, Min(through, l.head), s);
    }
  }

  /** Among shared ids, a snapshot named and expired inside the window is lost unseen:
      the table's rows changed, and nothing is detected. */
  lemma NamedExpiryIsUnseen()
    ensures Truthful(SharedLedger(), 7) && SharedLedger().changed(3) && !Detects(SharedLedger(), 7, 2, 4)
  {
    var l := SharedLedger();
    SharedWindow();
    assert Says(Some([]), 7).Unchanged?;
    assert !MovesDetected(l, 7, WindowIds(l, 2, 4), None, 4);
  }

  lemma SharedWindow()
    ensures WindowIds(SharedLedger(), 2, 4) == [4]
  {
    var present := SharedLedger().present;
    assert IdsBetween(present, 3, 2) == [];
    assert IdsBetween(present, 3, 3) == [];
  }

  /** Snapshots 2, 3 and 4, of which 3 changed table 7 and was expired by its number. */
  function SharedLedger(): Ledger {
    Ledger(false, Some(2), 4, {2, 3, 4}, {2, 4}, map[2 := Some([]), 4 := Some([])],
           s => s == 3, s => false, s => false, s => true)
  }
}
