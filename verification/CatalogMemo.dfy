/** `CatalogReadMemo`: catalog reads kept across queries, shared by queries that bind,
    read, fill and pick while other writers commit.

    The class is the memo's state under its lock. The state machine below interleaves
    the lock-protected steps of any number of queries, each with any number of scans,
    with the single statements of their fills and with commits. What a fill returns is
    what `Fill.FillFrom` may return over the states its statements read. */
module CatalogMemo {
  import opened Lake
  import opened Totals
  import opened Words
  import opened QuietSteps
  import F = Fill

  /** A table id and a snapshot id. */
  type Key = (int, int)

  type Reads = F.TableReads

  /** `absent`, kept across heads, is for each table the latest snapshot through which it
      was reported to have no inlined rows. */
  datatype MemoState = MemoState(
    head: Option<nat>,
    bytes: nat,
    tables: map<Key, Reads>,
    noRoom: set<Key>,
    tooLarge: set<int>,
    absent: map<int, int>)

  const EMPTY := MemoState(None, 0, map[], {}, {}, map[])

  /** What a query is to read for a table: the catalog itself, a kept fill, or its own
      fill with the head read after it, if that could be read. */
  datatype Answer = Direct | Kept(content: Reads) | Own(content: Reads, final: Option<nat>)

  /** A bind at `head`: a newer head drops every entry. */
  function Bound(m: MemoState, head: nat): MemoState {
    if m.head.None? || m.head.value < head then MemoState(Some(head), 0, map[], {}, m.tooLarge, m.absent) else m
  }

  /** The check before a fill: an answer, or a fill is needed. */
  function Consulted(m: MemoState, key: Key, bound: nat): Option<Answer> {
    if key.0 in m.tooLarge then Some(Direct)
    else if m.head == Some(bound) && key in m.tables then Some(Kept(m.tables[key]))
    else if m.head == Some(bound) && key in m.noRoom then Some(Direct)
    else None
  }

  /** The answer after a fill, and the memo with the fill kept where it may be. */
  function Stored(m: MemoState, key: Key, bound: nat, content: Reads, bytes: nat, final: Option<nat>,
          max: nat): (MemoState, Answer) {
    if m.head != Some(bound) then (m, Own(content, final))
    else if key in m.tables then (m, Kept(m.tables[key]))
    else if final != Some(bound) then (m, Own(content, final))
    else if SaturatingAdd(m.bytes, bytes) <= max then
      (m.(bytes := Wrap64(m.bytes + bytes), tables := m.tables[key := content]), Own(content, final))
    else (m.(noRoom := m.noRoom + {key}), Own(content, final))
  }

  /** A table whose reads did not fit the whole budget. */
  function Marked(m: MemoState, table: int): MemoState {
    m.(tooLarge := m.tooLarge + {table})
  }

  /** An absence answer kept, unless one through a later snapshot is. */
  function Noted(m: MemoState, table: int, through: int): MemoState {
    if table in m.absent && through <= m.absent[table] then m else m.(absent := m.absent[table := through])
  }

  class CatalogReadMemo {
    const max: nat
    var head: Option<nat>
    var bytes: nat
    var tables: map<Key, Reads>
    var noRoom: set<Key>
    var tooLarge: set<int>
    var absent: map<int, int>

    ghost function State(): MemoState
      reads this
    {
      MemoState(head, bytes, tables, noRoom, tooLarge, absent)
    }

    constructor (maxBytes: nat)
      ensures max == maxBytes && State() == EMPTY
    {
      max := maxBytes;
      head, bytes, tables, noRoom, tooLarge, absent := None, 0, map[], {}, {}, map[];
    }

    /** A bind at a newer head starts over; what is known of tables too large and of absent
        rows stays. */
    method Bind(current: nat)
      modifies this
      ensures State() == Bound(old(State()), current)
      ensures tooLarge == old(tooLarge) && absent == old(absent)
      ensures old(head).None? || old(head).value < current ==>
              head == Some(current) && tables == map[] && noRoom == {} && bytes == 0
      ensures old(head).Some? && current <= old(head).value ==> State() == old(State())
    {
      if head.None? || head.value < current {
        head := Some(current);
        tables := map[];
        noRoom := {};
        bytes := 0;
      }
    }

    /** A table not too large is served its kept fill at the memo's head; a fill is needed
        exactly where nothing kept at that head decides. */
    method Consult(key: Key, bound: nat) returns (answer: Option<Answer>)
      ensures answer == Consulted(State(), key, bound)
      ensures key.0 !in tooLarge && head == Some(bound) && key in tables ==> answer == Some(Kept(tables[key]))
      ensures answer == Some(Direct) <==>
              key.0 in tooLarge || (head == Some(bound) && key !in tables && key in noRoom)
      ensures answer.None? <==> key.0 !in tooLarge && (head != Some(bound) || (key !in tables && key !in noRoom))
    {
      if key.0 in tooLarge {
        return Some(Direct);
      }
      if head == Some(bound) {
        if key in tables {
          return Some(Kept(tables[key]));
        }
        if key in noRoom {
          return Some(Direct);
        }
      }
      return None;
    }

    /** The table is read from the catalog from here on, at every snapshot and head; the
        other tables' answers are what they were. */
    method MarkTooLarge(table: int)
      modifies this
      ensures State() == Marked(old(State()), table)
      ensures forall snapshot, bound: nat :: Consulted(State(), (table, snapshot), bound) == Some(Direct)
      ensures forall key: Key, bound: nat | key.0 != table ::
              Consulted(State(), key, bound) == Consulted(old(State()), key, bound)
    {
      tooLarge := tooLarge + {table};
    }

    /** The kept absence answer, if it covers the snapshot. */
    method KnownAbsent(table: int, snapshot: int) returns (known: Option<int>)
      ensures known.Some? <==> table in absent && snapshot <= absent[table]
      ensures known.Some? ==> known.value == absent[table]
    {
      if table in absent && snapshot <= absent[table] {
        return Some(absent[table]);
      }
      return None;
    }

    /** The farther of the answers is kept, and nothing else changes. */
    method NoteAbsence(table: int, through: int)
      modifies this
      ensures State() == Noted(old(State()), table, through)
      ensures table in absent && through <= absent[table]
      ensures absent[table] == through || (table in old(absent) && absent[table] == old(absent)[table])
      ensures table in old(absent) ==> old(absent)[table] <= absent[table]
      ensures absent - {table} == old(absent) - {table} && State() == old(State()).(absent := absent)
    {
      var kept := if table in absent then absent[table] else through;
      absent := absent[table := if kept < through then through else kept];
      assert table in old(absent) && through <= old(absent)[table] ==> absent == old(absent);
    }

    /** A fill that ends at the memo's head, the first of its key there, is kept and charged
        if it fits and noted as without room otherwise; any other changes nothing. The answer
        is the fill kept before at that head, else this one. */
    method Store(key: Key, bound: nat, content: Reads, size: nat, final: Option<nat>) returns (answer: Answer)
      modifies this
      ensures (State(), answer) == Stored(old(State()), key, bound, content, size, final, max)
      ensures head == old(head) && tooLarge == old(tooLarge) && absent == old(absent)
      ensures answer == if head == Some(bound) && key in old(tables) then Kept(old(tables)[key])
              else Own(content, final)
      ensures var first := head == Some(bound) == final && key !in old(tables);
              var fits := SaturatingAdd(old(bytes), size) <= max;
              && tables == (if first && fits then old(tables)[key := content] else old(tables))
              && bytes == (if first && fits then Wrap64(old(bytes) + size) else old(bytes))
              && noRoom == (if first && !fits then old(noRoom) + {key} else old(noRoom))
    {
      if head == Some(bound) {
        if key in tables {
          return Kept(tables[key]);
        }
        if final == Some(bound) {
          if SaturatingAdd(bytes, size) <= max {
            bytes := Wrap64(bytes + size);
            tables := tables[key := content];
          } else {
            noRoom := noRoom + {key};
          }
        }
      }
      return Own(content, final);
    }
  }

  /** A store within the budget charges its fill in full if and only if the budget is below
      the largest word or the new total fits it. */
  lemma StoreCounts(m: MemoState, key: Key, bound: nat, content: Reads, size: nat, max: nat)
    requires m.head == Some(bound) && key !in m.tables && m.bytes <= max <= USIZE_MAX
             && SaturatingAdd(m.bytes, size) <= max
    ensures var m' := Stored(m, key, bound, content, size, Some(bound), max).0;
            key in m'.tables && (m'.bytes == m.bytes + size <= max <==> max < USIZE_MAX || m.bytes + size <= USIZE_MAX)
  {
    TestedSumFits(m.bytes, size, max);
  }

  /** A full memo of the largest budget: it keeps one more fill, and counts nothing. */
  lemma LargestBudgetForgets(content: Reads)
    ensures var m := MemoState(Some(0), USIZE_MAX, map[], {}, {}, map[]);
            var m' := Stored(m, (0, 0), 0, content, 1, Some(0), USIZE_MAX).0;
            (0, 0) in m'.tables && m'.bytes == 0
  {
  }

  // ----- Queries, scans, fills and commits -----

  /** The catalog a table has when the head is `h`, the pages a listing of it is read in,
      and how many bytes reads are charged. */
  datatype World = World(at: (nat, int) -> Catalog, limit: nat, page: (nat, Key, Option<int>) -> seq<F.Listed>,
    size: Reads -> nat, max: nat)

  ghost predicate TableOk(w: World, h: nat, t: int) {
    Wf(w.at(h, t)) && w.at(h, t).head == h && 0 <= w.at(h, t).nextFileId
  }

  ghost predicate Grows(w: World, h: nat, h': nat, t: int) {
    Advances(w.at(h, t), w.at(h', t))
  }

  ghost predicate PageOk(w: World, h: nat, key: Key, after: Option<int>) {
    F.IsPage(w.at(h, key.0), key.1, after, w.limit, w.page(h, key, after))
  }

  /** Every commit that changes a table moves the head, and heads only grow. */
  ghost predicate WfWorld(w: World) {
    && 0 < w.limit && w.max <= USIZE_MAX
    && (forall h: nat, t :: TableOk(w, h, t))
    && (forall h: nat, h': nat, t | h <= h' :: Grows(w, h, h', t))
    && (forall h: nat, key, after :: PageOk(w, h, key, after))
  }

  /** A plain scan and a `rowid` scan of the reads return the snapshot as the catalog at
      head `h` holds it. */
  ghost predicate Shows(w: World, h: nat, key: Key, r: Reads) {
    && F.ReadsShow(r, r.inlined.rows, key.1) == Scan(w.at(h, key.0), key.1)
    && F.ReadsShow(r, r.inlined.visible, key.1) == Scan(w.at(h, key.0), key.1)
  }

  /** One statement of a fill: the head it reads at, and the absence answer known before. */
  datatype Read = Read(head: nat, known: Option<int>)

  function HeadAt(stmts: seq<Read>, k: nat): nat
    requires stmts != []
  {
    if k < |stmts| then stmts[k].head else stmts[|stmts| - 1].head
  }

  function ProviderOf(w: World, key: Key, stmts: seq<Read>): F.Provider
    requires stmts != []
  {
    F.Provider(CatalogBy(w, key, stmts), w.limit, PageBy(w, key, stmts))
  }

  function CatalogBy(w: World, key: Key, stmts: seq<Read>): nat -> Catalog
    requires stmts != []
  {
    (k: nat) => w.at(HeadAt(stmts, k), key.0)
  }

  function PageBy(w: World, key: Key, stmts: seq<Read>): (nat, Option<int>) -> seq<F.Listed>
    requires stmts != []
  {
    (k: nat, after: Option<int>) => w.page(HeadAt(stmts, k), key, after)
  }

  lemma ProviderAt(w: World, key: Key, stmts: seq<Read>, k: nat)
    requires k < |stmts|
    ensures ProviderOf(w, key, stmts).world(k) == w.at(stmts[k].head, key.0)
  {
    assert HeadAt(stmts, k) == stmts[k].head;
    assert CatalogBy(w, key, stmts)(k) == w.at(HeadAt(stmts, k), key.0);
  }

  function KnownOf(stmts: seq<Read>): nat -> Option<int> {
    (k: nat) => if k < |stmts| then stmts[k].known else None
  }

  /** `content` is what a fill of these statements may have read. */
  ghost predicate FillReads(w: World, key: Key, stmts: seq<Read>, content: Reads, tr: F.Trace) {
    stmts != [] && tr.z < |stmts| && F.IsFill(ProviderOf(w, key, stmts), key.1, KnownOf(stmts), content, tr)
  }

  /** The fill left no visible inlined row unread for an absence answer. */
  predicate Lossless(w: World, h: nat, key: Key, stmts: seq<Read>, tr: F.Trace) {
    F.Skips(KnownOf(stmts)(tr.k), key.1) ==> F.VisibleRows(w.at(h, key.0), key.1) == []
  }

  lemma StillProvides(w: World, h: nat, key: Key, stmts: seq<Read>)
    requires WfWorld(w) && stmts != [] && forall i | 0 <= i < |stmts| :: stmts[i].head == h
    ensures var p := ProviderOf(w, key, stmts); F.Provides(p, key.1) && F.StandsStill(p) && p.world(0) == w.at(h, key.0)
  {
    var p := ProviderOf(w, key, stmts);
    assert TableOk(w, h, key.0);
    assert forall k: nat :: HeadAt(stmts, k) == h;
    forall k: nat, after: Option<int>
      ensures F.IsPage(p.world(k), key.1, after, p.limit, p.page(k, after))
    {
      assert PageOk(w, h, key, after);
    }
    assert forall k: nat :: F.Moves(p, k, key.1);
  }

  /** A fill none of whose statements saw another head shows the catalog at that head if
      and only if it left no visible inlined row unread for an absence answer. */
  lemma StillFillShows(w: World, h: nat, key: Key, stmts: seq<Read>, content: Reads, tr: F.Trace)
    requires WfWorld(w) && FillReads(w, key, stmts, content, tr) && forall i | 0 <= i < |stmts| :: stmts[i].head == h
    ensures Shows(w, h, key, content) <==> Lossless(w, h, key, stmts, tr)
  {
    StillProvides(w, h, key, stmts);
    F.StillFillExactly(ProviderOf(w, key, stmts), key.1, KnownOf(stmts), content, tr);
  }

  /** A bound provider. `ready` once its bind has updated the memo. */
  datatype Query = Query(bound: nat, ready: bool, picked: map<Key, Answer>)

  /** `pinned` is the head of the consistent read a fill runs in, if it runs in one. */
  datatype Phase =
    | Asking
    | Consulting
    | Filling(stmts: seq<Read>, pinned: Option<nat>)
    | Filled(content: Reads, final: Option<nat>)
    | Oversized
    | Chosen(answer: Answer)
    | Answered(answer: Answer)
    | Failed

  /** One call of a query's scan for a table's reads. */
  datatype Task = Task(query: nat, key: Key, phase: Phase)

  /** `noted` is for each table the newest head a kept absence answer was read at. */
  datatype System = System(head: nat, memo: MemoState, queries: seq<Query>, tasks: seq<Task>, noted: map<int, nat>)

  datatype Move =
    | Commit(to: nat)
    | ReadHead                                    // a bind reads the catalog head
    | Bind(q: nat)                                // and updates the memo
    | Ask(q: nat, key: Key)
    | Look(t: nat)                                // at what the query has picked
    | Consult(t: nat)
    | Pin(t: nat, at: nat)                        // the fill's consistent read, begun since the bind
    | Statement(t: nat, known: Option<int>)       // `known` looked up in the memo by then
    | NoteAbsence(t: nat, i: nat)                 // the answer of statements `i` to `i + 2`
    | EndFill(t: nat, content: Reads, tr: F.Trace, seesHead: bool)
    | Abandon(t: nat, tooLarge: bool)             // over the whole budget, or an error
    | Refuse(t: nat)
    | Store(t: nat)
    | Pick(t: nat)

  function Init(head: nat): System {
    System(head, EMPTY, [], [], map[])
  }

  predicate Phased(s: System, t: nat) {
    t < |s.tasks| && s.tasks[t].query < |s.queries|
  }

  predicate InFill(s: System, t: nat) {
    Phased(s, t) && s.tasks[t].phase.Filling?
  }

  /** The head a statement of the fill reads at. */
  function ReadsAt(s: System, pinned: Option<nat>): nat {
    if pinned.Some? then pinned.value else s.head
  }

  ghost predicate Enabled(w: World, s: System, m: Move) {
    match m
    case Commit(to) => s.head < to
    case ReadHead => true
    case Bind(q) => q < |s.queries| && !s.queries[q].ready
    case Ask(q, _) => q < |s.queries| && s.queries[q].ready
    case Look(t) => Phased(s, t) && s.tasks[t].phase.Asking?
    case Consult(t) => Phased(s, t) && s.tasks[t].phase.Consulting?
    case Pin(t, at) =>
      Phased(s, t) && s.tasks[t].phase == Filling([], None) && s.queries[s.tasks[t].query].bound <= at <= s.head
    case Statement(t, known) =>
      InFill(s, t)
        && (known.Some? ==> s.tasks[t].key.0 in s.memo.absent && known.value <= s.memo.absent[s.tasks[t].key.0])
    case NoteAbsence(t, i) =>
      && InFill(s, t) && i + 2 < |s.tasks[t].phase.stmts|
      && F.AbsenceAnswer(ProviderOf(w, s.tasks[t].key, s.tasks[t].phase.stmts), s.tasks[t].key.1, i).Some?
    case EndFill(t, content, tr, _) => InFill(s, t) && FillReads(w, s.tasks[t].key, s.tasks[t].phase.stmts, content, tr)
    case Abandon(t, _) => InFill(s, t)
    case Refuse(t) => Phased(s, t) && s.tasks[t].phase.Oversized?
    case Store(t) => Phased(s, t) && s.tasks[t].phase.Filled?
    case Pick(t) => Phased(s, t) && s.tasks[t].phase.Chosen?
  }

  function Put(s: System, t: nat, phase: Phase): System
    requires t < |s.tasks|
  {
    s.(tasks := s.tasks[t := s.tasks[t].(phase := phase)])
  }

  /** An answer read at head `at` is noted. */
  function NotedAt(noted: map<int, nat>, table: int, at: nat): map<int, nat> {
    if table in noted && at <= noted[table] then noted else noted[table := at]
  }

  ghost function Next(w: World, s: System, m: Move): System
    requires Enabled(w, s, m)
  {
    match m
    case Commit(to) => s.(head := to)
    case ReadHead => s.(queries := s.queries + [Query(s.head, false, map[])])
    case Bind(q) => s.(memo := Bound(s.memo, s.queries[q].bound),
      queries := s.queries[q := s.queries[q].(ready := true)])
    case Ask(q, key) => s.(tasks := s.tasks + [Task(q, key, Asking)])
    case Look(t) =>
      var task := s.tasks[t];
      var picked := s.queries[task.query].picked;
      Put(s, t, if task.key in picked then Answered(picked[task.key]) else Consulting)
    case Consult(t) =>
      var task := s.tasks[t];
      var answer := Consulted(s.memo, task.key, s.queries[task.query].bound);
      Put(s, t, if answer.Some? then Chosen(answer.value) else Filling([], None))
    case Pin(t, at) => Put(s, t, Filling([], Some(at)))
    case Statement(t, known) =>
      var phase := s.tasks[t].phase;
      Put(s, t, Filling(phase.stmts + [Read(ReadsAt(s, phase.pinned), known)], phase.pinned))
    case NoteAbsence(t, i) =>
      var task := s.tasks[t];
      var through := F.AbsenceAnswer(ProviderOf(w, task.key, task.phase.stmts), task.key.1, i).value;
      s.(memo := Noted(s.memo, task.key.0, through), noted := NotedAt(s.noted, task.key.0,
        task.phase.stmts[i + 2].head))
    case EndFill(t, content, _, seesHead) =>
      Put(s, t, Filled(content, if seesHead then Some(ReadsAt(s, s.tasks[t].phase.pinned)) else None))
    case Abandon(t, tooLarge) => Put(s, t, if tooLarge then Oversized else Failed)
    case Refuse(t) => Put(s.(memo := Marked(s.memo, s.tasks[t].key.0)), t, Chosen(Direct))
    case Store(t) =>
      var task := s.tasks[t];
      var (memo, answer) := Stored(s.memo, task.key, s.queries[task.query].bound, task.phase.content,
        w.size(task.phase.content), task.phase.final, w.max);
      Put(s.(memo := memo), t, Chosen(answer))
    case Pick(t) =>
      var task := s.tasks[t];
      var q := s.queries[task.query];
      var answer := if task.key in q.picked then q.picked[task.key] else task.phase.answer;
      Put(s.(queries := s.queries[task.query := q.(picked := q.picked[task.key := answer])]), t, Answered(answer))
  }

  /** A statement in a consistent read uses no absence answer read at a newer head than
      the read's own. */
  predicate Fresh(s: System, m: Move) {
    m.Statement? && InFill(s, m.t) && m.known.Some? && s.tasks[m.t].phase.pinned.Some? ==>
      s.tasks[m.t].key.0 in s.noted && s.noted[s.tasks[m.t].key.0] <= s.tasks[m.t].phase.pinned.value
  }

  /** A store's new total fits the word, or the budget is below the largest. */
  predicate Counts(w: World, s: System, m: Move) {
    m.Store? && Phased(s, m.t) && s.tasks[m.t].phase.Filled? ==>
      w.max < USIZE_MAX || s.memo.bytes + w.size(s.tasks[m.t].phase.content) <= USIZE_MAX
  }

  predicate Sound(w: World, s: System, m: Move) {
    Fresh(s, m) && Counts(w, s, m)
  }

  // ----- The invariant -----

  /** Every kept fill shows the catalog at the memo's head, and is charged for. */
  ghost predicate MemoOk(w: World, m: MemoState, head: nat) {
    && (m.head.Some? ==> m.head.value <= head)
    && (m.head.None? ==> m.tables == map[])
    && (forall key | key in m.tables :: Shows(w, m.head.value, key, m.tables[key]))
    && m.bytes == Total(m.tables, w.size) <= w.max
  }

  /** The absence answer kept for a table was true at the head it is noted for. */
  ghost predicate AbsentOk(w: World, s: System, table: int) {
    && table in s.memo.absent && table in s.noted
    && s.noted[table] <= s.head && s.memo.absent[table] <= s.noted[table]
    && F.AbsentThrough(w.at(s.noted[table], table), s.memo.absent[table])
  }

  /** A kept answer, and an own fill that saw no other head, show the catalog at the
      query's head. */
  ghost predicate AnswerOk(w: World, bound: nat, key: Key, a: Answer) {
    && (a.Kept? ==> Shows(w, bound, key, a.content))
    && (a.Own? && a.final == Some(bound) ==> Shows(w, bound, key, a.content))
  }

  ghost predicate QueryOk(w: World, s: System, q: Query) {
    && q.bound <= s.head
    && (q.ready ==> s.memo.head.Some? && q.bound <= s.memo.head.value)
    && forall key | key in q.picked :: AnswerOk(w, q.bound, key, q.picked[key])
  }

  predicate ReadOk(w: World, key: Key, r: Read) {
    r.known.Some? ==> F.AbsentThrough(w.at(r.head, key.0), r.known.value)
  }

  /** The statements read at heads from the bind's to `now`, in order, and what absence
      answers they knew were true there. */
  ghost predicate FillOk(w: World, key: Key, bound: nat, stmts: seq<Read>, now: nat) {
    && bound <= now
    && (forall i | 0 <= i < |stmts| :: bound <= stmts[i].head <= now && ReadOk(w, key, stmts[i]))
    && (forall i, j | 0 <= i < j < |stmts| :: stmts[i].head <= stmts[j].head)
  }

  ghost predicate TaskOk(w: World, s: System, t: Task) {
    && t.query < |s.queries|
    && var q := s.queries[t.query];
       && q.ready
       && match t.phase
          case Filling(stmts, pinned) =>
            && (pinned.Some? ==> pinned.value <= s.head && forall i | 0 <= i < |stmts| :: stmts[i].head == pinned.value)
            && FillOk(w, t.key, q.bound, stmts, ReadsAt(s, pinned))
          case Filled(content, final) => AnswerOk(w, q.bound, t.key, Own(content, final))
          case Chosen(answer) => AnswerOk(w, q.bound, t.key, answer)
          case Answered(answer) => t.key in q.picked && q.picked[t.key] == answer
          case _ => true
  }

  ghost predicate Inv(w: World, s: System) {
    && WfWorld(w)
    && MemoOk(w, s.memo, s.head)
    && s.noted.Keys == s.memo.absent.Keys
    && (forall table | table in s.memo.absent :: AbsentOk(w, s, table))
    && (forall q | 0 <= q < |s.queries| :: QueryOk(w, s, s.queries[q]))
    && (forall t | 0 <= t < |s.tasks| :: TaskOk(w, s, s.tasks[t]))
  }

  /** An absence answer is true at every head from the one it is noted for on. */
  lemma AnswerStays(w: World, table: int, noted: nat, h: nat, through: int)
    requires WfWorld(w) && noted <= h && through <= noted && F.AbsentThrough(w.at(noted, table), through)
    ensures F.AbsentThrough(w.at(h, table), through)
  {
    assert TableOk(w, noted, table) && Grows(w, noted, h, table);
    F.AdvanceKeepsAbsence(w.at(noted, table), w.at(h, table), through);
  }

  /** What a statement knows is true of the state it reads: always outside a consistent
      read, and inside one begun no earlier than the answer was read. */
  lemma FreshIsTrue(w: World, s: System, m: Move)
    requires Inv(w, s) && m.Statement? && Enabled(w, s, m) && Fresh(s, m)
    ensures ReadOk(w, s.tasks[m.t].key, Read(ReadsAt(s, s.tasks[m.t].phase.pinned), m.known))
  {
    var table := s.tasks[m.t].key.0;
    if m.known.Some? {
      assert AbsentOk(w, s, table);
      AnswerStays(w, table, s.noted[table], ReadsAt(s, s.tasks[m.t].phase.pinned), s.memo.absent[table]);
    }
  }

  /** The head only grows, so a fill that ends at the query's head read nothing else, and
      what it knew was true there. */
  lemma UnmovedFillShows(w: World, bound: nat, key: Key, stmts: seq<Read>, now: nat, content: Reads, tr: F.Trace)
    requires WfWorld(w) && FillOk(w, key, bound, stmts, now) && FillReads(w, key, stmts, content, tr) && now == bound
    ensures Shows(w, bound, key, content)
  {
    if F.Skips(KnownOf(stmts)(tr.k), key.1) {
      assert ReadOk(w, key, stmts[tr.k]);
      F.VisibleRowsSum(w.at(bound, key.0), key.1);
    }
    StillFillShows(w, bound, key, stmts, content, tr);
  }

  lemma StoreCharges(w: World, m: MemoState, key: Key, bound: nat, content: Reads, final: Option<nat>)
    requires w.max <= USIZE_MAX && m.bytes == Total(m.tables, w.size) <= w.max
    requires w.max < USIZE_MAX || m.bytes + w.size(content) <= USIZE_MAX
    ensures var m' := Stored(m, key, bound, content, w.size(content), final, w.max).0;
            m'.bytes == Total(m'.tables, w.size) <= w.max
  {
    TotalPut(m.tables, w.size, key, content);
    if SaturatingAdd(m.bytes, w.size(content)) <= w.max {
      TestedSumFits(m.bytes, w.size(content), w.max);
    }
  }

  ghost function ShowsBy(w: World): (nat, Key, Reads) -> bool {
    (h: nat, key: Key, r: Reads) => Shows(w, h, key, r)
  }

  lemma StoreShows(shows: (nat, Key, Reads) -> bool, m: MemoState, key: Key, bound: nat, content: Reads,
          final: Option<nat>, size: nat, max: nat)
    requires forall k | k in m.tables :: m.head.Some? && shows(m.head.value, k, m.tables[k])
    requires final == Some(bound) ==> shows(bound, key, content)
    ensures var (m', a) := Stored(m, key, bound, content, size, final, max);
            && m'.head == m.head && m'.absent == m.absent
            && (forall k | k in m'.tables :: m.head.Some? && shows(m.head.value, k, m'.tables[k]))
            && (a.Kept? ==> shows(bound, key, a.content)) && (a.Own? ==> a == Own(content, final))
  {
  }

  lemma StoreKeeps(w: World, m: MemoState, head: nat, key: Key, bound: nat, content: Reads, final: Option<nat>)
    requires w.max <= USIZE_MAX && MemoOk(w, m, head) && AnswerOk(w, bound, key, Own(content, final))
    requires w.max < USIZE_MAX || m.bytes + w.size(content) <= USIZE_MAX
    ensures var (m', a) := Stored(m, key, bound, content, w.size(content), final, w.max);
            MemoOk(w, m', head) && AnswerOk(w, bound, key, a) && m'.head == m.head && m'.absent == m.absent
  {
    StoreCharges(w, m, key, bound, content, final);
    StoreShows(ShowsBy(w), m, key, bound, content, final, w.size(content), w.max);
  }

  lemma BindKeeps(w: World, m: MemoState, head: nat, bound: nat)
    requires MemoOk(w, m, head) && bound <= head
    ensures MemoOk(w, Bound(m, bound), head) && Bound(m, bound).absent == m.absent
    ensures Bound(m, bound).head.Some? && bound <= Bound(m, bound).head.value
    ensures m.head.Some? ==> m.head.value <= Bound(m, bound).head.value
  {
    var none: map<Key, Reads> := map[];
    assert Total(none, w.size) == 0;
  }

  /** A step of one task that leaves the memo's head, the queries and the catalog alone. */
  lemma PutKeeps(w: World, s: System, memo: MemoState, t: nat, phase: Phase)
    requires Inv(w, s) && t < |s.tasks|
    requires MemoOk(w, memo, s.head) && memo.head == s.memo.head && memo.absent == s.memo.absent
    requires TaskOk(w, s.(memo := memo), s.tasks[t].(phase := phase))
    ensures Inv(w, Put(s.(memo := memo), t, phase))
  {
    var s' := Put(s.(memo := memo), t, phase);
    forall u | 0 <= u < |s'.tasks|
      ensures TaskOk(w, s', s'.tasks[u])
    {
      assert TaskOk(w, s, s.tasks[u]);
    }
    forall q | 0 <= q < |s'.queries|
      ensures QueryOk(w, s', s'.queries[q])
    {
      assert QueryOk(w, s, s.queries[q]);
    }
    forall table | table in s'.memo.absent
      ensures AbsentOk(w, s', table)
    {
      assert AbsentOk(w, s, table);
    }
  }

  lemma CommitKeeps(w: World, s: System, to: nat)
    requires Inv(w, s) && s.head < to
    ensures Inv(w, s.(head := to))
  {
    var s' := s.(head := to);
    forall u | 0 <= u < |s'.tasks|
      ensures TaskOk(w, s', s'.tasks[u])
    {
      assert TaskOk(w, s, s.tasks[u]);
    }
    forall q | 0 <= q < |s'.queries|
      ensures QueryOk(w, s', s'.queries[q])
    {
      assert QueryOk(w, s, s.queries[q]);
    }
    forall table | table in s'.memo.absent
      ensures AbsentOk(w, s', table)
    {
      assert AbsentOk(w, s, table);
    }
  }

  /** Queries may only be added, ready, or pick answers they had not picked. */
  ghost predicate Extends(qs: seq<Query>, qs': seq<Query>) {
    && |qs| <= |qs'|
    && forall q | 0 <= q < |qs| ::
         && qs'[q].bound == qs[q].bound
         && (qs[q].ready ==> qs'[q].ready)
         && forall key | key in qs[q].picked :: key in qs'[q].picked && qs'[q].picked[key] == qs[q].picked[key]
  }

  /** A task's standing does not depend on what queries gain. */
  lemma ExtendsKeeps(w: World, s: System, s': System)
    requires Inv(w, s) && s'.tasks == s.tasks && s'.head == s.head && Extends(s.queries, s'.queries)
    requires MemoOk(w, s'.memo, s'.head) && s'.memo.absent == s.memo.absent && s'.noted == s.noted
    requires forall q | 0 <= q < |s'.queries| :: QueryOk(w, s', s'.queries[q])
    ensures Inv(w, s')
  {
    forall u | 0 <= u < |s'.tasks|
      ensures TaskOk(w, s', s'.tasks[u])
    {
      assert TaskOk(w, s, s.tasks[u]);
    }
    forall table | table in s'.memo.absent
      ensures AbsentOk(w, s', table)
    {
      assert AbsentOk(w, s, table);
    }
  }

  lemma BindStepKeeps(w: World, s: System, q: nat)
    requires Inv(w, s) && Enabled(w, s, Bind(q))
    ensures Inv(w, Next(w, s, Bind(q)))
  {
    var s' := Next(w, s, Bind(q));
    assert QueryOk(w, s, s.queries[q]);
    BindKeeps(w, s.memo, s.head, s.queries[q].bound);
    forall i | 0 <= i < |s'.queries|
      ensures QueryOk(w, s', s'.queries[i])
    {
      assert QueryOk(w, s, s.queries[i]);
    }
    ExtendsKeeps(w, s, s');
  }

  lemma ReadHeadKeeps(w: World, s: System)
    requires Inv(w, s)
    ensures Inv(w, Next(w, s, ReadHead))
  {
    var s' := Next(w, s, ReadHead);
    forall i | 0 <= i < |s'.queries|
      ensures QueryOk(w, s', s'.queries[i])
    {
      assert i < |s.queries| ==> QueryOk(w, s, s.queries[i]);
    }
    ExtendsKeeps(w, s, s');
  }

  lemma PickKeeps(w: World, s: System, t: nat)
    requires Inv(w, s) && Enabled(w, s, Pick(t))
    ensures Inv(w, Next(w, s, Pick(t)))
  {
    var s', task := Next(w, s, Pick(t)), s.tasks[t];
    assert TaskOk(w, s, task);
    var mid := s.(queries := s'.queries);
    forall i | 0 <= i < |mid.queries|
      ensures QueryOk(w, mid, mid.queries[i])
    {
      assert QueryOk(w, s, s.queries[i]);
    }
    ExtendsKeeps(w, s, mid);
    PutKeeps(w, mid, mid.memo, t, s'.tasks[t].phase);
  }

  lemma AskKeeps(w: World, s: System, q: nat, key: Key)
    requires Inv(w, s) && Enabled(w, s, Ask(q, key))
    ensures Inv(w, Next(w, s, Ask(q, key)))
  {
    var s' := Next(w, s, Ask(q, key));
    forall u | 0 <= u < |s'.tasks|
      ensures TaskOk(w, s', s'.tasks[u])
    {
      assert u < |s.tasks| ==> TaskOk(w, s, s.tasks[u]);
    }
    forall i | 0 <= i < |s'.queries|
      ensures QueryOk(w, s', s'.queries[i])
    {
      assert QueryOk(w, s, s.queries[i]);
    }
    forall table | table in s'.memo.absent
      ensures AbsentOk(w, s', table)
    {
      assert AbsentOk(w, s, table);
    }
  }

  /** An absence answer of the fill's statements is true at the last of them. */
  lemma AnswerIsTrue(w: World, key: Key, stmts: seq<Read>, i: nat, bound: nat, now: nat)
    requires WfWorld(w) && FillOk(w, key, bound, stmts, now) && i + 2 < |stmts|
    requires F.AbsenceAnswer(ProviderOf(w, key, stmts), key.1, i).Some?
    ensures var through := F.AbsenceAnswer(ProviderOf(w, key, stmts), key.1, i).value;
            through <= stmts[i + 2].head <= now && F.AbsentThrough(w.at(stmts[i + 2].head, key.0), through)
  {
    assert TableOk(w, stmts[i].head, key.0);
    ProviderAt(w, key, stmts, i);
    ProviderAt(w, key, stmts, i + 2);
    assert stmts[i].head <= stmts[i + 2].head;
  }

  /** Noting a true answer keeps every answer true at the head it is noted for. */
  lemma NotedOk(w: World, s: System, s': System, table: int, through: int, at: nat)
    requires WfWorld(w) && s.noted.Keys == s.memo.absent.Keys && (forall t | t in s.memo.absent :: AbsentOk(w, s, t))
    requires s' == s.(memo := Noted(s.memo, table, through), noted := NotedAt(s.noted, table, at))
    requires through <= at <= s.head && F.AbsentThrough(w.at(at, table), through)
    ensures s'.noted.Keys == s'.memo.absent.Keys && forall t | t in s'.memo.absent :: AbsentOk(w, s', t)
  {
    forall t | t in s'.memo.absent
      ensures AbsentOk(w, s', t)
    {
      if t in s.memo.absent {
        assert AbsentOk(w, s, t);
        AnswerStays(w, t, s.noted[t], s'.noted[t], s.memo.absent[t]);
      }
      if t == table {
        AnswerStays(w, t, at, s'.noted[t], through);
      }
    }
  }

  lemma NoteKeeps(w: World, s: System, t: nat, i: nat)
    requires Inv(w, s) && Enabled(w, s, NoteAbsence(t, i))
    ensures Inv(w, Next(w, s, NoteAbsence(t, i)))
  {
    var s', task := Next(w, s, NoteAbsence(t, i)), s.tasks[t];
    assert TaskOk(w, s, task);
    var stmts, now := task.phase.stmts, ReadsAt(s, task.phase.pinned);
    AnswerIsTrue(w, task.key, stmts, i, s.queries[task.query].bound, now);
    NotedOk(w, s, s', task.key.0, F.AbsenceAnswer(ProviderOf(w, task.key, stmts), task.key.1, i).value,
      stmts[i + 2].head);
    forall u | 0 <= u < |s'.tasks|
      ensures TaskOk(w, s', s'.tasks[u])
    {
      assert TaskOk(w, s, s.tasks[u]);
    }
    forall q | 0 <= q < |s'.queries|
      ensures QueryOk(w, s', s'.queries[q])
    {
      assert QueryOk(w, s, s.queries[q]);
    }
  }

  lemma StatementKeeps(w: World, s: System, m: Move)
    requires Inv(w, s) && m.Statement? && Enabled(w, s, m) && Fresh(s, m)
    ensures Inv(w, Next(w, s, m))
  {
    var s', task := Next(w, s, m), s.tasks[m.t];
    assert TaskOk(w, s, task) && QueryOk(w, s, s.queries[task.query]);
    FreshIsTrue(w, s, m);
    PutKeeps(w, s, s.memo, m.t, s'.tasks[m.t].phase);
  }

  lemma EndFillKeeps(w: World, s: System, m: Move)
    requires Inv(w, s) && m.EndFill? && Enabled(w, s, m)
    ensures Inv(w, Next(w, s, m))
  {
    var s', task := Next(w, s, m), s.tasks[m.t];
    assert TaskOk(w, s, task) && QueryOk(w, s, s.queries[task.query]);
    var bound, now := s.queries[task.query].bound, ReadsAt(s, task.phase.pinned);
    if now == bound {
      UnmovedFillShows(w, bound, task.key, task.phase.stmts, now, m.content, m.tr);
    }
    PutKeeps(w, s, s.memo, m.t, s'.tasks[m.t].phase);
  }

  lemma PhaseStepKeeps(w: World, s: System, m: Move)
    requires Inv(w, s) && Enabled(w, s, m)
    requires m.Pin? || m.Abandon?
    ensures Inv(w, Next(w, s, m))
  {
    var s', task := Next(w, s, m), s.tasks[m.t];
    assert TaskOk(w, s, task) && QueryOk(w, s, s.queries[task.query]);
    PutKeeps(w, s, s.memo, m.t, s'.tasks[m.t].phase);
  }

  lemma LookStepKeeps(w: World, s: System, m: Move)
    requires Inv(w, s) && Enabled(w, s, m)
    requires m.Look? || m.Consult?
    ensures Inv(w, Next(w, s, m))
  {
    var s', task := Next(w, s, m), s.tasks[m.t];
    assert TaskOk(w, s, task) && QueryOk(w, s, s.queries[task.query]);
    PutKeeps(w, s, s.memo, m.t, s'.tasks[m.t].phase);
  }

  lemma MemoStepKeeps(w: World, s: System, m: Move)
    requires Inv(w, s) && Enabled(w, s, m) && Counts(w, s, m)
    requires m.Refuse? || m.Store?
    ensures Inv(w, Next(w, s, m))
  {
    var s', task := Next(w, s, m), s.tasks[m.t];
    assert TaskOk(w, s, task) && QueryOk(w, s, s.queries[task.query]);
    if m.Store? {
      StoreKeeps(w, s.memo, s.head, task.key, s.queries[task.query].bound, task.phase.content, task.phase.final);
    }
    PutKeeps(w, s, s'.memo, m.t, s'.tasks[m.t].phase);
  }

  lemma StepKeeps(w: World, s: System, m: Move)
    requires Inv(w, s) && Enabled(w, s, m) && Sound(w, s, m)
    ensures Inv(w, Next(w, s, m)) && Extends(s.queries, Next(w, s, m).queries)
  {
    match m {
      case Commit(to) => CommitKeeps(w, s, to);
      case ReadHead => ReadHeadKeeps(w, s);
      case Bind(q) => BindStepKeeps(w, s, q);
      case Ask(q, key) => AskKeeps(w, s, q, key);
      case Pick(t) => PickKeeps(w, s, t);
      case NoteAbsence(t, i) => NoteKeeps(w, s, t, i);
      case Statement(_, _) => StatementKeeps(w, s, m);
      case EndFill(_, _, _, _) => EndFillKeeps(w, s, m);
      case Refuse(_) => MemoStepKeeps(w, s, m);
      case Store(_) => MemoStepKeeps(w, s, m);
      case Look(_) => LookStepKeeps(w, s, m);
      case Consult(_) => LookStepKeeps(w, s, m);
      case _ => PhaseStepKeeps(w, s, m);
    }
  }

  // ----- Whole runs -----

  ghost predicate Leads(w: World, s: System, run: seq<Move>, end: System)
    decreases |run|
  {
    if run == [] then s == end
    else Enabled(w, s, run[0]) && Leads(w, Next(w, s, run[0]), run[1..], end)
  }

  /** Every move of the run is sound where it is made. */
  ghost predicate AllSound(w: World, s: System, run: seq<Move>)
    decreases |run|
  {
    run != [] ==> Enabled(w, s, run[0]) && Sound(w, s, run[0]) && AllSound(w, Next(w, s, run[0]), run[1..])
  }

  lemma {:induction false} RunKeeps(w: World, s: System, run: seq<Move>, end: System)
    requires Inv(w, s) && Leads(w, s, run, end) && AllSound(w, s, run)
    ensures Inv(w, end) && Extends(s.queries, end.queries)
    decreases |run|
  {
    if run != [] {
      StepKeeps(w, s, run[0]);
      RunKeeps(w, Next(w, s, run[0]), run[1..], end);
    }
  }

  lemma InitOk(w: World, head: nat)
    requires WfWorld(w)
    ensures Inv(w, Init(head))
  {
    var none: map<Key, Reads> := map[];
    assert Total(none, w.size) == 0;
  }

  /** In every interleaving of sound moves, the memo shows the catalog at one head and
      within its budget; a query served a kept fill, or using an unmoved fill of its own,
      reads the catalog exactly at the head its bind read; and all of a query's scans get
      one answer per table and snapshot, which nothing later in the run changes. */
  lemma EveryRunIsConsistent(w: World, head: nat, run: seq<Move>, s: System, more: seq<Move>, end: System)
    requires WfWorld(w) && Leads(w, Init(head), run, s) && AllSound(w, Init(head), run)
    requires Leads(w, s, more, end) && AllSound(w, s, more)
    ensures forall key | key in s.memo.tables ::
            s.memo.head.Some? && Shows(w, s.memo.head.value, key, s.memo.tables[key])
    ensures s.memo.bytes == Total(s.memo.tables, w.size) <= w.max
    ensures forall q, key | 0 <= q < |s.queries| && key in s.queries[q].picked ::
              AnswerOk(w, s.queries[q].bound, key, s.queries[q].picked[key])
    ensures forall t, u | 0 <= t < |s.tasks| && 0 <= u < |s.tasks| && s.tasks[t].phase.Answered?
            && s.tasks[u].phase.Answered? ::
              s.tasks[t].query == s.tasks[u].query && s.tasks[t].key == s.tasks[u].key ==>
                s.tasks[t].phase == s.tasks[u].phase
    ensures Extends(s.queries, end.queries)
  {
    InitOk(w, head);
    RunKeeps(w, Init(head), run, s);
    RunKeeps(w, s, more, end);
    forall q | 0 <= q < |s.queries|
      ensures QueryOk(w, s, s.queries[q])
    {
    }
    forall t | 0 <= t < |s.tasks|
      ensures TaskOk(w, s, s.tasks[t])
    {
    }
  }

  ghost predicate Unpinned(s: System) {
    forall t | 0 <= t < |s.tasks| && s.tasks[t].phase.Filling? :: s.tasks[t].phase.pinned.None?
  }

  /** Over a provider that begins no consistent read, and a budget below the largest word,
      every move is sound. */
  lemma {:induction false} UnpinnedIsSound(w: World, s: System, run: seq<Move>, end: System)
    requires Unpinned(s) && Leads(w, s, run, end) && w.max < USIZE_MAX
    requires forall m | m in run :: !m.Pin?
    ensures AllSound(w, s, run)
    decreases |run|
  {
    if run != [] {
      assert run[0] in run;
      UnpinnedIsSound(w, Next(w, s, run[0]), run[1..], end);
    }
  }

  // ----- Kept fills are served -----

  /** The memo's head only grows, and at one head nothing kept is lost or replaced. */
  ghost predicate Keeps(m: MemoState, m': MemoState) {
    && (m.head.Some? ==> m'.head.Some? && m.head.value <= m'.head.value)
    && (m'.head == m.head ==> m.noRoom <= m'.noRoom && forall key | key in m.tables :: KeptIn(m', key, m.tables[key]))
  }

  predicate KeptIn(m: MemoState, key: Key, content: Reads) {
    key in m.tables && m.tables[key] == content
  }

  lemma MoveKeeps(w: World, s: System, m: Move)
    requires Enabled(w, s, m)
    ensures Keeps(s.memo, Next(w, s, m).memo)
  {
  }

  lemma {:induction false} RunKeepsMemo(w: World, s: System, run: seq<Move>, end: System)
    requires Leads(w, s, run, end)
    ensures Keeps(s.memo, end.memo)
    decreases |run|
  {
    if run != [] {
      var next := Next(w, s, run[0]);
      MoveKeeps(w, s, run[0]);
      RunKeepsMemo(w, next, run[1..], end);
      KeepsTrans(s.memo, next.memo, end.memo);
    }
  }

  lemma KeepsTrans(a: MemoState, b: MemoState, c: MemoState)
    requires Keeps(a, b) && Keeps(b, c)
    ensures Keeps(a, c)
  {
    if c.head == a.head && a.head.Some? {
      assert b.head == a.head;
    } else if c.head == a.head {
      assert a.head.None? && c.head.None? && b.head.None?;
    }
  }

  /** The query asks for this key, bound at this head. */
  predicate AsksFor(s: System, t: nat, key: Key, h: nat) {
    Phased(s, t) && s.tasks[t].key == key && s.queries[s.tasks[t].query].bound == h
  }

  /** After a run, however long, a fill kept at a head is what every consult at that head
      answers, until a newer bind or a mark of its table as too large. */
  lemma KeptIsServed(w: World, s: System, run: seq<Move>, end: System, key: Key, h: nat, t: nat)
    requires Leads(w, s, run, end) && s.memo.head == Some(h) && key in s.memo.tables
    requires AsksFor(end, t, key, h) && Enabled(w, end, Consult(t))
    requires end.memo.head == Some(h) && key.0 !in end.memo.tooLarge
    ensures Next(w, end, Consult(t)).tasks[t].phase == Chosen(Kept(s.memo.tables[key]))
  {
    RunKeepsMemo(w, s, run, end);
    assert KeptIn(end.memo, key, s.memo.tables[key]);
  }

  /** So a fill that ends at the memo's head, the first of its key there and within what is
      left of the budget, is served to every later query of that head, and one that is not
      within it is read from the catalog by them. */
  lemma StoredIsServed(w: World, s: System, f: nat, run: seq<Move>, end: System, key: Key, h: nat, t: nat)
    requires AsksFor(s, f, key, h) && Enabled(w, s, Store(f)) && s.tasks[f].phase.final == Some(h) == s.memo.head
    requires key !in s.memo.tables && Leads(w, Next(w, s, Store(f)), run, end)
    requires AsksFor(end, t, key, h) && Enabled(w, end, Consult(t))
    requires end.memo.head == Some(h) && key.0 !in end.memo.tooLarge
    ensures var content := s.tasks[f].phase.content;
            var phase := Next(w, end, Consult(t)).tasks[t].phase;
            && (SaturatingAdd(s.memo.bytes, w.size(content)) <= w.max ==> phase == Chosen(Kept(content)))
            && (SaturatingAdd(s.memo.bytes, w.size(content)) > w.max && key !in end.memo.tables ==>
               phase == Chosen(Direct))
  {
    var content, next := s.tasks[f].phase.content, Next(w, s, Store(f));
    if SaturatingAdd(s.memo.bytes, w.size(content)) <= w.max {
      KeptIsServed(w, next, run, end, key, h, t);
    } else {
      RunKeepsMemo(w, next, run, end);
    }
  }

  lemma {:induction false} TooLargeIsFinal(w: World, s: System, run: seq<Move>, end: System, table: int)
    requires Leads(w, s, run, end) && table in s.memo.tooLarge
    ensures table in end.memo.tooLarge
    ensures forall snapshot, bound: nat :: Consulted(end.memo, (table, snapshot), bound) == Some(Direct)
    decreases |run|
  {
    if run != [] {
      TooLargeIsFinal(w, Next(w, s, run[0]), run[1..], end, table);
    }
  }

  /** A provider bound at another head than the memo's is served no kept fill, and keeps
      none: neither the check nor the store touches the memo for it. */
  lemma OtherHeadsStayOut(w: World, s: System, m: Move)
    requires Inv(w, s) && Enabled(w, s, m) && (m.Consult? || m.Store?)
    requires s.memo.head != Some(s.queries[s.tasks[m.t].query].bound)
    ensures Next(w, s, m).memo == s.memo
    ensures Next(w, s, m).tasks[m.t].phase.Chosen? ==> !Next(w, s, m).tasks[m.t].phase.answer.Kept?
    ensures s.queries[s.tasks[m.t].query].bound < s.memo.head.value
  {
    assert TaskOk(w, s, s.tasks[m.t]) && QueryOk(w, s, s.queries[s.tasks[m.t].query]);
  }
}
