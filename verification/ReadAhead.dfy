/** `source_ordered_output` with partitions read ahead: one consumer, a producer per
    partition opened ahead, bounded channels, a shared largest-batch size and a shared
    flag set when memory runs out. The steps below are the consumer's and the producers'
    atomic actions; a schedule is any interleaving of them. */
module ReadAhead {
  import opened Bags

  /** A decoded batch, or the error a reader fails with. */
  datatype Item = Batch(rows: seq<int>, bytes: nat) | Failure

  /** Where a producer's loop stands: about to look at the flag, about to reserve, holding
      a reservation, or holding an item to send. */
  datatype Phase = Check | Reserve | Read | Send(item: Item)

  datatype Producer = Running(rest: seq<Item>, phase: Phase) | HandedBack(rest: seq<Item>) | Finished

  datatype Ahead = Ahead(channel: seq<Item>, producer: Producer)

  datatype Current = Nothing | InPlace(rest: seq<Item>) | FromAhead(ahead: Ahead)

  datatype Outcome = Going | Ended | Failed | Refused

  /** `held` is the batch read in place and not yet handed on. */
  datatype State = State(
    next: nat,
    window: seq<Ahead>,
    current: Current,
    held: seq<Item>,
    emitted: seq<Item>,
    largest: nat,
    exhausted: bool,
    outcome: Outcome)

  /** The partitions, each with what its reader gives, and those that cannot be opened. */
  datatype Config = Config(partitions: seq<seq<Item>>, refused: set<nat>, readAhead: nat)

  const CHANNEL_BATCHES: nat := 1

  function Init(): State {
    State(0, [], Nothing, [], [], 0, false, Going)
  }

  // ----- Steps -----

  function Max(a: nat, b: nat): nat {
    if a < b then b else a
  }

  function Observe(largest: nat, item: Item): nat {
    if item.Batch? then Max(largest, item.bytes) else largest
  }

  datatype Move =
    | Open            // `fill_window` opens the next partition ahead
    | TakeWindow      // the front of the window becomes current
    | OpenInPlace     // no partition is ahead: open the next one in place
    | Finish          // no partition is left
    | Refuse          // the next partition, ahead or in place, cannot be opened
    | NextInPlace     // the in-place reader gives an item
    | HandOn          // its batch goes to the writer
    | EndInPlace      // the in-place reader is drained
    | Receive         // the current partition's channel gives an item
    | Close           // its channel is drained and its producer gone
    | Produce(at: int, grant: bool)  // the producer at window place `at`, or the current one's at -1

  /** A producer's next action: `grant` is the memory pool's answer to a reservation. */
  predicate CanProduce(a: Ahead) {
    a.producer.Running? && (a.producer.phase.Send? ==> |a.channel| < CHANNEL_BATCHES)
  }

  datatype Shared = Shared(largest: nat, exhausted: bool)

  function Produced(a: Ahead, shared: Shared, grant: bool): (Ahead, Shared)
    requires CanProduce(a)
  {
    var rest := a.producer.rest;
    match a.producer.phase
    case Check =>
      if shared.exhausted then (a.(producer := HandedBack(rest)), shared)
      else (a.(producer := Running(rest, Reserve)), shared)
    case Reserve =>
      if grant then (a.(producer := Running(rest, Read)), shared)
      else (a.(producer := HandedBack(rest)), shared.(exhausted := true))
    case Read =>
      if rest == [] then (a.(producer := Finished), shared)
      else (a.(producer := Running(rest[1..], Send(rest[0]))), shared.(largest := Observe(shared.largest, rest[0])))
    case Send(item) =>
      (Ahead(a.channel + [item], if item.Failure? then Finished else Running(rest, Check)), shared)
  }

  predicate MayOpen(cfg: Config, s: State) {
    |s.window| < cfg.readAhead && s.next < |cfg.partitions| && !s.current.Nothing? && s.largest > 0 && !s.exhausted
  }

  predicate MayOpenInPlace(cfg: Config, s: State) {
    s.held == [] && s.current.Nothing? && s.window == [] && s.next < |cfg.partitions|
  }

  predicate Enabled(cfg: Config, s: State, m: Move) {
    && s.outcome.Going?
    && match m
       case Open => MayOpen(cfg, s) && s.next !in cfg.refused
       case TakeWindow => s.held == [] && s.current.Nothing? && s.window != []
       case OpenInPlace => MayOpenInPlace(cfg, s) && s.next !in cfg.refused
       case Finish => s.held == [] && s.current.Nothing? && s.window == [] && s.next == |cfg.partitions|
       case Refuse => (MayOpen(cfg, s) || MayOpenInPlace(cfg, s)) && s.next in cfg.refused
       case NextInPlace => s.held == [] && s.current.InPlace? && s.current.rest != []
       case HandOn => s.held != []
       case EndInPlace => s.held == [] && s.current.InPlace? && s.current.rest == []
       case Receive => s.held == [] && s.current.FromAhead? && s.current.ahead.channel != []
       case Close => s.held == [] && s.current.FromAhead? && s.current.ahead.channel == []
         && !s.current.ahead.producer.Running?
       case Produce(at, _) =>
         if at == -1 then s.current.FromAhead? && CanProduce(s.current.ahead)
         else 0 <= at < |s.window| && CanProduce(s.window[at])
  }

  /** The consumer hands an item on: a batch to the writer, an error as the end. */
  function Emit(s: State, item: Item): State {
    s.(emitted := s.emitted + [item], outcome := if item.Failure? then Failed else Going)
  }

  function Next(cfg: Config, s: State, m: Move): State
    requires Enabled(cfg, s, m)
  {
    match m
    case Open => s.(next := s.next + 1, window := s.window + [Ahead([], Running(cfg.partitions[s.next], Check))])
    case TakeWindow => s.(current := FromAhead(s.window[0]), window := s.window[1..])
    case OpenInPlace => s.(next := s.next + 1, current := InPlace(cfg.partitions[s.next]))
    case Finish => s.(outcome := Ended)
    case Refuse => s.(outcome := Refused)
    case NextInPlace =>
      var item, s' := s.current.rest[0], s.(current := InPlace(s.current.rest[1..]),
        largest := Observe(s.largest, s.current.rest[0]));
      if item.Failure? then Emit(s', item) else s'.(held := [item])
    case HandOn => Emit(s.(held := s.held[1..]), s.held[0])
    case EndInPlace => s.(current := Nothing)
    case Receive =>
      Emit(s.(current := FromAhead(s.current.ahead.(channel := s.current.ahead.channel[1..]))),
        s.current.ahead.channel[0])
    case Close =>
      s.(current := if s.current.ahead.producer.HandedBack? then InPlace(s.current.ahead.producer.rest) else Nothing)
    case Produce(at, grant) =>
      var (a, shared) := Produced(if at == -1 then s.current.ahead
        else s.window[at], Shared(s.largest, s.exhausted), grant);
      if at == -1 then s.(current := FromAhead(a), largest := shared.largest, exhausted := shared.exhausted)
      else s.(window := s.window[at := a], largest := shared.largest, exhausted := shared.exhausted)
  }

  // ----- What is still to come, and in what order -----

  /** A reader yields nothing after it fails. */
  predicate FailsLast(xs: seq<Item>) {
    forall i | 0 <= i < |xs| - 1 :: xs[i].Batch?
  }

  function Left(p: Producer): seq<Item> {
    match p
    case Running(rest, phase) => (if phase.Send? then [phase.item] else []) + rest
    case HandedBack(rest) => rest
    case Finished => []
  }

  function LeftAhead(a: Ahead): seq<Item> {
    a.channel + Left(a.producer)
  }

  function LeftWindow(window: seq<Ahead>): seq<Item> {
    if window == [] then [] else LeftAhead(window[0]) + LeftWindow(window[1..])
  }

  function LeftCurrent(c: Current): seq<Item> {
    match c
    case Nothing => []
    case InPlace(rest) => rest
    case FromAhead(a) => LeftAhead(a)
  }

  /** Everything still to be emitted, in order. */
  function Pending(cfg: Config, s: State): seq<Item>
    requires s.next <= |cfg.partitions|
  {
    s.held + LeftCurrent(s.current) + LeftWindow(s.window) + Flatten(cfg.partitions[s.next..])
  }

  lemma {:induction false} LeftWindowConcat(us: seq<Ahead>, vs: seq<Ahead>)
    ensures LeftWindow(us + vs) == LeftWindow(us) + LeftWindow(vs)
  {
    if us == [] {
      assert us + vs == vs;
    } else {
      assert (us + vs)[1..] == us[1..] + vs;
      LeftWindowConcat(us[1..], vs);
    }
  }

  // ----- Safety -----

  predicate Sound(a: Ahead) {
    && |a.channel| <= CHANNEL_BATCHES
    && FailsLast(LeftAhead(a))
  }

  /** A failed run is one whose last emitted item is its only failure. */
  predicate StopsAtFailure(s: State) {
    && (s.outcome.Failed? ==> s.emitted != [])
    && (forall i | 0 <= i < |s.emitted| :: s.emitted[i].Failure? <==> s.outcome.Failed? && i == |s.emitted| - 1)
  }

  ghost predicate Inv(cfg: Config, s: State) {
    && s.next <= |cfg.partitions|
    && |s.window| <= cfg.readAhead
    && (forall p | p in cfg.partitions :: FailsLast(p))
    && (forall i | 0 <= i < |s.window| :: Sound(s.window[i]))
    && (s.current.FromAhead? ==> Sound(s.current.ahead))
    && (s.current.InPlace? ==> FailsLast(s.current.rest))
    && s.emitted + Pending(cfg, s) == Flatten(cfg.partitions)
    && |s.held| <= 1 && (s.held != [] ==> s.held[0].Batch?)
    && (forall i: nat | i < s.next :: i !in cfg.refused)
    && (s.outcome.Ended? ==> Pending(cfg, s) == [] && s.next == |cfg.partitions|)
    && (s.outcome.Refused? ==> s.next < |cfg.partitions| && s.next in cfg.refused)
    && StopsAtFailure(s)
  }

  /** A producer's step keeps what it has left. */
  lemma ProducedLeft(a: Ahead, shared: Shared, grant: bool)
    requires CanProduce(a) && Sound(a)
    ensures var a' := Produced(a, shared, grant).0; Sound(a') && LeftAhead(a') == LeftAhead(a)
  {
    var rest := a.producer.rest;
    match a.producer.phase {
      case Check =>
        assert [] + rest == rest;
      case Reserve =>
        assert [] + rest == rest;
      case Read =>
        assert rest != [] ==> [rest[0]] + rest[1..] == rest;
        assert [] + rest == rest;
      case Send(item) =>
        assert LeftAhead(a) == a.channel + [item] + rest;
        assert LeftAhead(a)[|a.channel|] == item;
        assert item.Failure? ==> rest == [];
    }
    assert LeftAhead(Produced(a, shared, grant).0) == LeftAhead(a);
  }

  lemma {:induction false} WindowAt(window: seq<Ahead>, at: nat, a: Ahead)
    requires at < |window| && LeftAhead(window[at]) == LeftAhead(a)
    ensures LeftWindow(window[at := a]) == LeftWindow(window)
  {
    if at > 0 {
      assert window[at := a][1..] == window[1..][at - 1 := a];
      WindowAt(window[1..], at - 1, a);
    }
  }

  lemma ProduceKeeps(cfg: Config, s: State, at: int, grant: bool)
    requires Inv(cfg, s) && Enabled(cfg, s, Produce(at, grant))
    ensures Inv(cfg, Next(cfg, s, Produce(at, grant)))
  {
    var s' := Next(cfg, s, Produce(at, grant));
    var shared := Shared(s.largest, s.exhausted);
    if at == -1 {
      ProducedLeft(s.current.ahead, shared, grant);
    } else {
      ProducedLeft(s.window[at], shared, grant);
      WindowAt(s.window, at, s'.window[at]);
    }
    assert Pending(cfg, s') == Pending(cfg, s);
  }

  lemma OpensNext(cfg: Config, next: nat)
    requires next < |cfg.partitions|
    ensures Flatten(cfg.partitions[next..]) == cfg.partitions[next] + Flatten(cfg.partitions[next + 1..])
  {
    assert cfg.partitions[next..][1..] == cfg.partitions[next + 1..];
  }

  lemma OpenPending(cfg: Config, s: State, a: Ahead)
    requires s.next < |cfg.partitions| && LeftAhead(a) == cfg.partitions[s.next]
    ensures Pending(cfg, s.(next := s.next + 1, window := s.window + [a])) == Pending(cfg, s)
  {
    var p, ahead := cfg.partitions[s.next], LeftWindow(s.window);
    var now, rest := s.held + LeftCurrent(s.current), Flatten(cfg.partitions[s.next + 1..]);
    LeftWindowConcat(s.window, [a]);
    assert LeftWindow([a]) == p;
    OpensNext(cfg, s.next);
    Regroup(now, ahead, p, rest);
  }

  lemma Regroup(a: seq<Item>, b: seq<Item>, c: seq<Item>, d: seq<Item>)
    ensures a + (b + c) + d == a + b + (c + d)
  {
  }

  lemma OpenKeeps(cfg: Config, s: State)
    requires Inv(cfg, s) && Enabled(cfg, s, Open)
    ensures Inv(cfg, Next(cfg, s, Open))
  {
    var a := Ahead([], Running(cfg.partitions[s.next], Check));
    assert cfg.partitions[s.next] in cfg.partitions && LeftAhead(a) == cfg.partitions[s.next];
    OpenPending(cfg, s, a);
  }

  lemma OpenInPlaceKeeps(cfg: Config, s: State)
    requires Inv(cfg, s) && Enabled(cfg, s, OpenInPlace)
    ensures Inv(cfg, Next(cfg, s, OpenInPlace))
  {
    assert cfg.partitions[s.next] in cfg.partitions;
    OpensNext(cfg, s.next);
    assert Pending(cfg, Next(cfg, s, OpenInPlace)) == Pending(cfg, s);
  }

  lemma TakeWindowKeeps(cfg: Config, s: State)
    requires Inv(cfg, s) && Enabled(cfg, s, TakeWindow)
    ensures Inv(cfg, Next(cfg, s, TakeWindow))
  {
    assert Pending(cfg, Next(cfg, s, TakeWindow)) == Pending(cfg, s);
  }

  lemma CloseKeeps(cfg: Config, s: State, m: Move)
    requires Inv(cfg, s) && Enabled(cfg, s, m) && (m.EndInPlace? || m.Close? || m.Finish? || m.Refuse?)
    ensures Inv(cfg, Next(cfg, s, m))
  {
    var s' := Next(cfg, s, m);
    if m.Close? {
      var a := s.current.ahead;
      assert LeftAhead(a) == Left(a.producer);
    }
    assert LeftCurrent(s'.current) == LeftCurrent(s.current);
  }

  /** Handing on the first pending item keeps the order. */
  lemma EmitKeeps(cfg: Config, s: State, s': State, item: Item)
    requires Inv(cfg, s) && s.outcome.Going? && s'.next == s.next && s'.window == s.window
    requires s.held + LeftCurrent(s.current) == [item] + (s'.held + LeftCurrent(s'.current))
    requires s'.emitted == s.emitted + [item] && s'.outcome == if item.Failure? then Failed else Going
    ensures s'.emitted + Pending(cfg, s') == Flatten(cfg.partitions)
    ensures StopsAtFailure(s')
  {
    PendingNext(cfg, s, s', item);
    assert s.emitted + ([item] + Pending(cfg, s')) == (s.emitted + [item]) + Pending(cfg, s');
    StopsNext(s, s', item);
  }

  lemma PendingNext(cfg: Config, s: State, s': State, item: Item)
    requires s'.next == s.next <= |cfg.partitions| && s'.window == s.window
    requires s.held + LeftCurrent(s.current) == [item] + (s'.held + LeftCurrent(s'.current))
    ensures Pending(cfg, s) == [item] + Pending(cfg, s')
  {
  }

  lemma StopsNext(s: State, s': State, item: Item)
    requires StopsAtFailure(s) && s.outcome.Going? && s'.emitted == s.emitted + [item]
    requires s'.outcome == if item.Failure? then Failed else Going
    ensures StopsAtFailure(s')
  {
  }

  lemma FailsLastRest(was: seq<Item>, now: seq<Item>)
    requires FailsLast(was) && was != [] && now == was[1..]
    ensures FailsLast(now)
  {
    assert forall i | 0 <= i < |now| :: now[i] == was[i + 1];
  }

  lemma NextInPlaceKeeps(cfg: Config, s: State)
    requires Inv(cfg, s) && Enabled(cfg, s, NextInPlace)
    ensures Inv(cfg, Next(cfg, s, NextInPlace))
  {
    var s', rest := Next(cfg, s, NextInPlace), s.current.rest;
    assert rest == [rest[0]] + rest[1..];
    FailsLastRest(rest, rest[1..]);
    if rest[0].Failure? {
      EmitKeeps(cfg, s, s', rest[0]);
    } else {
      assert s'.held + s'.current.rest == rest && s.held + rest == rest;
      assert Pending(cfg, s') == Pending(cfg, s);
    }
  }

  lemma HandOnKeeps(cfg: Config, s: State)
    requires Inv(cfg, s) && Enabled(cfg, s, HandOn)
    ensures Inv(cfg, Next(cfg, s, HandOn))
  {
    var s' := Next(cfg, s, HandOn);
    assert s.held == [s.held[0]] && s'.held == [];
    EmitKeeps(cfg, s, s', s.held[0]);
  }

  lemma ReceiveKeeps(cfg: Config, s: State)
    requires Inv(cfg, s) && Enabled(cfg, s, Receive)
    ensures Inv(cfg, Next(cfg, s, Receive))
  {
    var s', a := Next(cfg, s, Receive), s.current.ahead;
    assert a.channel + Left(a.producer) == [a.channel[0]] + (a.channel[1..] + Left(a.producer));
    FailsLastRest(LeftAhead(a), a.channel[1..] + Left(a.producer));
    EmitKeeps(cfg, s, s', a.channel[0]);
  }

  /** Every step of every schedule keeps the invariant. */
  lemma StepKeeps(cfg: Config, s: State, m: Move)
    requires Inv(cfg, s) && Enabled(cfg, s, m)
    ensures Inv(cfg, Next(cfg, s, m))
  {
    if m.Produce? {
      ProduceKeeps(cfg, s, m.at, m.grant);
    } else if m.Open? {
      OpenKeeps(cfg, s);
    } else if m.OpenInPlace? {
      OpenInPlaceKeeps(cfg, s);
    } else if m.TakeWindow? {
      TakeWindowKeeps(cfg, s);
    } else if m.NextInPlace? {
      NextInPlaceKeeps(cfg, s);
    } else if m.HandOn? {
      HandOnKeeps(cfg, s);
    } else if m.Receive? {
      ReceiveKeeps(cfg, s);
    } else {
      CloseKeeps(cfg, s, m);
    }
  }

  // ----- When partitions are opened ahead, and handed back -----

  /** A partition is opened ahead exactly while one is being read, a batch has given the size
      to reserve, memory has not run out, the window has room and a partition is left that
      can be opened. */
  lemma OpensExactly(cfg: Config, s: State)
    ensures Enabled(cfg, s, Open) <==>
            && s.outcome == Going && s.current != Nothing && s.largest > 0 && !s.exhausted
            && |s.window| < cfg.readAhead && s.next < |cfg.partitions| && s.next !in cfg.refused
  {
  }

  /** A producer hands its reader back exactly when it finds the flag set before a batch or is
      refused a reservation, which sets it; it is done exactly at the end, or after sending
      a failure; and nothing else sets the flag. */
  lemma HandsBackExactly(a: Ahead, shared: Shared, grant: bool)
    requires CanProduce(a)
    ensures var (a', shared') := Produced(a, shared, grant); var phase := a.producer.phase;
            && (a'.producer.HandedBack? <==> (phase == Check && shared.exhausted) || (phase == Reserve && !grant))
            && (a'.producer == Finished <==>
                 (phase == Read && a.producer.rest == []) || (phase.Send? && phase.item == Failure))
            && (shared'.exhausted <==> shared.exhausted || (phase == Reserve && !grant))
  {
  }

  // ----- The size reserved -----

  predicate InAhead(a: Ahead, item: Item) {
    item in a.channel || (a.producer.Running? && a.producer.phase == Send(item))
  }

  ghost predicate InWindow(window: seq<Ahead>, item: Item) {
    exists i | 0 <= i < |window| :: InAhead(window[i], item)
  }

  ghost predicate InCurrent(c: Current, item: Item) {
    c.FromAhead? && InAhead(c.ahead, item)
  }

  /** A reader has given the item, wherever it is now. */
  ghost predicate WasRead(s: State, item: Item) {
    item in s.emitted || item in s.held || InCurrent(s.current, item) || InWindow(s.window, item)
  }

  /** The size to reserve is that of the largest batch any reader has given so far. */
  ghost predicate ReservesLargest(s: State) {
    && (forall item | WasRead(s, item) && item.Batch? :: item.bytes <= s.largest)
    && (s.largest > 0 ==> exists item :: WasRead(s, item) && item.Batch? && item.bytes == s.largest)
  }

  /** What a producer's step reads. */
  function ReadBy(a: Ahead): seq<Item> {
    if a.producer.Running? && a.producer.phase.Read? && a.producer.rest != [] then [a.producer.rest[0]] else []
  }

  /** What a step reads. */
  function Given(cfg: Config, s: State, m: Move): seq<Item>
    requires Enabled(cfg, s, m)
  {
    match m
    case NextInPlace => [s.current.rest[0]]
    case Produce(at, _) => ReadBy(if at == -1 then s.current.ahead else s.window[at])
    case _ => []
  }

  predicate IsLarger(was: nat, item: Item, now: nat) {
    now == if item.Batch? && was < item.bytes then item.bytes else was
  }

  lemma ProducedReads(a: Ahead, shared: Shared, grant: bool, item: Item)
    requires CanProduce(a)
    ensures var (a', shared') := Produced(a, shared, grant);
            && (InAhead(a', item) <==> InAhead(a, item) || item in ReadBy(a))
            && (ReadBy(a) == [] ==> shared'.largest == shared.largest)
            && (ReadBy(a) != [] ==> IsLarger(shared.largest, ReadBy(a)[0], shared'.largest))
  {
  }

  lemma WindowSet(window: seq<Ahead>, at: nat, a: Ahead, given: seq<Item>, item: Item)
    requires at < |window| && (InAhead(a, item) <==> InAhead(window[at], item) || item in given)
    ensures InWindow(window[at := a], item) <==> InWindow(window, item) || item in given
  {
    var w' := window[at := a];
    if i :| 0 <= i < |window| && InAhead(window[i], item) {
      assert InAhead(w'[i], item);
    }
    if item in given {
      assert InAhead(w'[at], item);
    }
    if i :| 0 <= i < |w'| && InAhead(w'[i], item) {
      assert i != at ==> InAhead(window[i], item);
    }
  }

  lemma WindowEnds(window: seq<Ahead>, a: Ahead, item: Item)
    requires !InAhead(a, item)
    ensures InWindow(window + [a], item) <==> InWindow(window, item)
    ensures window != [] ==> (InWindow(window, item) <==> InAhead(window[0], item) || InWindow(window[1..], item))
  {
    if i :| 0 <= i < |window| && InAhead(window[i], item) {
      assert InAhead((window + [a])[i], item);
      assert i > 0 ==> InAhead(window[1..][i - 1], item);
    }
    if i :| 0 <= i < |window + [a]| && InAhead((window + [a])[i], item) {
      assert i < |window| && InAhead(window[i], item);
    }
    if window != [] {
      if i :| 0 <= i < |window[1..]| && InAhead(window[1..][i], item) {
        assert InAhead(window[i + 1], item);
      }
    }
  }

  lemma ProduceReads(cfg: Config, s: State, at: int, grant: bool, item: Item)
    requires Enabled(cfg, s, Produce(at, grant))
    ensures WasRead(Next(cfg, s, Produce(at, grant)), item) <==>
            WasRead(s, item) || item in Given(cfg, s, Produce(at, grant))
  {
    var a := if at == -1 then s.current.ahead else s.window[at];
    var shared := Shared(s.largest, s.exhausted);
    ProducedReads(a, shared, grant, item);
    if at != -1 {
      WindowSet(s.window, at, Produced(a, shared, grant).0, ReadBy(a), item);
    }
  }

  /** No step loses an item that was read. */
  lemma StepReads(cfg: Config, s: State, m: Move, item: Item)
    requires Enabled(cfg, s, m) && |s.held| <= 1
    ensures WasRead(Next(cfg, s, m), item) <==> WasRead(s, item) || item in Given(cfg, s, m)
  {
    match m
    case Produce(at, grant) => ProduceReads(cfg, s, at, grant, item);
    case Open => WindowEnds(s.window, Ahead([], Running(cfg.partitions[s.next], Check)), item);
    case TakeWindow => WindowEnds(s.window, Ahead([], Finished), item);
    case Receive =>
      var channel := s.current.ahead.channel;
      assert channel == [channel[0]] + channel[1..];
    case _ =>
  }

  lemma StepLargest(cfg: Config, s: State, m: Move)
    requires Enabled(cfg, s, m)
    ensures var given, largest := Given(cfg, s, m), Next(cfg, s, m).largest;
            && (given == [] ==> largest == s.largest)
            && (given != [] ==> |given| == 1 && IsLarger(s.largest, given[0], largest))
  {
    if m.Produce? {
      var a := if m.at == -1 then s.current.ahead else s.window[m.at];
      ProducedReads(a, Shared(s.largest, s.exhausted), m.grant, Failure);
    }
  }

  lemma StepReserves(cfg: Config, s: State, m: Move)
    requires Inv(cfg, s) && ReservesLargest(s) && Enabled(cfg, s, m)
    ensures ReservesLargest(Next(cfg, s, m))
  {
    var s', given := Next(cfg, s, m), Given(cfg, s, m);
    StepLargest(cfg, s, m);
    forall item
      ensures WasRead(s', item) <==> WasRead(s, item) || item in given
    {
      StepReads(cfg, s, m, item);
    }
    if s'.largest > 0 {
      if s'.largest == s.largest {
        var item :| WasRead(s, item) && item.Batch? && item.bytes == s.largest;
        assert WasRead(s', item);
      } else {
        assert WasRead(s', given[0]);
      }
    }
  }

  // ----- Memory -----

  /** The batches an open partition charges to the pool: those in its channel, and the one
      its producer reserved or holds. */
  function ChargedBy(a: Ahead): nat {
    |a.channel| + (if a.producer.Running? && (a.producer.phase.Read? || a.producer.phase.Send?) then 1 else 0)
  }

  function ChargedWindow(window: seq<Ahead>): nat {
    if window == [] then 0 else ChargedBy(window[0]) + ChargedWindow(window[1..])
  }

  function Charged(s: State): nat {
    ChargedWindow(s.window) + (if s.current.FromAhead? then ChargedBy(s.current.ahead) else 0)
  }

  lemma {:induction false} ChargedWindowBound(window: seq<Ahead>)
    requires forall i | 0 <= i < |window| :: Sound(window[i])
    ensures ChargedWindow(window) <= |window| * (CHANNEL_BATCHES + 1)
  {
    if window != [] {
      ChargedWindowBound(window[1..]);
    }
  }

  lemma ChargedBound(cfg: Config, s: State)
    requires Inv(cfg, s)
    ensures Charged(s) <= (cfg.readAhead + 1) * (CHANNEL_BATCHES + 1)
  {
    ChargedWindowBound(s.window);
  }

  // ----- Every schedule ends -----

  function ProducerWork(p: Producer): nat {
    match p
    case Running(rest, phase) =>
      10 * |rest| + (match phase case Check => 9 case Reserve => 8 case Read => 7 case Send(_) => 15)
    case HandedBack(rest) => 10 * |rest| + 5
    case Finished => 1
  }

  function AheadWork(a: Ahead): nat {
    2 * |a.channel| + ProducerWork(a.producer)
  }

  function WindowWork(window: seq<Ahead>): nat {
    if window == [] then 0 else 1 + AheadWork(window[0]) + WindowWork(window[1..])
  }

  function CurrentWork(c: Current): nat {
    match c
    case Nothing => 0
    case InPlace(rest) => 10 * |rest| + 3
    case FromAhead(a) => AheadWork(a)
  }

  function UnopenedWork(parts: seq<seq<Item>>): nat {
    if parts == [] then 0 else 10 * |parts[0]| + 11 + UnopenedWork(parts[1..])
  }

  /** An upper bound on the steps left. */
  function Work(cfg: Config, s: State): nat
    requires s.next <= |cfg.partitions|
  {
    UnopenedWork(cfg.partitions[s.next..]) + WindowWork(s.window) + CurrentWork(s.current) + 2 * |s.held| +
      (if s.outcome.Going? then 1 else 0)
  }

  lemma {:induction false} WindowWorkAppend(window: seq<Ahead>, a: Ahead)
    ensures WindowWork(window + [a]) == WindowWork(window) + 1 + AheadWork(a)
  {
    if window == [] {
      assert [a][1..] == [];
    } else {
      assert (window + [a])[1..] == window[1..] + [a];
      WindowWorkAppend(window[1..], a);
    }
  }

  lemma {:induction false} WindowWorkAt(window: seq<Ahead>, at: nat, a: Ahead)
    requires at < |window|
    ensures WindowWork(window[at := a]) + AheadWork(window[at]) == WindowWork(window) + AheadWork(a)
  {
    if at > 0 {
      assert window[at := a][1..] == window[1..][at - 1 := a];
      WindowWorkAt(window[1..], at - 1, a);
    }
  }

  lemma ProducedWork(a: Ahead, shared: Shared, grant: bool)
    requires CanProduce(a)
    ensures AheadWork(Produced(a, shared, grant).0) < AheadWork(a)
  {
  }

  /** Every step takes the schedule nearer its end. */
  lemma StepWorks(cfg: Config, s: State, m: Move)
    requires Inv(cfg, s) && Enabled(cfg, s, m)
    ensures Work(cfg, Next(cfg, s, m)) < Work(cfg, s)
  {
    var s' := Next(cfg, s, m);
    match m {
      case Open =>
        WindowWorkAppend(s.window, Ahead([], Running(cfg.partitions[s.next], Check)));
        assert cfg.partitions[s.next..][1..] == cfg.partitions[s.next + 1..];
      case OpenInPlace =>
        assert cfg.partitions[s.next..][1..] == cfg.partitions[s.next + 1..];
      case Produce(at, grant) =>
        if at == -1 {
          ProducedWork(s.current.ahead, Shared(s.largest, s.exhausted), grant);
        } else {
          ProducedWork(s.window[at], Shared(s.largest, s.exhausted), grant);
          WindowWorkAt(s.window, at, s'.window[at]);
        }
      case _ =>
    }
  }

  /** No schedule is stuck before its end: the consumer or the current producer can act. */
  lemma NeverStuck(cfg: Config, s: State)
    requires Inv(cfg, s) && s.outcome.Going?
    ensures exists m :: Enabled(cfg, s, m)
  {
    var open := if s.next in cfg.refused then Refuse else OpenInPlace;
    var m := if s.held != [] then HandOn else match s.current
      case Nothing => if s.window != [] then TakeWindow else if s.next < |cfg.partitions| then open else Finish
      case InPlace(rest) => if rest != [] then NextInPlace else EndInPlace
      case FromAhead(a) => if a.channel != [] then Receive else if a.producer.Running? then Produce(-1, true)
        else Close;
    assert Enabled(cfg, s, m);
  }

  // ----- Whole schedules -----

  /** The state a schedule leads to, if each of its moves is enabled in turn. */
  ghost predicate Leads(cfg: Config, s: State, schedule: seq<Move>, end: State)
    decreases |schedule|
  {
    if schedule == [] then s == end
    else Enabled(cfg, s, schedule[0]) && Leads(cfg, Next(cfg, s, schedule[0]), schedule[1..], end)
  }

  lemma {:induction false} ScheduleKeeps(cfg: Config, s: State, schedule: seq<Move>, end: State)
    requires Inv(cfg, s) && Leads(cfg, s, schedule, end)
    ensures Inv(cfg, end) && |schedule| + Work(cfg, end) <= Work(cfg, s)
    decreases |schedule|
  {
    if schedule != [] {
      StepKeeps(cfg, s, schedule[0]);
      StepWorks(cfg, s, schedule[0]);
      ScheduleKeeps(cfg, Next(cfg, s, schedule[0]), schedule[1..], end);
    }
  }

  /** In every schedule, what the next partition ahead reserves is the size of the largest
      batch any reader has given before. */
  lemma {:induction false} ScheduleReserves(cfg: Config, s: State, schedule: seq<Move>, end: State)
    requires Inv(cfg, s) && ReservesLargest(s) && Leads(cfg, s, schedule, end)
    ensures ReservesLargest(end)
    decreases |schedule|
  {
    if schedule != [] {
      StepKeeps(cfg, s, schedule[0]);
      StepReserves(cfg, s, schedule[0]);
      ScheduleReserves(cfg, Next(cfg, s, schedule[0]), schedule[1..], end);
    }
  }

  lemma EmittedBefore(cfg: Config, s: State)
    requires Inv(cfg, s)
    ensures s.emitted <= Flatten(cfg.partitions[..s.next])
  {
    var begun, later := s.held + LeftCurrent(s.current) + LeftWindow(s.window), Flatten(cfg.partitions[s.next..]);
    FlattenConcat(cfg.partitions[..s.next], cfg.partitions[s.next..]);
    assert cfg.partitions[..s.next] + cfg.partitions[s.next..] == cfg.partitions;
    CancelRight(s.emitted + begun, Flatten(cfg.partitions[..s.next]), later);
  }

  lemma CancelRight(a: seq<Item>, b: seq<Item>, c: seq<Item>)
    requires a + c == b + c
    ensures a == b
  {
    assert |a| == |b| && a == (a + c)[..|a|] && b == (b + c)[..|b|];
  }

  /** In every schedule of the consumer and the producers: what is emitted is always the
      partitions' items in order so far, within the memory bound; a schedule has no more
      steps than a bound fixed by the input; and where it cannot go on it has emitted
      every partition in full, or stopped at the first failure in their order, or at the
      first partition that cannot be opened, with nothing but items of those before it. */
  lemma EmitsPartitionsInOrder(cfg: Config, schedule: seq<Move>, end: State)
    requires (forall p | p in cfg.partitions :: FailsLast(p)) && Leads(cfg, Init(), schedule, end)
    ensures end.emitted <= Flatten(cfg.partitions)
    ensures |end.window| <= cfg.readAhead && Charged(end) <= (cfg.readAhead + 1) * (CHANNEL_BATCHES + 1)
    ensures |schedule| <= Work(cfg, Init())
    ensures (forall m :: !Enabled(cfg, end, m)) ==> !end.outcome.Going?
    ensures end.outcome.Ended? ==> end.emitted == Flatten(cfg.partitions) && forall i: nat | i < |cfg.partitions| ::
            i !in cfg.refused
    ensures end.outcome.Refused? ==>
              && end.next < |cfg.partitions| && end.next in cfg.refused
                 && (forall i: nat | i < end.next :: i !in cfg.refused)
              && end.emitted <= Flatten(cfg.partitions[..end.next])
    ensures StopsAtFailure(end) && ReservesLargest(end)
  {
    assert cfg.partitions[0..] == cfg.partitions;
    assert Pending(cfg, Init()) == Flatten(cfg.partitions);
    ScheduleKeeps(cfg, Init(), schedule, end);
    ScheduleReserves(cfg, Init(), schedule, end);
    ChargedBound(cfg, end);
    EmittedBefore(cfg, end);
    if end.outcome.Going? {
      NeverStuck(cfg, end);
    }
  }
}
