/** The lazy delete filter: each data file's deleted positions are read at most once per
    scan, from the memo or its delete file, when a row of the file is reached or a task
    reads ahead, and every row at a deleted position is left out. */
module LazyDelete {
  import opened Bags
  import opened Lake
  import opened DeleteMemo

  /** An entry of a delete file: a position, and the snapshot it records, if any. */
  datatype Mark = Mark(pos: int, snapshot: Option<int>)

  /** What the plan knows of a data file with deletions. */
  datatype FileDeletes = FileDeletes(inlined: set<int>, deleteFile: Option<string>, readSnapshot: Option<int>)

  datatype ScanRow = ScanRow(file: int, pos: int, data: string)

  /** Delete files are immutable: a path always names the same entries. */
  type Store = string -> seq<Mark>

  predicate Applies(m: Mark, readSnapshot: Option<int>) {
    readSnapshot.Some? && m.snapshot.Some? ==> m.snapshot.value <= readSnapshot.value
  }

  function PositionsAt(marks: seq<Mark>, readSnapshot: Option<int>): set<int> {
    set m | m in marks && Applies(m, readSnapshot) :: m.pos
  }

  /** `read_delete_positions`. */
  method ReadDeletePositions(marks: seq<Mark>, readSnapshot: Option<int>) returns (r: set<int>)
    ensures r == PositionsAt(marks, readSnapshot)
  {
    r := {};
    for i := 0 to |marks|
      invariant r == PositionsAt(marks[..i], readSnapshot)
    {
      assert marks[..i + 1] == marks[..i] + [marks[i]];
      if Applies(marks[i], readSnapshot) {
        r := r + {marks[i].pos};
      }
    }
    assert marks[..|marks|] == marks;
  }

  /** The positions a read finds are those the delete file records as deleted by then. */
  lemma PositionsAreRecorded(d: DeleteFile, marks: seq<Mark>, s: int, p: int)
    requires forall m :: m in marks <==> m.pos in d.entries && d.entries[m.pos] == m.snapshot
    ensures p in PositionsAt(marks, Some(s)) <==> Records(d, p, s)
  {
    if p in d.entries {
      assert Mark(p, d.entries[p]) in marks;
    }
  }

  /** The positions deleted from a file: inlined, or in its delete file by the snapshot. */
  function DeletedOf(files: map<int, FileDeletes>, store: Store, file: int): set<int> {
    if file !in files then {}
    else
      var f := files[file];
      f.inlined + (if f.deleteFile.Some? then PositionsAt(store(f.deleteFile.value), f.readSnapshot) else {})
  }

  /** Every entry holds what its path's delete file holds for its snapshot. */
  ghost predicate Faithful(memo: map<int, Entry>, store: Store) {
    forall file | file in memo :: memo[file].positions == PositionsAt(store(memo[file].path), memo[file].readSnapshot)
  }

  datatype Outcome<T> = Ok(value: T) | Err

  /** Whether a read of a delete file fails, and the capacity of the set it is read into. */
  datatype Attempt = Attempt(fails: bool, capacity: nat)

  class BatchFilter {
    const files: map<int, FileDeletes>
    const memo: DeletePositionMemo?
    /** The delete sets loaded so far; each is set once. */
    var loaded: map<int, set<int>>

    ghost predicate Valid(store: Store)
      reads this, memo
    {
      && (forall file | file in loaded :: loaded[file] == DeletedOf(files, store, file))
      && (memo != null ==> memo.Valid() && Faithful(memo.files, store))
    }

    constructor (plan: map<int, FileDeletes>, positions: DeletePositionMemo?, ghost store: Store)
      requires positions != null ==> positions.Valid() && Faithful(positions.files, store)
      ensures Valid(store) && files == plan && memo == positions
    {
      files, memo, loaded := plan, positions, map[];
    }

    /** The delete file's positions, from the memo when it holds them for this path and
        snapshot, else read and offered to the memo. A read may fail. */
    method DeleteFilePositions(file: int, path: string, readSnapshot: Option<int>, store: Store, how: Attempt)
      returns (r: Outcome<set<int>>)
      requires Valid(store)
      modifies memo
      ensures Valid(store) && unchanged(this)
      ensures r.Ok? ==> r.value == PositionsAt(store(path), readSnapshot)
      ensures !how.fails ==> r.Ok?
    {
      if memo != null {
        var kept := memo.Get(file, path, readSnapshot);
        if kept.Some? {
          return Ok(kept.value);
        }
      }
      if how.fails {
        return Err;
      }
      var positions := ReadDeletePositions(store(path), readSnapshot);
      if memo != null {
        var _ := memo.Insert(file, path, readSnapshot, positions, how.capacity);
      }
      r := Ok(positions);
    }

    /** `deleted`: the file's deleted positions, loaded at most once. */
    method Deleted(file: int, store: Store, how: Attempt) returns (r: Outcome<set<int>>)
      requires Valid(store)
      modifies this, memo
      ensures Valid(store)
      ensures r.Ok? ==> r.value == DeletedOf(files, store, file)
      ensures !how.fails ==> r.Ok?
      ensures forall f | f in old(loaded) :: f in loaded && loaded[f] == old(loaded)[f]
      ensures r.Ok? && file in files ==> file in loaded
      ensures file in old(loaded) && file in files ==> r.Ok? && unchanged(this) && (memo != null ==> unchanged(memo))
    {
      if file !in files {
        return Ok({});
      }
      if file in loaded {
        return Ok(loaded[file]);
      }
      var f := files[file];
      var deleted := f.inlined;
      if f.deleteFile.Some? {
        var fromFile := DeleteFilePositions(file, f.deleteFile.value, f.readSnapshot, store, how);
        if fromFile.Err? {
          return Err;
        }
        deleted := deleted + fromFile.value;
      }
      loaded := loaded[file := deleted];
      r := Ok(deleted);
    }

    /** Reads other tasks of the scan make meanwhile, in any order, failed ones dropped. */
    method Meanwhile(loads: seq<Load>, store: Store)
      requires Valid(store)
      modifies this, memo
      ensures Valid(store)
    {
      for i := 0 to |loads|
        invariant Valid(store)
      {
        var _ := Deleted(loads[i].file, store, loads[i].how);
      }
    }

    /** `apply`: a batch without its deleted rows, in order. Before each row the other
        tasks of the scan may have read any files, and any read may fail. */
    method Apply(batch: seq<ScanRow>, store: Store, others: seq<seq<Load>>,
            own: seq<Attempt>) returns (r: Outcome<seq<ScanRow>>)
      requires Valid(store) && |others| == |own| == |batch|
      modifies this, memo
      ensures Valid(store)
      ensures r.Ok? ==> r.value == Alive(batch, files, store)
      ensures (forall i | 0 <= i < |own| :: !own[i].fails) ==> r.Ok?
    {
      if files == map[] {
        AllAlive(batch, files, store);
        return Ok(batch);
      }
      var keep: seq<ScanRow> := [];
      var current: Option<(int, set<int>)> := None;
      for row := 0 to |batch|
        invariant Valid(store)
        invariant keep == Alive(batch[..row], files, store)
        invariant current.Some? ==> current.value.1 == DeletedOf(files, store, current.value.0)
      {
        Meanwhile(others[row], store);
        var file := batch[row].file;
        if current.None? || current.value.0 != file {
          var deleted := Deleted(file, store, own[row]);
          if deleted.Err? {
            return Err;
          }
          current := Some((file, deleted.value));
        }
        AliveLast(batch, row, files, store);
        if batch[row].pos !in current.value.1 {
          keep := keep + [batch[row]];
        }
      }
      assert batch[..|batch|] == batch;
      r := Ok(keep);
    }
  }

  /** One read of a file's deletions by another task. */
  datatype Load = Load(file: int, how: Attempt)

  predicate IsAlive(row: ScanRow, files: map<int, FileDeletes>, store: Store) {
    row.pos !in DeletedOf(files, store, row.file)
  }

  /** The rows at positions not deleted, in order. */
  function Alive(rows: seq<ScanRow>, files: map<int, FileDeletes>, store: Store): seq<ScanRow> {
    if rows == [] then []
    else (if IsAlive(rows[0], files, store) then [rows[0]] else []) + Alive(rows[1..], files, store)
  }

  lemma {:induction false} AliveConcat(a: seq<ScanRow>, b: seq<ScanRow>, files: map<int, FileDeletes>, store: Store)
    ensures Alive(a + b, files, store) == Alive(a, files, store) + Alive(b, files, store)
  {
    if a == [] {
      assert a + b == b;
    } else {
      assert (a + b)[1..] == a[1..] + b;
      AliveConcat(a[1..], b, files, store);
    }
  }

  lemma AliveLast(rows: seq<ScanRow>, i: nat, files: map<int, FileDeletes>, store: Store)
    requires i < |rows|
    ensures Alive(rows[..i + 1], files, store)
         == Alive(rows[..i], files, store) + (if IsAlive(rows[i], files, store) then [rows[i]] else [])
  {
    assert rows[..i + 1] == rows[..i] + [rows[i]];
    AliveConcat(rows[..i], [rows[i]], files, store);
    assert [rows[i]][1..] == [];
  }

  lemma {:induction false} AllAlive(rows: seq<ScanRow>, files: map<int, FileDeletes>, store: Store)
    requires files == map[]
    ensures Alive(rows, files, store) == rows
  {
    if rows != [] {
      AllAlive(rows[1..], files, store);
    }
  }

  // ----- Batches -----

  function AliveEach(batches: seq<seq<ScanRow>>, files: map<int, FileDeletes>, store: Store): seq<seq<ScanRow>> {
    seq(|batches|, i requires 0 <= i < |batches| => Alive(batches[i], files, store))
  }

  /** However the rows are cut into batches, the filtered batches together are the
      filtered rows. */
  lemma {:induction false} BatchingDoesNotMatter(batches: seq<seq<ScanRow>>, files: map<int, FileDeletes>, store: Store)
    ensures Flatten(AliveEach(batches, files, store)) == Alive(Flatten(batches), files, store)
  {
    if batches != [] {
      BatchingDoesNotMatter(batches[1..], files, store);
      AliveConcat(batches[0], Flatten(batches[1..]), files, store);
      assert AliveEach(batches, files, store)[1..] == AliveEach(batches[1..], files, store);
    }
  }

  // ----- Reading ahead -----

  const PREFETCH_FILES: nat := 2

  function Position(order: seq<int>, file: int): (i: nat)
    ensures i <= |order| && (i < |order| ==> order[i] == file) && file !in order[..i]
  {
    if order == [] || order[0] == file then 0 else 1 + Position(order[1..], file)
  }

  predicate Between(from: nat, to: nat, i: nat) {
    from <= i < to
  }

  /** Place `i` is among the next files after the current one, and not started. */
  predicate InWindow(order: seq<int>, file: int, started: nat, i: nat) {
    started <= i < |order| && Position(order, file) < i <= Position(order, file) + PREFETCH_FILES
  }

  /** `prefetch_after`: the files started, as places in the read order, and the new mark.
      Started are exactly the files of the window after the current one that were not yet. */
  method PrefetchAfter(order: seq<int>, file: int, started: nat) returns (from: nat, to: nat, mark: nat)
    requires started <= |order|
    ensures from <= to <= |order| && started <= mark <= |order|
    ensures from < to ==> started <= from && to == mark
    ensures from < to ==> Position(order, file) < from && to <= Position(order, file) + 1 + PREFETCH_FILES
    ensures file in order ==> mark == |order| || Position(order, file) + 1 + PREFETCH_FILES <= mark
    ensures file !in order ==> from == to && mark == started
    ensures file in order ==> forall i: nat :: Between(from, to, i) <==> InWindow(order, file, started, i)
    ensures file in order ==> mark == to || mark == started > to
  {
    var position := Position(order, file);
    if position == |order| {
      assert order[..|order|] == order;
      return 0, 0, started;
    }
    var end := if position + 1 + PREFETCH_FILES < |order| then position + 1 + PREFETCH_FILES else |order|;
    var start := if started > position + 1 then started else position + 1;
    from, to := (if start < end then start else end), end;
    mark := if started > end then started else end;
  }
}
