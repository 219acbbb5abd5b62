/** The flush of inlined rows: sorted, split by partition, rolled into files, each with
    a delete file for its rows deleted while inlined. */
module FlushRows {
  import opened Bags
  import opened Lake
  import opened Merge

  /** A partition's encoded values, in key order. */
  type Key = seq<Option<string>>

  lemma {:induction false} FlattenAppend<T>(xss: seq<seq<T>>, j: nat, x: T)
    requires j < |xss|
    ensures multiset(Flatten(xss[j := xss[j] + [x]])) == multiset(Flatten(xss)) + multiset{x}
  {
    if j > 0 {
      FlattenAppend(xss[1..], j - 1, x);
      assert xss[j := xss[j] + [x]][1..] == xss[1..][j - 1 := xss[1..][j - 1] + [x]];
    } else {
      assert xss[0 := xss[0] + [x]][1..] == xss[1..];
    }
  }

  // ----- Writing -----

  /** The rows of one partition, in order. */
  function OfKey(rows: seq<InlinedRow>, keyOf: Row -> Key, key: Key): (r: seq<InlinedRow>)
    ensures forall x | x in r :: keyOf(x.row) == key
  {
    if rows == [] then []
    else
      var before, last := OfKey(rows[..|rows| - 1], keyOf, key), rows[|rows| - 1];
      if keyOf(last.row) == key then before + [last] else before
  }

  /** The groups of `rows`: one for each partition that occurs, holding its rows in order. */
  predicate Keyed(keys: seq<Key>, groups: seq<seq<InlinedRow>>, keyOf: Row -> Key, rows: seq<InlinedRow>) {
    && |keys| == |groups|
    && Distinct(keys)
    && (forall k | 0 <= k < |keys| :: groups[k] == OfKey(rows, keyOf, keys[k]) && groups[k] != [])
    && forall r | r in rows :: keyOf(r.row) in keys
  }

  lemma OfKeyAppend(rows: seq<InlinedRow>, row: InlinedRow, keyOf: Row -> Key, key: Key)
    ensures OfKey(rows + [row], keyOf, key) ==
            OfKey(rows, keyOf, key) + if keyOf(row.row) == key then [row] else []
  {
    assert (rows + [row])[..|rows|] == rows;
  }

  lemma {:induction false} OfNoKey(rows: seq<InlinedRow>, keyOf: Row -> Key, key: Key)
    requires forall r | r in rows :: keyOf(r.row) != key
    ensures OfKey(rows, keyOf, key) == []
  {
    if rows != [] {
      OfNoKey(rows[..|rows| - 1], keyOf, key);
    }
  }

  lemma GroupGrows(keys: seq<Key>, groups: seq<seq<InlinedRow>>, keyOf: Row -> Key, row: InlinedRow,
          rows: seq<InlinedRow>, j: nat)
    requires Keyed(keys, groups, keyOf, rows) && j < |keys| && keys[j] == keyOf(row.row)
    ensures Keyed(keys, groups[j := groups[j] + [row]], keyOf, rows + [row])
  {
    forall k | 0 <= k < |keys|
      ensures OfKey(rows + [row], keyOf, keys[k]) == groups[j := groups[j] + [row]][k]
    {
      OfKeyAppend(rows, row, keyOf, keys[k]);
    }
  }

  lemma GroupStarts(keys: seq<Key>, groups: seq<seq<InlinedRow>>, keyOf: Row -> Key, row: InlinedRow,
          rows: seq<InlinedRow>)
    requires Keyed(keys, groups, keyOf, rows) && keyOf(row.row) !in keys
    ensures Keyed(keys + [keyOf(row.row)], groups + [[row]], keyOf, rows + [row])
  {
    var keys' := keys + [keyOf(row.row)];
    forall k | 0 <= k < |keys'|
      ensures OfKey(rows + [row], keyOf, keys'[k]) == (groups + [[row]])[k]
    {
      OfKeyAppend(rows, row, keyOf, keys'[k]);
      if k == |keys| {
        OfNoKey(rows, keyOf, keys'[k]);
      }
    }
  }

  /** Appends a row to its partition's group, a new group if it is the first. */
  method Place(keys: seq<Key>, groups: seq<seq<InlinedRow>>, keyOf: Row -> Key, row: InlinedRow,
          ghost rows: seq<InlinedRow>)
    returns (keys': seq<Key>, groups': seq<seq<InlinedRow>>)
    requires Keyed(keys, groups, keyOf, rows)
    ensures Keyed(keys', groups', keyOf, rows + [row])
    ensures multiset(Flatten(groups')) == multiset(Flatten(groups)) + multiset{row}
  {
    var key := keyOf(row.row);
    var j := 0;
    while j < |keys| && keys[j] != key
      invariant 0 <= j <= |keys|
      invariant forall k | 0 <= k < j :: keys[k] != key
    {
      j := j + 1;
    }
    if j < |keys| {
      GroupGrows(keys, groups, keyOf, row, rows, j);
      FlattenAppend(groups, j, row);
      keys', groups' := keys, groups[j := groups[j] + [row]];
    } else {
      GroupStarts(keys, groups, keyOf, row, rows);
      FlattenConcat(groups, [[row]]);
      assert Flatten([[row]]) == [row];
      keys', groups' := keys + [key], groups + [[row]];
    }
  }

  /** Splits `rows` by partition, each group keeping the order of its rows. */
  method SplitByPartition(rows: seq<InlinedRow>, keyOf: Row -> Key) returns (keys: seq<Key>,
          groups: seq<seq<InlinedRow>>)
    ensures Keyed(keys, groups, keyOf, rows)
    ensures multiset(Flatten(groups)) == multiset(rows)
  {
    keys, groups := [], [];
    for i := 0 to |rows|
      invariant Keyed(keys, groups, keyOf, rows[..i])
      invariant multiset(Flatten(groups)) == multiset(rows[..i])
    {
      ghost var done := rows[..i];
      keys, groups := Place(keys, groups, keyOf, rows[i], done);
      NextRow(rows, i);
    }
    assert rows[..|rows|] == rows;
  }

  lemma NextRow<T>(rows: seq<T>, i: nat)
    requires i < |rows|
    ensures rows[..i + 1] == rows[..i] + [rows[i]] && multiset(rows[..i + 1]) == multiset(rows[..i]) + multiset{rows[i]}
  {
    assert rows[..i + 1] == rows[..i] + [rows[i]];
  }

  function CountsTo(counts: seq<nat>, k: nat): nat
    requires k <= |counts|
  {
    if k == 0 then 0 else CountsTo(counts, k - 1) + counts[k - 1]
  }

  lemma {:induction false} CountsGrow(counts: seq<nat>, k: nat, n: nat)
    requires k <= n <= |counts|
    ensures CountsTo(counts, k) <= CountsTo(counts, n)
  {
    if k < n {
      CountsGrow(counts, k, n - 1);
    }
  }

  /** Files of `counts` rows hold `n` rows, none of them empty. */
  predicate Covering(counts: seq<nat>, n: nat) {
    (forall k | 0 <= k < |counts| :: counts[k] > 0) && CountsTo(counts, |counts|) == n
  }

  /** Cuts a group into the files the writer rolled it into, `counts` rows each. A file
      of no rows, one past the group's end, or rows left over fail the flush. */
  method CutFiles(group: seq<InlinedRow>, counts: seq<nat>) returns (r: Result<seq<seq<InlinedRow>>>)
    ensures r.Ok? <==> Covering(counts, |group|)
    ensures r.Ok? ==> Flatten(r.value) == group && |r.value| == |counts|
    ensures r.Ok? ==> forall k | 0 <= k < |counts| :: |r.value[k]| == counts[k] > 0
  {
    var slices: seq<seq<InlinedRow>>, start := [], 0;
    for k := 0 to |counts|
      invariant 0 <= start <= |group| && start == CountsTo(counts, k)
      invariant Flatten(slices) == group[..start] && |slices| == k
      invariant forall j | 0 <= j < k :: |slices[j]| == counts[j] > 0
    {
      if counts[k] == 0 || start + counts[k] > |group| {
        CountsGrow(counts, k + 1, |counts|);
        return Err;
      }
      var slice := group[start..start + counts[k]];
      FlattenConcat(slices, [slice]);
      assert Flatten([slice]) == slice;
      slices, start := slices + [slice], start + counts[k];
    }
    if start != |group| {
      return Err;
    }
    assert group[..start] == group;
    r := Ok(slices);
  }

  /** The writer reports for every group files that hold it. */
  ghost predicate WritesAll(counts: seq<InlinedRow> -> seq<nat>) {
    forall group :: Covering(counts(group), |group|)
  }

  lemma FlattenNext<T>(slices: seq<seq<T>>, files: seq<seq<T>>, groups: seq<seq<T>>, g: nat)
    requires g < |groups| && Flatten(slices) == Flatten(groups[..g]) && Flatten(files) == groups[g]
    ensures Flatten(slices + files) == Flatten(groups[..g + 1])
  {
    assert groups[..g + 1] == groups[..g] + [groups[g]];
    FlattenConcat(groups[..g], [groups[g]]);
    assert Flatten([groups[g]]) == groups[g];
    FlattenConcat(slices, files);
  }

  /** The rows each file of the flush holds: `sorted` is the flush order of `rows`, and
      `counts` what the writer reports for a group. They are the rows of each partition in
      that order, cut where the writer says, unless its counts do not add up. */
  method WriteInlinedTable(rows: seq<InlinedRow>, sorted: seq<InlinedRow>, keyOf: Row -> Key,
          counts: seq<InlinedRow> -> seq<nat>)
    returns (r: Result<seq<seq<InlinedRow>>>, ghost keys: seq<Key>, ghost groups: seq<seq<InlinedRow>>)
    requires multiset(sorted) == multiset(rows)
    ensures Keyed(keys, groups, keyOf, sorted)
    ensures r.Ok? <==> forall g | 0 <= g < |groups| :: Covering(counts(groups[g]), |groups[g]|)
    ensures r.Ok? ==> Flatten(r.value) == Flatten(groups)
    ensures WritesAll(counts) ==> r.Ok?
    ensures r.Ok? ==> multiset(Flatten(r.value)) == multiset(rows)
    ensures r.Ok? ==> forall slice | slice in r.value :: slice != [] && OnePartition(slice, keyOf)
  {
    var ks, gs := SplitByPartition(sorted, keyOf);
    keys, groups := ks, gs;
    var slices: seq<seq<InlinedRow>> := [];
    for g := 0 to |gs|
      invariant Flatten(slices) == Flatten(gs[..g])
      invariant forall h | 0 <= h < g :: Covering(counts(gs[h]), |gs[h]|)
      invariant forall slice | slice in slices :: slice != [] && OnePartition(slice, keyOf)
    {
      var files := CutFiles(gs[g], counts(gs[g]));
      if files.Err? {
        return Err, ks, gs;
      }
      SlicesPartition(files.value, gs[g], keyOf, ks[g]);
      FlattenNext(slices, files.value, gs, g);
      slices := slices + files.value;
    }
    assert gs[..|gs|] == gs;
    r := Ok(slices);
  }

  predicate OnePartition(slice: seq<InlinedRow>, keyOf: Row -> Key) {
    forall q, r | q in slice && r in slice :: keyOf(q.row) == keyOf(r.row)
  }

  lemma SlicesPartition(slices: seq<seq<InlinedRow>>, group: seq<InlinedRow>, keyOf: Row -> Key, key: Key)
    requires Flatten(slices) == group && forall r | r in group :: keyOf(r.row) == key
    ensures forall slice | slice in slices :: OnePartition(slice, keyOf)
  {
    forall slice | slice in slices
      ensures OnePartition(slice, keyOf)
    {
      SlicePartition(slices, slice, group, keyOf, key);
    }
  }

  lemma SlicePartition(slices: seq<seq<InlinedRow>>, slice: seq<InlinedRow>, group: seq<InlinedRow>, keyOf: Row -> Key,
          key: Key)
    requires slice in slices && Flatten(slices) == group && forall r | r in group :: keyOf(r.row) == key
    ensures OnePartition(slice, keyOf)
  {
    forall r | r in slice
      ensures r in group
    {
      FlattenIn(slices, slice, r);
    }
  }

  lemma {:induction false} FlattenIn<T>(xss: seq<seq<T>>, xs: seq<T>, x: T)
    requires xs in xss && x in xs
    ensures x in Flatten(xss)
  {
    if xss[0] != xs {
      FlattenIn(xss[1..], xs, x);
    }
  }

  // ----- One file of the flush -----

  function MinBegin(slice: seq<InlinedRow>): (b: int)
    requires slice != []
    ensures (exists r | r in slice :: r.begin == b) && forall r | r in slice :: b <= r.begin
  {
    if |slice| == 1 then slice[0].begin
    else var rest := MinBegin(slice[1..]); if slice[0].begin < rest then slice[0].begin else rest
  }

  function MaxBegin(slice: seq<InlinedRow>): (b: int)
    requires slice != []
    ensures (exists r | r in slice :: r.begin == b) && forall r | r in slice :: r.begin <= b
  {
    if |slice| == 1 then slice[0].begin
    else var rest := MaxBegin(slice[1..]); if slice[0].begin > rest then slice[0].begin else rest
  }

  /** The positions of a slice deleted while inlined, with the snapshot of each. */
  function Deletions(slice: seq<InlinedRow>): map<int, Option<int>> {
    map i | 0 <= i < |slice| && slice[i].end.Some? :: slice[i].end
  }

  function MinEnd(slice: seq<InlinedRow>): (b: Option<int>)
    ensures b.None? <==> forall r | r in slice :: r.end.None?
    ensures b.Some? ==> (exists r | r in slice :: r.end == b) && forall r | r in slice
            && r.end.Some? :: b.value <= r.end.value
  {
    if slice == [] then None
    else
      var rest := MinEnd(slice[1..]);
      if slice[0].end.None? then rest
      else if rest.None? || slice[0].end.value < rest.value then slice[0].end else rest
  }

  function FlushedFile(slice: seq<InlinedRow>, id: int): DataFile
    requires slice != []
  {
    DataFile(id, MinBegin(slice), None, Some(MaxBegin(slice)),
             seq(|slice|, i requires 0 <= i < |slice| => slice[i].row),
             Some(seq(|slice|, i requires 0 <= i < |slice| => Some(slice[i].begin))))
  }

  function FlushedDelete(slice: seq<InlinedRow>, id: int): Option<DeleteFile> {
    if MinEnd(slice).None? then None
    else Some(DeleteFile(id + 1, id, MinEnd(slice).value, None, Deletions(slice)))
  }

  /** Registers one flushed file and its delete file. */
  function AddFlushed(c: Catalog, slice: seq<InlinedRow>): Catalog
    requires slice != []
  {
    c.(nextFileId := c.nextFileId + 2,
       files := c.files + [FlushedFile(slice, c.nextFileId)],
       deletes := c.deletes + AsSeq(FlushedDelete(slice, c.nextFileId)))
  }

  predicate SliceSettled(slice: seq<InlinedRow>, head: int) {
    forall r | r in slice :: Lifetime(r.begin, r.end, head)
  }

  lemma FlushedFileWf(slice: seq<InlinedRow>, id: int, head: int)
    requires slice != [] && SliceSettled(slice, head)
    ensures WfFile(FlushedFile(slice, id), head)
  {
    var f := FlushedFile(slice, id);
    assert slice[0] in slice;
    forall o | o in f.origins.value
      ensures OriginWithin(f, o)
    {
      var i :| 0 <= i < |slice| && f.origins.value[i] == o;
      assert slice[i] in slice;
    }
    var last :| last in slice && last.begin == MaxBegin(slice);
  }

  lemma FlushedDeleteWf(slice: seq<InlinedRow>, id: int, head: int)
    requires SliceSettled(slice, head) && FlushedDelete(slice, id).Some?
    ensures WfDelete(FlushedDelete(slice, id).value, head)
  {
    var d := FlushedDelete(slice, id).value;
    var first :| first in slice && first.end == MinEnd(slice);
    forall p | p in d.entries
      ensures EntryWithin(d, d.entries[p], head)
    {
      assert slice[p] in slice;
    }
  }

  lemma AddFlushedWf(c: Catalog, slice: seq<InlinedRow>)
    requires Wf(c) && slice != [] && SliceSettled(slice, c.head)
    ensures Wf(AddFlushed(c, slice))
  {
    var c' := AddFlushed(c, slice);
    var f, d := FlushedFile(slice, c.nextFileId), FlushedDelete(slice, c.nextFileId);
    FlushedFileWf(slice, c.nextFileId, c.head);
    if d.Some? {
      FlushedDeleteWf(slice, c.nextFileId, c.head);
    }
    forall g, e | g in c'.files && e in c'.deletes && e.file == g.id && g.end.None?
      ensures HasLiveDelete(c', g.id)
    {
      if e in c.deletes && g in c.files {
        assert HasLiveDelete(c, g.id);
        var live :| live in c.deletes && live.file == g.id && live.end.None?;
        assert live in c'.deletes;
      } else {
        assert d.Some? && e == d.value;
      }
    }
  }

  lemma FlushedBorn(slice: seq<InlinedRow>, id: int, i: nat, s: int)
    requires i < |slice|
    ensures Born(FlushedFile(slice, id), i, s) <==> slice[i].begin <= s
  {
    assert slice[i] in slice;
  }

  lemma FlushedDead(c: Catalog, slice: seq<InlinedRow>, i: nat, s: int)
    requires Wf(c) && i < |slice|
    ensures Dead(AddFlushed(c, slice), c.nextFileId, i, s) <==> slice[i].end.Some? && slice[i].end.value <= s
  {
    var c', d := AddFlushed(c, slice), FlushedDelete(slice, c.nextFileId);
    assert forall e | e in c'.deletes && e.file == c.nextFileId :: d == Some(e);
    if slice[i].end.Some? && slice[i].end.value <= s {
      assert slice[i] in slice;
      assert Joins(d.value, c.nextFileId, s) && Records(d.value, i, s);
      assert c'.deletes[|c.deletes|] == d.value;
    }
  }

  /** Position `i` of the flushed file is read at `s` exactly when row `i` was. */
  lemma FlushedRow(c: Catalog, slice: seq<InlinedRow>, i: nat, s: int)
    requires Wf(c) && i < |slice|
    ensures var f := FlushedFile(slice, c.nextFileId);
            RowAt(f, i, DeadBy(AddFlushed(c, slice), f.id, s), s) == InlinedScan(slice[i], s)
  {
    FlushedBorn(slice, c.nextFileId, i, s);
    FlushedDead(c, slice, i, s);
  }

  lemma FlushedFileShows(c: Catalog, slice: seq<InlinedRow>, s: int)
    requires Wf(c) && slice != [] && SliceSettled(slice, c.head)
    ensures Shown(AddFlushed(c, slice), FlushedFile(slice, c.nextFileId), s) == Sum(slice, InlinedBy(s))
  {
    var c', f := AddFlushed(c, slice), FlushedFile(slice, c.nextFileId);
    if LiveAt(f.begin, f.end, s) {
      var rows := RowsBy(f, DeadBy(c', f.id, s), s);
      forall i | 0 <= i < |slice|
        ensures rows(i) == InlinedBy(s)(slice[i])
      {
        FlushedRow(c, slice, i, s);
      }
      SumSeq(slice, InlinedBy(s), rows);
    } else {
      SumEmpty(slice, InlinedBy(s));
    }
  }

  lemma OthersShow(c: Catalog, slice: seq<InlinedRow>, s: int)
    requires Wf(c) && slice != []
    ensures Sum(c.files, ShownBy(AddFlushed(c, slice), s)) == Sum(c.files, ShownBy(c, s))
  {
    var c' := AddFlushed(c, slice);
    forall g | g in c.files
      ensures Shown(c', g, s) == Shown(c, g, s)
    {
      assert forall d | d in c'.deletes && Joins(d, g.id, s) :: d in c.deletes;
      assert forall d | d in c.deletes :: d in c'.deletes;
      ShownExt(c', c, g, s);
    }
    SumExt(c.files, ShownBy(c', s), ShownBy(c, s));
  }

  /** A flushed file adds to every snapshot exactly the rows its slice was read as. */
  lemma AddFlushedScan(c: Catalog, slice: seq<InlinedRow>, s: int)
    requires Wf(c) && slice != [] && SliceSettled(slice, c.head)
    ensures Wf(AddFlushed(c, slice))
    ensures Scan(AddFlushed(c, slice), s) == Scan(c, s) + Sum(slice, InlinedBy(s))
  {
    var c', f := AddFlushed(c, slice), FlushedFile(slice, c.nextFileId);
    AddFlushedWf(c, slice);
    ScanIsShown(c, s);
    ScanIsShown(c', s);
    OthersShow(c, slice, s);
    SumLast(c'.files, ShownBy(c', s));
    assert c'.files[..|c'.files| - 1] == c.files;
    FlushedFileShows(c, slice, s);
  }

  // ----- The commit -----

  function AddAllFlushed(c: Catalog, slices: seq<seq<InlinedRow>>): Catalog
    requires forall slice | slice in slices :: slice != []
    decreases |slices|
  {
    if slices == [] then c
    else
      assert slices[0] in slices && forall slice | slice in slices[1..] :: slice in slices;
      AddAllFlushed(AddFlushed(c, slices[0]), slices[1..])
  }

  function UpTo(base: int): InlinedRow -> bool {
    (r: InlinedRow) => r.begin <= base
  }

  /** Registers the files and removes the rows written up to the base snapshot. */
  function FlushRowsCommit(c: Catalog, slices: seq<seq<InlinedRow>>, base: int): Catalog
    requires forall slice | slice in slices :: slice != []
  {
    AddAllFlushed(c, slices).(inlined := Filter(c.inlined, Not(UpTo(base))))
  }

  lemma {:induction false} AddAllScan(c: Catalog, slices: seq<seq<InlinedRow>>, s: int)
    requires Wf(c) && forall slice | slice in slices :: slice != [] && SliceSettled(slice, c.head)
    ensures Wf(AddAllFlushed(c, slices)) && AddAllFlushed(c, slices).inlined == c.inlined
    ensures AddAllFlushed(c, slices).head == c.head
    ensures Scan(AddAllFlushed(c, slices), s) == Scan(c, s) + Sum(Flatten(slices), InlinedBy(s))
    decreases |slices|
  {
    if slices != [] {
      assert slices[0] in slices;
      AddFlushedScan(c, slices[0], s);
      assert AddFlushed(c, slices[0]).head == c.head;
      assert forall slice | slice in slices[1..] :: slice in slices;
      AddAllScan(AddFlushed(c, slices[0]), slices[1..], s);
      SumConcat(slices[0], Flatten(slices[1..]), InlinedBy(s));
    }
  }

  /** Rows taken from the catalog lie before its head. */
  lemma SlicesSettled(c: Catalog, slices: seq<seq<InlinedRow>>, base: int)
    requires Wf(c) && multiset(Flatten(slices)) == multiset(Filter(c.inlined, UpTo(base)))
    ensures forall slice | slice in slices :: SliceSettled(slice, c.head)
  {
    FilterMembers(c.inlined, UpTo(base));
    forall slice, r | slice in slices && r in slice
      ensures r in c.inlined
    {
      FlattenIn(slices, slice, r);
      assert r in multiset(Flatten(slices));
    }
  }

  /** Flushing the inlined rows preserves time travel: each moves to one position of one
      file, and every snapshot reads the rows it read. */
  lemma FlushRowsPreservesTimeTravel(c: Catalog, slices: seq<seq<InlinedRow>>, base: int, s: int)
    requires Wf(c) && forall slice | slice in slices :: slice != []
    requires multiset(Flatten(slices)) == multiset(Filter(c.inlined, UpTo(base)))
    ensures Wf(FlushRowsCommit(c, slices, base))
    ensures Scan(FlushRowsCommit(c, slices, base), s) == Scan(c, s)
  {
    var moved, kept := Filter(c.inlined, UpTo(base)), Filter(c.inlined, Not(UpTo(base)));
    FilterMembers(c.inlined, UpTo(base));
    FilterMembers(c.inlined, Not(UpTo(base)));
    SlicesSettled(c, slices, base);
    AddAllScan(c, slices, s);
    var mid, c' := AddAllFlushed(c, slices), FlushRowsCommit(c, slices, base);
    DropInlined(mid, kept);
    SumSplit(c.inlined, UpTo(base), InlinedBy(s));
    SumPermute(Flatten(slices), moved, InlinedBy(s));
    InlinedApart(mid, kept, s);
    var all := Sum(c.inlined, InlinedBy(s));
    assert Scan(c', s) + all == Scan(c, s) + all;
    Cancel(Scan(c', s), Scan(c, s), all);
  }

  lemma DropInlined(c: Catalog, kept: seq<InlinedRow>)
    requires Wf(c) && forall r | r in kept :: r in c.inlined
    ensures Wf(c.(inlined := kept))
  {
    var c' := c.(inlined := kept);
    forall f, d | f in c'.files && d in c'.deletes && d.file == f.id && f.end.None?
      ensures HasLiveDelete(c', f.id)
    {
      assert HasLiveDelete(c, f.id);
    }
  }

  /** The file part of a scan does not see the inlined rows. */
  lemma InlinedApart(c: Catalog, kept: seq<InlinedRow>, s: int)
    requires Disjoint(c.deletes)
    ensures Scan(c.(inlined := kept), s) + Sum(c.inlined, InlinedBy(s)) == Scan(c, s) + Sum(kept, InlinedBy(s))
  {
    var c' := c.(inlined := kept);
    ScanIsShown(c, s);
    ScanIsShown(c', s);
    forall f | f in c.files
      ensures Shown(c', f, s) == Shown(c, f, s)
    {
      ShownExt(c', c, f, s);
    }
    SumExt(c.files, ShownBy(c', s), ShownBy(c, s));
  }
}
