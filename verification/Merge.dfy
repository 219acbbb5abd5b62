/** `merge_adjacent_files`: which files merge, what the merged file records, and
    that no snapshot, past or future, reads differently for it. */
module Merge {
  import opened Bags
  import opened Lake

  datatype Result<+T> = Ok(value: T) | Err

  /** A row with the snapshot it was inserted at. */
  datatype Stamped = Stamped(row: Row, origin: Option<int>)

  function StampAt(f: DataFile, i: nat): Stamped
    requires i < |f.rows|
  {
    Stamped(f.rows[i],
            if f.origins.None? then Some(f.begin)
            else if i < |f.origins.value| then f.origins.value[i] else None)
  }

  function Stamps(f: DataFile): seq<Stamped> {
    seq(|f.rows|, i requires 0 <= i < |f.rows| => StampAt(f, i))
  }

  function BinStamps(bin: seq<DataFile>): seq<Stamped> {
    if bin == [] then [] else BinStamps(bin[..|bin| - 1]) + Stamps(bin[|bin| - 1])
  }

  // ----- What a merge records -----

  /** `b` is the smallest `begin` of the bin. */
  ghost predicate IsMinBegin(bin: seq<DataFile>, b: int) {
    (exists f | f in bin :: f.begin == b) && forall f | f in bin :: b <= f.begin
  }

  /** `m` bounds every origin of the bin, catalogued or embedded, and is one of them. */
  ghost predicate IsMaxOrigin(bin: seq<DataFile>, m: int) {
    && (forall f | f in bin :: LastOrigin(f) <= m)
    && (forall st | st in BinStamps(bin) && st.origin.Some? :: st.origin.value <= m)
    && ((exists f | f in bin :: LastOrigin(f) == m) || exists st | st in BinStamps(bin) :: st.origin == Some(m))
  }

  ghost predicate OneOrigin(bin: seq<DataFile>) {
    forall f, g | f in bin && g in bin :: f.begin == LastOrigin(g)
  }

  predicate AnyEmbedded(bin: seq<DataFile>) {
    exists f | f in bin :: f.origins.Some?
  }

  /** A source the catalog calls partial carries the origins its rows need; the merge
      skips a bin with one that does not. */
  predicate Viable(f: DataFile) {
    f.partialMax.Some? ==> f.origins.Some?
  }

  /** What the merge writes for a bin: the bin's rows in some order, each with its
      origin, partial unless every row shares one origin and no source embeds any. */
  ghost predicate IsMergeOf(bin: seq<DataFile>, out: DataFile) {
    && multiset(Stamps(out)) == multiset(BinStamps(bin))
    && IsMinBegin(bin, out.begin)
    && out.end.None?
    && (out.origins.Some? <==> out.partialMax.Some?)
    && (out.origins.Some? ==> |out.origins.value| == |out.rows|)
    && (out.partialMax.None? <==> OneOrigin(bin) && !AnyEmbedded(bin))
    && (out.partialMax.Some? ==> IsMaxOrigin(bin, out.partialMax.value))
  }

  /** The origin range the catalog claims for the bin, and whether a source embeds
      origins. */
  method BinRange(bin: seq<DataFile>) returns (minOrigin: int, maxOrigin: int, embeds: bool)
    requires bin != []
    ensures IsMinBegin(bin, minOrigin)
    ensures (exists f | f in bin :: LastOrigin(f) == maxOrigin) && forall f | f in bin :: LastOrigin(f) <= maxOrigin
    ensures embeds <==> AnyEmbedded(bin)
  {
    minOrigin, maxOrigin, embeds := bin[0].begin, LastOrigin(bin[0]), false;
    for k := 0 to |bin|
      invariant exists f | f in bin :: f.begin == minOrigin
      invariant exists f | f in bin :: LastOrigin(f) == maxOrigin
      invariant forall j | 0 <= j < k :: minOrigin <= bin[j].begin && LastOrigin(bin[j]) <= maxOrigin
      invariant embeds <==> exists j | 0 <= j < k :: bin[j].origins.Some?
    {
      minOrigin := if bin[k].begin < minOrigin then bin[k].begin else minOrigin;
      maxOrigin := if maxOrigin < LastOrigin(bin[k]) then LastOrigin(bin[k]) else maxOrigin;
      embeds := embeds || bin[k].origins.Some?;
    }
  }

  /** The scan of one source: its rows, each with its origin, raising the observed
      maximum. A NULL origin fails it. */
  method CopySource(f: DataFile, seed: int) returns (r: Result<seq<Stamped>>, observed: int)
    ensures r.Err? <==> exists st | st in Stamps(f) :: st.origin.None?
    ensures r.Ok? ==> r.value == Stamps(f)
    ensures r.Ok? ==> seed <= observed && forall st | st in Stamps(f) :: st.origin.value <= observed
    ensures r.Ok? ==> observed == seed || exists st | st in Stamps(f) :: st.origin == Some(observed)
  {
    observed := seed;
    for i := 0 to |f.rows|
      invariant seed <= observed
      invariant forall j | 0 <= j < i :: StampAt(f, j).origin.Some? && StampAt(f, j).origin.value <= observed
      invariant observed == seed || exists j | 0 <= j < i :: StampAt(f, j).origin == Some(observed)
    {
      var origin := StampAt(f, i).origin;
      if origin.None? {
        assert Stamps(f)[i].origin.None?;
        r := Err;
        return;
      }
      observed := if observed < origin.value then origin.value else observed;
    }
    if observed != seed {
      var j :| 0 <= j < |f.rows| && StampAt(f, j).origin == Some(observed);
      assert Stamps(f)[j].origin == Some(observed);
    }
    r := Ok(Stamps(f));
  }

  method CopyBin(bin: seq<DataFile>, seed: int) returns (r: Result<seq<Stamped>>, observed: int)
    ensures r.Err? <==> exists st | st in BinStamps(bin) :: st.origin.None?
    ensures r.Ok? ==> r.value == BinStamps(bin)
    ensures r.Ok? ==> seed <= observed && forall st | st in BinStamps(bin) :: st.origin.value <= observed
    ensures r.Ok? ==> observed == seed || exists st | st in BinStamps(bin) :: st.origin == Some(observed)
  {
    var copied: seq<Stamped> := [];
    observed := seed;
    for k := 0 to |bin|
      invariant copied == BinStamps(bin[..k])
      invariant seed <= observed && forall st | st in copied :: st.origin.Some? && st.origin.value <= observed
      invariant observed == seed || exists st | st in copied :: st.origin == Some(observed)
    {
      assert bin[..k + 1][..k] == bin[..k];
      var source;
      source, observed := CopySource(bin[k], observed);
      if source.Err? {
        BinStampsPrefix(bin, k + 1);
        var st :| st in Stamps(bin[k]) && st.origin.None?;
        assert st in BinStamps(bin[..k + 1]);
        r := Err;
        return;
      }
      copied := copied + source.value;
    }
    assert bin[..|bin|] == bin;
    r := Ok(copied);
  }

  lemma {:induction false} BinStampsPrefix(bin: seq<DataFile>, k: nat)
    requires k <= |bin|
    ensures BinStamps(bin[..k]) <= BinStamps(bin)
    decreases |bin|
  {
    if k == |bin| {
      assert bin[..k] == bin;
    } else {
      var front := bin[..|bin| - 1];
      BinStampsPrefix(front, k);
      assert front[..k] == bin[..k];
    }
  }

  /** Plans and writes one bin. A NULL origin fails it; a bin of no rows writes no
      file. */
  method MergeBin(bin: seq<DataFile>, id: int) returns (r: Result<Option<DataFile>>)
    requires bin != [] && forall f | f in bin :: Viable(f)
    ensures r.Err? <==> exists st | st in BinStamps(bin) :: st.origin.None?
    ensures r == Ok(None) <==> BinStamps(bin) == []
    ensures r.Ok? && r.value.Some? ==> IsMergeOf(bin, r.value.value) && r.value.value.id == id
  {
    var minOrigin, maxOrigin, embeds := BinRange(bin);
    var partial := minOrigin != maxOrigin || embeds;
    var copied, observed := CopyBin(bin, maxOrigin);
    if copied.Err? {
      r := Err;
    } else if copied.value == [] {
      r := Ok(None);
    } else {
      var stamped := copied.value;
      var rows := seq(|stamped|, i requires 0 <= i < |stamped| => stamped[i].row);
      var origins := seq(|stamped|, i requires 0 <= i < |stamped| => stamped[i].origin);
      var out := DataFile(id, minOrigin, None, if partial then Some(observed) else None, rows,
                          if partial then Some(origins) else None);
      if !partial {
        OneOriginStamps(bin, minOrigin);
      }
      assert Stamps(out) == stamped;
      r := Ok(Some(out));
    }
  }

  /** In a bin of one origin and no embedded column every row has that origin. */
  lemma {:induction false} OneOriginStamps(bin: seq<DataFile>, b: int)
    requires !AnyEmbedded(bin) && forall f | f in bin :: f.begin == b
    ensures forall st | st in BinStamps(bin) :: st.origin == Some(b)
  {
    if bin != [] {
      var front := bin[..|bin| - 1];
      assert forall f :: f in front ==> f in bin;
      OneOriginStamps(front, b);
    }
  }

  // ----- The commit -----

  /** What `commit_compaction` demands of the sources it removes: each still live,
      with no live delete file and no inlined deletion. */
  ghost predicate MergeReady(c: Catalog, bin: seq<DataFile>) {
    && bin != []
    && Distinct(bin)
    && forall f | f in bin ::
         && f in c.files
         && f.end.None?
         && Viable(f)
         && !HasLiveDelete(c, f.id)
         && forall d | d in c.inlinedDeletes :: d.file != f.id
  }

  /** `commit_compaction` with `SourceRetirement::Remove`: the sources' rows and
      every delete file of theirs leave the catalog, the output enters it. */
  function MergeCommit(c: Catalog, bin: seq<DataFile>, out: Option<DataFile>): Catalog {
    var ids := Ids(bin);
    c.(nextFileId := c.nextFileId + 1,
       files := FilesOutside(c.files, ids) + AsSeq(out),
       deletes := DeletesOutside(c.deletes, ids))
  }

  // ----- Time travel -----

  ghost function Vis(st: Stamped, s: int): multiset<Row> {
    if st.origin.Some? && st.origin.value <= s then multiset{st.row} else multiset{}
  }

  ghost function VisBy(s: int): Stamped -> multiset<Row> {
    (st: Stamped) => Vis(st, s)
  }

  /** The rows of a file of origin at or before `s`. */
  ghost function YoungRows(f: DataFile, s: int): multiset<Row> {
    Sum(Stamps(f), VisBy(s))
  }

  ghost function StampsBy(g: Stamped -> multiset<Row>): DataFile -> multiset<Row> {
    (f: DataFile) => Sum(Stamps(f), g)
  }

  ghost function Nothing(): int -> bool {
    p => false
  }

  /** A truthful file with nothing deleted shows at `s` exactly its rows of origin at
      or before `s`, whatever its `begin` and `partialMax`. */
  lemma TruthfulRows(f: DataFile, s: int)
    requires Truthful(f) && f.end.None?
    ensures (if LiveAt(f.begin, f.end, s) then FileRows(f, Nothing(), s) else multiset{}) == YoungRows(f, s)
  {
    assert forall i | 0 <= i < |f.rows| :: OriginWithin(f, StampAt(f, i).origin) by {
      assert f.origins.Some? ==> forall i | 0 <= i < |f.rows| :: f.origins.value[i] in f.origins.value;
    }
    if LiveAt(f.begin, f.end, s) {
      SumSeq(Stamps(f), VisBy(s), RowsBy(f, Nothing(), s));
    } else {
      SumEmpty(Stamps(f), VisBy(s));
    }
  }

  /** A live file without deletions in either encoding shows its own rows. */
  lemma Undeleted(c: Catalog, f: DataFile, s: int)
    requires Wf(c) && f in c.files && f.end.None? && !HasLiveDelete(c, f.id)
    requires forall d | d in c.inlinedDeletes :: d.file != f.id
    ensures Shown(c, f, s) == YoungRows(f, s)
  {
    assert forall d | d in c.deletes && d.file == f.id :: HasLiveDelete(c, f.id);
    FileRowsExt(f, DeadBy(c, f.id, s), Nothing(), s);
    TruthfulRows(f, s);
  }

  lemma {:induction false} BinSum(bin: seq<DataFile>, g: Stamped -> multiset<Row>)
    ensures Sum(bin, StampsBy(g)) == Sum(BinStamps(bin), g)
  {
    if bin != [] {
      var front, last := bin[..|bin| - 1], bin[|bin| - 1];
      BinSum(front, g);
      SumLast(bin, StampsBy(g));
      SumConcat(BinStamps(front), Stamps(last), g);
    }
  }

  lemma {:induction false} BinStampsIn(bin: seq<DataFile>, st: Stamped)
    ensures st in BinStamps(bin) <==> exists f | f in bin :: st in Stamps(f)
  {
    if bin != [] {
      var front, last := bin[..|bin| - 1], bin[|bin| - 1];
      BinStampsIn(front, st);
      assert forall f :: f in bin <==> f in front || f == last by {
        assert bin == front + [last];
      }
    }
  }

  /** The output of a merge of truthful files is truthful, no later than they are. */
  lemma MergeTruthful(bin: seq<DataFile>, out: DataFile, head: int)
    requires IsMergeOf(bin, out) && forall f | f in bin :: Truthful(f) && LastOrigin(f) <= head
    ensures Truthful(out) && LastOrigin(out) <= head && out.begin <= head
  {
    var first :| first in bin && first.begin == out.begin;
    assert LastOrigin(first) >= first.begin;
    forall st | st in BinStamps(bin)
      ensures st.origin.Some? && out.begin <= st.origin.value <= head
    {
      BinStampsIn(bin, st);
      var f :| f in bin && st in Stamps(f);
      var i :| 0 <= i < |f.rows| && Stamps(f)[i] == st;
      assert f.origins.Some? ==> f.origins.value[i] in f.origins.value;
    }
    if out.origins.Some? {
      forall o | o in out.origins.value
        ensures OriginWithin(out, o)
      {
        var i :| 0 <= i < |out.rows| && out.origins.value[i] == o;
        assert Stamps(out)[i] in multiset(Stamps(out));
        assert Stamps(out)[i] in BinStamps(bin);
      }
    }
  }

  /** Outside the bin nothing changes: same files, same deletions. */
  lemma MergeFrame(c: Catalog, bin: seq<DataFile>, out: Option<DataFile>, f: DataFile, s: int)
    requires Wf(c) && f.id !in Ids(bin)
    ensures Shown(MergeCommit(c, bin, out), f, s) == Shown(c, f, s)
  {
    var c' := MergeCommit(c, bin, out);
    DeletesOutsideWf(c.deletes, Ids(bin));
    assert forall d | Joins(d, f.id, s) :: d in c'.deletes <==> d in c.deletes;
    ShownExt(c', c, f, s);
  }

  /** The commit's output, a merge of the bin, or none for a bin of no rows. */
  ghost predicate MergeOutput(c: Catalog, bin: seq<DataFile>, out: Option<DataFile>) {
    if out.Some? then IsMergeOf(bin, out.value) && out.value.id == c.nextFileId else BinStamps(bin) == []
  }

  function AsSeq<T>(o: Option<T>): seq<T> {
    if o.Some? then [o.value] else []
  }

  lemma SourcesShow(c: Catalog, bin: seq<DataFile>, s: int)
    requires Wf(c) && MergeReady(c, bin)
    ensures Sum(bin, ShownBy(c, s)) == Sum(BinStamps(bin), VisBy(s))
  {
    forall f | f in bin
      ensures Shown(c, f, s) == YoungRows(f, s)
    {
      Undeleted(c, f, s);
    }
    SumExt(bin, ShownBy(c, s), StampsBy(VisBy(s)));
    BinSum(bin, VisBy(s));
  }

  lemma OutputUndeleted(c: Catalog, bin: seq<DataFile>, out: DataFile, s: int)
    requires Wf(c) && out.id == c.nextFileId
    ensures forall p :: !Dead(MergeCommit(c, bin, Some(out)), out.id, p, s)
  {
    DeletesOutsideWf(c.deletes, Ids(bin));
  }

  lemma OutputShows(c: Catalog, bin: seq<DataFile>, out: Option<DataFile>, s: int)
    requires Wf(c) && MergeReady(c, bin) && MergeOutput(c, bin, out)
    ensures Sum(AsSeq(out), ShownBy(MergeCommit(c, bin, out), s)) == Sum(BinStamps(bin), VisBy(s))
  {
    if out.Some? {
      var c' := MergeCommit(c, bin, out);
      var o := out.value;
      assert Truthful(o) by {
        MergeTruthful(bin, o, c.head);
      }
      assert Sum(BinStamps(bin), VisBy(s)) == YoungRows(o, s) by {
        SumPermute(Stamps(o), BinStamps(bin), VisBy(s));
      }
      assert Shown(c', o, s) == YoungRows(o, s) by {
        OutputUndeleted(c, bin, o, s);
        FileRowsExt(o, DeadBy(c', o.id, s), Nothing(), s);
        TruthfulRows(o, s);
      }
      SumLast([o], ShownBy(c', s));
    }
  }

  lemma MergeKeepsDeletes(c: Catalog, bin: seq<DataFile>, out: Option<DataFile>)
    requires Wf(c) && MergeReady(c, bin) && MergeOutput(c, bin, out)
    ensures DeletesStay(MergeCommit(c, bin, out))
  {
    var c' := MergeCommit(c, bin, out);
    FilesOutsideWf(c.files, Ids(bin));
    DeletesOutsideWf(c.deletes, Ids(bin));
    forall f, d | f in c'.files && d in c'.deletes && d.file == f.id && f.end.None?
      ensures HasLiveDelete(c', f.id)
    {
      assert f in c.files && HasLiveDelete(c, f.id);
      var live :| live in c.deletes && live.file == f.id && live.end.None?;
      assert live in c'.deletes;
    }
  }

  lemma MergeKeepsWf(c: Catalog, bin: seq<DataFile>, out: Option<DataFile>)
    requires Wf(c) && MergeReady(c, bin) && MergeOutput(c, bin, out)
    ensures Wf(MergeCommit(c, bin, out))
  {
    var c' := MergeCommit(c, bin, out);
    MergeKeepsDeletes(c, bin, out);
    MergeKeepsFiles(c, bin, out);
    DeletesOutsideWf(c.deletes, Ids(bin));
  }

  lemma MergeKeepsFiles(c: Catalog, bin: seq<DataFile>, out: Option<DataFile>)
    requires Wf(c) && MergeReady(c, bin) && MergeOutput(c, bin, out)
    ensures DistinctFiles(MergeCommit(c, bin, out).files)
    ensures forall f | f in MergeCommit(c, bin, out).files :: WfFile(f, c.head) && f.id < c.nextFileId + 1
  {
    FilesOutsideWf(c.files, Ids(bin));
    if out.Some? {
      MergeTruthful(bin, out.value, c.head);
    }
  }

  /** Merging a bin preserves time travel: every snapshot, past or future, reads the
      same rows after its sources are gone and the output stands for them. */
  lemma MergePreservesTimeTravel(c: Catalog, bin: seq<DataFile>, out: Option<DataFile>, s: int)
    requires Wf(c) && MergeReady(c, bin) && MergeOutput(c, bin, out)
    ensures Wf(MergeCommit(c, bin, out))
    ensures Scan(MergeCommit(c, bin, out), s) == Scan(c, s)
  {
    var c' := MergeCommit(c, bin, out);
    MergeKeepsWf(c, bin, out);
    ScanIsShown(c, s);
    ScanIsShown(c', s);
    var kept := FilesOutside(c.files, Ids(bin));
    FilesOutsideWf(c.files, Ids(bin));
    forall f | f in kept
      ensures Shown(c', f, s) == Shown(c, f, s)
    {
      MergeFrame(c, bin, out, f, s);
    }
    SumExt(kept, ShownBy(c', s), ShownBy(c, s));
    SumOutside(c.files, bin, ShownBy(c, s));
    SourcesShow(c, bin, s);
    OutputShows(c, bin, out, s);
    SumConcat(kept, AsSeq(out), ShownBy(c', s));
  }

  // ----- Exactly which catalogs a merge preserves -----

  /** What a live file without deletions shows, whatever its catalog row claims. */
  ghost function Alone(f: DataFile, s: int): multiset<Row> {
    if LiveAt(f.begin, f.end, s) then FileRows(f, Nothing(), s) else multiset{}
  }

  ghost function AloneBy(s: int): DataFile -> multiset<Row> {
    (f: DataFile) => Alone(f, s)
  }

  predicate Complete(f: DataFile) {
    && f.end.None?
    && Viable(f)
    && (f.origins.Some? ==> |f.origins.value| == |f.rows|)
    && forall i: nat | i < |f.rows| :: StampAt(f, i).origin.Some?
  }

  function Max(a: int, b: int): int {
    if a < b then b else a
  }

  /** The snapshot row `i` is first read at from its source. */
  function ReadFrom(f: DataFile, i: nat): int
    requires Complete(f) && i < |f.rows|
  {
    var o := StampAt(f, i).origin.value;
    if f.partialMax.Some? && o < f.partialMax.value then Max(f.begin, o) else Max(f.begin, LastOrigin(f))
  }

  /** What the footer of a source must say of row `i` for the merge to keep its
      history: no later than the snapshot the file is read whole from, and no
      earlier than the file unless the file begins the bin. */
  predicate InRange(f: DataFile, i: nat, minBegin: int)
    requires Complete(f) && i < |f.rows|
  {
    var o := StampAt(f, i).origin.value;
    o <= Max(f.begin, LastOrigin(f)) && (f.begin <= o || f.begin == minBegin)
  }

  lemma RangeIsExact(f: DataFile, i: nat, b: int)
    requires Complete(f) && i < |f.rows| && b <= f.begin
    ensures InRange(f, i, b) <==> ReadFrom(f, i) == Max(b, StampAt(f, i).origin.value)
  {
  }

  predicate RowsDistinct(bin: seq<DataFile>) {
    forall f, g, i, j | f in bin && g in bin && 0 <= i < |f.rows| && 0 <= j < |g.rows| && f.rows[i] == g.rows[j] ::
      f == g && i == j
  }

  ghost function FromBy(b: int, s: int): Stamped -> multiset<Row> {
    (st: Stamped) => if b <= s then Vis(st, s) else multiset{}
  }

  /** A row is read from its source exactly from `ReadFrom` on. */
  lemma RowReadFrom(f: DataFile, i: nat, s: int)
    requires Complete(f) && i < |f.rows|
    ensures LiveAt(f.begin, f.end, s) && RowAt(f, i, Nothing(), s) == multiset{f.rows[i]} <==> ReadFrom(f, i) <= s
    ensures RowAt(f, i, Nothing(), s) <= multiset{f.rows[i]}
  {
    assert f.rows[i] in multiset{f.rows[i]};
  }

  lemma AloneIn(f: DataFile, r: Row, s: int)
    requires Complete(f)
    ensures r in Alone(f, s) <==> exists i: nat | i < |f.rows| :: f.rows[i] == r && ReadFrom(f, i) <= s
  {
    SumToIn(|f.rows|, RowsBy(f, Nothing(), s), r);
    if r in Alone(f, s) {
      var i :| 0 <= i < |f.rows| && r in RowsBy(f, Nothing(), s)(i);
      RowReadFrom(f, i, s);
      assert f.rows[i] == r && ReadFrom(f, i) <= s;
    }
    if exists i: nat | i < |f.rows| :: f.rows[i] == r && ReadFrom(f, i) <= s {
      var i: nat :| i < |f.rows| && f.rows[i] == r && ReadFrom(f, i) <= s;
      RowReadFrom(f, i, s);
      assert r in RowsBy(f, Nothing(), s)(i);
    }
  }

  lemma MergedRow(bin: seq<DataFile>, out: DataFile, i: nat, s: int)
    requires IsMergeOf(bin, out) && i < |out.rows| && out.begin <= s
    requires forall st | st in BinStamps(bin) :: st.origin.Some?
    ensures RowAt(out, i, Nothing(), s) == Vis(StampAt(out, i), s)
  {
    assert StampAt(out, i) in multiset(Stamps(out)) by {
      assert Stamps(out)[i] == StampAt(out, i);
    }
    assert StampAt(out, i) in BinStamps(bin);
  }

  /** The merged file shows each row from its origin on, but not before the file. */
  lemma MergedRows(bin: seq<DataFile>, out: DataFile, s: int)
    requires IsMergeOf(bin, out) && forall st | st in BinStamps(bin) :: st.origin.Some?
    ensures Alone(out, s) == Sum(BinStamps(bin), FromBy(out.begin, s))
  {
    SumPermute(Stamps(out), BinStamps(bin), FromBy(out.begin, s));
    if out.begin <= s {
      forall i: nat | i < |out.rows|
        ensures RowsBy(out, Nothing(), s)(i) == FromBy(out.begin, s)(Stamps(out)[i])
      {
        MergedRow(bin, out, i, s);
      }
      SumSeq(Stamps(out), FromBy(out.begin, s), RowsBy(out, Nothing(), s));
    } else {
      SumEmpty(Stamps(out), FromBy(out.begin, s));
    }
  }

  lemma SourceRows(f: DataFile, b: int, s: int)
    requires Complete(f) && b <= f.begin && forall i: nat | i < |f.rows| :: InRange(f, i, b)
    ensures Alone(f, s) == Sum(Stamps(f), FromBy(b, s))
  {
    forall i: nat | i < |f.rows|
      ensures RowsBy(f, Nothing(), s)(i) == FromBy(b, s)(Stamps(f)[i]) || s < f.begin
      ensures s < f.begin ==> FromBy(b, s)(Stamps(f)[i]) == multiset{}
    {
      SourceRow(f, i, b, s);
    }
    if f.begin <= s {
      SumSeq(Stamps(f), FromBy(b, s), RowsBy(f, Nothing(), s));
    } else {
      SumEmpty(Stamps(f), FromBy(b, s));
    }
  }

  lemma SourceRow(f: DataFile, i: nat, b: int, s: int)
    requires Complete(f) && b <= f.begin && i < |f.rows| && InRange(f, i, b)
    ensures RowsBy(f, Nothing(), s)(i) == FromBy(b, s)(Stamps(f)[i]) || s < f.begin
    ensures s < f.begin ==> FromBy(b, s)(Stamps(f)[i]) == multiset{}
  {
    RangeIsExact(f, i, b);
  }

  /** A merge preserves what every snapshot reads exactly when each source's embedded
      origins lie in the range its catalog row implies. A catalog that understates
      `partial_max` breaks it: the merge corrects the rows its sources served too early. */
  lemma MergePreservesExactly(bin: seq<DataFile>, out: DataFile)
    requires bin != [] && IsMergeOf(bin, out) && RowsDistinct(bin) && forall f | f in bin :: Complete(f)
    ensures (forall s :: Sum(bin, AloneBy(s)) == Alone(out, s))
       <==> (forall f, i: nat | f in bin && i < |f.rows| :: InRange(f, i, out.begin))
  {
    BinStampsComplete(bin);
    if forall f, i: nat | f in bin && i < |f.rows| :: InRange(f, i, out.begin) {
      forall s
        ensures Sum(bin, AloneBy(s)) == Alone(out, s)
      {
        forall f | f in bin
          ensures Alone(f, s) == Sum(Stamps(f), FromBy(out.begin, s))
        {
          SourceRows(f, out.begin, s);
        }
        SumExt(bin, AloneBy(s), StampsBy(FromBy(out.begin, s)));
        BinSum(bin, FromBy(out.begin, s));
        MergedRows(bin, out, s);
      }
    } else {
      var f, i: nat :| f in bin && i < |f.rows| && !InRange(f, i, out.begin);
      OutOfRangeDiffers(bin, out, f, i);
    }
  }

  lemma BinStampsComplete(bin: seq<DataFile>)
    requires forall f | f in bin :: Complete(f)
    ensures forall st | st in BinStamps(bin) :: st.origin.Some?
  {
    forall st | st in BinStamps(bin)
      ensures st.origin.Some?
    {
      BinStampsIn(bin, st);
      var f :| f in bin && st in Stamps(f);
    }
  }

  lemma BinAloneIn(bin: seq<DataFile>, f: DataFile, i: nat, s: int)
    requires RowsDistinct(bin) && (forall g | g in bin :: Complete(g)) && f in bin && i < |f.rows|
    ensures f.rows[i] in Sum(bin, AloneBy(s)) <==> ReadFrom(f, i) <= s
  {
    SumIn(bin, AloneBy(s), f.rows[i]);
    forall g | g in bin
      ensures f.rows[i] in AloneBy(s)(g) <==> g == f && ReadFrom(f, i) <= s
    {
      AloneIn(g, f.rows[i], s);
    }
  }

  lemma MergedIn(bin: seq<DataFile>, f: DataFile, i: nat, b: int, s: int)
    requires RowsDistinct(bin) && (forall g | g in bin :: Complete(g)) && f in bin && i < |f.rows| && Complete(f)
    ensures f.rows[i] in Sum(BinStamps(bin), FromBy(b, s)) <==> Max(b, StampAt(f, i).origin.value) <= s
  {
    var st := StampAt(f, i);
    SumIn(BinStamps(bin), FromBy(b, s), f.rows[i]);
    assert st in BinStamps(bin) by {
      assert Stamps(f)[i] == st;
      BinStampsIn(bin, st);
    }
    forall other | other in BinStamps(bin) && other.row == st.row
      ensures other == st
    {
      BinStampsIn(bin, other);
      var g :| g in bin && other in Stamps(g);
      var j :| 0 <= j < |g.rows| && Stamps(g)[j] == other;
    }
    assert f.rows[i] in FromBy(b, s)(st) <==> Max(b, st.origin.value) <= s;
  }

  /** An origin out of range shows at some snapshot on one side only. */
  lemma OutOfRangeDiffers(bin: seq<DataFile>, out: DataFile, f: DataFile, i: nat)
    requires IsMergeOf(bin, out) && RowsDistinct(bin) && forall g | g in bin :: Complete(g)
    requires f in bin && i < |f.rows| && !InRange(f, i, out.begin)
    ensures exists s :: Sum(bin, AloneBy(s)) != Alone(out, s)
  {
    var before, after := ReadFrom(f, i), Max(out.begin, StampAt(f, i).origin.value);
    RangeIsExact(f, i, out.begin);
    var s := if before < after then before else after;
    BinStampsComplete(bin);
    MergedRows(bin, out, s);
    BinAloneIn(bin, f, i, s);
    MergedIn(bin, f, i, out.begin, s);
  }

  // A source whose catalog row forgot its `partial_max`, one beside it, and their merge.
  const UNDERSTATED := DataFile(1, 1, None, None, [Row(0, "a")], Some([Some(3)]))
  const BESIDE := DataFile(2, 1, None, None, [Row(1, "b")], None)
  const TOGETHER := DataFile(3, 1, None, Some(3), [Row(0, "a"), Row(1, "b")], Some([Some(3), Some(1)]))
  const FORGETFUL := Catalog(3, 3, [UNDERSTATED, BESIDE], [], [], {})

  lemma TogetherMerges()
    ensures MergeReady(FORGETFUL, [UNDERSTATED, BESIDE])
            && MergeOutput(FORGETFUL, [UNDERSTATED, BESIDE], Some(TOGETHER))
  {
    var bin := [UNDERSTATED, BESIDE];
    assert bin[..1] == [UNDERSTATED] && [UNDERSTATED][..0] == [];
    assert BinStamps([UNDERSTATED]) == Stamps(UNDERSTATED);
    assert Stamps(TOGETHER) == Stamps(UNDERSTATED) + Stamps(BESIDE) == BinStamps(bin);
    assert bin[0] in bin && bin[1] in bin && Stamps(UNDERSTATED)[0] in BinStamps(bin);
  }

  lemma TogetherCommits()
    ensures MergeCommit(FORGETFUL, [UNDERSTATED, BESIDE], Some(TOGETHER)) == Catalog(3, 4, [TOGETHER], [], [], {})
  {
    var bin := [UNDERSTATED, BESIDE];
    assert bin[0] in bin && bin[1] in bin;
    FilterNone(bin, OutsideFiles(Ids(bin)));
  }

  lemma OneFileScan(c: Catalog, r: Row, s: int)
    requires c.deletes == [] && c.inlined == [] && c.inlinedDeletes == {}
    ensures r in Scan(c, s) <==> exists f | f in c.files :: r in Shown(c, f, s)
  {
    ScanIsShown(c, s);
    SumIn(c.files, ShownBy(c, s), r);
    assert forall f :: ShownBy(c, s)(f) == Shown(c, f, s);
  }

  lemma UndeletedAlone(c: Catalog, f: DataFile, s: int)
    requires c.deletes == [] && c.inlinedDeletes == {}
    ensures Shown(c, f, s) == Alone(f, s)
  {
    FileRowsExt(f, DeadBy(c, f.id, s), Nothing(), s);
  }

  lemma ReadsTooEarly()
    ensures Row(0, "a") in Scan(FORGETFUL, 1)
  {
    OneFileScan(FORGETFUL, Row(0, "a"), 1);
    UndeletedAlone(FORGETFUL, UNDERSTATED, 1);
    AloneIn(UNDERSTATED, Row(0, "a"), 1);
    assert UNDERSTATED in FORGETFUL.files && UNDERSTATED.rows[0] == Row(0, "a") && ReadFrom(UNDERSTATED, 0) == 1;
  }

  lemma ReadsNoLonger(after: Catalog)
    requires after == Catalog(3, 4, [TOGETHER], [], [], {})
    ensures Row(0, "a") !in Scan(after, 1)
  {
    OneFileScan(after, Row(0, "a"), 1);
    UndeletedAlone(after, TOGETHER, 1);
    AloneIn(TOGETHER, Row(0, "a"), 1);
  }

  /** Before the merge of two files snapshot 1 reads a row of snapshot 3, after it not. */
  lemma UnderstatedPartialMax()
    ensures var bin := [UNDERSTATED, BESIDE];
            && MergeReady(FORGETFUL, bin) && MergeOutput(FORGETFUL, bin, Some(TOGETHER))
            && Row(0, "a") in Scan(FORGETFUL, 1) && Row(0, "a") !in Scan(MergeCommit(FORGETFUL, bin, Some(TOGETHER)), 1)
  {
    TogetherMerges();
    TogetherCommits();
    ReadsTooEarly();
    ReadsNoLonger(Catalog(3, 4, [TOGETHER], [], [], {}));
  }
}
