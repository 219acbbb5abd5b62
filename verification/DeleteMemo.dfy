/** `DeletePositionMemo`: the positions each data file's delete file removes, kept for
    later scans within a byte budget. A delete file is never rewritten in place, so a
    path always names the same entries. */
module DeleteMemo {
  import opened Lake
  import opened Totals
  import opened Words

  const ENTRY_BYTES: nat := 56
  const SET_BYTES: nat := 48

  // ----- The size of a set -----

  predicate IsPowerOfTwo(b: nat) {
    b == 1 || (b > 1 && b % 2 == 0 && IsPowerOfTwo(b / 2))
  }

  /** The least power of two at or above `n`, searched up from `b`. */
  function NextPowerFrom(n: nat, b: nat): (r: nat)
    requires b >= 1 && IsPowerOfTwo(b)
    ensures IsPowerOfTwo(r) && n <= r && b <= r && (r == b || r < 2 * n)
    decreases if n > b then n - b else 0
  {
    if n <= b then b else NextPowerFrom(n, 2 * b)
  }

  /** `checked_next_power_of_two`. */
  function NextPower(n: nat): Option<nat> {
    var b := NextPowerFrom(n, 1);
    if b <= USIZE_MAX then Some(b) else None
  }

  function Buckets(n: nat): nat {
    if n < 4 then 4
    else if n < 8 then 8
    else
      var b := NextPower(SaturatingMul(n, 8) / 7);
      if b.Some? then b.value else USIZE_MAX
  }

  function Capacity(buckets: nat): nat {
    if buckets < 8 then if buckets == 0 then 0 else buckets - 1 else buckets / 8 * 7
  }

  /** `set_bytes_for`. */
  function SetBytesFor(n: nat): nat {
    SaturatingMul(SaturatingMul(Capacity(Buckets(n)), 9), 8) / 7 + SET_BYTES
  }

  /** `positions_bytes` of a set of this capacity. */
  function PositionsBytes(capacity: nat): nat {
    capacity * 9 * 8 / 7 + SET_BYTES
  }

  const TOP := 0x4000_0000_0000_0000

  lemma {:induction false} PowersFrom(n: nat, b: nat, top: nat)
    requires b >= 1 && IsPowerOfTwo(b) && IsPowerOfTwo(top) && n <= top && b <= top
    ensures NextPowerFrom(n, b) <= top
    decreases top - b
  {
    if n > b {
      NextPowerDoubles(b, top);
      PowersFrom(n, 2 * b, top);
    }
  }

  /** Between two powers of two there is a double. */
  lemma {:induction false} NextPowerDoubles(b: nat, top: nat)
    requires IsPowerOfTwo(b) && IsPowerOfTwo(top) && b < top
    ensures 2 * b <= top
    decreases b
  {
    if b > 1 {
      NextPowerDoubles(b / 2, top / 2);
    }
  }

  lemma Times2(b: nat)
    requires IsPowerOfTwo(b)
    ensures IsPowerOfTwo(2 * b)
  {
    assert 2 * b / 2 == b && 2 * b % 2 == 0;
  }

  lemma Times16(b: nat)
    requires IsPowerOfTwo(b)
    ensures IsPowerOfTwo(16 * b)
  {
    Times2(b);
    Times2(2 * b);
    Times2(4 * b);
    Times2(8 * b);
  }

  lemma {:induction false} PowerAt(k: nat, b: nat) returns (p: nat)
    requires IsPowerOfTwo(b)
    ensures IsPowerOfTwo(p) && p == Sixteens(k, b)
  {
    if k == 0 {
      p := b;
    } else {
      p := PowerAt(k - 1, b);
      Times16(p);
      p := 16 * p;
    }
  }

  function Sixteens(k: nat, b: nat): nat {
    if k == 0 then b else 16 * Sixteens(k - 1, b)
  }

  lemma TopIsPower()
    ensures IsPowerOfTwo(TOP) && IsPowerOfTwo(TOP / 2)
  {
    var p := PowerAt(15, 4);
    var q := PowerAt(15, 2);
    assert Sixteens(5, 4) == 0x40_0000 && Sixteens(5, 2) == 0x20_0000;
    assert Sixteens(10, 4) == 0x400_0000_0000 && Sixteens(10, 2) == 0x200_0000_0000;
  }

  lemma EighthsOf(b: nat)
    requires IsPowerOfTwo(b) && b >= 9
    ensures b % 8 == 0
  {
    assert IsPowerOfTwo(b / 2) && IsPowerOfTwo(b / 2 / 2) && IsPowerOfTwo(b / 2 / 2 / 2);
  }

  /** The bucket count is a power of two, and below the saturation of the 64-bit product
      the table's capacity holds every position at the 7/8 load factor. */
  lemma BucketsHold(n: nat)
    requires 8 <= n <= USIZE_MAX
    ensures IsPowerOfTwo(Buckets(n)) && Buckets(n) <= TOP && Buckets(n) % 8 == 0
    ensures 8 * n <= USIZE_MAX ==> n <= Capacity(Buckets(n))
    ensures 8 * n > USIZE_MAX ==> Buckets(n) == TOP
  {
    var x := SaturatingMul(n, 8) / 7;
    TopIsPower();
    PowersFrom(x, 1, TOP);
    var b := NextPowerFrom(x, 1);
    EighthsOf(b);
    if 8 * n > USIZE_MAX && b < TOP {
      NextPowerDoubles(b, TOP);
    }
  }

  /** The table sized for `n` positions holds `n` positions up to 7 · 2^59, and no more:
      past that the 64-bit product has saturated. */
  lemma TableHoldsExactly(n: nat)
    requires n <= USIZE_MAX
    ensures IsPowerOfTwo(Buckets(n))
    ensures n <= Capacity(Buckets(n)) <==> n <= 7 * 0x800_0000_0000_0000
  {
    if n >= 8 {
      BucketsHold(n);
    } else {
      assert IsPowerOfTwo(4) && IsPowerOfTwo(8);
    }
  }

  /** The table is the smallest the hash set can have that holds the positions: a power of
      two, at least 4, filled to 7/8 at most. */
  lemma SmallestTable(n: nat, b: nat)
    requires n <= 7 * 0x800_0000_0000_0000 && b >= 4 && IsPowerOfTwo(b)
    ensures n <= Capacity(Buckets(n))
    ensures n <= Capacity(b) ==> Buckets(n) <= b
  {
    TableHoldsExactly(n);
    if n <= Capacity(b) && n >= 4 {
      AtLeastEight(b);
      if n >= 8 {
        EighthsOf(b);
        PowersFrom(SaturatingMul(n, 8) / 7, 1, b);
      }
    }
  }

  lemma AtLeastEight(b: nat)
    requires b > 4 && IsPowerOfTwo(b)
    ensures b >= 8
  {
    assert IsPowerOfTwo(b / 2) && b / 2 >= 2;
    if b / 2 > 1 {
      assert IsPowerOfTwo(b / 2 / 2);
    }
  }

  // ----- The memo -----

  datatype Entry = Entry(path: string, readSnapshot: Option<int>, positions: set<int>, bytes: nat)

  function EntryBytes(): Entry -> nat {
    (e: Entry) => e.bytes
  }

  class DeletePositionMemo {
    const max: nat
    var bytes: nat
    var files: map<int, Entry>

    /** The byte total is the sum of the entries', in 64 bits. */
    ghost predicate Valid()
      reads this
    {
      bytes == Wrap64(Total(files, EntryBytes())) && max <= USIZE_MAX
    }

    /** What the entries take is within the budget. */
    ghost predicate Within()
      reads this
    {
      Total(files, EntryBytes()) <= max
    }

    constructor (maxBytes: nat)
      requires maxBytes <= USIZE_MAX
      ensures Valid() && Within() && max == maxBytes && files == map[]
    {
      max, bytes, files := maxBytes, 0, map[];
      new;
      assert Total(files, EntryBytes()) == 0;
    }

    method Get(file: int, path: string, readSnapshot: Option<int>) returns (r: Option<set<int>>)
      ensures r.Some? <==> file in files && files[file].path == path && files[file].readSnapshot == readSnapshot
      ensures r.Some? ==> r.value == files[file].positions
    {
      if file in files && files[file].path == path && files[file].readSnapshot == readSnapshot {
        return Some(files[file].positions);
      }
      return None;
    }

    function Replaced(file: int): nat
      reads this
    {
      if file in files then files[file].bytes else 0
    }

    /** Whether `n` positions would fit, kept in a set sized for them. Within the budget
        the subtraction does not underflow. */
    method Fits(file: int, path: string, n: nat) returns (r: bool)
      requires Valid()
      ensures Within() ==> Replaced(file) <= bytes
      ensures r <==> SaturatingAdd(Wrap64(bytes - Replaced(file)), ENTRY_BYTES + |path| + SetBytesFor(n)) <= max
    {
      ghost var e := Entry("", None, {}, 0);
      TotalPut(files, EntryBytes(), file, e);
      r := SaturatingAdd(Wrap64(bytes - Replaced(file)), ENTRY_BYTES + |path| + SetBytesFor(n)) <= max;
    }

    /** Puts an entry of any size in place of the file's. */
    method Put(file: int, entry: Entry) returns (kept: bool)
      requires Valid()
      modifies this
      ensures Valid()
      ensures kept <==> SaturatingAdd(Wrap64(old(bytes) - old(Replaced(file))), entry.bytes) <= max
      ensures files == if kept then old(files)[file := entry] else old(files)
      ensures old(Within()) ==>
                && old(Replaced(file)) <= old(bytes)
                && var total := old(bytes) - old(Replaced(file)) + entry.bytes;
                   (Within() <==> (!kept || max < USIZE_MAX || total <= USIZE_MAX))
    {
      ghost var total := Total(files, EntryBytes());
      TotalPut(files, EntryBytes(), file, entry);
      var replaced := Replaced(file);
      var held := Wrap64(bytes - replaced);
      Replaces(total, replaced, entry.bytes, max);
      if SaturatingAdd(held, entry.bytes) > max {
        return false;
      }
      bytes := Wrap64(held + entry.bytes);
      files := files[file := entry];
      return true;
    }

    /** Keeps the positions in place of the file's others, or keeps what it had. From
        within the budget the subtraction does not underflow, and an insert leaves it
        exactly where the budget is the largest word and the new total is past it. */
    method Insert(file: int, path: string, readSnapshot: Option<int>, positions: set<int>,
            capacity: nat) returns (kept: bool)
      requires Valid()
      modifies this
      ensures Valid()
      ensures var size := ENTRY_BYTES + |path| + PositionsBytes(capacity);
              && (kept <==> SaturatingAdd(Wrap64(old(bytes) - old(Replaced(file))), size) <= max)
              && files == if kept then old(files)[file := Entry(path, readSnapshot, positions, size)] else old(files)
      ensures old(Within()) ==>
                && old(Replaced(file)) <= old(bytes)
                && var total := old(bytes) - old(Replaced(file)) + (ENTRY_BYTES + |path| + PositionsBytes(capacity));
                   (Within() <==> (!kept || max < USIZE_MAX || total <= USIZE_MAX))
    {
      var size := ENTRY_BYTES + |path| + PositionsBytes(capacity);
      kept := Put(file, Entry(path, readSnapshot, positions, size));
    }
  }

  /** A memo of the largest budget, its entries filling it, takes one more file all the same:
      the entries are past every 64-bit budget, and the total the memo keeps starts again,
      below the new entry's own size. */
  lemma LargestBudgetOverflows(files: map<int, Entry>, file: int, entry: Entry)
    requires Total(files, EntryBytes()) == USIZE_MAX && file !in files && 1 <= entry.bytes <= USIZE_MAX
    ensures SaturatingAdd(Wrap64(Total(files, EntryBytes())), entry.bytes) <= USIZE_MAX
    ensures var total := Total(files[file := entry], EntryBytes());
            total > USIZE_MAX && Wrap64(total) == entry.bytes - 1
  {
    TotalPut(files, EntryBytes(), file, entry);
    Residue(USIZE_MAX + entry.bytes, 1, entry.bytes - 1);
  }

  lemma FullMemoExists()
    ensures var files := map[0 := Entry("", None, {}, USIZE_MAX)];
            Total(files, EntryBytes()) == USIZE_MAX && 1 !in files
  {
    TotalPut(map[], EntryBytes(), 0, Entry("", None, {}, USIZE_MAX));
    assert map[][0 := Entry("", None, {}, USIZE_MAX)] == map[0 := Entry("", None, {}, USIZE_MAX)];
  }

  /** The size reckoned for `n` positions is that of the table sized for them if and only
      if the 64-bit product does not saturate. */
  lemma ReckonedExactly(n: nat)
    requires n <= USIZE_MAX
    ensures SetBytesFor(n) == PositionsBytes(Capacity(Buckets(n))) <==> 72 * Capacity(Buckets(n)) <= USIZE_MAX
  {
    if n >= 8 {
      BucketsHold(n);
      var b := Buckets(n);
      assert b == 8 * (b / 8) && Capacity(b) == 7 * (b / 8);
      Sevenths(b / 8);
    }
  }

  lemma Sevenths(e: nat)
    ensures 7 * e * 9 * 8 / 7 == 72 * e
  {
  }

  /** Sets no larger than the table sized for `n`, their own size within 64 bits, take no
      more than was reckoned for `n`: what fits can be inserted. */
  lemma FitsMeansInserts(n: nat, capacity: nat, held: nat, path: string, max: nat)
    requires capacity <= Capacity(Buckets(n)) && 72 * capacity <= USIZE_MAX
    requires SaturatingAdd(held, ENTRY_BYTES + |path| + SetBytesFor(n)) <= max
    ensures SaturatingAdd(held, ENTRY_BYTES + |path| + PositionsBytes(capacity)) <= max
  {
  }
}
