/** Rendering a filter as SQL with bound values, over the physical encoding each backend
    stores a column in. The SQL is kept as a tree; a placeholder is the number of the
    value bound to it. */
module RenderFilter {
  import opened Lake
  import opened Words
  import opened DecimalText
  import opened InlinedFilter

  datatype Dialect = Sqlite | Postgres | DuckDb | MySql

  datatype DataType = Boolean | SignedInt | SmallUnsigned | UInt64 | Utf8Type | BinaryType | OtherType

  /** What a column's physical type says: that it is one the backend stores the data type
      in, and that it holds UInt64 as a number. */
  datatype Physical = Physical(matches: bool, numeric: bool)

  datatype Context = Context(dialect: Dialect, fields: map<string, DataType>, physical: map<string, Physical>,
    first: nat)

  datatype Bind = BoolB(b: bool) | I64B(i: int) | U64B(n: u64) | TextB(t: string) | BytesB(bytes: string)

  /** As they stand; both as text padded to one width; the bound text cast to a number. */
  datatype Form = AsStored | Padded | AsNumber

  datatype Sql =
    | SqlAnd(terms: seq<Sql>)
    | SqlOr(terms: seq<Sql>)
    | SqlNull(column: string, negated: bool)
    | SqlCompare(column: string, op: Op, place: nat, form: Form)
    | SqlStartsWith(column: string, place: nat)
    | SqlSubstring(column: string, lengthPlace: nat, valuePlace: nat)


  predicate IsRange(op: Op) {
    !op.Eq? && !op.NotEq?
  }

  function SqlBind(value: Constant, dt: DataType, dialect: Dialect, range: bool): Option<Bind> {
    match (dt, value)
    case (Boolean, BoolC(b)) => if range then None else Some(BoolB(b))
    case (SignedInt, I64(i)) => Some(I64B(i))
    case (SmallUnsigned, U64(n)) => if n <= I64_MAX then Some(I64B(n)) else None
    case (UInt64, U64(n)) => Some(if dialect.DuckDb? then U64B(n) else TextB(Decimal(n)))
    case (Utf8Type, Utf8(t)) => Some(if dialect.Postgres? then BytesB(t) else TextB(t))
    case (BinaryType, Binary(bytes)) => Some(BytesB(bytes))
    case _ => None
  }

  predicate LegacyText(dialect: Dialect, physical: Physical) {
    dialect.Sqlite? || (!dialect.DuckDb? && !physical.numeric)
  }

  function FormOf(ctx: Context, column: string, op: Op): Form
    requires column in ctx.fields && column in ctx.physical
  {
    if !ctx.fields[column].UInt64? then AsStored
    else if (IsRange(op) || ctx.dialect.Sqlite?) && LegacyText(ctx.dialect, ctx.physical[column]) then Padded
    else if (ctx.dialect.Postgres? || ctx.dialect.MySql?) && ctx.physical[column].numeric then AsNumber
    else AsStored
  }

  datatype Rendered = Rendered(sql: Sql, binds: seq<Bind>)

  /** A column the schema has, stored in a physical type that suits it. */
  predicate Usable(ctx: Context, column: string) {
    column in ctx.fields && column in ctx.physical && ctx.physical[column].matches
  }

  /** A leaf rendered with `n` values bound before it. */
  function RenderLeaf(f: Filter, ctx: Context, n: nat): Option<Rendered>
    requires !f.And? && !f.Or?
  {
    match f
    case IsNull(column) => if column in ctx.physical then Some(Rendered(SqlNull(column, false), [])) else None
    case IsNotNull(column) => if column in ctx.physical then Some(Rendered(SqlNull(column, true), [])) else None
    case Comparison(column, op, value) =>
      if !Usable(ctx, column) then None
      else
        var bind := SqlBind(value, ctx.fields[column], ctx.dialect, IsRange(op));
        if bind.None? then None
        else Some(Rendered(SqlCompare(column, op, ctx.first + n, FormOf(ctx, column, op)), [bind.value]))
    case Prefix(column, prefix) =>
      if !Usable(ctx, column) || !ctx.fields[column].Utf8Type? then None
      else
        var bind := if ctx.dialect.Postgres? then BytesB(prefix) else TextB(prefix);
        if ctx.dialect.DuckDb? then Some(Rendered(SqlStartsWith(column, ctx.first + n), [bind]))
        else Some(Rendered(SqlSubstring(column, ctx.first + n, ctx.first + n + 1), [bind, bind]))
  }

  function Render(f: Filter, ctx: Context, n: nat): Option<Rendered>
    decreases f
  {
    match f
    case And(children) =>
      var (terms, binds) := RenderKept(children, ctx, n);
      if terms == [] then None else Some(Rendered(if |terms| == 1 then terms[0] else SqlAnd(terms), binds))
    case Or(children) =>
      var each := RenderEach(children, ctx, n);
      if each.Some? && children != [] then Some(Rendered(SqlOr(each.value.0), each.value.1)) else None
    case _ => RenderLeaf(f, ctx, n)
  }

  /** The children that render, each after the values of those before it. */
  function RenderKept(fs: seq<Filter>, ctx: Context, n: nat): (seq<Sql>, seq<Bind>)
    decreases fs
  {
    if fs == [] then ([], [])
    else
      var first := Render(fs[0], ctx, n);
      if first.None? then RenderKept(fs[1..], ctx, n)
      else
        var (terms, binds) := RenderKept(fs[1..], ctx, n + |first.value.binds|);
        ([first.value.sql] + terms, first.value.binds + binds)
  }

  /** All the children, or nothing. */
  function RenderEach(fs: seq<Filter>, ctx: Context, n: nat): Option<(seq<Sql>, seq<Bind>)>
    decreases fs
  {
    if fs == [] then Some(([], []))
    else
      var first := Render(fs[0], ctx, n);
      if first.None? then None
      else
        var rest := RenderEach(fs[1..], ctx, n + |first.value.binds|);
        if rest.None? then None else Some(([first.value.sql] + rest.value.0, first.value.binds + rest.value.1))
  }

  // ----- What the SQL selects -----

  /** A stored value: as it is, or UInt64 as decimal text. */
  datatype Stored = Kept(v: Value) | Text64(t: string)

  type StoredRow = string -> Option<Stored>

  predicate HasType(dt: DataType, v: Value) {
    match dt
    case Boolean => v.BoolV?
    case SignedInt => v.IntV?
    case SmallUnsigned => v.IntV?
    case UInt64 => v.IntV? && 0 <= v.i < U64_END
    case Utf8Type => v.TextV?
    case BinaryType => v.BytesV?
    case OtherType => true
  }

  /** SQLite's legacy tables hold canonical and padded text, the others canonical. */
  predicate StoresValue(ctx: Context, column: string, v: Value, st: Stored)
    requires column in ctx.fields && column in ctx.physical
  {
    && HasType(ctx.fields[column], v)
    && if ctx.fields[column].UInt64? && LegacyText(ctx.dialect, ctx.physical[column]) then
         st.Text64? && (if ctx.dialect.Sqlite? then Spells(st.t, v.i) else st.t == Decimal(v.i))
       else st == Kept(v)
  }

  ghost predicate Stores(ctx: Context, row: Tuple, stored: StoredRow) {
    forall c | c in ctx.physical ::
      && (row(c).None? <==> stored(c).None?)
      && (row(c).Some? && Usable(ctx, c) ==> StoresValue(ctx, c, row(c).value, stored(c).value))
  }

  function NumberOf(t: string): int {
    if t == "" then 0 else 10 * NumberOf(t[..|t| - 1]) + (t[|t| - 1] as int - '0' as int)
  }

  function BoundValue(b: Bind, against: Value): Value {
    match b
    case BoolB(x) => BoolV(x)
    case I64B(i) => IntV(i)
    case U64B(n) => IntV(n)
    case TextB(t) => TextV(t)
    case BytesB(bytes) => if against.TextV? then TextV(bytes) else BytesV(bytes)
  }

  predicate CompareStored(op: Op, form: Form, st: Stored, b: Bind) {
    match form
    case Padded => st.Text64? && b.TextB? && CompareText(op, Pad(st.t), Pad(b.t))
    case AsNumber => st.Kept? && st.v.IntV? && b.TextB? && CompareNat(op, st.v.i, NumberOf(b.t))
    case AsStored =>
      if st.Kept? then Compare(op, st.v, BoundValue(b, st.v)) else b.TextB? && CompareText(op, st.t, b.t)
  }

  function BoundText(b: Bind): string {
    if b.TextB? then b.t else if b.BytesB? then b.bytes else ""
  }

  function Head(t: string, k: nat): string {
    if k <= |t| then t[..k] else t
  }

  /** `places` from `first` on name the bound values in order. */
  function BindAt(binds: seq<Bind>, first: nat, place: nat): Option<Bind> {
    if first <= place < first + |binds| then Some(binds[place - first]) else None
  }

  function EvalSql(q: Sql, stored: StoredRow, binds: seq<Bind>, first: nat): Truth
    decreases q
  {
    match q
    case SqlAnd(terms) => AllT(seq(|terms|, i requires 0 <= i < |terms| => EvalSql(terms[i], stored, binds, first)))
    case SqlOr(terms) => AnyT(seq(|terms|, i requires 0 <= i < |terms| => EvalSql(terms[i], stored, binds, first)))
    case SqlNull(column, negated) => Some(stored(column).Some? == negated)
    case SqlCompare(column, op, place, form) =>
      var b := BindAt(binds, first, place);
      if stored(column).Some? && b.Some? then Some(CompareStored(op, form, stored(column).value, b.value)) else None
    case SqlStartsWith(column, place) =>
      var b := BindAt(binds, first, place);
      if stored(column).Some? && stored(column).value.Kept? && stored(column).value.v.TextV? && b.Some? then
        Some(BoundText(b.value) <= stored(column).value.v.t)
      else None
    case SqlSubstring(column, lengthPlace, valuePlace) =>
      var a, b := BindAt(binds, first, lengthPlace), BindAt(binds, first, valuePlace);
      if stored(column).Some? && stored(column).value.Kept? && stored(column).value.v.TextV? && a.Some? && b.Some? then
        Some(Head(stored(column).value.v.t, |BoundText(a.value)|) == BoundText(b.value))
      else None
  }

  // ----- Leaves are exact -----

  lemma {:induction false} NumberOfDecimal(n: nat)
    ensures NumberOf(Decimal(n)) == n
    decreases n
  {
    if n >= 10 {
      NumberOfDecimal(n / 10);
      assert Decimal(n)[..|Decimal(n)| - 1] == Decimal(n / 10);
    }
  }

  /** Text equality, all a legacy column without padding is asked. */
  lemma CanonicalCompares(op: Op, n: nat, m: nat)
    requires n < U64_END && m < U64_END && !IsRange(op)
    ensures CompareText(op, Decimal(n), Decimal(m)) <==> CompareNat(op, n, m)
  {
    CanonicalEquals(n, m);
  }

  /** The rendered comparison of the stored value is that of the value. */
  lemma ComparisonIsExact(ctx: Context, column: string, op: Op, value: Constant, v: Value, st: Stored, b: Bind)
    requires Usable(ctx, column) && StoresValue(ctx, column, v, st)
    requires SqlBind(value, ctx.fields[column], ctx.dialect, IsRange(op)) == Some(b)
    ensures CompareStored(op, FormOf(ctx, column, op), st, b) <==> Compare(op, v, ValueOf(value))
  {
    if ctx.fields[column].UInt64? {
      var n := value.n;
      NumberOfDecimal(n);
      assert Compare(op, v, ValueOf(value)) <==> CompareNat(op, v.i, n);
      if LegacyText(ctx.dialect, ctx.physical[column]) {
        if FormOf(ctx, column, op).Padded? {
          PaddedTextCompares(op, st.t, v.i, Decimal(n), n);
        } else {
          CanonicalCompares(op, v.i, n);
        }
      }
    }
  }

  lemma HeadIsPrefix(prefix: string, t: string)
    ensures Head(t, |prefix|) == prefix <==> prefix <= t
  {
  }

  /** `bs` are the values bound from place `n` on. */
  predicate Placed(binds: seq<Bind>, n: nat, bs: seq<Bind>) {
    n + |bs| <= |binds| && binds[n..n + |bs|] == bs
  }

  lemma PlacedAt(binds: seq<Bind>, n: nat, bs: seq<Bind>, i: nat, first: nat)
    requires Placed(binds, n, bs) && i < |bs|
    ensures BindAt(binds, first, first + n + i) == Some(bs[i])
  {
    assert binds[n..n + |bs|][i] == binds[n + i];
  }

  /** A rendered leaf is TRUE, FALSE or UNKNOWN as the leaf is. */
  lemma LeafIsExact(f: Filter, ctx: Context, n: nat, row: Tuple, stored: StoredRow, binds: seq<Bind>)
    requires !f.And? && !f.Or? && RenderLeaf(f, ctx, n).Some? && Stores(ctx, row, stored)
    requires Placed(binds, n, RenderLeaf(f, ctx, n).value.binds)
    ensures EvalSql(RenderLeaf(f, ctx, n).value.sql, stored, binds, ctx.first) == Eval(f, row)
  {
    var r := RenderLeaf(f, ctx, n).value;
    assert f.column in ctx.physical;
    if f.Comparison? {
      PlacedAt(binds, n, r.binds, 0, ctx.first);
      if row(f.column).Some? {
        ComparisonIsExact(ctx, f.column, f.op, f.value, row(f.column).value, stored(f.column).value, r.binds[0]);
      }
    } else if f.Prefix? {
      PlacedAt(binds, n, r.binds, 0, ctx.first);
      if !ctx.dialect.DuckDb? {
        PlacedAt(binds, n, r.binds, 1, ctx.first);
      }
      if row(f.column).Some? {
        HeadIsPrefix(f.prefix, row(f.column).value.t);
      }
    }
  }

  // ----- Rendering weakens -----

  lemma PlacedSplit(binds: seq<Bind>, n: nat, a: seq<Bind>, b: seq<Bind>)
    requires Placed(binds, n, a + b)
    ensures Placed(binds, n, a) && Placed(binds, n + |a|, b)
  {
    assert binds[n..n + |a|] == (a + b)[..|a|];
    assert binds[n + |a|..n + |a| + |b|] == (a + b)[|a|..];
  }

  ghost predicate AllTrue(terms: seq<Sql>, stored: StoredRow, binds: seq<Bind>, first: nat) {
    forall q | q in terms :: EvalSql(q, stored, binds, first) == Some(true)
  }

  lemma {:induction false} KeptWeaken(fs: seq<Filter>, ctx: Context, n: nat, row: Tuple, stored: StoredRow,
          binds: seq<Bind>)
    requires Stores(ctx, row, stored) && Placed(binds, n, RenderKept(fs, ctx, n).1)
    requires forall i | 0 <= i < |fs| :: Eval(fs[i], row) == Some(true)
    ensures AllTrue(RenderKept(fs, ctx, n).0, stored, binds, ctx.first)
    decreases fs
  {
    if fs != [] {
      var first := Render(fs[0], ctx, n);
      assert forall i | 0 <= i < |fs[1..]| :: fs[1..][i] == fs[i + 1];
      if first.None? {
        KeptWeaken(fs[1..], ctx, n, row, stored, binds);
      } else {
        var bs := first.value.binds;
        PlacedSplit(binds, n, bs, RenderKept(fs[1..], ctx, n + |bs|).1);
        RenderingWeakens(fs[0], ctx, n, row, stored, binds);
        KeptWeaken(fs[1..], ctx, n + |bs|, row, stored, binds);
      }
    }
  }

  lemma {:induction false} EachWeakens(fs: seq<Filter>, ctx: Context, n: nat, row: Tuple, stored: StoredRow,
          binds: seq<Bind>, k: nat)
    requires Stores(ctx, row, stored) && RenderEach(fs, ctx, n).Some?
             && Placed(binds, n, RenderEach(fs, ctx, n).value.1)
    requires k < |fs| && Eval(fs[k], row) == Some(true)
    ensures exists q | q in RenderEach(fs, ctx, n).value.0 :: EvalSql(q, stored, binds, ctx.first) == Some(true)
    decreases fs
  {
    var first := Render(fs[0], ctx, n).value;
    var rest := RenderEach(fs[1..], ctx, n + |first.binds|).value;
    PlacedSplit(binds, n, first.binds, rest.1);
    if k == 0 {
      RenderingWeakens(fs[0], ctx, n, row, stored, binds);
      assert first.sql in RenderEach(fs, ctx, n).value.0;
    } else {
      EachWeakens(fs[1..], ctx, n + |first.binds|, row, stored, binds, k - 1);
      var q :| q in rest.0 && EvalSql(q, stored, binds, ctx.first) == Some(true);
      assert q in RenderEach(fs, ctx, n).value.0;
    }
  }

  lemma SqlAndTrue(terms: seq<Sql>, stored: StoredRow, binds: seq<Bind>, first: nat)
    requires AllTrue(terms, stored, binds, first)
    ensures EvalSql(SqlAnd(terms), stored, binds, first) == Some(true)
  {
    var ts := seq(|terms|, i requires 0 <= i < |terms| => EvalSql(terms[i], stored, binds, first));
    assert forall i | 0 <= i < |ts| :: ts[i] == EvalSql(terms[i], stored, binds, first) && terms[i] in terms;
  }

  lemma SqlOrTrue(terms: seq<Sql>, stored: StoredRow, binds: seq<Bind>, first: nat, q: Sql)
    requires q in terms && EvalSql(q, stored, binds, first) == Some(true)
    ensures EvalSql(SqlOr(terms), stored, binds, first) == Some(true)
  {
    var ts := seq(|terms|, i requires 0 <= i < |terms| => EvalSql(terms[i], stored, binds, first));
    var i :| 0 <= i < |terms| && terms[i] == q;
    assert ts[i] in ts;
  }

  /** A row on which the filter is TRUE is one the rendered SQL selects. */
  lemma {:induction false} RenderingWeakens(f: Filter, ctx: Context, n: nat, row: Tuple, stored: StoredRow,
          binds: seq<Bind>)
    requires Render(f, ctx, n).Some? && Stores(ctx, row, stored) && Placed(binds, n, Render(f, ctx, n).value.binds)
    requires Eval(f, row) == Some(true)
    ensures EvalSql(Render(f, ctx, n).value.sql, stored, binds, ctx.first) == Some(true)
    decreases f
  {
    match f
    case And(children) =>
      var ts := EvalAll(children, row);
      assert forall i | 0 <= i < |children| :: ts[i] in ts;
      KeptWeaken(children, ctx, n, row, stored, binds);
      var terms := RenderKept(children, ctx, n).0;
      assert terms[0] in terms;
      SqlAndTrue(terms, stored, binds, ctx.first);
    case Or(children) =>
      var ts := EvalAll(children, row);
      var k :| 0 <= k < |ts| && ts[k] == Some(true);
      EachWeakens(children, ctx, n, row, stored, binds, k);
      var terms := RenderEach(children, ctx, n).value.0;
      var q :| q in terms && EvalSql(q, stored, binds, ctx.first) == Some(true);
      SqlOrTrue(terms, stored, binds, ctx.first, q);
    case _ => LeafIsExact(f, ctx, n, row, stored, binds);
  }

  // ----- Placeholders -----

  function Places(q: Sql): seq<nat>
    decreases q
  {
    match q
    case SqlAnd(terms) => PlacesOf(terms)
    case SqlOr(terms) => PlacesOf(terms)
    case SqlNull(_, _) => []
    case SqlCompare(_, _, place, _) => [place]
    case SqlStartsWith(_, place) => [place]
    case SqlSubstring(_, lengthPlace, valuePlace) => [lengthPlace, valuePlace]
  }

  function PlacesOf(qs: seq<Sql>): seq<nat>
    decreases qs
  {
    if qs == [] then [] else Places(qs[0]) + PlacesOf(qs[1..])
  }

  function Run(from: nat, k: nat): seq<nat> {
    seq(k, i requires 0 <= i < k => from + i)
  }

  lemma RunSplit(from: nat, j: nat, k: nat)
    ensures Run(from, j) + Run(from + j, k) == Run(from, j + k)
  {
  }

  lemma {:induction false} KeptPlaces(fs: seq<Filter>, ctx: Context, n: nat)
    ensures var (terms, binds) := RenderKept(fs, ctx, n); PlacesOf(terms) == Run(ctx.first + n, |binds|)
    ensures var (terms, binds) := RenderKept(fs, ctx, n); terms == [] ==> binds == []
    decreases fs
  {
    if fs != [] {
      var first := Render(fs[0], ctx, n);
      if first.None? {
        KeptPlaces(fs[1..], ctx, n);
      } else {
        var bs := first.value.binds;
        PlacesInOrder(fs[0], ctx, n);
        KeptPlaces(fs[1..], ctx, n + |bs|);
        var (terms, binds) := RenderKept(fs[1..], ctx, n + |bs|);
        assert ([first.value.sql] + terms)[1..] == terms;
        RunSplit(ctx.first + n, |bs|, |binds|);
      }
    }
  }

  lemma {:induction false} EachPlaces(fs: seq<Filter>, ctx: Context, n: nat)
    requires RenderEach(fs, ctx, n).Some?
    ensures var (terms, binds) := RenderEach(fs, ctx, n).value; PlacesOf(terms) == Run(ctx.first + n, |binds|)
    decreases fs
  {
    if fs != [] {
      var first := Render(fs[0], ctx, n).value;
      PlacesInOrder(fs[0], ctx, n);
      EachPlaces(fs[1..], ctx, n + |first.binds|);
      var (terms, binds) := RenderEach(fs[1..], ctx, n + |first.binds|).value;
      assert ([first.sql] + terms)[1..] == terms;
      RunSplit(ctx.first + n, |first.binds|, |binds|);
    }
  }

  /** Read left to right, the placeholders number the values the filter binds, in order
      and one each. */
  lemma {:induction false} PlacesInOrder(f: Filter, ctx: Context, n: nat)
    requires Render(f, ctx, n).Some?
    ensures Places(Render(f, ctx, n).value.sql) == Run(ctx.first + n, |Render(f, ctx, n).value.binds|)
    decreases f
  {
    match f
    case And(children) =>
      KeptPlaces(children, ctx, n);
      var (terms, binds) := RenderKept(children, ctx, n);
      if |terms| == 1 {
        assert terms[1..] == [] && Places(terms[0]) + [] == Places(terms[0]);
      }
    case Or(children) => EachPlaces(children, ctx, n);
    case _ =>
  }

  // ----- The bind list, in place -----

  function AfterRender(r: Option<Rendered>, binds: seq<Bind>): seq<Bind> {
    if r.Some? then binds + r.value.binds else binds
  }

  function SqlOf(r: Option<Rendered>): Option<Sql> {
    if r.Some? then Some(r.value.sql) else None
  }

  lemma KeptStep(fs: seq<Filter>, ctx: Context, n: nat)
    requires fs != []
    ensures var first, m := Render(fs[0], ctx, n), |AfterRender(Render(fs[0], ctx, n), [])|;
            var rest := RenderKept(fs[1..], ctx, n + m);
            RenderKept(fs, ctx, n) == ((if first.Some? then [first.value.sql] else []) + rest.0,
              AfterRender(first, []) + rest.1)
  {
    var first := Render(fs[0], ctx, n);
    if first.None? {
      var rest := RenderKept(fs[1..], ctx, n);
      assert [] + rest.0 == rest.0 && [] + rest.1 == rest.1;
    } else {
      assert [] + first.value.binds == first.value.binds;
    }
  }

  /** `render_node`'s `AND`: a child that does not render leaves the binds as they were. */
  method RenderAnd(children: seq<Filter>, ctx: Context, binds: seq<Bind>) returns (terms: seq<Sql>, all: seq<Bind>)
    ensures terms == RenderKept(children, ctx, |binds|).0 && all == binds + RenderKept(children, ctx, |binds|).1
    decreases children
  {
    terms, all := [], binds;
    ghost var whole := RenderKept(children, ctx, |binds|);
    assert children[0..] == children;
    for i := 0 to |children|
      invariant |binds| <= |all|
      invariant whole.0 == terms + RenderKept(children[i..], ctx, |all|).0
      invariant binds + whole.1 == all + RenderKept(children[i..], ctx, |all|).1
    {
      assert children[i..][1..] == children[i + 1..];
      KeptStep(children[i..], ctx, |all|);
      var sql;
      sql, all := RenderNode(children[i], ctx, all);
      if sql.Some? {
        terms := terms + [sql.value];
      }
    }
    assert children[|children|..] == [];
  }

  lemma EachStep(fs: seq<Filter>, ctx: Context, n: nat)
    requires fs != []
    ensures Render(fs[0], ctx, n).None? ==> RenderEach(fs, ctx, n).None?
    ensures Render(fs[0], ctx, n).Some? ==>
              var first := Render(fs[0], ctx, n).value;
              var rest := RenderEach(fs[1..], ctx, n + |first.binds|);
              RenderEach(fs, ctx, n) == if rest.None? then None
                else Some(([first.sql] + rest.value.0, first.binds + rest.value.1))
  {
  }

  ghost predicate Continues(whole: Option<(seq<Sql>, seq<Bind>)>, terms: seq<Sql>, binds: seq<Bind>, all: seq<Bind>,
          rest: Option<(seq<Sql>, seq<Bind>)>) {
    && (whole.None? <==> rest.None?)
    && (rest.Some? ==> whole.value.0 == terms + rest.value.0 && binds + whole.value.1 == all + rest.value.1)
  }

  lemma ContinuesStep(whole: Option<(seq<Sql>, seq<Bind>)>, terms: seq<Sql>, binds: seq<Bind>, all: seq<Bind>,
          fs: seq<Filter>, ctx: Context)
    requires fs != [] && Continues(whole, terms, binds, all, RenderEach(fs, ctx, |all|))
    ensures var first := Render(fs[0], ctx, |all|);
            if first.None? then whole.None?
            else Continues(whole, terms + [first.value.sql], binds, all + first.value.binds,
              RenderEach(fs[1..], ctx, |all + first.value.binds|))
  {
    EachStep(fs, ctx, |all|);
    if Render(fs[0], ctx, |all|).Some? {
      var first := Render(fs[0], ctx, |all|).value;
      var rest := RenderEach(fs[1..], ctx, |all| + |first.binds|);
      if rest.Some? {
        assert terms + ([first.sql] + rest.value.0) == terms + [first.sql] + rest.value.0;
        assert all + (first.binds + rest.value.1) == all + first.binds + rest.value.1;
      }
    }
  }

  lemma ContinuesStart(whole: Option<(seq<Sql>, seq<Bind>)>, binds: seq<Bind>)
    ensures Continues(whole, [], binds, binds, whole)
  {
    assert whole.Some? ==> [] + whole.value.0 == whole.value.0;
  }

  lemma ContinuesEnd(whole: Option<(seq<Sql>, seq<Bind>)>, terms: seq<Sql>, binds: seq<Bind>, all: seq<Bind>)
    requires Continues(whole, terms, binds, all, Some(([], [])))
    ensures whole.Some? && whole.value.0 == terms && binds + whole.value.1 == all
  {
    assert terms + [] == terms && all + [] == all;
  }

  /** `render_node`'s `OR`: the first child that does not render undoes the binds of
      those before it. */
  method RenderOr(children: seq<Filter>, ctx: Context, binds: seq<Bind>) returns (terms: Option<seq<Sql>>,
          all: seq<Bind>)
    ensures var each := RenderEach(children, ctx, |binds|);
            if each.Some? && children != [] then terms == Some(each.value.0) && all == binds + each.value.1
            else terms == None && all == binds
    decreases children
  {
    var checkpoint, rendered := |binds|, [];
    all := binds;
    ghost var whole := RenderEach(children, ctx, |binds|);
    assert children[0..] == children;
    ContinuesStart(whole, binds);
    for i := 0 to |children|
      invariant binds <= all && |rendered| == i
      invariant Continues(whole, rendered, binds, all, RenderEach(children[i..], ctx, |all|))
    {
      assert children[i..][1..] == children[i + 1..];
      ContinuesStep(whole, rendered, binds, all, children[i..], ctx);
      var sql;
      sql, all := RenderNode(children[i], ctx, all);
      if sql.None? {
        all := all[..checkpoint];
        return None, all;
      }
      rendered := rendered + [sql.value];
    }
    assert children[|children|..] == [];
    ContinuesEnd(whole, rendered, binds, all);
    if rendered == [] {
      all := all[..checkpoint];
      return None, all;
    }
    terms := Some(rendered);
  }

  /** `render_node`: a failed render leaves the bind list as it was, a successful one
      appends exactly its binds. */
  method RenderNode(f: Filter, ctx: Context, binds: seq<Bind>) returns (sql: Option<Sql>, all: seq<Bind>)
    ensures sql == SqlOf(Render(f, ctx, |binds|))
    ensures all == AfterRender(Render(f, ctx, |binds|), binds)
    decreases f
  {
    match f {
      case And(children) =>
        var terms;
        terms, all := RenderAnd(children, ctx, binds);
        KeptPlaces(children, ctx, |binds|);
        if terms == [] {
          sql := None;
        } else if |terms| == 1 {
          sql := Some(terms[0]);
        } else {
          sql := Some(SqlAnd(terms));
        }
      case Or(children) =>
        var terms;
        terms, all := RenderOr(children, ctx, binds);
        sql := if terms.Some? then Some(SqlOr(terms.value)) else None;
      case _ =>
        var leaf := RenderLeaf(f, ctx, |binds|);
        sql, all := SqlOf(leaf), AfterRender(leaf, binds);
    }
  }

  /** The whole way of a scan's filters: a row on which all are TRUE, stored as the
      backend stores it, is one the rendered SQL selects. */
  method PushDown(filters: seq<Expr>, to: Renaming, ctx: Context) returns (r: Option<Rendered>)
    ensures r.None? <==> var f := AndOf(TranslateAll(filters));
                         f.None? || Rename(f.value, to).None? || Render(Rename(f.value, to).value, ctx, 0).None?
    ensures r.Some? ==> Places(r.value.sql) == Run(ctx.first, |r.value.binds|)
    ensures r.Some? ==> forall env: Env, renamed: Tuple, stored: StoredRow | Pushes(filters, to, ctx, env, renamed,
            stored) ::
              EvalSql(r.value.sql, stored, r.value.binds, ctx.first) == Some(true)
  {
    var translated := AndOf(TranslateAll(filters));
    if translated.None? {
      return None;
    }
    var named := Rename(translated.value, to);
    if named.None? {
      return None;
    }
    var sql, binds := RenderNode(named.value, ctx, []);
    if sql.None? {
      return None;
    }
    assert [] + Render(named.value, ctx, 0).value.binds == binds;
    r := Some(Rendered(sql.value, binds));
    PlacesInOrder(named.value, ctx, 0);
    forall env: Env, renamed: Tuple, stored: StoredRow | Pushes(filters, to, ctx, env, renamed, stored)
      ensures EvalSql(sql.value, stored, binds, ctx.first) == Some(true)
    {
      AllTranslationsWeaken(filters, env);
      AndOfTrue(TranslateAll(filters), env.row);
      RenamingWeakens(translated.value, to, env.row, renamed);
      RenderingWeakens(named.value, ctx, 0, renamed, stored, binds);
    }
  }

  /** A row all the filters hold on, renamed and stored; none a `LIKE` with a backslash and
      no escape. */
  ghost predicate Pushes(filters: seq<Expr>, to: Renaming, ctx: Context, env: Env, renamed: Tuple, stored: StoredRow) {
    && (forall e | e in filters :: Escaped(e) && Holds(e, env))
    && (forall f | AndOf(TranslateAll(filters)) == Some(f) :: Follows(env.row, to, renamed, f))
    && Stores(ctx, renamed, stored)
  }
}
