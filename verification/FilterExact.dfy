/** What is lost on the way of a filter into the catalog's SQL, and what is not: which terms
    are translated, renamed and rendered, and that a filter all of whose terms are selects
    exactly the rows on which it is TRUE. */
module FilterExact {
  import opened Lake
  import opened Words
  import opened InlinedFilter
  import opened RenderFilter
  import B = Bags
  import DecimalText

  // ----- Translating -----

  /** The leaves that are translated: a column compared with a constant, either way round; a
      column tested for NULL; a column `LIKE` a constant that is a prefix pattern, or
      starting with a constant. */
  predicate IsPushable(e: Expr) {
    match e
    case CompareE(_, l, r) => (l.Column? && IsConstant(r)) || (r.Column? && IsConstant(l))
    case IsNullE(arg) => arg.Column?
    case IsNotNullE(arg) => arg.Column?
    case LikeE(arg, pattern, negated, caseInsensitive, escape) =>
      !negated && !caseInsensitive && arg.Column? && IsText(pattern) && PrefixOf(pattern.value.value.t, escape).Some?
    case StartsWithE(arg, prefix) => arg.Column? && IsText(prefix)
    case _ => false
  }

  /** Of an `AND` one side is enough, an `OR` needs both. */
  lemma TranslatedExactly(e: Expr)
    ensures e.AndE? ==> (Translate(e).Some? <==> Translate(e.left).Some? || Translate(e.right).Some?)
    ensures e.OrE? ==> (Translate(e).Some? <==> Translate(e.left).Some? && Translate(e.right).Some?)
    ensures !e.AndE? && !e.OrE? ==> (Translate(e).Some? <==> IsPushable(e))
  {
  }

  lemma ReversedCompares(op: DecimalText.Op, a: Value, b: Value)
    ensures Compare(Reversed(op), a, b) == Compare(op, b, a)
  {
  }

  /** A translated leaf is TRUE, FALSE or UNKNOWN on a row as the leaf is. */
  lemma LeafKeepsTruth(e: Expr, env: Env)
    requires IsPushable(e) && Escaped(e)
    ensures Translate(e).Some? && Eval(Translate(e).value, env.row) == TruthOf(EvalE(e, env))
  {
    match e
    case CompareE(op, l, r) =>
      LeafTranslates(l, env);
      LeafTranslates(r, env);
      if !(l.Column? && IsConstant(r)) && env.row(r.name).Some? {
        ReversedCompares(op, env.row(r.name).value, ValueOf(l.value.value));
      }
    case IsNullE(arg) => LeafTranslates(arg, env);
    case IsNotNullE(arg) => LeafTranslates(arg, env);
    case LikeE(arg, pattern, _, _, escape) =>
      LeafTranslates(arg, env);
      LeafTranslates(pattern, env);
      EscapedExactly(pattern.value.value.t, escape);
    case StartsWithE(arg, prefix) =>
      LeafTranslates(arg, env);
      LeafTranslates(prefix, env);
  }

  /** A translated `AND` is TRUE exactly where each of its translated sides is. */
  lemma AndKeepsTerms(e: Expr, env: Env)
    requires e.AndE? && Translate(e).Some?
    ensures Eval(Translate(e).value, env.row) == Some(true) <==>
            && (Translate(e.left).Some? ==> Eval(Translate(e.left).value, env.row) == Some(true))
            && (Translate(e.right).Some? ==> Eval(Translate(e.right).value, env.row) == Some(true))
  {
    var a, b := Translate(e.left), Translate(e.right);
    AndOfTrue((if a.Some? then [a.value] else []) + (if b.Some? then [b.value] else []), env.row);
  }

  /** Every leaf is translated. */
  predicate IsWhole(e: Expr) {
    if e.AndE? || e.OrE? then IsWhole(e.left) && IsWhole(e.right) else IsPushable(e)
  }

  lemma TermsAre(fs: seq<Filter>, row: Tuple)
    ensures Eval(And(fs), row) == AllT(EvalAll(fs, row)) && Eval(Or(fs), row) == AnyT(EvalAll(fs, row))
  {
  }

  lemma TwoTerms(fs: seq<Filter>, row: Tuple)
    requires |fs| == 2
    ensures Eval(And(fs), row) == AndT(Eval(fs[0], row), Eval(fs[1], row))
    ensures Eval(Or(fs), row) == OrT(Eval(fs[0], row), Eval(fs[1], row))
  {
    TermsAre(fs, row);
    TwoTruths(EvalAll(fs, row), Eval(fs[0], row), Eval(fs[1], row));
  }

  lemma TwoTruths(ts: seq<Truth>, x: Truth, y: Truth)
    requires |ts| == 2 && ts[0] == x && ts[1] == y
    ensures AllT(ts) == AndT(x, y) && AnyT(ts) == OrT(x, y)
  {
    assert ts[1..] == [y] && [y][1..] == [];
    assert AllT([]) == Some(true) && AnyT([]) == Some(false);
    assert AllT([y]) == AndT(y, Some(true)) && AnyT([y]) == OrT(y, Some(false));
  }

  lemma {:induction false} WholeKeepsTruth(e: Expr, env: Env)
    requires IsWhole(e) && Escaped(e)
    ensures Translate(e).Some? && Eval(Translate(e).value, env.row) == TruthOf(EvalE(e, env))
    decreases e
  {
    if e.AndE? || e.OrE? {
      WholeKeepsTruth(e.left, env);
      WholeKeepsTruth(e.right, env);
      var a, b := Translate(e.left).value, Translate(e.right).value;
      TwoTerms([a, b], env.row);
      assert [a] + [b] == [a, b];
    } else {
      LeafKeepsTruth(e, env);
    }
  }

  // ----- Renaming -----

  /** Every column has a new name, and no conjunction is empty. */
  predicate IsNamed(f: Filter, to: Renaming)
    decreases f
  {
    match f
    case And(children) => children != [] && forall i | 0 <= i < |children| :: IsNamed(children[i], to)
    case Or(children) => forall i | 0 <= i < |children| :: IsNamed(children[i], to)
    case _ => to(f.column).Some?
  }

  /** A conjunction keeps the terms that can be renamed, all of them and in order. */
  lemma {:induction false} RenameKeepsTerms(fs: seq<Filter>, to: Renaming)
    ensures RenameKept(fs, to) == ValuesOf(B.Filter(fs, f => Rename(f, to).Some?), to)
    decreases |fs|
  {
    if fs != [] {
      RenameKeepsTerms(fs[1..], to);
      var rest := B.Filter(fs[1..], f => Rename(f, to).Some?);
      if Rename(fs[0], to).Some? {
        assert ValuesOf([fs[0]] + rest, to) == [Rename(fs[0], to).value] + ValuesOf(rest, to);
      }
    }
  }

  function ValuesOf(fs: seq<Filter>, to: Renaming): seq<Filter> {
    seq(|fs|, i requires 0 <= i < |fs| => if Rename(fs[i], to).Some? then Rename(fs[i], to).value else fs[i])
  }

  lemma {:induction false} AllRenamed(fs: seq<Filter>, to: Renaming)
    requires forall i | 0 <= i < |fs| :: Rename(fs[i], to).Some?
    ensures RenameKept(fs, to) == ValuesOf(fs, to)
    decreases |fs|
  {
    if fs != [] {
      assert forall i | 0 <= i < |fs[1..]| :: fs[1..][i] == fs[i + 1];
      AllRenamed(fs[1..], to);
      assert ValuesOf(fs, to) == [Rename(fs[0], to).value] + ValuesOf(fs[1..], to);
    }
  }

  lemma OneTerm(f: Filter, row: Tuple)
    ensures Eval(And([f]), row) == Eval(f, row)
  {
    var ts := EvalAll([f], row);
    assert ts == [Eval(f, row)] && ts[1..] == [];
  }

  lemma SameTerms(fs: seq<Filter>, gs: seq<Filter>, row: Tuple, row': Tuple)
    requires |fs| == |gs| && forall i | 0 <= i < |fs| :: Eval(fs[i], row) == Eval(gs[i], row')
    ensures Eval(And(fs), row) == Eval(And(gs), row') && Eval(Or(fs), row) == Eval(Or(gs), row')
  {
    assert EvalAll(fs, row) == EvalAll(gs, row');
  }

  /** A filter with every column renamed is TRUE, FALSE or UNKNOWN as before. */
  lemma {:induction false} RenamingKeepsTruth(f: Filter, to: Renaming, row: Tuple, renamed: Tuple)
    requires IsNamed(f, to) && Follows(row, to, renamed, f)
    ensures Rename(f, to).Some? && Eval(Rename(f, to).value, renamed) == Eval(f, row)
    decreases f
  {
    match f
    case And(children) =>
      forall i | 0 <= i < |children|
        ensures Rename(children[i], to).Some? && Eval(Rename(children[i], to).value, renamed) == Eval(children[i], row)
      {
        RenamingKeepsTruth(children[i], to, row, renamed);
      }
      AllRenamed(children, to);
      SameTerms(children, ValuesOf(children, to), row, renamed);
      if |children| == 1 {
        OneTerm(ValuesOf(children, to)[0], renamed);
        assert ValuesOf(children, to) == [ValuesOf(children, to)[0]];
      }
    case Or(children) =>
      forall i | 0 <= i < |children|
        ensures Rename(children[i], to).Some? && Eval(Rename(children[i], to).value, renamed) == Eval(children[i], row)
      {
        RenamingKeepsTruth(children[i], to, row, renamed);
      }
      SameTerms(children, Rename(f, to).value.children, row, renamed);
    case _ =>
  }

  // ----- Rendering -----

  /** A value a column of the type is compared with: of the same kind, within the signed
      words where the type is stored in them, and of two truth values only for equality. */
  predicate Binds(value: Constant, dt: DataType, range: bool) {
    || (dt.Boolean? && value.BoolC? && !range)
    || (dt.SignedInt? && value.I64?)
    || (dt.SmallUnsigned? && value.U64? && value.n <= I64_MAX)
    || (dt.UInt64? && value.U64?)
    || (dt.Utf8Type? && value.Utf8?)
    || (dt.BinaryType? && value.Binary?)
  }

  /** A column the schema has, stored in a physical type that suits it. */
  predicate IsStored(ctx: Context, column: string) {
    column in ctx.fields && column in ctx.physical && ctx.physical[column].matches
  }

  predicate IsRenderable(f: Filter, ctx: Context)
    requires !f.And? && !f.Or?
  {
    match f
    case Comparison(column, op, value) =>
      IsStored(ctx, column) && Binds(value, ctx.fields[column], !op.Eq? && !op.NotEq?)
    case Prefix(column, _) => IsStored(ctx, column) && ctx.fields[column].Utf8Type?
    case _ => f.column in ctx.physical
  }

  lemma RenderedExactly(f: Filter, ctx: Context, n: nat)
    requires !f.And? && !f.Or?
    ensures RenderLeaf(f, ctx, n).Some? <==> IsRenderable(f, ctx)
  {
  }

  /** Every leaf renders, and nothing is empty. */
  predicate IsSql(f: Filter, ctx: Context)
    decreases f
  {
    match f
    case And(children) => children != [] && forall i | 0 <= i < |children| :: IsSql(children[i], ctx)
    case Or(children) => children != [] && forall i | 0 <= i < |children| :: IsSql(children[i], ctx)
    case _ => IsRenderable(f, ctx)
  }

  /** The rendered terms of `fs` have their truth values, in order. */
  ghost predicate SameTruths(fs: seq<Filter>, terms: seq<Sql>, row: Tuple, stored: StoredRow, binds: seq<Bind>,
          first: nat) {
    |terms| == |fs| && forall i | 0 <= i < |fs| :: EvalSql(terms[i], stored, binds, first) == Eval(fs[i], row)
  }

  lemma SameTruthsNext(fs: seq<Filter>, q: Sql, terms: seq<Sql>, row: Tuple, stored: StoredRow, binds: seq<Bind>,
          first: nat)
    requires fs != [] && EvalSql(q, stored, binds, first) == Eval(fs[0], row)
    requires SameTruths(fs[1..], terms, row, stored, binds, first)
    ensures SameTruths(fs, [q] + terms, row, stored, binds, first)
  {
    forall i | 0 <= i < |fs|
      ensures EvalSql(([q] + terms)[i], stored, binds, first) == Eval(fs[i], row)
    {
      if i > 0 {
        assert fs[1..][i - 1] == fs[i] && ([q] + terms)[i] == terms[i - 1];
      }
    }
  }

  predicate AllSql(fs: seq<Filter>, ctx: Context)
    decreases fs
  {
    forall i | 0 <= i < |fs| :: IsSql(fs[i], ctx)
  }

  lemma AllSqlRest(fs: seq<Filter>, ctx: Context)
    requires fs != [] && AllSql(fs, ctx)
    ensures IsSql(fs[0], ctx) && AllSql(fs[1..], ctx)
  {
    assert forall i | 0 <= i < |fs[1..]| :: fs[1..][i] == fs[i + 1];
  }

  lemma KeptFirst(fs: seq<Filter>, ctx: Context, n: nat, first: Rendered, rest: (seq<Sql>, seq<Bind>))
    requires fs != [] && Render(fs[0], ctx, n) == Some(first) && rest == RenderKept(fs[1..], ctx, n + |first.binds|)
    ensures RenderKept(fs, ctx, n) == ([first.sql] + rest.0, first.binds + rest.1)
  {
  }

  lemma {:induction false} KeptKeepTruth(fs: seq<Filter>, ctx: Context, n: nat, row: Tuple, stored: StoredRow,
          binds: seq<Bind>)
    requires Stores(ctx, row, stored) && Placed(binds, n, RenderKept(fs, ctx, n).1)
    requires AllSql(fs, ctx)
    ensures SameTruths(fs, RenderKept(fs, ctx, n).0, row, stored, binds, ctx.first)
    decreases fs
  {
    if fs != [] {
      AllSqlRest(fs, ctx);
      SqlRenders(fs[0], ctx, n);
      var first := Render(fs[0], ctx, n).value;
      var rest := RenderKept(fs[1..], ctx, n + |first.binds|);
      KeptFirst(fs, ctx, n, first, rest);
      PlacedSplit(binds, n, first.binds, rest.1);
      RenderingKeepsTruth(fs[0], ctx, n, row, stored, binds);
      KeptKeepTruth(fs[1..], ctx, n + |first.binds|, row, stored, binds);
      SameTruthsNext(fs, first.sql, rest.0, row, stored, binds, ctx.first);
    }
  }

  lemma EachFirst(fs: seq<Filter>, ctx: Context, n: nat)
    requires fs != [] && RenderEach(fs, ctx, n).Some?
    ensures Render(fs[0], ctx, n).Some?
    ensures var first := Render(fs[0], ctx, n).value;
            var rest := RenderEach(fs[1..], ctx, n + |first.binds|);
            rest.Some? && RenderEach(fs, ctx, n).value == ([first.sql] + rest.value.0, first.binds + rest.value.1)
  {
  }

  lemma {:induction false} EachKeepTruth(fs: seq<Filter>, ctx: Context, n: nat, row: Tuple, stored: StoredRow,
          binds: seq<Bind>)
    requires Stores(ctx, row, stored) && RenderEach(fs, ctx, n).Some?
             && Placed(binds, n, RenderEach(fs, ctx, n).value.1)
    requires AllSql(fs, ctx)
    ensures SameTruths(fs, RenderEach(fs, ctx, n).value.0, row, stored, binds, ctx.first)
    decreases fs
  {
    if fs != [] {
      AllSqlRest(fs, ctx);
      EachFirst(fs, ctx, n);
      var first := Render(fs[0], ctx, n).value;
      var rest := RenderEach(fs[1..], ctx, n + |first.binds|).value;
      PlacedSplit(binds, n, first.binds, rest.1);
      RenderingKeepsTruth(fs[0], ctx, n, row, stored, binds);
      EachKeepTruth(fs[1..], ctx, n + |first.binds|, row, stored, binds);
      SameTruthsNext(fs, first.sql, rest.0, row, stored, binds, ctx.first);
    }
  }

  /** Such a filter renders, wherever it stands. */
  lemma {:induction false} SqlRenders(f: Filter, ctx: Context, n: nat)
    requires IsSql(f, ctx)
    ensures Render(f, ctx, n).Some?
    decreases f
  {
    match f
    case And(children) => SqlRenders(children[0], ctx, n);
    case Or(children) => EachRenders(children, ctx, n);
    case _ => RenderedExactly(f, ctx, n);
  }

  lemma {:induction false} EachRenders(fs: seq<Filter>, ctx: Context, n: nat)
    requires AllSql(fs, ctx)
    ensures RenderEach(fs, ctx, n).Some?
    decreases fs
  {
    if fs != [] {
      AllSqlRest(fs, ctx);
      SqlRenders(fs[0], ctx, n);
      EachRenders(fs[1..], ctx, n + |Render(fs[0], ctx, n).value.binds|);
    }
  }

  lemma TermsAgree(fs: seq<Filter>, terms: seq<Sql>, row: Tuple, stored: StoredRow, binds: seq<Bind>, first: nat)
    requires SameTruths(fs, terms, row, stored, binds, first)
    ensures EvalSql(SqlAnd(terms), stored, binds, first) == Eval(And(fs), row)
    ensures EvalSql(SqlOr(terms), stored, binds, first) == Eval(Or(fs), row)
  {
    assert seq(|terms|, i requires 0 <= i < |terms| => EvalSql(terms[i], stored, binds, first)) == EvalAll(fs, row);
  }

  /** And its SQL is TRUE, FALSE or UNKNOWN on the stored row as it is on the row. */
  lemma {:induction false} RenderingKeepsTruth(f: Filter, ctx: Context, n: nat, row: Tuple, stored: StoredRow,
          binds: seq<Bind>)
    requires IsSql(f, ctx) && Stores(ctx, row, stored)
    requires Render(f, ctx, n).Some? && Placed(binds, n, Render(f, ctx, n).value.binds)
    ensures EvalSql(Render(f, ctx, n).value.sql, stored, binds, ctx.first) == Eval(f, row)
    decreases f
  {
    match f
    case And(children) =>
      var terms := RenderKept(children, ctx, n).0;
      KeptKeepTruth(children, ctx, n, row, stored, binds);
      TermsAgree(children, terms, row, stored, binds, ctx.first);
      if |children| == 1 {
        OneTerm(children[0], row);
        assert children == [children[0]];
      }
    case Or(children) =>
      EachKeepTruth(children, ctx, n, row, stored, binds);
      TermsAgree(children, RenderEach(children, ctx, n).value.0, row, stored, binds, ctx.first);
    case _ => LeafIsExact(f, ctx, n, row, stored, binds);
  }

  // ----- The whole way -----

  /** Filters all of whose terms are translated, renamed and rendered select exactly the rows
      on which they are all TRUE. */
  lemma PushedExactly(es: seq<Expr>, to: Renaming, ctx: Context, env: Env, renamed: Tuple, stored: StoredRow,
          f: Filter, g: Filter, r: Rendered)
    requires forall e | e in es :: IsWhole(e) && Escaped(e)
    requires AndOf(TranslateAll(es)) == Some(f) && IsNamed(f, to) && Follows(env.row, to, renamed, f)
    requires Rename(f, to) == Some(g) && IsSql(g, ctx) && Stores(ctx, renamed, stored) && Render(g, ctx, 0) == Some(r)
    ensures EvalSql(r.sql, stored, r.binds, ctx.first) == Some(true) <==> forall e | e in es :: Holds(e, env)
  {
    assert r.binds[0..|r.binds|] == r.binds;
    RenderingKeepsTruth(g, ctx, 0, renamed, stored, r.binds);
    RenamingKeepsTruth(f, to, env.row, renamed);
    AndOfTrue(TranslateAll(es), env.row);
    TranslationsHold(es, env);
  }

  lemma {:induction false} TranslationsHold(es: seq<Expr>, env: Env)
    requires forall e | e in es :: IsWhole(e) && Escaped(e)
    ensures (forall f | f in TranslateAll(es) :: Eval(f, env.row) == Some(true)) <==>
            forall e | e in es :: Holds(e, env)
  {
    if es != [] {
      assert es[0] in es && forall e | e in es[1..] :: e in es;
      WholeKeepsTruth(es[0], env);
      TranslationsHold(es[1..], env);
      assert forall e :: e in es <==> e == es[0] || e in es[1..];
      HoldsIsTrue(es[0], env);
    }
  }

  lemma HoldsIsTrue(e: Expr, env: Env)
    ensures Holds(e, env) <==> TruthOf(EvalE(e, env)) == Some(true)
  {
  }
}
