/** `FieldIdExprAdapter::rewrite`: an expression over the catalog's columns becomes one
    over a file's columns. Both name columns in the same expressions, and a file's column
    may carry another catalog column's name. */
module ExprAdapter {
  import opened Lake
  import opened FieldIdAdapter
  import B = Bags

  /** `CatalogType` and `DefaultUnder` are what the rewrite adds. */
  datatype Expr =
    | Col(name: string)
    | Lit(value: Value)
    | Call(fn: int, args: seq<Expr>)
    | GetField(base: Expr, keys: seq<string>)
    | CatalogType(input: Expr, ct: Type, rt: ReadType, fill: Option<Fill>)
    | DefaultUnder(column: Expr, parent: seq<string>, leaf: seq<string>, value: Value)

  type Row = string -> Value
  type Functions = (int, seq<Value>) -> Value

  function Eval(e: Expr, row: Row, fns: Functions): Value
    decreases e
  {
    match e
    case Col(name) => row(name)
    case Lit(value) => value
    case Call(fn, args) => fns(fn, seq(|args|, i requires 0 <= i < |args| => Eval(args[i], row, fns)))
    case GetField(base, keys) => GetPath(Eval(base, row, fns), keys)
    case CatalogType(input, ct, rt, fill) =>
      if Matches(rt, ct) then ApplyFill(fill, Coerce(rt, ct, Eval(input, row, fns))) else Null
    case DefaultUnder(column, parent, _, value) => if AllValid(Eval(column, row, fns), parent) then value else Null
  }

  /** A scan of one file: the catalog's columns, the file's, and the defaults. */
  datatype Scan = Scan(columns: seq<Field>, file: seq<Field>, defaults: Defaults)

  predicate WfScan(s: Scan) {
    Fits(Struct(s.columns), Struct(s.file)) && OwnIds(Struct(s.columns))
  }

  predicate TypedRow(s: Scan, row: Row) {
    forall j | 0 <= j < |s.file| :: Typed(row(s.file[j].name), s.file[j].typ)
  }

  /** What the catalog's column is in this file's row; a name that is no catalog column is
      a virtual one, which the reader appends to the row. */
  function CatalogValue(s: Scan, row: Row, name: string): Value
    requires WfScan(s)
  {
    var i := IndexOf(Names(s.columns), name);
    if i == |s.columns| then row(name)
    else
      var j := IdIndex(s.file, s.columns[i].id);
      if j < |s.file| then ReadWhole(s.columns[i].typ, s.file[j].typ, s.defaults, row(s.file[j].name))
      else DefaultOf(s.defaults, s.columns[i].id)
  }

  function CatalogRow(s: Scan, row: Row): Row
    requires WfScan(s)
  {
    name => CatalogValue(s, row, name)
  }

  /** `catalog_column`, a virtual column, or an absent column's default. */
  function ColumnExpr(s: Scan, name: string): Expr
    requires WfScan(s)
  {
    var i := IndexOf(Names(s.columns), name);
    if i == |s.columns| then Col(name)
    else
      var j := IdIndex(s.file, s.columns[i].id);
      if j == |s.file| then Lit(DefaultOf(s.defaults, s.columns[i].id))
      else if s.columns[i].typ == s.file[j].typ then Col(s.file[j].name)
      else
        var ct := s.columns[i].typ;
        var rt := BuildRead(ct, s.file[j].typ);
        BuildMatches(ct, s.file[j].typ);
        CatalogType(Col(s.file[j].name), ct, rt, Build(rt, ct, s.defaults))
  }

  /** `struct_access_chain`: the root column and path of nested `get_field`s. */
  function Chain(e: Expr): Option<(string, seq<string>)> {
    if !e.GetField? then None
    else if e.base.Col? then Some((e.base.name, e.keys))
    else
      var inner := Chain(e.base);
      if inner.Some? then Some((inner.value.0, inner.value.1 + e.keys)) else None
  }

  /** How a chain is resolved in this file; `Elsewhere` where it is no struct access. */
  function ChainAccess(s: Scan, e: Expr): (a: Access)
    requires WfScan(s)
    ensures a.Through? ==> Matches(a.rt, a.ct)
    ensures !a.Elsewhere? ==> Chain(e).Some? && IsRead(s, Chain(e).value.0)
  {
    if Chain(e).None? || !IsRead(s, Chain(e).value.0) then Elsewhere
    else
      var (f, g) := Resolved(s, Chain(e).value.0);
      if f.typ.Struct? then AccessOf(f.typ, g.typ, s.defaults, Chain(e).value.1) else Elsewhere
  }

  /** A catalog column that the file stores. */
  predicate IsRead(s: Scan, name: string) {
    var i := IndexOf(Names(s.columns), name);
    i < |s.columns| && IdIndex(s.file, s.columns[i].id) < |s.file|
  }

  function Resolved(s: Scan, name: string): (Field, Field)
    requires IsRead(s, name)
  {
    var f := s.columns[IndexOf(Names(s.columns), name)];
    (f, s.file[IdIndex(s.file, f.id)])
  }

  datatype Rewritten = Ok(expr: Expr) | Refused

  function AccessExpr(column: Expr, a: Access, d: Defaults): Rewritten
    requires !a.Elsewhere? && (a.Through? ==> Matches(a.rt, a.ct))
  {
    match a
    case Unreadable => Refused
    case AllNull => Ok(Lit(Null))
    case Through(path, ct, rt) => Ok(CatalogType(GetField(column, path), ct, rt, Build(rt, ct, d)))
    case Under(parent, leaf, value) => Ok(DefaultUnder(column, parent, leaf, value))
  }

  /** Top-down, and not into what it produces. */
  function Rewrite(s: Scan, e: Expr): Rewritten
    requires WfScan(s)
    decreases e
  {
    var a := ChainAccess(s, e);
    if !a.Elsewhere? then AccessExpr(Col(Resolved(s, Chain(e).value.0).1.name), a, s.defaults)
    else
      match e
      case Col(name) => Ok(ColumnExpr(s, name))
      case Call(fn, args) =>
        if forall i | 0 <= i < |args| :: Rewrite(s, args[i]).Ok? then
          Ok(Call(fn, seq(|args|, i requires 0 <= i < |args| && Rewrite(s, args[i]).Ok? => Rewrite(s, args[i]).expr)))
        else Refused
      case GetField(base, keys) =>
        var r := Rewrite(s, base);
        if r.Ok? then Ok(GetField(r.expr, keys)) else Refused
      case _ => Ok(e)
  }

  /** An expression as the scan is given it, each of whose struct accesses reads into no
      absent child's default. */
  predicate CatalogExpr(s: Scan, e: Expr)
    requires WfScan(s)
    decreases e
  {
    var a := ChainAccess(s, e);
    if !a.Elsewhere? then
      var (f, g) := Resolved(s, Chain(e).value.0);
      PathSettled(f.typ, g.typ, s.defaults, Chain(e).value.1)
    else
      match e
      case Call(_, args) => forall i | 0 <= i < |args| :: CatalogExpr(s, args[i])
      case GetField(base, _) => CatalogExpr(s, base)
      case CatalogType(_, _, _, _) => false
      case DefaultUnder(_, _, _, _) => false
      case _ => true
  }

  lemma {:induction false} ChainEval(e: Expr, row: Row, fns: Functions)
    requires Chain(e).Some?
    ensures Eval(e, row, fns) == GetPath(row(Chain(e).value.0), Chain(e).value.1)
    decreases e
  {
    if !e.base.Col? {
      ChainEval(e.base, row, fns);
      var inner := Chain(e.base).value;
      GetPathConcat(row(inner.0), inner.1, e.keys);
    }
  }

  lemma AccessEval(column: Expr, a: Access, d: Defaults, row: Row, fns: Functions)
    requires !a.Elsewhere? && (a.Through? ==> Matches(a.rt, a.ct)) && AccessExpr(column, a, d).Ok?
    ensures Eval(AccessExpr(column, a, d).expr, row, fns) == EvalAccess(a, d, Eval(column, row, fns))
  {
  }

  lemma ColumnEval(s: Scan, name: string, row: Row, fns: Functions)
    requires WfScan(s) && TypedRow(s, row)
    ensures Eval(ColumnExpr(s, name), row, fns) == CatalogValue(s, row, name)
  {
    var i := IndexOf(Names(s.columns), name);
    if i < |s.columns| {
      var ct, j := s.columns[i].typ, IdIndex(s.file, s.columns[i].id);
      if j < |s.file| && ct == s.file[j].typ {
        WholeIsResolved(ct, ct, s.defaults, row(s.file[j].name));
        SameTypeReadsBare(ct, s.defaults, row(s.file[j].name));
      } else if j < |s.file| {
        BuildMatches(ct, s.file[j].typ);
        assert Eval(Col(s.file[j].name), row, fns) == row(s.file[j].name);
      }
    }
  }

  lemma StructAccessEval(s: Scan, e: Expr, row: Row, fns: Functions)
    requires WfScan(s) && TypedRow(s, row) && CatalogExpr(s, e)
    requires !ChainAccess(s, e).Elsewhere? && Rewrite(s, e).Ok?
    ensures Eval(Rewrite(s, e).expr, row, fns) == Eval(e, CatalogRow(s, row), fns)
  {
    var (name, path) := Chain(e).value;
    var (f, g) := Resolved(s, name);
    var a := ChainAccess(s, e);
    AccessEval(Col(g.name), a, s.defaults, row, fns);
    PathReadsExactly(f.typ, g.typ, s.defaults, path);
    ChainEval(e, CatalogRow(s, row), fns);
    assert CatalogRow(s, row)(name) == ReadWhole(f.typ, g.typ, s.defaults, row(g.name));
  }

  /** The rewrite is the simultaneous substitution of every catalog column by what the
      file stores of it: over any row of the file, the rewritten expression gives what the
      original gives over the catalog's view of that row. */
  lemma {:induction false} RewriteIsSubstitution(s: Scan, e: Expr, row: Row, fns: Functions)
    requires WfScan(s) && TypedRow(s, row) && CatalogExpr(s, e) && Rewrite(s, e).Ok?
    ensures Eval(Rewrite(s, e).expr, row, fns) == Eval(e, CatalogRow(s, row), fns)
    decreases e
  {
    if !ChainAccess(s, e).Elsewhere? {
      StructAccessEval(s, e, row, fns);
    } else {
      match e
      case Col(name) => ColumnEval(s, name, row, fns);
      case Lit(_) =>
      case Call(fn, args) =>
        var args' := Rewrite(s, e).expr.args;
        forall i | 0 <= i < |args|
          ensures Eval(args'[i], row, fns) == Eval(args[i], CatalogRow(s, row), fns)
        {
          RewriteIsSubstitution(s, args[i], row, fns);
        }
        assert seq(|args'|, i requires 0 <= i < |args'| => Eval(args'[i], row, fns))
            == seq(|args|, i requires 0 <= i < |args| => Eval(args[i], CatalogRow(s, row), fns));
      case GetField(base, keys) => RewriteIsSubstitution(s, base, row, fns);
    }
  }

  // ----- Chains -----

  /** `get_field` calls nested over a column, the innermost first. */
  function Nest(name: string, calls: seq<seq<string>>): Expr
    decreases |calls|
  {
    if calls == [] then Col(name) else GetField(Nest(name, calls[..|calls| - 1]), calls[|calls| - 1])
  }

  /** A chain's path is all their keys, from the innermost on. */
  lemma {:induction false} NestIsChain(name: string, calls: seq<seq<string>>)
    requires calls != []
    ensures Chain(Nest(name, calls)) == Some((name, B.Flatten(calls)))
    decreases |calls|
  {
    var front, last := calls[..|calls| - 1], calls[|calls| - 1];
    assert calls == front + [last];
    B.FlattenConcat(front, [last]);
    assert B.Flatten([last]) == last && B.Flatten(front + [last]) == B.Flatten(front) + last;
    if front == [] {
      assert [] + last == last;
    } else {
      NestIsChain(name, front);
    }
  }

  /** And nothing else is a chain. */
  lemma {:induction false} ChainIsNest(e: Expr) returns (calls: seq<seq<string>>)
    requires Chain(e).Some?
    ensures calls != [] && e == Nest(Chain(e).value.0, calls) && Chain(e).value.1 == B.Flatten(calls)
    decreases e
  {
    if e.base.Col? {
      calls := [e.keys];
      assert calls[..0] == [] && e.keys + [] == e.keys;
    } else {
      var front := ChainIsNest(e.base);
      calls := front + [e.keys];
      assert calls[..|calls| - 1] == front;
      NestIsChain(Chain(e).value.0, calls);
    }
  }

  // ----- What is refused -----

  /** A read of a struct column the file stores, by a path that does not leave its type. */
  ghost predicate IsStructAccess(s: Scan, e: Expr)
    requires WfScan(s)
  {
    && Chain(e).Some? && IsRead(s, Chain(e).value.0)
    && var (f, g) := Resolved(s, Chain(e).value.0);
       f.typ.Struct? && !GoesOff(f.typ, g.typ, Chain(e).value.1)
  }

  /** `sub` is a struct access of `e`, not within another. */
  ghost predicate Reads(s: Scan, e: Expr, sub: Expr)
    requires WfScan(s)
    decreases e
  {
    if IsStructAccess(s, e) then sub == e
    else
      match e
      case Call(_, args) => exists i | 0 <= i < |args| :: Reads(s, args[i], sub)
      case GetField(base, _) => Reads(s, base, sub)
      case _ => false
  }

  /** It ends at a child of the file's struct that has a default and nothing to read its
      validity from. */
  ghost predicate IsUnread(s: Scan, sub: Expr)
    requires WfScan(s)
  {
    && IsStructAccess(s, sub)
    && var (f, g) := Resolved(s, Chain(sub).value.0);
       EndsUnread(f.typ, g.typ, s.defaults, Chain(sub).value.1)
  }

  lemma AccessedExactly(s: Scan, e: Expr)
    requires WfScan(s)
    ensures !ChainAccess(s, e).Elsewhere? <==> IsStructAccess(s, e)
    ensures ChainAccess(s, e).Unreadable? <==> IsUnread(s, e)
  {
    if Chain(e).Some? && IsRead(s, Chain(e).value.0) {
      var (f, g) := Resolved(s, Chain(e).value.0);
      if f.typ.Struct? {
        RefusedExactly(f.typ, g.typ, s.defaults, Chain(e).value.1);
      }
    }
  }

  /** An expression is refused if and only if one of its struct accesses is. */
  lemma {:induction false} RefusedExactlyFor(s: Scan, e: Expr)
    requires WfScan(s)
    ensures Rewrite(s, e).Refused? <==> exists sub :: Reads(s, e, sub) && IsUnread(s, sub)
    decreases e
  {
    AccessedExactly(s, e);
    if IsStructAccess(s, e) {
      assert Reads(s, e, e);
    } else {
      match e
      case Call(_, args) =>
        forall i | 0 <= i < |args|
          ensures Rewrite(s, args[i]).Refused? <==> exists sub :: Reads(s, args[i], sub) && IsUnread(s, sub)
        {
          RefusedExactlyFor(s, args[i]);
        }
        forall i, sub | 0 <= i < |args| && Reads(s, args[i], sub)
          ensures Reads(s, e, sub)
        {
        }
      case GetField(base, _) =>
        RefusedExactlyFor(s, base);
        forall sub
          ensures Reads(s, e, sub) <==> Reads(s, base, sub)
        {
        }
      case _ =>
    }
  }
}
