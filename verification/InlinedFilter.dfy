/** Pushing a scan's filters into the catalog's SQL for inlined rows: translate the
    expressions that can be, rename their columns, render them with bound values. Every
    step may lose a term, and none may lose a row. */
module InlinedFilter {
  import B = Bags
  import opened Lake
  import opened DecimalText

  // ----- Values and three-valued logic -----

  datatype Value = BoolV(b: bool) | IntV(i: int) | TextV(t: string) | BytesV(bytes: string)

  function Kind(v: Value): nat {
    match v case BoolV(_) => 0 case IntV(_) => 1 case TextV(_) => 2 case BytesV(_) => 3
  }

  predicate Less(a: Value, b: Value) {
    match (a, b)
    case (BoolV(x), BoolV(y)) => !x && y
    case (IntV(x), IntV(y)) => x < y
    case (TextV(x), TextV(y)) => Before(x, y)
    case (BytesV(x), BytesV(y)) => Before(x, y)
    case _ => Kind(a) < Kind(b)
  }

  predicate Compare(op: Op, a: Value, b: Value) {
    match op
    case Eq => a == b
    case NotEq => a != b
    case Lt => Less(a, b)
    case LtEq => Less(a, b) || a == b
    case Gt => Less(b, a)
    case GtEq => Less(b, a) || a == b
  }

  /** TRUE, FALSE, or UNKNOWN. */
  type Truth = Option<bool>

  function AndT(a: Truth, b: Truth): Truth {
    if a == Some(false) || b == Some(false) then Some(false)
    else if a == Some(true) && b == Some(true) then Some(true)
    else None
  }

  function OrT(a: Truth, b: Truth): Truth {
    if a == Some(true) || b == Some(true) then Some(true)
    else if a == Some(false) && b == Some(false) then Some(false)
    else None
  }

  function AllT(ts: seq<Truth>): (r: Truth)
    ensures r == Some(true) <==> forall t | t in ts :: t == Some(true)
  {
    if ts == [] then Some(true)
    else
      assert ts[0] in ts && forall t :: t in ts <==> t == ts[0] || t in ts[1..];
      AndT(ts[0], AllT(ts[1..]))
  }

  function AnyT(ts: seq<Truth>): (r: Truth)
    ensures r == Some(true) <==> exists t | t in ts :: t == Some(true)
  {
    if ts == [] then Some(false)
    else
      assert ts[0] in ts && forall t :: t in ts <==> t == ts[0] || t in ts[1..];
      OrT(ts[0], AnyT(ts[1..]))
  }

  // ----- `LIKE` patterns -----

  predicate LikeMatch(p: string, escape: Option<char>, s: string)
    decreases |p|, |s|
  {
    if p == "" then s == ""
    else if Some(p[0]) == escape then |p| >= 2 && s != "" && s[0] == p[1] && LikeMatch(p[2..], escape, s[1..])
    else if p[0] == '%' then LikeMatch(p[1..], escape, s) || (s != "" && LikeMatch(p, escape, s[1..]))
    else s != "" && (p[0] == '_' || p[0] == s[0]) && LikeMatch(p[1..], escape, s[1..])
  }

  /** A pattern piece by piece: a character, escaped or not, `_`, `%`, or an escape with
      nothing behind it. */
  datatype Piece = Exactly(ch: char) | AnyOne | AnyMany | Dangling

  function PiecesOf(p: string, escape: Option<char>): seq<Piece> {
    if p == "" then []
    else if Some(p[0]) == escape then
      if |p| == 1 then [Dangling] else [Exactly(p[1])] + PiecesOf(p[2..], escape)
    else [if p[0] == '%' then AnyMany else if p[0] == '_' then AnyOne else Exactly(p[0])] + PiecesOf(p[1..], escape)
  }

  predicate IsPiece(piece: Piece, t: string) {
    match piece
    case Exactly(ch) => t == [ch]
    case AnyOne => |t| == 1
    case AnyMany => true
    case Dangling => false
  }

  /** `ts` are texts for the pieces, one each, that make up `s`. */
  ghost predicate Cuts(pieces: seq<Piece>, ts: seq<string>, s: string) {
    |ts| == |pieces| && B.Flatten(ts) == s && forall i | 0 <= i < |ts| :: IsPiece(pieces[i], ts[i])
  }

  lemma CutsFirst(pieces: seq<Piece>, ts: seq<string>, s: string)
    requires pieces != [] && Cuts(pieces, ts, s)
    ensures IsPiece(pieces[0], ts[0]) && s == ts[0] + B.Flatten(ts[1..])
    ensures Cuts(pieces[1..], ts[1..], B.Flatten(ts[1..]))
  {
  }

  lemma CutsCons(piece: Piece, t: string, pieces: seq<Piece>, ts: seq<string>, s: string)
    requires IsPiece(piece, t) && Cuts(pieces, ts, s)
    ensures Cuts([piece] + pieces, [t] + ts, t + s)
  {
    assert ([t] + ts)[1..] == ts;
  }

  /** A pattern matches the texts that can be cut into texts for its pieces. */
  lemma {:induction false} MatchIsCut(p: string, escape: Option<char>, s: string) returns (ts: seq<string>)
    requires LikeMatch(p, escape, s)
    ensures Cuts(PiecesOf(p, escape), ts, s)
    decreases |p|, |s|
  {
    ts := [];
    if p != "" {
      var pieces := PiecesOf(p, escape);
      if Some(p[0]) == escape {
        ts := MatchIsCut(p[2..], escape, s[1..]);
        CutsCons(pieces[0], [s[0]], pieces[1..], ts, s[1..]);
        ts := [[s[0]]] + ts;
      } else if p[0] == '%' && LikeMatch(p[1..], escape, s) {
        ts := MatchIsCut(p[1..], escape, s);
        CutsCons(pieces[0], "", pieces[1..], ts, s);
        ts := [""] + ts;
        assert "" + s == s;
      } else if p[0] == '%' {
        ts := MatchIsCut(p, escape, s[1..]);
        CutsFirst(pieces, ts, s[1..]);
        CutsCons(pieces[0], [s[0]] + ts[0], pieces[1..], ts[1..], B.Flatten(ts[1..]));
        assert s == [s[0]] + s[1..] && [s[0]] + (ts[0] + B.Flatten(ts[1..])) == [s[0]] + ts[0] + B.Flatten(ts[1..]);
        ts := [[s[0]] + ts[0]] + ts[1..];
      } else {
        ts := MatchIsCut(p[1..], escape, s[1..]);
        CutsCons(pieces[0], [s[0]], pieces[1..], ts, s[1..]);
        ts := [[s[0]]] + ts;
      }
      assert [pieces[0]] + pieces[1..] == pieces && (s != "" ==> [s[0]] + s[1..] == s);
    }
  }

  lemma {:induction false} CutIsMatch(p: string, escape: Option<char>, ts: seq<string>, s: string)
    requires Cuts(PiecesOf(p, escape), ts, s)
    ensures LikeMatch(p, escape, s)
    decreases |p|, |s|
  {
    if p != "" {
      var pieces := PiecesOf(p, escape);
      var rest := B.Flatten(ts[1..]);
      CutsFirst(pieces, ts, s);
      if Some(p[0]) == escape {
        assert rest == s[1..];
        CutIsMatch(p[2..], escape, ts[1..], rest);
      } else if p[0] == '%' && ts[0] != "" {
        var t := ts[0][1..];
        CutsCons(pieces[0], t, pieces[1..], ts[1..], rest);
        assert [pieces[0]] + pieces[1..] == pieces && t + rest == s[1..];
        CutIsMatch(p, escape, [t] + ts[1..], s[1..]);
      } else {
        assert rest == if p[0] == '%' then s else s[1..];
        CutIsMatch(p[1..], escape, ts[1..], rest);
      }
    }
  }

  ghost predicate CanCut(pieces: seq<Piece>, s: string) {
    exists ts: seq<string> :: Cuts(pieces, ts, s)
  }

  lemma MatchExactly(p: string, escape: Option<char>, s: string)
    ensures LikeMatch(p, escape, s) <==> CanCut(PiecesOf(p, escape), s)
  {
    if LikeMatch(p, escape, s) {
      var ts := MatchIsCut(p, escape, s);
      assert Cuts(PiecesOf(p, escape), ts, s);
    } else if CanCut(PiecesOf(p, escape), s) {
      var ts: seq<string> :| Cuts(PiecesOf(p, escape), ts, s);
      CutIsMatch(p, escape, ts, s);
    }
  }

  /** The literal text of a pattern that is literal text and one final `%`. */
  function PrefixOf(p: string, escape: Option<char>): Option<string> {
    if p == "" then None
    else if Some(p[0]) == escape then
      if |p| < 2 then None
      else
        var rest := PrefixOf(p[2..], escape);
        if rest.Some? then Some([p[1]] + rest.value) else None
    else if p[0] == '_' then None
    else if p[0] == '%' then if |p| == 1 then Some("") else None
    else
      var rest := PrefixOf(p[1..], escape);
      if rest.Some? then Some([p[0]] + rest.value) else None
  }

  function Chars(t: string): seq<Piece> {
    if t == "" then [] else [Exactly(t[0])] + Chars(t[1..])
  }

  /** A pattern has a literal text exactly when its pieces are characters and a final `%`,
      and then it is those characters. */
  lemma PrefixExactly(p: string, escape: Option<char>, t: string)
    ensures PrefixOf(p, escape) == Some(t) <==> PiecesOf(p, escape) == Chars(t) + [AnyMany]
  {
    if PrefixOf(p, escape) == Some(t) {
      PrefixPieces(p, escape, t);
    }
    if PiecesOf(p, escape) == Chars(t) + [AnyMany] {
      PiecesPrefix(p, escape, t);
    }
  }

  lemma {:induction false} PrefixPieces(p: string, escape: Option<char>, t: string)
    requires PrefixOf(p, escape) == Some(t)
    ensures PiecesOf(p, escape) == Chars(t) + [AnyMany]
    decreases |p|
  {
    if t != "" {
      var rest := if Some(p[0]) == escape then p[2..] else p[1..];
      assert PrefixOf(rest, escape) == Some(t[1..]);
      PrefixPieces(rest, escape, t[1..]);
    }
  }

  lemma {:induction false} PiecesPrefix(p: string, escape: Option<char>, t: string)
    requires PiecesOf(p, escape) == Chars(t) + [AnyMany]
    ensures PrefixOf(p, escape) == Some(t)
    decreases |p|
  {
    var pieces := PiecesOf(p, escape);
    assert p != "";
    var rest := if Some(p[0]) == escape && |p| > 1 then p[2..] else p[1..];
    if t == "" {
      assert pieces == [AnyMany];
      assert pieces == [AnyMany] + PiecesOf(rest, escape);
      assert rest == "";
    } else {
      assert pieces[1..] == Chars(t[1..]) + [AnyMany] && pieces[0] == Exactly(t[0]);
      assert PiecesOf(rest, escape) == pieces[1..];
      PiecesPrefix(rest, escape, t[1..]);
      assert t == [t[0]] + t[1..];
    }
  }

  lemma {:induction false} AnythingMatches(p: string, escape: Option<char>, s: string)
    requires p == "%" && escape != Some('%')
    ensures LikeMatch(p, escape, s)
    decreases |s|
  {
    if s != "" {
      AnythingMatches(p, escape, s[1..]);
    }
  }

  /** Such a pattern matches exactly the texts that start with its literal text. */
  lemma {:induction false} PrefixMatches(p: string, escape: Option<char>, s: string)
    requires PrefixOf(p, escape).Some?
    ensures LikeMatch(p, escape, s) <==> PrefixOf(p, escape).value <= s
    decreases |p|
  {
    if Some(p[0]) == escape {
      StartsStep(p[1], PrefixOf(p[2..], escape).value, s);
      if s != "" {
        PrefixMatches(p[2..], escape, s[1..]);
      }
    } else if p[0] == '%' {
      AnythingMatches(p, escape, s);
    } else {
      StartsStep(p[0], PrefixOf(p[1..], escape).value, s);
      if s != "" {
        PrefixMatches(p[1..], escape, s[1..]);
      }
    }
  }

  lemma StartsStep(c: char, rest: string, s: string)
    ensures [c] + rest <= s <==> s != "" && s[0] == c && rest <= s[1..]
  {
    if s != "" && s[0] == c && rest <= s[1..] {
      assert s == [c] + s[1..];
    }
    if [c] + rest <= s {
      assert s[1..][..|rest|] == ([c] + rest)[1..];
    }
  }

  // ----- Without an escape argument -----

  /** The escape the evaluator takes: a backslash where `LIKE` names none. */
  function EscapeOf(escape: Option<char>): Option<char> {
    if escape.Some? then escape else Some('\\')
  }

  /** The pattern is parsed as it is evaluated. */
  predicate Escapes(p: string, escape: Option<char>) {
    escape.Some? || '\\' !in p
  }

  lemma {:induction false} NoBackslash(p: string, s: string)
    requires '\\' !in p
    ensures LikeMatch(p, Some('\\'), s) == LikeMatch(p, None, s)
    decreases |p|, |s|
  {
    if p != "" {
      assert p[0] in p && forall ch | ch in p[1..] :: ch in p;
      NoBackslash(p[1..], s);
      if s != "" {
        NoBackslash(p[1..], s[1..]);
        NoBackslash(p, s[1..]);
      }
    }
  }

  /** A text the evaluator matches, its wildcard standing for nothing. */
  function Sample(p: string): string {
    if p == "" || p == "%" then ""
    else if p[0] == '\\' && |p| >= 2 then [p[1]] + Sample(p[2..])
    else [p[0]] + Sample(p[1..])
  }

  lemma {:induction false} SampleMatches(p: string)
    requires PrefixOf(p, None).Some?
    ensures LikeMatch(p, Some('\\'), Sample(p))
    decreases |p|
  {
    if p[0] == '\\' {
      assert |p| >= 2 && Sample(p)[1..] == Sample(p[2..]);
      if p[1] != '%' {
        SampleMatches(p[2..]);
      }
    } else if p[0] != '%' {
      assert Sample(p)[1..] == Sample(p[1..]);
      SampleMatches(p[1..]);
    }
  }

  /** Each backslash is read as one character more than it stands for. */
  lemma {:induction false} SampleShort(p: string)
    requires PrefixOf(p, None).Some?
    ensures |Sample(p)| <= |PrefixOf(p, None).value|
    decreases |p|
  {
    if p[0] == '\\' {
      if p[1] != '%' {
        SampleShort(p[2..]);
      }
    } else if p[0] != '%' {
      SampleShort(p[1..]);
    }
  }

  lemma {:induction false} SampleMissed(p: string)
    requires PrefixOf(p, None).Some? && '\\' in p
    ensures !(PrefixOf(p, None).value <= Sample(p))
    decreases |p|
  {
    if p[0] == '\\' {
      assert PrefixOf(p, None).value[0] == '\\' && Sample(p)[0] == p[1];
      if p[1] == '\\' {
        SampleShort(p[2..]);
        assert |PrefixOf(p, None).value| == 2 + |PrefixOf(p[2..], None).value|;
      }
    } else {
      SampleMissed(p[1..]);
      StartsStep(p[0], PrefixOf(p[1..], None).value, Sample(p));
      assert Sample(p)[1..] == Sample(p[1..]);
    }
  }

  /** A parsed pattern is a test of its literal text as it is evaluated if and only if it
      names an escape or holds no backslash; otherwise a text it matches fails the test. */
  lemma EscapedExactly(p: string, escape: Option<char>)
    requires PrefixOf(p, escape).Some?
    ensures Escapes(p, escape) ==> forall s :: LikeMatch(p, EscapeOf(escape), s) <==> PrefixOf(p, escape).value <= s
    ensures !Escapes(p, escape) ==>
            LikeMatch(p, EscapeOf(escape), Sample(p)) && !(PrefixOf(p, escape).value <= Sample(p))
  {
    if Escapes(p, escape) {
      forall s
        ensures LikeMatch(p, EscapeOf(escape), s) <==> PrefixOf(p, escape).value <= s
      {
        PrefixMatches(p, escape, s);
        if escape.None? {
          NoBackslash(p, s);
        }
      }
    } else {
      SampleMatches(p);
      SampleMissed(p);
    }
  }

  /** `parse_prefix_pattern`. */
  method ParsePrefixPattern(pattern: string, escape: Option<char>) returns (r: Option<string>)
    ensures r == PrefixOf(pattern, escape)
    ensures r.Some? ==> forall s :: LikeMatch(pattern, escape, s) <==> r.value <= s
  {
    var prefix, i, wildcard := "", 0, false;
    assert pattern[0..] == pattern;
    PrependNothing(PrefixOf(pattern, escape));
    while i < |pattern|
      invariant i <= |pattern| && (wildcard ==> i == |pattern|)
      invariant wildcard ==> PrefixOf(pattern, escape) == Some(prefix)
      invariant !wildcard ==> PrefixOf(pattern, escape) == Prepend(prefix, PrefixOf(pattern[i..], escape))
    {
      var ch, rest := pattern[i], pattern[i..];
      i := i + 1;
      if Some(ch) == escape {
        if i == |pattern| {
          return None;
        }
        assert rest[2..] == pattern[i + 1..];
        PrependMore(prefix, rest[1], PrefixOf(rest[2..], escape));
        prefix := prefix + [pattern[i]];
        i := i + 1;
      } else if ch == '_' {
        return None;
      } else if ch == '%' {
        if i < |pattern| {
          return None;
        }
        assert prefix + "" == prefix;
        wildcard := true;
      } else {
        assert rest[1..] == pattern[i..];
        PrependMore(prefix, ch, PrefixOf(rest[1..], escape));
        prefix := prefix + [ch];
      }
    }
    r := if wildcard then Some(prefix) else None;
    if r.Some? {
      forall s
        ensures LikeMatch(pattern, escape, s) <==> r.value <= s
      {
        PrefixMatches(pattern, escape, s);
      }
    }
  }

  function Prepend(prefix: string, rest: Option<string>): Option<string> {
    if rest.Some? then Some(prefix + rest.value) else None
  }

  lemma PrependNothing(rest: Option<string>)
    ensures Prepend("", rest) == rest
  {
    assert rest.Some? ==> "" + rest.value == rest.value;
  }

  lemma PrependMore(prefix: string, c: char, rest: Option<string>)
    ensures Prepend(prefix, Prepend([c], rest)) == Prepend(prefix + [c], rest)
  {
    assert rest.Some? ==> prefix + ([c] + rest.value) == prefix + [c] + rest.value;
  }

  // ----- Filters -----

  datatype Constant = BoolC(b: bool) | I64(i: int) | U64(n: u64) | Utf8(t: string) | Binary(bytes: string)

  function ValueOf(c: Constant): Value {
    match c
    case BoolC(b) => BoolV(b)
    case I64(i) => IntV(i)
    case U64(n) => IntV(n)
    case Utf8(t) => TextV(t)
    case Binary(bytes) => BytesV(bytes)
  }

  datatype Filter =
    | Comparison(column: string, op: Op, value: Constant)
    | IsNull(column: string)
    | IsNotNull(column: string)
    | Prefix(column: string, prefix: string)
    | And(children: seq<Filter>)
    | Or(children: seq<Filter>)

  /** A row's values by column, `None` for NULL. */
  type Tuple = string -> Option<Value>

  function StartsWithT(v: Option<Value>, prefix: string): Truth {
    if v.Some? && v.value.TextV? then Some(prefix <= v.value.t) else None
  }

  function Eval(f: Filter, row: Tuple): Truth
    decreases f
  {
    match f
    case Comparison(column, op, value) =>
      if row(column).Some? then Some(Compare(op, row(column).value, ValueOf(value))) else None
    case IsNull(column) => Some(row(column).None?)
    case IsNotNull(column) => Some(row(column).Some?)
    case Prefix(column, prefix) => StartsWithT(row(column), prefix)
    case And(children) => AllT(EvalAll(children, row))
    case Or(children) => AnyT(EvalAll(children, row))
  }

  function EvalAll(fs: seq<Filter>, row: Tuple): (r: seq<Truth>)
    ensures |r| == |fs|
    ensures forall i | 0 <= i < |fs| :: r[i] == Eval(fs[i], row)
    decreases fs
  {
    seq(|fs|, i requires 0 <= i < |fs| => Eval(fs[i], row))
  }

  /** An `AND` of what is left of its terms: nothing, the one term, or several. */
  function AndOf(kept: seq<Filter>): Option<Filter> {
    if kept == [] then None else if |kept| == 1 then Some(kept[0]) else Some(And(kept))
  }

  lemma AndOfTrue(kept: seq<Filter>, row: Tuple)
    requires kept != []
    ensures Eval(AndOf(kept).value, row) == Some(true) <==> forall f | f in kept :: Eval(f, row) == Some(true)
  {
    var ts := EvalAll(kept, row);
    assert (forall t | t in ts :: t == Some(true)) <==> forall f | f in kept :: Eval(f, row) == Some(true) by {
      forall f | f in kept
        ensures Eval(f, row) in ts
      {
        var i :| 0 <= i < |kept| && kept[i] == f;
        assert ts[i] == Eval(f, row);
      }
      forall t | t in ts
        ensures exists f | f in kept :: Eval(f, row) == t
      {
        var i :| 0 <= i < |ts| && ts[i] == t;
        assert kept[i] in kept;
      }
    }
  }

  // ----- Translating -----

  datatype Expr =
    | Column(name: string)
    | Literal(value: Option<Constant>)
    | AndE(left: Expr, right: Expr)
    | OrE(left: Expr, right: Expr)
    | CompareE(op: Op, left: Expr, right: Expr)
    | IsNullE(arg: Expr)
    | IsNotNullE(arg: Expr)
    | LikeE(arg: Expr, pattern: Expr, negated: bool, caseInsensitive: bool, escape: Option<char>)
    | StartsWithE(arg: Expr, prefix: Expr)
    | Unsupported(id: int)

  /** A row, and what the expressions the translation does not know give on it. */
  datatype Env = Env(row: Tuple, unsupported: int -> Option<Value>, ilike: (string, string, Option<char>) -> bool)

  function TruthOf(v: Option<Value>): Truth {
    if v.Some? && v.value.BoolV? then Some(v.value.b) else None
  }

  function ValueOfTruth(t: Truth): Option<Value> {
    if t.Some? then Some(BoolV(t.value)) else None
  }

  function EvalE(e: Expr, env: Env): Option<Value> {
    match e
    case Column(name) => env.row(name)
    case Literal(value) => if value.Some? then Some(ValueOf(value.value)) else None
    case AndE(l, r) => ValueOfTruth(AndT(TruthOf(EvalE(l, env)), TruthOf(EvalE(r, env))))
    case OrE(l, r) => ValueOfTruth(OrT(TruthOf(EvalE(l, env)), TruthOf(EvalE(r, env))))
    case CompareE(op, l, r) =>
      var a, b := EvalE(l, env), EvalE(r, env);
      if a.Some? && b.Some? then Some(BoolV(Compare(op, a.value, b.value))) else None
    case IsNullE(arg) => Some(BoolV(EvalE(arg, env).None?))
    case IsNotNullE(arg) => Some(BoolV(EvalE(arg, env).Some?))
    case LikeE(arg, pattern, negated, caseInsensitive, escape) =>
      var a, p := EvalE(arg, env), EvalE(pattern, env);
      if a.Some? && a.value.TextV? && p.Some? && p.value.TextV? then
        var matches := if caseInsensitive then env.ilike(p.value.t, a.value.t, escape)
          else LikeMatch(p.value.t, EscapeOf(escape), a.value.t);
        Some(BoolV(matches != negated))
      else None
    case StartsWithE(arg, prefix) =>
      var p := EvalE(prefix, env);
      if p.Some? && p.value.TextV? then ValueOfTruth(StartsWithT(EvalE(arg, env), p.value.t)) else None
    case Unsupported(id) => env.unsupported(id)
  }

  predicate Holds(e: Expr, env: Env) {
    EvalE(e, env) == Some(BoolV(true))
  }

  function Reversed(op: Op): Op {
    match op case Eq => Eq case NotEq => NotEq case Lt => Gt case LtEq => GtEq case Gt => Lt case GtEq => LtEq
  }

  predicate IsConstant(e: Expr) {
    e.Literal? && e.value.Some?
  }

  predicate IsText(e: Expr) {
    IsConstant(e) && e.value.value.Utf8?
  }

  /** `translate_expr`. */
  function Translate(e: Expr): Option<Filter> {
    match e
    case AndE(l, r) =>
      var a, b := Translate(l), Translate(r);
      AndOf((if a.Some? then [a.value] else []) + (if b.Some? then [b.value] else []))
    case OrE(l, r) =>
      var a, b := Translate(l), Translate(r);
      if a.Some? && b.Some? then Some(Or([a.value, b.value])) else None
    case CompareE(op, l, r) =>
      if l.Column? && IsConstant(r) then Some(Comparison(l.name, op, r.value.value))
      else if r.Column? && IsConstant(l) then Some(Comparison(r.name, Reversed(op), l.value.value))
      else None
    case IsNullE(arg) => if arg.Column? then Some(IsNull(arg.name)) else None
    case IsNotNullE(arg) => if arg.Column? then Some(IsNotNull(arg.name)) else None
    case LikeE(arg, pattern, negated, caseInsensitive, escape) =>
      if negated || caseInsensitive || !IsText(pattern) || !arg.Column? then None
      else
        var prefix := PrefixOf(pattern.value.value.t, escape);
        if prefix.Some? then Some(Prefix(arg.name, prefix.value)) else None
    case StartsWithE(arg, prefix) =>
      if IsText(prefix) && arg.Column? then Some(Prefix(arg.name, prefix.value.value.t)) else None
    case _ => None
  }

  lemma LikeTranslates(e: Expr, env: Env)
    requires e.LikeE? && Translate(e).Some? && Escaped(e) && Holds(e, env)
    ensures Eval(Translate(e).value, env.row) == Some(true)
  {
    assert EvalE(e.arg, env) == env.row(e.arg.name) && EvalE(e.pattern, env) == Some(TextV(e.pattern.value.value.t));
    EscapedExactly(e.pattern.value.value.t, e.escape);
  }

  /** Every `LIKE` that is translated names an escape or holds no backslash. */
  predicate Escaped(e: Expr) {
    match e
    case AndE(l, r) => Escaped(l) && Escaped(r)
    case OrE(l, r) => Escaped(l) && Escaped(r)
    case LikeE(_, pattern, _, _, escape) => Translate(e).Some? ==> Escapes(pattern.value.value.t, escape)
    case _ => true
  }

  /** `LIKE` is translated without losing a row if and only if it names an escape or its
      pattern holds no backslash: otherwise a row it is TRUE on fails the translation. */
  lemma LikeExactly(e: Expr, env: Env)
    requires e.LikeE? && Translate(e).Some?
    requires env.row(e.arg.name) == Some(TextV(Sample(e.pattern.value.value.t)))
    ensures !Escaped(e) ==> Holds(e, env) && Eval(Translate(e).value, env.row) == Some(false)
    ensures Escaped(e) ==> (Holds(e, env) <==> Eval(Translate(e).value, env.row) == Some(true))
  {
    assert EvalE(e.arg, env) == env.row(e.arg.name) && EvalE(e.pattern, env) == Some(TextV(e.pattern.value.value.t));
    EscapedExactly(e.pattern.value.value.t, e.escape);
  }

  /** `LIKE 'a\\%'`, which is TRUE of `a%` alone, is translated to a test that drops it. */
  lemma BareBackslashDrops(env: Env)
    requires env.row("c") == Some(TextV("a%"))
    ensures var e := LikeE(Column("c"), Literal(Some(Utf8("a\\%"))), false, false, None);
            Translate(e) == Some(Prefix("c", "a\\")) && Holds(e, env)
              && Eval(Prefix("c", "a\\"), env.row) == Some(false)
  {
    var p := "a\\%";
    assert p[1..] == "\\%" && p[1..][1..] == "%" && p[1..][2..] == "";
    assert PrefixOf("%", None) == Some("") && "\\" + "" == "\\";
    assert PrefixOf("\\%", None) == Some("\\");
    assert "a" + "\\" == "a\\" && PrefixOf(p, None) == Some("a\\");
    assert Sample(p[1..]) == "%" && Sample(p) == "a%";
    LikeExactly(LikeE(Column("c"), Literal(Some(Utf8(p))), false, false, None), env);
  }

  lemma AndTranslates(e: Expr, env: Env)
    requires e.AndE? && Translate(e).Some? && Holds(e, env)
    requires Translate(e.left).Some? ==> Eval(Translate(e.left).value, env.row) == Some(true)
    requires Translate(e.right).Some? ==> Eval(Translate(e.right).value, env.row) == Some(true)
    ensures Eval(Translate(e).value, env.row) == Some(true)
  {
    var a, b := Translate(e.left), Translate(e.right);
    AndOfTrue((if a.Some? then [a.value] else []) + (if b.Some? then [b.value] else []), env.row);
  }

  /** A row on which the expression is TRUE is one on which its translation is. */
  lemma {:induction false} TranslationWeakens(e: Expr, env: Env)
    requires Translate(e).Some? && Escaped(e) && Holds(e, env)
    ensures Eval(Translate(e).value, env.row) == Some(true)
    decreases e
  {
    match e
    case AndE(l, r) =>
      if Translate(l).Some? {
        TranslationWeakens(l, env);
      }
      if Translate(r).Some? {
        TranslationWeakens(r, env);
      }
      AndTranslates(e, env);
    case OrE(l, r) =>
      var fs := Translate(e).value.children;
      var ts := EvalAll(fs, env.row);
      if Holds(l, env) {
        TranslationWeakens(l, env);
        assert ts[0] in ts;
      } else {
        TranslationWeakens(r, env);
        assert ts[1] in ts;
      }
    case LikeE(_, _, _, _, _) => LikeTranslates(e, env);
    case CompareE(_, l, r) => LeafTranslates(l, env); LeafTranslates(r, env);
    case IsNullE(arg) => LeafTranslates(arg, env);
    case IsNotNullE(arg) => LeafTranslates(arg, env);
    case StartsWithE(arg, prefix) => LeafTranslates(arg, env); LeafTranslates(prefix, env);
  }

  lemma LeafTranslates(e: Expr, env: Env)
    ensures e.Column? ==> EvalE(e, env) == env.row(e.name)
    ensures IsConstant(e) ==> EvalE(e, env) == Some(ValueOf(e.value.value))
  {
  }

  function TranslateAll(es: seq<Expr>): seq<Filter> {
    if es == [] then []
    else (if Translate(es[0]).Some? then [Translate(es[0]).value] else []) + TranslateAll(es[1..])
  }

  lemma {:induction false} AllTranslationsWeaken(es: seq<Expr>, env: Env)
    requires forall e | e in es :: Escaped(e) && Holds(e, env)
    ensures forall f | f in TranslateAll(es) :: Eval(f, env.row) == Some(true)
  {
    if es != [] {
      assert es[0] in es;
      if Translate(es[0]).Some? {
        TranslationWeakens(es[0], env);
      }
      AllTranslationsWeaken(es[1..], env);
    }
  }

  // ----- Renaming -----

  type Renaming = string -> Option<string>

  /** `rename_columns`. */
  function Rename(f: Filter, to: Renaming): Option<Filter>
    decreases f
  {
    match f
    case Comparison(column, op, value) => if to(column).Some? then Some(Comparison(to(column).value, op, value))
      else None
    case IsNull(column) => if to(column).Some? then Some(IsNull(to(column).value)) else None
    case IsNotNull(column) => if to(column).Some? then Some(IsNotNull(to(column).value)) else None
    case Prefix(column, prefix) => if to(column).Some? then Some(Prefix(to(column).value, prefix)) else None
    case And(children) => AndOf(RenameKept(children, to))
    case Or(children) =>
      if forall i | 0 <= i < |children| :: Rename(children[i], to).Some? then
        Some(Or(seq(|children|, i requires 0 <= i < |children|
          && Rename(children[i], to).Some? => Rename(children[i], to).value)))
      else None
  }

  function RenameKept(fs: seq<Filter>, to: Renaming): seq<Filter>
    decreases fs
  {
    if fs == [] then []
    else (if Rename(fs[0], to).Some? then [Rename(fs[0], to).value] else []) + RenameKept(fs[1..], to)
  }

  /** `renamed` holds under each new name what `row` holds under the old. */
  predicate Follows(row: Tuple, to: Renaming, renamed: Tuple, f: Filter)
    decreases f
  {
    match f
    case And(children) => forall i | 0 <= i < |children| :: Follows(row, to, renamed, children[i])
    case Or(children) => forall i | 0 <= i < |children| :: Follows(row, to, renamed, children[i])
    case _ => to(f.column).Some? ==> renamed(to(f.column).value) == row(f.column)
  }

  lemma {:induction false} KeptWeaken(fs: seq<Filter>, to: Renaming, row: Tuple, renamed: Tuple)
    requires forall i | 0 <= i < |fs| :: Rename(fs[i], to).Some? ==>
             Eval(Rename(fs[i], to).value, renamed) == Some(true)
    ensures forall f | f in RenameKept(fs, to) :: Eval(f, renamed) == Some(true)
    decreases |fs|
  {
    if fs != [] {
      assert forall i | 0 <= i < |fs[1..]| :: fs[1..][i] == fs[i + 1];
      KeptWeaken(fs[1..], to, row, renamed);
    }
  }

  /** A term whose column has no new name is dropped only where that keeps more rows. */
  lemma {:induction false} RenamingWeakens(f: Filter, to: Renaming, row: Tuple, renamed: Tuple)
    requires Rename(f, to).Some? && Follows(row, to, renamed, f) && Eval(f, row) == Some(true)
    ensures Eval(Rename(f, to).value, renamed) == Some(true)
    decreases f
  {
    match f
    case And(children) =>
      var ts := EvalAll(children, row);
      forall i | 0 <= i < |children| && Rename(children[i], to).Some?
        ensures Eval(Rename(children[i], to).value, renamed) == Some(true)
      {
        assert ts[i] in ts;
        RenamingWeakens(children[i], to, row, renamed);
      }
      KeptWeaken(children, to, row, renamed);
      AndOfTrue(RenameKept(children, to), renamed);
    case Or(children) =>
      var ts := EvalAll(children, row);
      var i :| 0 <= i < |ts| && ts[i] == Some(true);
      RenamingWeakens(children[i], to, row, renamed);
      var ts' := EvalAll(Rename(f, to).value.children, renamed);
      assert ts'[i] in ts';
    case _ =>
  }
}
