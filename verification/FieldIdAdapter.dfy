/** The per-file rewrite of a scan's expressions: each catalog column, and each path into
    a struct column, is resolved by field id against the columns one file stores.

    A value is one row's. The catalog and a file type a column each in their own names
    and order; the fields of both carry the ids that tie them together. */
module FieldIdAdapter {
  import opened Lake

  datatype Field = Field(id: int, name: string, typ: Type)

  datatype Type = Leaf | Struct(fields: seq<Field>) | List(element: Type) | Map(value: Type)

  /** A file's type in the catalog's order: each struct child under the name the file
      stores it with, or absent from the file. */
  datatype ReadType = RLeaf | RStruct(children: seq<ReadChild>) | RList(element: ReadType) | RMap(value: ReadType)

  datatype ReadChild = Present(name: string, typ: ReadType) | Absent(id: int)

  datatype Value =
    | Null
    | Scalar(v: int)
    | Record(names: seq<string>, children: seq<Value>)
    | Items(items: seq<Value>)
    | Entries(names: seq<string>, children: seq<Value>)

  /** Decoded `initial_default`s by field id; one spelled `NULL` is none. */
  type Defaults = map<int, Value>

  // ----- Names, ids and paths -----

  function Names(fields: seq<Field>): seq<string> {
    seq(|fields|, i requires 0 <= i < |fields| => fields[i].name)
  }

  function IndexOf(names: seq<string>, key: string): (i: nat)
    ensures i <= |names| && key !in names[..i] && (i < |names| ==> names[i] == key)
  {
    if names == [] || names[0] == key then 0 else 1 + IndexOf(names[1..], key)
  }

  function IdIndex(fields: seq<Field>, id: int): (i: nat)
    ensures i <= |fields| && (i < |fields| ==> fields[i].id == id) && forall k | 0 <= k < i :: fields[k].id != id
  {
    if fields == [] || fields[0].id == id then 0 else 1 + IdIndex(fields[1..], id)
  }

  /** `get_field` with one key. */
  function Get(v: Value, key: string): Value {
    if (v.Record? || v.Entries?) && IndexOf(v.names, key) < |v.children| then v.children[IndexOf(v.names, key)]
      else Null
  }

  function GetPath(v: Value, path: seq<string>): Value
    decreases |path|
  {
    if path == [] then v else GetPath(Get(v, path[0]), path[1..])
  }

  lemma {:induction false} GetPathConcat(v: Value, p: seq<string>, q: seq<string>)
    ensures GetPath(v, p + q) == GetPath(GetPath(v, p), q)
    decreases |p|
  {
    if p == [] {
      assert p + q == q;
    } else {
      assert (p + q)[1..] == p[1..] + q;
      GetPathConcat(Get(v, p[0]), p[1..], q);
    }
  }

  lemma {:induction false} GetPathNull(p: seq<string>)
    ensures GetPath(Null, p) == Null
    decreases |p|
  {
    if p != [] {
      GetPathNull(p[1..]);
    }
  }

  predicate DistinctNames(names: seq<string>) {
    forall i, j | 0 <= i < j < |names| :: names[i] != names[j]
  }

  lemma {:induction false} OnlyIndex(names: seq<string>, i: nat)
    requires DistinctNames(names) && i < |names|
    ensures IndexOf(names, names[i]) == i
  {
    if i > 0 {
      assert names[1..][i - 1] == names[i];
      OnlyIndex(names[1..], i - 1);
    }
  }

  // ----- Types -----

  predicate Typed(v: Value, t: Type)
    decreases t
  {
    v.Null? ||
    match t
    case Leaf => v.Scalar?
    case Struct(fields) =>
      && v.Record? && v.names == Names(fields) && |v.children| == |fields|
      && forall i | 0 <= i < |fields| :: Typed(v.children[i], fields[i].typ)
    case List(element) => v.Items? && forall i | 0 <= i < |v.items| :: Typed(v.items[i], element)
    case Map(value) =>
      && v.Entries? && |v.names| == |v.children|
      && forall i | 0 <= i < |v.children| :: Typed(v.children[i], value)
  }

  /** The file types every field it has in common with the catalog in the same shape, and
      names the children of a struct apart. */
  predicate Fits(ct: Type, ft: Type)
    decreases ct
  {
    match ct
    case Leaf => ft.Leaf?
    case Struct(fields) =>
      && ft.Struct? && DistinctNames(Names(fields)) && DistinctNames(Names(ft.fields))
      && forall i | 0 <= i < |fields| ::
           var j := IdIndex(ft.fields, fields[i].id);
           j < |ft.fields| ==> Fits(fields[i].typ, ft.fields[j].typ)
    case List(element) => ft.List? && Fits(element, ft.element)
    case Map(value) => ft.Map? && Fits(value, ft.value)
  }

  function BuildRead(ct: Type, ft: Type): ReadType
    requires Fits(ct, ft)
    decreases ct
  {
    match ct
    case Leaf => RLeaf
    case Struct(fields) => RStruct(seq(|fields|, i requires 0 <= i < |fields| =>
        var j := IdIndex(ft.fields, fields[i].id);
        if j < |ft.fields| then Present(ft.fields[j].name, BuildRead(fields[i].typ, ft.fields[j].typ))
          else Absent(fields[i].id)))
    case List(element) => RList(BuildRead(element, ft.element))
    case Map(value) => RMap(BuildRead(value, ft.value))
  }

  /** The read type lists the catalog's children in order. */
  predicate Matches(rt: ReadType, ct: Type)
    decreases ct
  {
    match ct
    case Leaf => rt.RLeaf?
    case Struct(fields) =>
      && rt.RStruct? && |rt.children| == |fields|
      && forall i | 0 <= i < |fields| :: rt.children[i].Present? ==> Matches(rt.children[i].typ, fields[i].typ)
    case List(element) => rt.RList? && Matches(rt.element, element)
    case Map(value) => rt.RMap? && Matches(rt.value, value)
  }

  lemma {:induction false} BuildMatches(ct: Type, ft: Type)
    requires Fits(ct, ft)
    ensures Matches(BuildRead(ct, ft), ct)
    decreases ct
  {
    match ct
    case Leaf =>
    case Struct(fields) =>
      forall i | 0 <= i < |fields| && IdIndex(ft.fields, fields[i].id) < |ft.fields|
        ensures Matches(BuildRead(fields[i].typ, ft.fields[IdIndex(ft.fields, fields[i].id)].typ), fields[i].typ)
      {
        BuildMatches(fields[i].typ, ft.fields[IdIndex(ft.fields, fields[i].id)].typ);
      }
    case List(element) => BuildMatches(element, ft.element);
    case Map(value) => BuildMatches(value, ft.value);
  }

  // ----- Reading the whole column -----

  /** The value read under the read type, relabelled to the catalog's names; a child the
      file does not store is NULL. */
  function Coerce(rt: ReadType, ct: Type, v: Value): Value
    requires Matches(rt, ct)
    decreases ct
  {
    if v.Null? then Null
    else
      match ct
      case Leaf => v
      case Struct(fields) => Record(Names(fields), seq(|fields|, i requires 0 <= i < |fields| =>
          if rt.children[i].Absent? then Null else Coerce(rt.children[i].typ, fields[i].typ,
            Get(v, rt.children[i].name))))
      case List(element) =>
        if v.Items? then Items(seq(|v.items|, i requires 0 <= i < |v.items| => Coerce(rt.element, element,
          v.items[i]))) else Null
      case Map(value) =>
        if v.Entries? then Entries(v.names,
          seq(|v.children|, i requires 0 <= i < |v.children| => Coerce(rt.value, value, v.children[i]))) else Null
  }

  datatype Fill = FillStruct(fills: seq<PlacedFill>) | FillList(element: Fill) | FillMap(value: Fill)

  datatype PlacedFill = At(position: nat, fill: ChildFill)

  datatype ChildFill = Default(value: Value) | Nested(inner: Fill)

  /** `DefaultFill::build`. */
  function Build(rt: ReadType, ct: Type, d: Defaults): Option<Fill>
    requires Matches(rt, ct)
    decreases ct
  {
    match ct
    case Leaf => None
    case Struct(fields) =>
      var fills := BuildFrom(rt.children, fields, 0, d);
      if fills == [] then None else Some(FillStruct(fills))
    case List(element) =>
      var fill := Build(rt.element, element, d);
      if fill.Some? then Some(FillList(fill.value)) else None
    case Map(value) =>
      var fill := Build(rt.value, value, d);
      if fill.Some? then Some(FillMap(fill.value)) else None
  }

  function BuildFrom(children: seq<ReadChild>, fields: seq<Field>, k: nat, d: Defaults): seq<PlacedFill>
    requires |children| == |fields| && k <= |fields|
    requires forall i | 0 <= i < |fields| :: children[i].Present? ==> Matches(children[i].typ, fields[i].typ)
    decreases fields, |fields| - k
  {
    if k == |fields| then []
    else
      var rest := BuildFrom(children, fields, k + 1, d);
      match children[k]
      case Absent(id) => if id in d then [At(k, Default(d[id]))] + rest else rest
      case Present(_, typ) =>
        var fill := Build(typ, fields[k].typ, d);
        if fill.Some? then [At(k, Nested(fill.value))] + rest else rest
  }

  /** `DefaultFill::apply`: a default takes its struct's validity. */
  function Apply(fill: Fill, v: Value): Value
    decreases fill
  {
    match fill
    case FillStruct(fills) => if v.Record? then Record(v.names, ApplyAll(fills, v.children)) else v
    case FillList(inner) => if v.Items? then
      Items(seq(|v.items|, i requires 0 <= i < |v.items| => Apply(inner, v.items[i]))) else v
    case FillMap(inner) =>
      if v.Entries? then Entries(v.names,
        seq(|v.children|, i requires 0 <= i < |v.children| => Apply(inner, v.children[i]))) else v
  }

  function Filled(placed: PlacedFill, column: Value): Value
    decreases placed
  {
    match placed.fill
    case Default(value) => value
    case Nested(inner) => Apply(inner, column)
  }

  function ApplyAll(fills: seq<PlacedFill>, columns: seq<Value>): (r: seq<Value>)
    ensures |r| == |columns|
    decreases fills
  {
    if fills == [] then columns
    else
      var p := fills[0].position;
      ApplyAll(fills[1..], if p < |columns| then columns[p := Filled(fills[0], columns[p])] else columns)
  }

  function ApplyFill(fill: Option<Fill>, v: Value): Value {
    if fill.Some? then Apply(fill.value, v) else v
  }

  /** `catalog_column`: the column read as the read type, then presented as the catalog's. */
  function ReadWhole(ct: Type, ft: Type, d: Defaults, v: Value): Value
    requires Fits(ct, ft)
  {
    BuildMatches(ct, ft);
    var rt := BuildRead(ct, ft);
    ApplyFill(Build(rt, ct, d), Coerce(rt, ct, v))
  }

  // ----- What a file's value means to the catalog -----

  function DefaultOf(d: Defaults, id: int): Value {
    if id in d then d[id] else Null
  }

  /** Each catalog child is the file child of its id, or its default where the file has
      none. */
  function Resolve(ct: Type, ft: Type, d: Defaults, v: Value): Value
    requires Fits(ct, ft) && Typed(v, ft)
    decreases ct
  {
    if v.Null? then Null
    else
      match ct
      case Leaf => v
      case Struct(fields) => Record(Names(fields), seq(|fields|, i requires 0 <= i < |fields| =>
          var j := IdIndex(ft.fields, fields[i].id);
          if j < |ft.fields| then Resolve(fields[i].typ, ft.fields[j].typ, d, v.children[j])
            else DefaultOf(d, fields[i].id)))
      case List(element) => Items(seq(|v.items|, i requires 0 <= i < |v.items| => Resolve(element, ft.element, d,
        v.items[i])))
      case Map(value) => Entries(v.names,
        seq(|v.children|, i requires 0 <= i < |v.children| => Resolve(value, ft.value, d, v.children[i])))
  }

  lemma GetChild(ft: Type, v: Value, j: nat)
    requires ft.Struct? && DistinctNames(Names(ft.fields)) && Typed(v, ft) && v.Record? && j < |ft.fields|
    ensures Get(v, ft.fields[j].name) == v.children[j]
  {
    assert v.names[j] == ft.fields[j].name;
    OnlyIndex(v.names, j);
  }

  /** What a struct's fills make of its columns, from position `k` on. */
  function FilledAt(children: seq<ReadChild>, fields: seq<Field>, d: Defaults, column: Value, i: nat): Value
    requires i < |children| == |fields| && (children[i].Present? ==> Matches(children[i].typ, fields[i].typ))
  {
    match children[i]
    case Absent(id) => if id in d then d[id] else column
    case Present(_, typ) => ApplyFill(Build(typ, fields[i].typ, d), column)
  }

  lemma {:induction false} FillsApply(children: seq<ReadChild>, fields: seq<Field>, k: nat, d: Defaults,
          columns: seq<Value>)
    requires |children| == |fields| == |columns| && k <= |fields|
    requires forall i | 0 <= i < |fields| :: children[i].Present? ==> Matches(children[i].typ, fields[i].typ)
    ensures var r := ApplyAll(BuildFrom(children, fields, k, d), columns);
            forall i | 0 <= i < |fields| :: r[i] == if i < k then columns[i]
              else FilledAt(children, fields, d, columns[i], i)
    decreases |fields| - k
  {
    if k < |fields| {
      var fills, rest := BuildFrom(children, fields, k, d), BuildFrom(children, fields, k + 1, d);
      if fills == rest {
        FillsApply(children, fields, k + 1, d, columns);
      } else {
        assert fills[1..] == rest;
        FillsApply(children, fields, k + 1, d, columns[k := Filled(fills[0], columns[k])]);
      }
    }
  }

  lemma {:induction false} WholeStruct(ct: Type, ft: Type, d: Defaults, v: Value)
    requires Fits(ct, ft) && Typed(v, ft) && ct.Struct? && v.Record?
    requires forall i | 0 <= i < |ct.fields| ::
               var j := IdIndex(ft.fields, ct.fields[i].id);
               j < |ft.fields| ==>
                 ReadWhole(ct.fields[i].typ, ft.fields[j].typ, d, v.children[j]) ==
                   Resolve(ct.fields[i].typ, ft.fields[j].typ, d, v.children[j])
    ensures ReadWhole(ct, ft, d, v) == Resolve(ct, ft, d, v)
  {
    BuildMatches(ct, ft);
    var rt, fields := BuildRead(ct, ft), ct.fields;
    var read, all := Coerce(rt, ct, v), Resolve(ct, ft, d, v);
    FillsApply(rt.children, fields, 0, d, read.children);
    var whole := ReadWhole(ct, ft, d, v);
    forall i | 0 <= i < |fields|
      ensures FilledAt(rt.children, fields, d, read.children[i], i) == all.children[i]
    {
      var j := IdIndex(ft.fields, fields[i].id);
      if j < |ft.fields| {
        GetChild(ft, v, j);
      }
    }
    assert whole.children == all.children;
  }

  /** Reading the whole column gives the catalog what the file's value means. */
  lemma {:induction false} WholeIsResolved(ct: Type, ft: Type, d: Defaults, v: Value)
    requires Fits(ct, ft) && Typed(v, ft)
    ensures ReadWhole(ct, ft, d, v) == Resolve(ct, ft, d, v)
    decreases ct
  {
    if !v.Null? {
      match ct
      case Leaf =>
      case Struct(fields) =>
        forall i | 0 <= i < |fields| && IdIndex(ft.fields, fields[i].id) < |ft.fields|
          ensures var j := IdIndex(ft.fields, fields[i].id);
                  ReadWhole(fields[i].typ, ft.fields[j].typ, d, v.children[j]) ==
                    Resolve(fields[i].typ, ft.fields[j].typ, d, v.children[j])
        {
          WholeIsResolved(fields[i].typ, ft.fields[IdIndex(ft.fields, fields[i].id)].typ, d,
            v.children[IdIndex(ft.fields, fields[i].id)]);
        }
        WholeStruct(ct, ft, d, v);
      case List(element) =>
        forall i | 0 <= i < |v.items|
          ensures ReadWhole(element, ft.element, d, v.items[i]) == Resolve(element, ft.element, d, v.items[i])
        {
          WholeIsResolved(element, ft.element, d, v.items[i]);
        }
        assert ReadWhole(ct, ft, d, v).items == Resolve(ct, ft, d, v).items;
      case Map(value) =>
        forall i | 0 <= i < |v.children|
          ensures ReadWhole(value, ft.value, d, v.children[i]) == Resolve(value, ft.value, d, v.children[i])
        {
          WholeIsResolved(value, ft.value, d, v.children[i]);
        }
        assert ReadWhole(ct, ft, d, v).children == Resolve(ct, ft, d, v).children;
    }
  }

  /** Ids found where they stand, in every struct of the type. */
  predicate OwnIds(t: Type)
    decreases t
  {
    match t
    case Leaf => true
    case Struct(fields) => forall i | 0 <= i < |fields| :: IdIndex(fields, fields[i].id) == i && OwnIds(fields[i].typ)
    case List(element) => OwnIds(element)
    case Map(value) => OwnIds(value)
  }

  /** A file that types a column as the catalog does can be read bare. */
  lemma {:induction false} SameTypeReadsBare(t: Type, d: Defaults, v: Value)
    requires OwnIds(t) && Fits(t, t) && Typed(v, t)
    ensures Resolve(t, t, d, v) == v
    decreases t
  {
    if !v.Null? {
      var r := Resolve(t, t, d, v);
      match t
      case Leaf =>
      case Struct(fields) =>
        forall i | 0 <= i < |fields|
          ensures Resolve(fields[i].typ, fields[i].typ, d, v.children[i]) == v.children[i]
        {
          SameTypeReadsBare(fields[i].typ, d, v.children[i]);
        }
        assert r.children == v.children;
      case List(element) =>
        forall i | 0 <= i < |v.items|
          ensures Resolve(element, element, d, v.items[i]) == v.items[i]
        {
          SameTypeReadsBare(element, d, v.items[i]);
        }
        assert r.items == v.items;
      case Map(value) =>
        forall i | 0 <= i < |v.children|
          ensures Resolve(value, value, d, v.children[i]) == v.children[i]
        {
          SameTypeReadsBare(value, d, v.children[i]);
        }
        assert r.children == v.children;
    }
  }

  // ----- Reading a path -----

  /** What `get_field(column, path…)` becomes in one file: left to be rewritten like any
      other expression; refused; the file's own `get_field`, presented as the catalog's
      type; NULL; or a default where the structs down to `parent` are valid, which is
      read through `leaf`. */
  datatype Access =
    | Elsewhere
    | Unreadable
    | Through(path: seq<string>, ct: Type, rt: ReadType)
    | AllNull
    | Under(parent: seq<string>, leaf: seq<string>, value: Value)

  /** The first leaf found through structs; a list only if `lists`. */
  function FindLeaf(fields: seq<Field>, lists: bool): Option<seq<string>>
    decreases fields
  {
    if fields == [] then None
    else
      var found := match fields[0].typ
        case Leaf => Some([])
        case Struct(children) => FindLeaf(children, lists)
        case List(_) => if lists then Some([]) else None
        case Map(_) => None;
      if found.Some? then Some([fields[0].name] + found.value) else FindLeaf(fields[1..], lists)
  }

  function ReadableLeaf(fields: seq<Field>): Option<seq<string>> {
    if FindLeaf(fields, false).Some? then FindLeaf(fields, false) else FindLeaf(fields, true)
  }

  function Prefix(name: string, a: Access): Access {
    match a
    case Through(path, ct, rt) => Through([name] + path, ct, rt)
    case Under(parent, leaf, value) => Under([name] + parent, leaf, value)
    case _ => a
  }

  /** `absent_child`, in the struct `fields` the file has. */
  function AbsentChild(fields: seq<Field>, d: Defaults, id: int, isLeaf: bool): Access {
    if !isLeaf || id !in d then AllNull
    else if ReadableLeaf(fields).None? then Unreadable
    else Under([], ReadableLeaf(fields).value, d[id])
  }

  function AccessOf(ct: Type, ft: Type, d: Defaults, path: seq<string>): (a: Access)
    requires Fits(ct, ft)
    ensures a.Through? ==> Matches(a.rt, a.ct)
    decreases |path|
  {
    if path == [] then
      BuildMatches(ct, ft);
      Through([], ct, BuildRead(ct, ft))
    else
      match ct
      case Struct(fields) =>
        var i := IndexOf(Names(fields), path[0]);
        if i == |fields| then Elsewhere
        else
          var j := IdIndex(ft.fields, fields[i].id);
          if j < |ft.fields| then Prefix(ft.fields[j].name, AccessOf(fields[i].typ, ft.fields[j].typ, d, path[1..]))
          else AbsentChild(ft.fields, d, fields[i].id, |path| == 1)
      case Map(value) => Prefix(path[0], AccessOf(value, ft.value, d, path[1..]))
      case _ => Elsewhere
  }

  /** `parent_validity`: the column and every struct down to `parent` are valid. */
  predicate AllValid(v: Value, parent: seq<string>)
    decreases |parent|
  {
    v != Null && (parent != [] ==> AllValid(Get(v, parent[0]), parent[1..]))
  }

  function EvalAccess(a: Access, d: Defaults, v: Value): Value
    requires a.Through? ==> Matches(a.rt, a.ct)
  {
    match a
    case Through(path, ct, rt) => ApplyFill(Build(rt, ct, d), Coerce(rt, ct, GetPath(v, path)))
    case Under(parent, _, value) => if AllValid(v, parent) then value else Null
    case _ => Null
  }

  lemma EvalPrefix(name: string, a: Access, d: Defaults, v: Value)
    requires a.Through? ==> Matches(a.rt, a.ct)
    ensures EvalAccess(Prefix(name, a), d, v) == EvalAccess(a, d, Get(v, name))
  {
    match a
    case Through(path, _, _) => assert ([name] + path)[1..] == path;
    case Under(parent, _, _) => assert ([name] + parent)[1..] == parent;
    case _ =>
  }

  /** No child the path passes through, absent from the file, has a default in which the
      rest of the path finds a value. */
  predicate PathSettled(ct: Type, ft: Type, d: Defaults, path: seq<string>)
    requires Fits(ct, ft)
    decreases |path|
  {
    path == [] ||
    match ct
    case Struct(fields) =>
      var i := IndexOf(Names(fields), path[0]);
      i == |fields| ||
      var j := IdIndex(ft.fields, fields[i].id);
      if j < |ft.fields| then PathSettled(fields[i].typ, ft.fields[j].typ, d, path[1..])
      else |path| == 1 || fields[i].id !in d || GetPath(d[fields[i].id], path[1..]) == Null
    case Map(value) => PathSettled(value, ft.value, d, path[1..])
    case _ => true
  }

  /** One key into the resolved struct: the file child of the same id, or the default. */
  lemma ResolvedChild(ct: Type, ft: Type, d: Defaults, v: Value, key: string)
    requires Fits(ct, ft) && Typed(v, ft) && ct.Struct? && IndexOf(Names(ct.fields), key) < |ct.fields|
    ensures var f := ct.fields[IndexOf(Names(ct.fields), key)];
            var j := IdIndex(ft.fields, f.id);
            if v.Null? then Get(Resolve(ct, ft, d, v), key) == Null
            else if j < |ft.fields| then
              && Typed(Get(v, ft.fields[j].name), ft.fields[j].typ)
              && Get(Resolve(ct, ft, d, v), key) == Resolve(f.typ, ft.fields[j].typ, d, Get(v, ft.fields[j].name))
            else Get(Resolve(ct, ft, d, v), key) == DefaultOf(d, f.id)
  {
    var f := ct.fields[IndexOf(Names(ct.fields), key)];
    var j := IdIndex(ft.fields, f.id);
    if !v.Null? && j < |ft.fields| {
      GetChild(ft, v, j);
    }
  }

  lemma ResolvedEntry(ct: Type, ft: Type, d: Defaults, v: Value, key: string)
    requires Fits(ct, ft) && Typed(v, ft) && ct.Map?
    ensures Typed(Get(v, key), ft.value) && Get(Resolve(ct, ft, d, v), key) ==
            Resolve(ct.value, ft.value, d, Get(v, key))
  {
  }

  lemma {:induction false} PathReads(ct: Type, ft: Type, d: Defaults, path: seq<string>, v: Value)
    requires Fits(ct, ft) && Typed(v, ft) && PathSettled(ct, ft, d, path)
    requires var a := AccessOf(ct, ft, d, path); !a.Elsewhere? && !a.Unreadable?
    ensures EvalAccess(AccessOf(ct, ft, d, path), d, v) == GetPath(Resolve(ct, ft, d, v), path)
    decreases |path|
  {
    if path == [] {
      WholeIsResolved(ct, ft, d, v);
    } else if ct.Map? {
      ResolvedEntry(ct, ft, d, v, path[0]);
      PathReads(ct.value, ft.value, d, path[1..], Get(v, path[0]));
      EvalPrefix(path[0], AccessOf(ct.value, ft.value, d, path[1..]), d, v);
    } else {
      var f := ct.fields[IndexOf(Names(ct.fields), path[0])];
      var j := IdIndex(ft.fields, f.id);
      ResolvedChild(ct, ft, d, v, path[0]);
      GetPathNull(path[1..]);
      if j < |ft.fields| {
        var g := ft.fields[j];
        PathReads(f.typ, g.typ, d, path[1..], Get(v, g.name));
        EvalPrefix(g.name, AccessOf(f.typ, g.typ, d, path[1..]), d, v);
      } else if |path| == 1 {
        assert path[1..] == [];
      }
    }
  }

  function Nulls(n: nat): seq<Value> {
    seq(n, i => Null)
  }

  /** A file value whose structs along the path are all valid. */
  function Along(ct: Type, ft: Type, path: seq<string>): Value
    requires Fits(ct, ft)
    decreases |path|
  {
    if path == [] then Null
    else
      match ct
      case Struct(fields) =>
        var i := IndexOf(Names(fields), path[0]);
        var none := Record(Names(ft.fields), Nulls(|ft.fields|));
        if i == |fields| then none
        else
          var j := IdIndex(ft.fields, fields[i].id);
          if j < |ft.fields| then Record(none.names,
            none.children[j := Along(fields[i].typ, ft.fields[j].typ, path[1..])]) else none
      case Map(value) => Entries([path[0]], [Along(value, ft.value, path[1..])])
      case _ => Null
  }

  lemma {:induction false} AlongIsTyped(ct: Type, ft: Type, path: seq<string>)
    requires Fits(ct, ft)
    ensures Typed(Along(ct, ft, path), ft)
    decreases |path|
  {
    if path != [] {
      if ct.Map? {
        AlongIsTyped(ct.value, ft.value, path[1..]);
      } else if ct.Struct? && IndexOf(Names(ct.fields), path[0]) < |ct.fields| {
        var f := ct.fields[IndexOf(Names(ct.fields), path[0])];
        var j := IdIndex(ft.fields, f.id);
        if j < |ft.fields| {
          AlongIsTyped(f.typ, ft.fields[j].typ, path[1..]);
        }
      }
    }
  }

  /** An unsettled path misses what its default holds. */
  lemma {:induction false} UnsettledMisses(ct: Type, ft: Type, d: Defaults, path: seq<string>)
    requires Fits(ct, ft) && !PathSettled(ct, ft, d, path)
    ensures AccessOf(ct, ft, d, path).AllNull? && Typed(Along(ct, ft, path), ft)
    ensures GetPath(Resolve(ct, ft, d, Along(ct, ft, path)), path) != Null
    decreases |path|
  {
    AlongIsTyped(ct, ft, path);
    var v := Along(ct, ft, path);
    if ct.Map? {
      UnsettledMisses(ct.value, ft.value, d, path[1..]);
      ResolvedEntry(ct, ft, d, v, path[0]);
      assert Get(v, path[0]) == Along(ct.value, ft.value, path[1..]);
    } else {
      var f := ct.fields[IndexOf(Names(ct.fields), path[0])];
      var j := IdIndex(ft.fields, f.id);
      ResolvedChild(ct, ft, d, v, path[0]);
      if j < |ft.fields| {
        UnsettledMisses(f.typ, ft.fields[j].typ, d, path[1..]);
        GetChild(ft, v, j);
      }
    }
  }

  /** Reading a path gives, for every value of the file, what reading the whole column and
      then taking the path gives, exactly when no absent child on the way has a default
      the path reads into. */
  lemma PathReadsExactly(ct: Type, ft: Type, d: Defaults, path: seq<string>)
    requires Fits(ct, ft)
    requires var a := AccessOf(ct, ft, d, path); !a.Elsewhere? && !a.Unreadable?
    ensures PathSettled(ct, ft, d, path) <==>
            forall v | Typed(v, ft) :: EvalAccess(AccessOf(ct, ft, d, path), d, v) ==
              GetPath(ReadWhole(ct, ft, d, v), path)
  {
    if PathSettled(ct, ft, d, path) {
      forall v | Typed(v, ft)
        ensures EvalAccess(AccessOf(ct, ft, d, path), d, v) == GetPath(ReadWhole(ct, ft, d, v), path)
      {
        PathReads(ct, ft, d, path, v);
        WholeIsResolved(ct, ft, d, v);
      }
    } else {
      UnsettledMisses(ct, ft, d, path);
      WholeIsResolved(ct, ft, d, Along(ct, ft, path));
    }
  }

  // ----- The walk -----

  function PrefixAll(names: seq<string>, a: Access): Access {
    match a
    case Through(path, ct, rt) => Through(names + path, ct, rt)
    case Under(parent, leaf, value) => Under(names + parent, leaf, value)
    case _ => a
  }

  lemma PrefixAllAppend(names: seq<string>, name: string, a: Access)
    ensures PrefixAll(names + [name], a) == PrefixAll(names, Prefix(name, a))
  {
    match a
    case Through(path, _, _) => assert names + [name] + path == names + ([name] + path);
    case Under(parent, _, _) => assert names + [name] + parent == names + ([name] + parent);
    case _ =>
  }

  lemma PrefixAllNone(a: Access)
    ensures PrefixAll([], a) == a
  {
    match a
    case Through(path, _, _) => assert [] + path == path;
    case Under(parent, _, _) => assert [] + parent == parent;
    case _ =>
  }

  // ----- What each path is resolved to -----

  /** `p` names a leaf, or a list if `lists`, through structs. */
  predicate LeafAt(fields: seq<Field>, p: seq<string>, lists: bool)
    decreases |p|, 0
  {
    p != [] && exists i | 0 <= i < |fields| :: fields[i].name == p[0] && EndsLeaf(fields[i].typ, p[1..], lists)
  }

  predicate EndsLeaf(t: Type, p: seq<string>, lists: bool)
    decreases |p|, 1
  {
    match t
    case Leaf => p == []
    case List(_) => lists && p == []
    case Struct(fields) => LeafAt(fields, p, lists)
    case Map(_) => false
  }

  ghost predicate HasLeaf(fields: seq<Field>, lists: bool) {
    exists p :: LeafAt(fields, p, lists)
  }

  lemma {:induction false} FoundIsLeaf(fields: seq<Field>, lists: bool)
    requires FindLeaf(fields, lists).Some?
    ensures LeafAt(fields, FindLeaf(fields, lists).value, lists)
    decreases fields
  {
    var p := FindLeaf(fields, lists).value;
    var first := match fields[0].typ
      case Leaf => Some([])
      case Struct(children) => FindLeaf(children, lists)
      case List(_) => if lists then Some([]) else None
      case Map(_) => None;
    if first.Some? {
      if fields[0].typ.Struct? {
        FoundIsLeaf(fields[0].typ.fields, lists);
      }
      assert p[1..] == first.value && EndsLeaf(fields[0].typ, p[1..], lists);
    } else {
      FoundIsLeaf(fields[1..], lists);
      var i :| 0 <= i < |fields[1..]| && fields[1..][i].name == p[0] && EndsLeaf(fields[1..][i].typ, p[1..], lists);
      assert fields[i + 1] == fields[1..][i];
    }
  }

  lemma {:induction false} LeafIsFound(fields: seq<Field>, p: seq<string>, lists: bool)
    requires LeafAt(fields, p, lists)
    ensures FindLeaf(fields, lists).Some?
    decreases fields
  {
    var i :| 0 <= i < |fields| && fields[i].name == p[0] && EndsLeaf(fields[i].typ, p[1..], lists);
    if i > 0 {
      assert fields[1..][i - 1] == fields[i];
      LeafIsFound(fields[1..], p, lists);
    } else if fields[0].typ.Struct? {
      LeafIsFound(fields[0].typ.fields, p[1..], lists);
    }
  }

  lemma {:induction false} LeafIsReadable(fields: seq<Field>, p: seq<string>)
    requires LeafAt(fields, p, false)
    ensures LeafAt(fields, p, true)
    decreases |p|
  {
    var i :| 0 <= i < |fields| && fields[i].name == p[0] && EndsLeaf(fields[i].typ, p[1..], false);
    if fields[i].typ.Struct? {
      LeafIsReadable(fields[i].typ.fields, p[1..]);
    }
    assert EndsLeaf(fields[i].typ, p[1..], true);
  }

  /** A leaf or a list is found if and only if there is one; a leaf, if there is one. */
  lemma ReadableExactly(fields: seq<Field>)
    ensures ReadableLeaf(fields).Some? <==> HasLeaf(fields, true)
    ensures ReadableLeaf(fields).Some? ==> LeafAt(fields, ReadableLeaf(fields).value, !HasLeaf(fields, false))
  {
    if p :| LeafAt(fields, p, false) {
      LeafIsFound(fields, p, false);
      LeafIsReadable(fields, p);
    }
    if p :| LeafAt(fields, p, true) {
      LeafIsFound(fields, p, true);
    }
    if FindLeaf(fields, false).Some? {
      FoundIsLeaf(fields, false);
    } else if FindLeaf(fields, true).Some? {
      FoundIsLeaf(fields, true);
    }
    if ReadableLeaf(fields).Some? && HasLeaf(fields, false) {
      assert FindLeaf(fields, false).Some?;
    }
    assert ReadableLeaf(fields).Some? && FindLeaf(fields, false).Some? ==>
           LeafAt(fields, ReadableLeaf(fields).value, false);
  }

  predicate IsChild(fields: seq<Field>, key: string, a: int) {
    0 <= a < |fields| && fields[a].name == key
  }

  /** The first file field with the id. */
  predicate IsStored(fields: seq<Field>, id: int, b: int) {
    0 <= b < |fields| && fields[b].id == id && forall k | 0 <= k < b :: fields[k].id != id
  }

  /** A key leads from a catalog type to its child's, and from the file's type to that of
      the field of the same id, or through a map of both. */
  ghost predicate StepTo(c: Type, f: Type, key: string, name: string, c': Type, f': Type) {
    || (c.Struct? && f.Struct? && exists a, b :: StepBy(c, f, key, name, c', f', a, b))
    || (c.Map? && f.Map? && name == key && c' == c.value && f' == f.value)
  }

  predicate StepBy(c: Type, f: Type, key: string, name: string, c': Type, f': Type, a: int, b: int)
    requires c.Struct? && f.Struct?
  {
    && IsChild(c.fields, key, a) && IsStored(f.fields, c.fields[a].id, b)
    && name == f.fields[b].name && c' == c.fields[a].typ && f' == f.fields[b].typ
  }

  /** The keys `path` lead from the types `c`, `f` to `c'`, `f'`, by the file's names `file`. */
  ghost predicate Reaches(c: Type, f: Type, path: seq<string>, file: seq<string>, c': Type, f': Type)
    decreases |path|
  {
    if path == [] then file == [] && c' == c && f' == f
    else file != [] && exists cm, fm ::
      StepTo(c, f, path[0], file[0], cm, fm) && Reaches(cm, fm, path[1..], file[1..], c', f')
  }

  /** The key names child `a`, which the file does not store. */
  predicate IsAbsent(c: Type, f: Type, key: string, a: int) {
    && c.Struct? && f.Struct? && IsChild(c.fields, key, a)
    && forall b | 0 <= b < |f.fields| :: f.fields[b].id != c.fields[a].id
  }

  /** The key names nothing in the type. */
  predicate IsOff(c: Type, key: string) {
    c.Leaf? || c.List? || (c.Struct? && forall a | 0 <= a < |c.fields| :: c.fields[a].name != key)
  }

  lemma OffIndex(fields: seq<Field>, key: string)
    ensures IndexOf(Names(fields), key) == |fields| <==> forall a | 0 <= a < |fields| :: fields[a].name != key
  {
    var i := IndexOf(Names(fields), key);
    if i < |fields| {
      assert Names(fields)[i] == key;
    } else {
      forall a | 0 <= a < |fields|
        ensures fields[a].name != key
      {
        assert Names(fields)[..i][a] == fields[a].name;
      }
    }
  }

  lemma StepAccess(c: Type, f: Type, d: Defaults, path: seq<string>, name: string, c': Type, f': Type)
    requires Fits(c, f) && path != [] && StepTo(c, f, path[0], name, c', f')
    ensures Fits(c', f') && AccessOf(c, f, d, path) == Prefix(name, AccessOf(c', f', d, path[1..]))
  {
    if c.Struct? {
      var a, b :| StepBy(c, f, path[0], name, c', f', a, b);
      OnlyIndex(Names(c.fields), a);
      assert IndexOf(Names(c.fields), path[0]) == a && IdIndex(f.fields, c.fields[a].id) == b;
    }
  }

  /** Past what a path reaches, the rest of it is resolved from there. */
  lemma {:induction false} ReachedAccess(ct: Type, ft: Type, d: Defaults, front: seq<string>, rest: seq<string>,
          file: seq<string>, c: Type, f: Type)
    requires Fits(ct, ft) && Reaches(ct, ft, front, file, c, f)
    ensures Fits(c, f) && AccessOf(ct, ft, d, front + rest) == PrefixAll(file, AccessOf(c, f, d, rest))
    decreases |front|
  {
    if front == [] {
      assert front + rest == rest;
      PrefixAllNone(AccessOf(c, f, d, rest));
    } else {
      var cm, fm :| StepTo(ct, ft, front[0], file[0], cm, fm) && Reaches(cm, fm, front[1..], file[1..], c, f);
      var path := front + rest;
      assert path[0] == front[0] && path[1..] == front[1..] + rest;
      StepAccess(ct, ft, d, path, file[0], cm, fm);
      ReachedAccess(cm, fm, d, front[1..], rest, file[1..], c, f);
      PrefixAllCons(file, AccessOf(c, f, d, rest));
    }
  }

  lemma PrefixAllCons(file: seq<string>, a: Access)
    requires file != []
    ensures Prefix(file[0], PrefixAll(file[1..], a)) == PrefixAll(file, a)
  {
    var name, names := file[0], file[1..];
    assert file == [name] + names;
    match a
    case Through(path, _, _) => assert [name] + names + path == [name] + (names + path);
    case Under(parent, _, _) => assert [name] + names + parent == [name] + (names + parent);
    case _ =>
  }

  /** The first `n` keys of the path reach `c`, `f`, by the file's names `file`. */
  ghost predicate ReachesAfter(ct: Type, ft: Type, path: seq<string>, n: nat, file: seq<string>, c: Type, f: Type) {
    n <= |path| && Reaches(ct, ft, path[..n], file, c, f)
  }

  /** Every path is followed to its end, to a child the file does not store, or off the
      catalog's type. */
  lemma {:induction false} PathEnds(ct: Type, ft: Type, path: seq<string>)
    returns (n: nat, file: seq<string>, c: Type, f: Type, a: int)
    requires Fits(ct, ft)
    ensures ReachesAfter(ct, ft, path, n, file, c, f)
    ensures n == |path| || IsOff(c, path[n]) || IsAbsent(c, f, path[n], a)
    decreases |path|
  {
    n, file, c, f, a := 0, [], ct, ft, 0;
    if path != [] && !IsOff(ct, path[0]) {
      if ct.Struct? {
        a := IndexOf(Names(ct.fields), path[0]);
        OffIndex(ct.fields, path[0]);
        var b := IdIndex(ft.fields, ct.fields[a].id);
        if b < |ft.fields| {
          OnlyIndex(Names(ct.fields), a);
          var c', f' := ct.fields[a].typ, ft.fields[b].typ;
          assert StepBy(ct, ft, path[0], ft.fields[b].name, c', f', a, b);
          n, file, c, f, a := EndsFurther(ct, ft, path, ft.fields[b].name, c', f');
        }
      } else {
        n, file, c, f, a := EndsFurther(ct, ft, path, path[0], ct.value, ft.value);
      }
    }
  }

  lemma {:induction false} EndsFurther(ct: Type, ft: Type, path: seq<string>, name: string, c': Type, f': Type)
    returns (n: nat, file: seq<string>, c: Type, f: Type, a: int)
    requires Fits(ct, ft) && Fits(c', f') && path != [] && StepTo(ct, ft, path[0], name, c', f')
    ensures ReachesAfter(ct, ft, path, n, file, c, f)
    ensures n == |path| || IsOff(c, path[n]) || IsAbsent(c, f, path[n], a)
    decreases |path|, 0
  {
    var m, rest;
    m, rest, c, f, a := PathEnds(c', f', path[1..]);
    n, file := m + 1, [name] + rest;
    assert path[..n][1..] == path[1..][..m] && file[1..] == rest && path[..n][0] == path[0];
  }

  /** What an absent child, at the end of its path or not, is read as: NULL without a
      default or past the end; refused where the file's struct that would hold it has no leaf
      and no list; else the default under that struct, read through one of these. */
  ghost predicate AbsentIs(fields: seq<Field>, d: Defaults, id: int, last: bool, file: seq<string>, r: Access) {
    if !last || id !in d then r.AllNull?
    else if !HasLeaf(fields, true) then r.Unreadable?
    else r.Under? && r.parent == file && r.value == d[id] && LeafAt(fields, r.leaf, !HasLeaf(fields, false))
  }

  ghost predicate AccessAt(c: Type, f: Type, d: Defaults, path: seq<string>, n: nat, file: seq<string>, r: Access) {
    n <= |path| &&
    if n == |path| then Fits(c, f) && r == Through(file, c, BuildRead(c, f))
    else
      && (IsOff(c, path[n]) ==> r.Elsewhere?)
      && forall a | IsAbsent(c, f, path[n], a) :: AbsentIs(f.fields, d, c.fields[a].id, n + 1 == |path|, file, r)
  }

  /** `r` is what the path is resolved to, wherever it ends. */
  ghost predicate IsAccess(ct: Type, ft: Type, d: Defaults, path: seq<string>, r: Access) {
    forall n: nat, file, c, f | ReachesAfter(ct, ft, path, n, file, c, f) :: AccessAt(c, f, d, path, n, file, r)
  }

  lemma AbsentAccess(c: Type, f: Type, d: Defaults, rest: seq<string>, file: seq<string>, a: int)
    requires Fits(c, f) && rest != [] && IsAbsent(c, f, rest[0], a)
    ensures AbsentIs(f.fields, d, c.fields[a].id, |rest| == 1, file, PrefixAll(file, AccessOf(c, f, d, rest)))
  {
    OnlyIndex(Names(c.fields), a);
    assert IndexOf(Names(c.fields), rest[0]) == a && IdIndex(f.fields, c.fields[a].id) == |f.fields|;
    ReadableExactly(f.fields);
    assert file + [] == file;
  }

  lemma AccessIsAt(ct: Type, ft: Type, d: Defaults, path: seq<string>, n: nat, file: seq<string>, c: Type, f: Type)
    requires Fits(ct, ft) && ReachesAfter(ct, ft, path, n, file, c, f)
    ensures AccessAt(c, f, d, path, n, file, AccessOf(ct, ft, d, path))
  {
    var rest := path[n..];
    assert path == path[..n] + rest;
    ReachedAccess(ct, ft, d, path[..n], rest, file, c, f);
    if n == |path| {
      assert file + [] == file;
    } else {
      if c.Struct? {
        OffIndex(c.fields, path[n]);
      }
      forall a | IsAbsent(c, f, path[n], a)
        ensures AbsentIs(f.fields, d, c.fields[a].id, n + 1 == |path|, file, AccessOf(ct, ft, d, path))
      {
        AbsentAccess(c, f, d, rest, file, a);
      }
    }
  }

  /** Every path, wherever it ends, is resolved to what its end says. */
  lemma AccessExactly(ct: Type, ft: Type, d: Defaults, path: seq<string>)
    requires Fits(ct, ft)
    ensures IsAccess(ct, ft, d, path, AccessOf(ct, ft, d, path))
  {
    forall n: nat, file, c, f | ReachesAfter(ct, ft, path, n, file, c, f)
      ensures AccessAt(c, f, d, path, n, file, AccessOf(ct, ft, d, path))
    {
      AccessIsAt(ct, ft, d, path, n, file, c, f);
    }
  }

  /** The path ends at a child the file does not store, with a default, in a struct of the
      file with no leaf and no list. */
  ghost predicate EndsUnread(ct: Type, ft: Type, d: Defaults, path: seq<string>) {
    path != [] && exists file, c, f, a :: UnreadAt(ct, ft, d, path, file, c, f, a)
  }

  ghost predicate UnreadAt(ct: Type, ft: Type, d: Defaults, path: seq<string>, file: seq<string>, c: Type, f: Type,
          a: int)
    requires path != []
  {
    && ReachesAfter(ct, ft, path, |path| - 1, file, c, f) && IsAbsent(c, f, path[|path| - 1], a)
    && c.fields[a].id in d && !HasLeaf(f.fields, true)
  }

  /** The path leaves the catalog's type. */
  ghost predicate GoesOff(ct: Type, ft: Type, path: seq<string>) {
    exists n: nat, file, c, f :: n < |path| && ReachesAfter(ct, ft, path, n, file, c, f) && IsOff(c, path[n])
  }

  /** A path is refused if and only if it ends unread, and left alone if and only if it goes
      off the catalog's type. */
  lemma RefusedExactly(ct: Type, ft: Type, d: Defaults, path: seq<string>)
    requires Fits(ct, ft)
    ensures AccessOf(ct, ft, d, path).Unreadable? <==> EndsUnread(ct, ft, d, path)
    ensures AccessOf(ct, ft, d, path).Elsewhere? <==> GoesOff(ct, ft, path)
  {
    var r := AccessOf(ct, ft, d, path);
    AccessExactly(ct, ft, d, path);
    var n, file, c, f, a := PathEnds(ct, ft, path);
    assert AccessAt(c, f, d, path, n, file, r);
    if n < |path| && !IsOff(c, path[n]) {
      assert AbsentIs(f.fields, d, c.fields[a].id, n + 1 == |path|, file, r);
      if r.Unreadable? {
        assert UnreadAt(ct, ft, d, path, file, c, f, a);
      }
    }
    if EndsUnread(ct, ft, d, path) {
      var file', c', f', a' :| UnreadAt(ct, ft, d, path, file', c', f', a');
      assert AccessAt(c', f', d, path, |path| - 1, file', r);
    }
    if n': nat, file', c', f' :| n' < |path| && ReachesAfter(ct, ft, path, n', file', c', f') && IsOff(c', path[n']) {
      assert AccessAt(c', f', d, path, n', file', r);
    }
  }

  /** `struct_access`: the catalog type and the read type walked side by side. */
  method StructAccess(ct: Type, ft: Type, d: Defaults, path: seq<string>) returns (r: Access)
    requires Fits(ct, ft)
    ensures r == AccessOf(ct, ft, d, path) && IsAccess(ct, ft, d, path, r)
  {
    AccessExactly(ct, ft, d, path);
    var catalogType, readType, fileType, filePath := ct, BuildRead(ct, ft), ft, [];
    PrefixAllNone(AccessOf(ct, ft, d, path));
    assert path[0..] == path;
    for step := 0 to |path|
      invariant Fits(catalogType, fileType) && readType == BuildRead(catalogType, fileType)
      invariant AccessOf(ct, ft, d, path) == PrefixAll(filePath, AccessOf(catalogType, fileType, d, path[step..]))
    {
      assert path[step..][1..] == path[step + 1..];
      if catalogType.Struct? {
        var position := IndexOf(Names(catalogType.fields), path[step]);
        if position == |catalogType.fields| {
          return Elsewhere;
        }
        var j := IdIndex(fileType.fields, catalogType.fields[position].id);
        match readType.children[position] {
          case Absent(id) =>
            var absent := AbsentChild(fileType.fields, d, id, step + 1 == |path|);
            return PrefixAll(filePath, absent);
          case Present(name, typ) =>
            PrefixAllAppend(filePath, name, AccessOf(catalogType.fields[position].typ, fileType.fields[j].typ, d,
              path[step + 1..]));
            filePath := filePath + [name];
            catalogType, readType, fileType := catalogType.fields[position].typ, typ, fileType.fields[j].typ;
        }
      } else if catalogType.Map? {
        PrefixAllAppend(filePath, path[step], AccessOf(catalogType.value, fileType.value, d, path[step + 1..]));
        filePath := filePath + [path[step]];
        catalogType, readType, fileType := catalogType.value, readType.value, fileType.value;
      } else {
        return Elsewhere;
      }
    }
    assert filePath + [] == filePath;
    r := Through(filePath, catalogType, readType);
  }
}
