/** `existing_descendants`: the stack walk over a table's columns. */
module ColumnForest {
  import opened Lake

  datatype Column = Column(id: int, parent: Option<int>, name: string)

  /** The ids of the columns under `parent`, in column order. */
  function Children(cols: seq<Column>, parent: int): seq<int> {
    if cols == [] then []
    else (if cols[0].parent == Some(parent) then [cols[0].id] else []) + Children(cols[1..], parent)
  }

  function Reverse<T>(xs: seq<T>): seq<T> {
    if xs == [] then [] else Reverse(xs[1..]) + [xs[0]]
  }

  /** The name of the first column with this id. */
  function NameOf(cols: seq<Column>, id: int): (name: Option<string>)
    ensures name.None? <==> PlaceOf(cols, id) == |cols|
    ensures name.Some? ==> name.value == cols[PlaceOf(cols, id)].name
  {
    if cols == [] then None
    else if cols[0].id == id then Some(cols[0].name)
    else NameOf(cols[1..], id)
  }

  function NamesOf(cols: seq<Column>, ids: seq<int>): seq<Option<string>> {
    seq(|ids|, i requires 0 <= i < |ids| => NameOf(cols, ids[i]))
  }

  function Somes(names: seq<string>): seq<Option<string>> {
    seq(|names|, i requires 0 <= i < |names| => Some(names[i]))
  }

  /** Each column has one entry, hence one parent. */
  predicate SingleParent(cols: seq<Column>) {
    forall i, j | 0 <= i < j < |cols| :: cols[i].id != cols[j].id
  }

  predicate IsRoot(cols: seq<Column>, id: int) {
    exists c | c in cols :: c.id == id && c.parent.None?
  }

  // ----- The subtree, and its pre-order -----

  datatype Tree = Node(id: int, kids: seq<Tree>)

  /** `t` is the subtree of the columns under its root's column. */
  ghost predicate IsSubtree(cols: seq<Column>, t: Tree) {
    && RootIds(t.kids) == Children(cols, t.id)
    && forall k | k in t.kids :: IsSubtree(cols, k)
  }

  function RootIds(ts: seq<Tree>): seq<int> {
    seq(|ts|, i requires 0 <= i < |ts| => ts[i].id)
  }

  function Preorder(t: Tree): seq<int> {
    [t.id] + PreorderAll(t.kids)
  }

  function PreorderAll(ts: seq<Tree>): seq<int> {
    if ts == [] then [] else Preorder(ts[0]) + PreorderAll(ts[1..])
  }

  lemma {:induction false} PreorderConcat(ts: seq<Tree>, us: seq<Tree>)
    ensures PreorderAll(ts + us) == PreorderAll(ts) + PreorderAll(us)
  {
    if ts == [] {
      assert ts + us == us;
    } else {
      assert (ts + us)[1..] == ts[1..] + us;
      PreorderConcat(ts[1..], us);
    }
  }

  // ----- A single-parent table of columns is a forest under every root -----

  function IdSet(cols: seq<Column>): set<int> {
    set c | c in cols :: c.id
  }

  ghost predicate HasParent(cols: seq<Column>, id: int, parent: Option<int>) {
    exists c | c in cols :: c.id == id && c.parent == parent
  }

  /** A way down from a root to the column `path` ends at. */
  ghost predicate IsPath(cols: seq<Column>, path: seq<int>) {
    && path != []
    && HasParent(cols, path[0], None)
    && (forall i, j | 0 <= i && j == i + 1 && j < |path| :: HasParent(cols, path[j], Some(path[i])))
    && forall i, j | 0 <= i < j < |path| :: path[i] != path[j]
  }

  lemma OneParent(cols: seq<Column>, id: int, p: Option<int>, q: Option<int>)
    requires SingleParent(cols) && HasParent(cols, id, p) && HasParent(cols, id, q)
    ensures p == q
  {
    var c :| c in cols && c.id == id && c.parent == p;
    var d :| d in cols && d.id == id && d.parent == q;
    var i :| 0 <= i < |cols| && cols[i] == c;
    var j :| 0 <= j < |cols| && cols[j] == d;
  }

  lemma {:induction false} ChildrenHaveParent(cols: seq<Column>, parent: int, id: int)
    requires id in Children(cols, parent)
    ensures HasParent(cols, id, Some(parent))
  {
    if cols[0].parent == Some(parent) && cols[0].id == id {
      assert cols[0] in cols;
    } else {
      ChildrenHaveParent(cols[1..], parent, id);
      var c :| c in cols[1..] && c.id == id && c.parent == Some(parent);
      assert c in cols;
    }
  }

  /** The place of the first column with this id. */
  function PlaceOf(cols: seq<Column>, id: int): (i: nat)
    ensures i <= |cols| && (i < |cols| ==> cols[i].id == id) && forall j | 0 <= j < i :: cols[j].id != id
  {
    if cols == [] || cols[0].id == id then 0 else 1 + PlaceOf(cols[1..], id)
  }

  /** `ix` are the places of all the columns under `parent`, in column order. */
  predicate ArePlaces(cols: seq<Column>, parent: int, ix: seq<nat>) {
    && (forall i | 0 <= i < |ix| :: ix[i] < |cols| && cols[ix[i]].parent == Some(parent))
    && (forall i, j | 0 <= i < j < |ix| :: ix[i] < ix[j])
    && forall k: nat | k < |cols| && cols[k].parent == Some(parent) :: k in ix
  }

  /** The children are the columns under the parent, each once and in column order. */
  lemma {:induction false} ChildrenAre(cols: seq<Column>, parent: int) returns (ix: seq<nat>)
    ensures ArePlaces(cols, parent, ix) && |Children(cols, parent)| == |ix|
    ensures forall i | 0 <= i < |ix| :: Children(cols, parent)[i] == cols[ix[i]].id
  {
    ix := [];
    if cols != [] {
      var rest := ChildrenAre(cols[1..], parent);
      ix := (if cols[0].parent == Some(parent) then [0] else []) + Later(rest);
      PlacesNext(cols, parent, rest);
    }
  }

  function Later(ix: seq<nat>): seq<nat> {
    seq(|ix|, i requires 0 <= i < |ix| => ix[i] + 1)
  }

  lemma PlacesNext(cols: seq<Column>, parent: int, rest: seq<nat>)
    requires cols != [] && ArePlaces(cols[1..], parent, rest)
    ensures ArePlaces(cols, parent, (if cols[0].parent == Some(parent) then [0] else []) + Later(rest))
  {
    var later := Later(rest);
    forall k: nat | 1 <= k < |cols| && cols[k].parent == Some(parent)
      ensures k in later
    {
      assert cols[1..][k - 1] == cols[k] && k - 1 in rest;
      var i :| 0 <= i < |rest| && rest[i] == k - 1;
      assert later[i] == k;
    }
  }

  lemma OwnPlace(cols: seq<Column>, k: nat)
    requires SingleParent(cols) && k < |cols|
    ensures PlaceOf(cols, cols[k].id) == k
  {
    var i := PlaceOf(cols, cols[k].id);
    assert i <= k;
  }

  lemma ChildrenOrdered(cols: seq<Column>, parent: int)
    requires SingleParent(cols)
    ensures forall id :: id in Children(cols, parent) <==> HasParent(cols, id, Some(parent))
    ensures var kids := Children(cols, parent);
            forall i, j | 0 <= i < j < |kids| :: PlaceOf(cols, kids[i]) < PlaceOf(cols, kids[j])
  {
    var kids := Children(cols, parent);
    var ix := ChildrenAre(cols, parent);
    forall i, j | 0 <= i < j < |kids|
      ensures PlaceOf(cols, kids[i]) < PlaceOf(cols, kids[j])
    {
      OwnPlace(cols, ix[i]);
      OwnPlace(cols, ix[j]);
    }
    forall id
      ensures id in kids <==> HasParent(cols, id, Some(parent))
    {
      if id in kids {
        ChildrenHaveParent(cols, parent, id);
      }
      if HasParent(cols, id, Some(parent)) {
        var c :| c in cols && c.id == id && c.parent == Some(parent);
        var k :| 0 <= k < |cols| && cols[k] == c;
        assert k in ix;
        var i :| 0 <= i < |ix| && ix[i] == k;
        assert kids[i] == id;
      }
    }
  }

  /** A child is never one of the columns above it: it would have two parents. */
  lemma ChildExtends(cols: seq<Column>, path: seq<int>, child: int)
    requires SingleParent(cols) && IsPath(cols, path) && child in Children(cols, path[|path| - 1])
    ensures IsPath(cols, path + [child])
  {
    var last := path[|path| - 1];
    ChildrenHaveParent(cols, last, child);
    forall i | 0 <= i < |path|
      ensures path[i] != child
    {
      if path[i] == child {
        OneParent(cols, child, Some(last), if i == 0 then None else Some(path[i - 1]));
      }
    }
    var longer := path + [child];
    forall i, j | 0 <= i && j == i + 1 && j < |longer|
      ensures HasParent(cols, longer[j], Some(longer[i]))
    {
      if j < |path| {
        assert HasParent(cols, path[j], Some(path[i]));
      }
    }
  }

  /** A path is no longer than the table. */
  lemma PathFits(cols: seq<Column>, path: seq<int>)
    requires IsPath(cols, path)
    ensures |path| <= |IdSet(cols)|
  {
    forall i | 0 <= i < |path|
      ensures path[i] in IdSet(cols)
    {
      assert i == 0 || HasParent(cols, path[i], Some(path[i - 1]));
    }
    DistinctFit(path, IdSet(cols));
  }

  lemma {:induction false} DistinctFit(xs: seq<int>, all: set<int>)
    requires (forall i, j | 0 <= i < j < |xs| :: xs[i] != xs[j]) && forall i | 0 <= i < |xs| :: xs[i] in all
    ensures |xs| <= |all|
  {
    if xs != [] {
      var rest := all - {xs[0]};
      assert all == rest + {xs[0]};
      DistinctFit(xs[1..], rest);
    }
  }

  ghost function TreeAt(cols: seq<Column>, path: seq<int>): (t: Tree)
    requires SingleParent(cols) && IsPath(cols, path)
    ensures t.id == path[|path| - 1]
    decreases |IdSet(cols)| - |path|, 1, 0
  {
    var kids := Children(cols, path[|path| - 1]);
    Node(path[|path| - 1], KidsAt(cols, path, |kids|))
  }

  ghost function KidsAt(cols: seq<Column>, path: seq<int>, n: nat): (ts: seq<Tree>)
    requires SingleParent(cols) && IsPath(cols, path) && n <= |Children(cols, path[|path| - 1])|
    ensures |ts| == n && forall i | 0 <= i < n :: ts[i].id == Children(cols, path[|path| - 1])[i]
    decreases |IdSet(cols)| - |path|, 0, n
  {
    if n == 0 then []
    else
      var kids := Children(cols, path[|path| - 1]);
      ChildExtends(cols, path, kids[n - 1]);
      PathFits(cols, path + [kids[n - 1]]);
      KidsAt(cols, path, n - 1) + [TreeAt(cols, path + [kids[n - 1]])]
  }

  lemma {:induction false} TreeAtIsSubtree(cols: seq<Column>, path: seq<int>)
    requires SingleParent(cols) && IsPath(cols, path)
    ensures IsSubtree(cols, TreeAt(cols, path))
    decreases |IdSet(cols)| - |path|, 1, 0
  {
    var kids := Children(cols, path[|path| - 1]);
    KidsAreSubtrees(cols, path, |kids|);
    assert RootIds(TreeAt(cols, path).kids) == kids;
  }

  lemma {:induction false} KidsAreSubtrees(cols: seq<Column>, path: seq<int>, n: nat)
    requires SingleParent(cols) && IsPath(cols, path) && n <= |Children(cols, path[|path| - 1])|
    ensures forall k | k in KidsAt(cols, path, n) :: IsSubtree(cols, k)
    decreases |IdSet(cols)| - |path|, 0, n
  {
    if n > 0 {
      var kids := Children(cols, path[|path| - 1]);
      ChildExtends(cols, path, kids[n - 1]);
      PathFits(cols, path + [kids[n - 1]]);
      KidsAreSubtrees(cols, path, n - 1);
      TreeAtIsSubtree(cols, path + [kids[n - 1]]);
    }
  }

  /** Whatever else the table holds, cycles apart from the root included, a root has a
      subtree. */
  lemma RootHasSubtree(cols: seq<Column>, root: int) returns (t: Tree)
    requires SingleParent(cols) && IsRoot(cols, root)
    ensures IsSubtree(cols, t) && t.id == root
  {
    assert HasParent(cols, root, None);
    t := TreeAt(cols, [root]);
    TreeAtIsSubtree(cols, [root]);
  }

  // ----- The order of the walk -----

  /** A way down comes before another that goes on from it, or that parts from it at a
      later column. */
  ghost predicate Earlier(cols: seq<Column>, p: seq<int>, q: seq<int>) {
    p < q || exists k: nat :: PartsAt(cols, p, q, k)
  }

  predicate PartsAt(cols: seq<Column>, p: seq<int>, q: seq<int>, k: nat) {
    k < |p| && k < |q| && p[..k] == q[..k] && PlaceOf(cols, p[k]) < PlaceOf(cols, q[k])
  }

  /** `ids` are the columns whose parents lead up to `root`, `paths` the ways down to them,
      all of them, each before every later one. */
  ghost predicate Walks(cols: seq<Column>, root: int, ids: seq<int>, paths: seq<seq<int>>) {
    && |paths| == |ids|
    && (forall i | 0 <= i < |ids| :: LeadsTo(cols, root, paths[i], ids[i]))
    && (forall i, j | 0 <= i < j < |paths| :: Earlier(cols, paths[i], paths[j]))
    && forall q, id | LeadsTo(cols, root, q, id) :: q in paths
  }

  ghost predicate LeadsTo(cols: seq<Column>, root: int, path: seq<int>, id: int) {
    IsPath(cols, path) && path[0] == root && path[|path| - 1] == id
  }

  function PathsOf(t: Tree, path: seq<int>): seq<seq<int>> {
    [path] + PathsAll(t.kids, path)
  }

  function PathsAll(ts: seq<Tree>, path: seq<int>): seq<seq<int>> {
    if ts == [] then [] else PathsOf(ts[0], path + [ts[0].id]) + PathsAll(ts[1..], path)
  }

  /** `ts` are the subtrees of the children from the `n`th on of the column `path` ends at. */
  ghost predicate LastKids(cols: seq<Column>, path: seq<int>, ts: seq<Tree>, n: nat) {
    && IsPath(cols, path) && n + |ts| == |Children(cols, path[|path| - 1])|
    && RootIds(ts) == Children(cols, path[|path| - 1])[n..]
    && forall t | t in ts :: IsSubtree(cols, t)
  }

  ghost predicate IsAt(cols: seq<Column>, path: seq<int>, t: Tree) {
    IsPath(cols, path) && path[|path| - 1] == t.id && IsSubtree(cols, t)
  }

  lemma KidsOf(cols: seq<Column>, path: seq<int>, t: Tree)
    requires IsAt(cols, path, t)
    ensures LastKids(cols, path, t.kids, 0)
  {
    assert |RootIds(t.kids)| == |t.kids|;
  }

  lemma FirstKid(cols: seq<Column>, path: seq<int>, ts: seq<Tree>, n: nat)
    requires SingleParent(cols) && LastKids(cols, path, ts, n) && ts != []
    ensures IsAt(cols, path + [ts[0].id], ts[0]) && LastKids(cols, path, ts[1..], n + 1)
    ensures ts[0].id == Children(cols, path[|path| - 1])[n]
  {
    var kids := Children(cols, path[|path| - 1]);
    assert RootIds(ts)[0] == kids[n] && ts[0] in ts;
    ChildExtends(cols, path, ts[0].id);
    assert RootIds(ts[1..]) == RootIds(ts)[1..];
  }

  /** The ways down go through `path` to the ids of the pre-order. */
  lemma {:induction false} PathsLead(cols: seq<Column>, t: Tree, path: seq<int>)
    requires SingleParent(cols) && IsAt(cols, path, t)
    ensures |PathsOf(t, path)| == |Preorder(t)|
    ensures forall i | 0 <= i < |Preorder(t)| ::
              var q := PathsOf(t, path)[i]; IsPath(cols, q) && path <= q && q[|q| - 1] == Preorder(t)[i]
    decreases t
  {
    KidsOf(cols, path, t);
    KidsLead(cols, t.kids, path, 0);
  }

  lemma LeadConcat(cols: seq<Column>, path: seq<int>, first: seq<int>, ps: seq<seq<int>>, ids: seq<int>,
          qs: seq<seq<int>>, others: seq<int>)
    requires |ps| == |ids| && |qs| == |others| && path < first
    requires forall i | 0 <= i < |ids| :: IsPath(cols, ps[i]) && first <= ps[i] && ps[i][|ps[i]| - 1] == ids[i]
    requires forall i | 0 <= i < |others| :: IsPath(cols, qs[i]) && path < qs[i] && qs[i][|qs[i]| - 1] == others[i]
    ensures forall i | 0 <= i < |ids + others| ::
              var q := (ps + qs)[i]; IsPath(cols, q) && path < q && q[|q| - 1] == (ids + others)[i]
  {
  }

  lemma {:induction false} KidsLead(cols: seq<Column>, ts: seq<Tree>, path: seq<int>, n: nat)
    requires SingleParent(cols) && LastKids(cols, path, ts, n)
    ensures |PathsAll(ts, path)| == |PreorderAll(ts)|
    ensures forall i | 0 <= i < |PreorderAll(ts)| ::
              var q := PathsAll(ts, path)[i]; IsPath(cols, q) && path < q && q[|q| - 1] == PreorderAll(ts)[i]
    decreases ts
  {
    if ts != [] {
      FirstKid(cols, path, ts, n);
      var first := path + [ts[0].id];
      PathsLead(cols, ts[0], first);
      KidsLead(cols, ts[1..], path, n + 1);
      LeadConcat(cols, path, first, PathsOf(ts[0], first), Preorder(ts[0]), PathsAll(ts[1..], path),
        PreorderAll(ts[1..]));
    }
  }

  /** Past `path` the ways down go to one of the children from the `n`th on. */
  lemma {:induction false} KidsThrough(cols: seq<Column>, ts: seq<Tree>, path: seq<int>, n: nat, q: seq<int>)
    requires SingleParent(cols) && LastKids(cols, path, ts, n) && q in PathsAll(ts, path)
    ensures path < q && q[|path|] in Children(cols, path[|path| - 1])[n..]
    decreases ts
  {
    var kids := Children(cols, path[|path| - 1]);
    FirstKid(cols, path, ts, n);
    if q in PathsOf(ts[0], path + [ts[0].id]) {
      PathsLead(cols, ts[0], path + [ts[0].id]);
      var i :| 0 <= i < |PathsOf(ts[0], path + [ts[0].id])| && PathsOf(ts[0], path + [ts[0].id])[i] == q;
      assert path + [ts[0].id] <= q && q[|path|] == kids[n..][0];
    } else {
      KidsThrough(cols, ts[1..], path, n + 1, q);
      assert kids[n + 1..] == kids[n..][1..];
    }
  }

  ghost predicate Ordered(cols: seq<Column>, paths: seq<seq<int>>) {
    forall i, j | 0 <= i < j < |paths| :: Earlier(cols, paths[i], paths[j])
  }

  lemma OrderedConcat(cols: seq<Column>, ps: seq<seq<int>>, qs: seq<seq<int>>)
    requires Ordered(cols, ps) && Ordered(cols, qs) && forall p, q | p in ps && q in qs :: Earlier(cols, p, q)
    ensures Ordered(cols, ps + qs)
  {
    forall i, j | 0 <= i < j < |ps + qs|
      ensures Earlier(cols, (ps + qs)[i], (ps + qs)[j])
    {
      if i < |ps| <= j {
        assert ps[i] in ps && qs[j - |ps|] in qs;
      }
    }
  }

  lemma {:induction false} PathsOrdered(cols: seq<Column>, t: Tree, path: seq<int>)
    requires SingleParent(cols) && IsAt(cols, path, t)
    ensures Ordered(cols, PathsOf(t, path))
    decreases t
  {
    KidsOf(cols, path, t);
    KidsOrdered(cols, t.kids, path, 0);
    KidsLead(cols, t.kids, path, 0);
    OrderedConcat(cols, [path], PathsAll(t.kids, path));
  }

  lemma {:induction false} KidsOrdered(cols: seq<Column>, ts: seq<Tree>, path: seq<int>, n: nat)
    requires SingleParent(cols) && LastKids(cols, path, ts, n)
    ensures Ordered(cols, PathsAll(ts, path))
    decreases ts
  {
    if ts != [] {
      FirstKid(cols, path, ts, n);
      PathsOrdered(cols, ts[0], path + [ts[0].id]);
      KidsOrdered(cols, ts[1..], path, n + 1);
      forall p, q | p in PathsOf(ts[0], path + [ts[0].id]) && q in PathsAll(ts[1..], path)
        ensures Earlier(cols, p, q)
      {
        SiblingsPart(cols, ts, path, n, p, q);
      }
      OrderedConcat(cols, PathsOf(ts[0], path + [ts[0].id]), PathsAll(ts[1..], path));
    }
  }

  lemma SiblingsPart(cols: seq<Column>, ts: seq<Tree>, path: seq<int>, n: nat, p: seq<int>, q: seq<int>)
    requires SingleParent(cols) && LastKids(cols, path, ts, n) && ts != []
    requires p in PathsOf(ts[0], path + [ts[0].id]) && q in PathsAll(ts[1..], path)
    ensures Earlier(cols, p, q)
  {
    var kids := Children(cols, path[|path| - 1]);
    FirstKid(cols, path, ts, n);
    PathsLead(cols, ts[0], path + [ts[0].id]);
    KidsThrough(cols, ts[1..], path, n + 1, q);
    var m :| 0 <= m < |kids[n + 1..]| && kids[n + 1..][m] == q[|path|];
    assert kids[n + 1 + m] == q[|path|];
    ChildrenOrdered(cols, path[|path| - 1]);
    assert path + [ts[0].id] <= p;
    assert PartsAt(cols, p, q, |path|);
  }

  /** Every way down through `path` is among them. */
  lemma {:induction false} PathsComplete(cols: seq<Column>, t: Tree, path: seq<int>, q: seq<int>)
    requires SingleParent(cols) && IsAt(cols, path, t) && IsPath(cols, q) && path <= q
    ensures q in PathsOf(t, path)
    decreases t
  {
    if path != q {
      var n := |path|;
      assert HasParent(cols, q[n], Some(q[n - 1])) && q[n - 1] == t.id;
      ChildrenOrdered(cols, t.id);
      assert q[n] in RootIds(t.kids);
      var m :| 0 <= m < |t.kids| && RootIds(t.kids)[m] == q[n];
      ChildExtends(cols, path, q[n]);
      assert t.kids[m] in t.kids && path + [q[n]] == q[..n + 1];
      PathsComplete(cols, t.kids[m], path + [q[n]], q);
      InPathsAll(t.kids, path, m, q);
    }
  }

  lemma {:induction false} InPathsAll(ts: seq<Tree>, path: seq<int>, m: nat, q: seq<int>)
    requires m < |ts| && q in PathsOf(ts[m], path + [ts[m].id])
    ensures q in PathsAll(ts, path)
    decreases |ts|
  {
    if m > 0 {
      InPathsAll(ts[1..], path, m - 1, q);
    }
  }

  /** The pre-order of a root's subtree is exactly the columns whose parents lead up to the
      root, in the order of the ways down to them. */
  lemma PreorderWalks(cols: seq<Column>, t: Tree)
    requires SingleParent(cols) && IsRoot(cols, t.id) && IsSubtree(cols, t)
    ensures Walks(cols, t.id, Preorder(t), PathsOf(t, [t.id]))
  {
    var path, paths := [t.id], PathsOf(t, [t.id]);
    assert HasParent(cols, t.id, None) && IsAt(cols, path, t);
    PathsLead(cols, t, path);
    PathsOrdered(cols, t, path);
    forall q, id | LeadsTo(cols, t.id, q, id)
      ensures q in paths
    {
      PathsComplete(cols, t, path, q);
    }
  }

  /** There is one way down to a column. */
  lemma {:induction false} OneWay(cols: seq<Column>, p: seq<int>, q: seq<int>)
    requires SingleParent(cols) && IsPath(cols, p) && IsPath(cols, q) && p[|p| - 1] == q[|q| - 1]
    ensures p == q
    decreases |p|
  {
    var id := p[|p| - 1];
    var above := if |p| == 1 then None else Some(p[|p| - 2]);
    var above' := if |q| == 1 then None else Some(q[|q| - 2]);
    assert HasParent(cols, id, above) && HasParent(cols, id, above');
    OneParent(cols, id, above, above');
    if |p| > 1 {
      OneWay(cols, p[..|p| - 1], q[..|q| - 1]);
      assert p == p[..|p| - 1] + [id] && q == q[..|q| - 1] + [id];
    }
  }

  lemma NotEarlierThanItself(cols: seq<Column>, p: seq<int>)
    ensures !Earlier(cols, p, p)
  {
  }

  /** So in a walk each column comes once, after its parent, and after its siblings earlier
      in the table and all that lies under them. */
  lemma WalkOrder(cols: seq<Column>, root: int, ids: seq<int>, paths: seq<seq<int>>, i: nat, j: nat)
    requires SingleParent(cols) && Walks(cols, root, ids, paths) && i < |ids| && j < |ids|
    ensures ids[i] == ids[j] ==> i == j
    ensures paths[i] < paths[j] ==> i < j
    ensures (exists k: nat :: PartsAt(cols, paths[i], paths[j], k)) ==> i < j
  {
    NotEarlierThanItself(cols, paths[i]);
    if ids[i] == ids[j] {
      OneWay(cols, paths[i], paths[j]);
    }
    if Earlier(cols, paths[i], paths[j]) && j < i {
      NotBoth(cols, paths[i], paths[j]);
    }
  }

  lemma NotBoth(cols: seq<Column>, p: seq<int>, q: seq<int>)
    requires Earlier(cols, p, q)
    ensures !Earlier(cols, q, p)
  {
    forall k: nat, m: nat
      ensures !(PartsAt(cols, p, q, k) && PartsAt(cols, q, p, m))
    {
      SameParting(cols, p, q, k, m);
    }
  }

  lemma SameParting(cols: seq<Column>, p: seq<int>, q: seq<int>, k: nat, m: nat)
    ensures !(PartsAt(cols, p, q, k) && PartsAt(cols, q, p, m))
  {
    assert k < m <= |p| && m <= |q| && p[..m] == q[..m] ==> p[..m][k] == q[..m][k];
    assert m < k <= |p| && k <= |q| && p[..k] == q[..k] ==> p[..k][m] == q[..k][m];
  }

  // ----- The walk -----

  lemma {:induction false} ReverseIds(ts: seq<Tree>)
    ensures RootIds(Reverse(ts)) == Reverse(RootIds(ts)) && Reverse(Reverse(ts)) == ts
    ensures forall t :: t in Reverse(ts) <==> t in ts
  {
    if ts != [] {
      ReverseIds(ts[1..]);
      assert RootIds(ts)[1..] == RootIds(ts[1..]);
      ReverseConcat(Reverse(ts[1..]), [ts[0]]);
      assert Reverse([ts[0]]) == [ts[0]];
      assert forall t :: t in ts <==> t == ts[0] || t in ts[1..];
    }
  }

  lemma {:induction false} ReverseConcat<T>(xs: seq<T>, ys: seq<T>)
    ensures Reverse(xs + ys) == Reverse(ys) + Reverse(xs)
  {
    if xs == [] {
      assert xs + ys == ys;
    } else {
      assert (xs + ys)[1..] == xs[1..] + ys;
      ReverseConcat(xs[1..], ys);
    }
  }

  /** One turn of the walk: the top's subtree is its id and then its children's, on the
      stack in its place. */
  lemma PopPush(cols: seq<Column>, trees: seq<Tree>)
    requires trees != [] && forall t | t in trees :: IsSubtree(cols, t)
    ensures var top, rest := trees[|trees| - 1], trees[..|trees| - 1];
            var trees' := rest + Reverse(top.kids);
            && PreorderAll(Reverse(trees)) == [top.id] + PreorderAll(Reverse(trees'))
            && RootIds(trees') == RootIds(rest) + Reverse(Children(cols, top.id))
            && forall t | t in trees' :: IsSubtree(cols, t)
  {
    var top, rest := trees[|trees| - 1], trees[..|trees| - 1];
    assert top in trees && trees == rest + [top];
    PopOrder(rest, top);
    PushIds(cols, rest, top);
    ReverseIds(top.kids);
  }

  lemma PopOrder(rest: seq<Tree>, top: Tree)
    ensures PreorderAll(Reverse(rest + [top])) == [top.id] + PreorderAll(Reverse(rest + Reverse(top.kids)))
  {
    var back := Reverse(rest);
    ReverseConcat(rest, [top]);
    ReverseConcat(rest, Reverse(top.kids));
    ReverseIds(top.kids);
    PreorderConcat([top], back);
    PreorderConcat(top.kids, back);
    assert Reverse([top]) == [top] && PreorderAll([top]) == Preorder(top) + [];
    assert [top.id] + PreorderAll(top.kids) + PreorderAll(back) == [top.id] +
           (PreorderAll(top.kids) + PreorderAll(back));
  }

  lemma PushIds(cols: seq<Column>, rest: seq<Tree>, top: Tree)
    requires IsSubtree(cols, top)
    ensures RootIds(rest + Reverse(top.kids)) == RootIds(rest) + Reverse(Children(cols, top.id))
  {
    ReverseIds(top.kids);
    assert RootIds(rest + Reverse(top.kids)) == RootIds(rest) + RootIds(Reverse(top.kids));
  }

  /** The ids under `root` in pre-order, if their names are `wanted`; `None` where `root`
      is not a top-level column or the names differ. `t` is the subtree walked. */
  method ExistingDescendants(cols: seq<Column>, root: int, wanted: seq<string>)
    returns (r: Option<seq<int>>, ghost t: Tree)
    requires SingleParent(cols)
    ensures !IsRoot(cols, root) ==> r.None?
    ensures IsRoot(cols, root) ==>
              && IsSubtree(cols, t) && t.id == root && Walks(cols, root, Preorder(t), PathsOf(t, [root]))
              && var below := Preorder(t)[1..];
                 r == if NamesOf(cols, below) == Somes(wanted) then Some(below) else None
  {
    t := Node(root, []);
    if !(exists c | c in cols :: c.id == root && c.parent.None?) {
      return None, t;
    }
    t := RootHasSubtree(cols, root);
    var visited: seq<int>, stack := [], [root];
    ghost var trees := [t];
    assert RootIds(trees) == stack;
    assert Reverse([t]) == [t] && PreorderAll([t]) == Preorder(t);
    while stack != []
      invariant RootIds(trees) == stack
      invariant forall u | u in trees :: IsSubtree(cols, u)
      invariant visited + PreorderAll(Reverse(trees)) == Preorder(t)
      decreases |PreorderAll(Reverse(trees))|
    {
      PopPush(cols, trees);
      var parent := stack[|stack| - 1];
      ghost var top := trees[|trees| - 1];
      assert top.id == parent;
      assert RootIds(trees[..|trees| - 1]) == stack[..|stack| - 1];
      visited := visited + [parent];
      stack := stack[..|stack| - 1] + Reverse(Children(cols, parent));
      trees := trees[..|trees| - 1] + Reverse(top.kids);
    }
    assert |RootIds(trees)| == 0 && trees == [] && visited == Preorder(t);
    PreorderWalks(cols, t);
    var ids := visited[1..];
    r := if NamesOf(cols, ids) == Somes(wanted) then Some(ids) else None;
  }

  /** The subtree is determined by the columns, so the answer is. */
  lemma {:induction false} SubtreeIsUnique(cols: seq<Column>, t: Tree, u: Tree)
    requires IsSubtree(cols, t) && IsSubtree(cols, u) && t.id == u.id
    ensures t == u
  {
    forall i | 0 <= i < |t.kids|
      ensures |u.kids| == |t.kids| && t.kids[i] == u.kids[i]
    {
      assert RootIds(t.kids)[i] == RootIds(u.kids)[i];
      SubtreeIsUnique(cols, t.kids[i], u.kids[i]);
    }
    assert |RootIds(t.kids)| == |RootIds(u.kids)|;
  }
}
