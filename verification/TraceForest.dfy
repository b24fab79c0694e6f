/** The trace view of the dashboard: it builds a forest from the parent links
    of a list of spans and renders the forest as an indented listing. */
module TraceForest {
  import opened Telemetry

  // ---------------------------------------------------------------- building

  /** The first `n` rows indexed by span ID; a later row replaces an earlier one. */
  function ById(spans: seq<TraceSpan>, n: nat): (m: map<string, TraceSpan>)
    requires n <= |spans|
  {
    if n == 0 then map[] else ById(spans, n - 1)[spans[n - 1].spanId := spans[n - 1]]
  }

  /** The span's parent link is set and leads to a span of the list. */
  predicate Linked(ids: set<string>, s: TraceSpan) {
    s.parentSpanId != "" && s.parentSpanId in ids
  }

  /** IDs of those of the first `n` spans that have no usable parent link. */
  function RootIds(ids: set<string>, spans: seq<TraceSpan>, n: nat): seq<string>
    requires n <= |spans|
  {
    if n == 0 then []
    else if Linked(ids, spans[n - 1]) then RootIds(ids, spans, n - 1)
    else RootIds(ids, spans, n - 1) + [spans[n - 1].spanId]
  }

  /** IDs of those of the first `n` spans that are linked to `parent`. */
  function ChildIds(ids: set<string>, spans: seq<TraceSpan>, n: nat, parent: string): seq<string>
    requires n <= |spans|
  {
    if n == 0 then []
    else if Linked(ids, spans[n - 1]) && spans[n - 1].parentSpanId == parent then
      ChildIds(ids, spans, n - 1, parent) + [spans[n - 1].spanId]
    else ChildIds(ids, spans, n - 1, parent)
  }

  /** The nodes, the child list of each node, and the top-level nodes.  A node
      is named by its span ID. */
  datatype Tree = Tree(
    byId: map<string, TraceSpan>,
    children: map<string, seq<string>>,
    roots: seq<string>)

  function Build(spans: seq<TraceSpan>): Tree {
    var n := |spans|;
    var byId := ById(spans, n);
    Tree(byId, map p | p in byId :: ChildIds(byId.Keys, spans, n, p), RootIds(byId.Keys, spans, n))
  }

  /** The objects that loading a trace fills in. */
  class TraceView {
    var byId: map<string, TraceSpan>
    var children: map<string, seq<string>>
    var roots: seq<string>

    constructor ()
      ensures byId == map[] && children == map[] && roots == []
    {
      byId, children, roots := map[], map[], [];
    }

    ghost function Contents(): Tree
      reads this
    {
      Tree(byId, children, roots)
    }

    /** First loop: one node without children per span ID. */
    method Index(spans: seq<TraceSpan>)
      modifies this
      ensures byId == ById(spans, |spans|)
      ensures children.Keys == byId.Keys && forall p :: p in children ==> children[p] == []
      ensures roots == []
    {
      byId, children, roots := map[], map[], [];
      for i := 0 to |spans|
        invariant byId == ById(spans, i)
        invariant children.Keys == byId.Keys && roots == []
        invariant forall p :: p in children ==> children[p] == []
      {
        byId := byId[spans[i].spanId := spans[i]];
        children := children[spans[i].spanId := []];
      }
    }

    /** Second loop: each span joins its parent's children or the roots. */
    method Link(spans: seq<TraceSpan>)
      requires children.Keys == byId.Keys && forall p :: p in children ==> children[p] == []
      requires roots == []
      modifies this`children, this`roots
      ensures children.Keys == byId.Keys
      ensures forall p :: p in children ==> children[p] == ChildIds(byId.Keys, spans, |spans|, p)
      ensures roots == RootIds(byId.Keys, spans, |spans|)
    {
      for i := 0 to |spans|
        invariant children.Keys == byId.Keys
        invariant forall p :: p in children ==> children[p] == ChildIds(byId.Keys, spans, i, p)
        invariant roots == RootIds(byId.Keys, spans, i)
      {
        var s := spans[i];
        if s.parentSpanId != "" && s.parentSpanId in byId {
          children := children[s.parentSpanId := children[s.parentSpanId] + [s.spanId]];
        } else {
          roots := roots + [s.spanId];
        }
      }
    }

    method Load(spans: seq<TraceSpan>)
      modifies this
      ensures Contents() == Build(spans)
    {
      Index(spans);
      Link(spans);
      assert children == Build(spans).children;
    }

    /** Loads a trace and renders it.  The span list comes from a table with a
        unique index on the span ID. */
    method Show(spans: seq<TraceSpan>) returns (rows: seq<Line>)
      requires NoDuplicates(SpanIds(spans))
      modifies this
      ensures Contents() == Build(spans)
      ensures rows == Listing(spans)
      ensures forall i: nat, j: nat, a: nat, b: nat | i < j < |spans| && a < |rows| && b < |rows| ::
                rows[a].span == spans[i] && rows[b].span == spans[j] && SameFamily(spans, spans[i], spans[j]) ==> a < b
    {
      Load(spans);
      BuildConsistent(spans);
      rows := RenderAll(Tree(byId, children, roots), roots, 0, []);
      forall i: nat, j: nat, a: nat, b: nat |
        i < j < |spans| && a < |rows| && b < |rows| && rows[a].span == spans[i] && rows[b].span == spans[j]
        && SameFamily(spans, spans[i], spans[j])
        ensures a < b
      {
        ShownInListOrder(spans, i, j, a, b);
      }
    }
  }

  // ------------------------------------------------------------ parent links

  function SpanIds(spans: seq<TraceSpan>): (ids: seq<string>)
    ensures |ids| == |spans|
    ensures forall i :: 0 <= i < |spans| ==> ids[i] == spans[i].spanId
  {
    seq(|spans|, i requires 0 <= i < |spans| => spans[i].spanId)
  }

  function Parent(byId: map<string, TraceSpan>, x: string): Option<string> {
    if x in byId && Linked(byId.Keys, byId[x]) then Some(byId[x].parentSpanId) else None
  }

  /** The node reached from `x` by following `n` parent links. */
  function Ancestor(byId: map<string, TraceSpan>, x: string, n: nat): Option<string>
    decreases n
  {
    if n == 0 then
      if x in byId then Some(x) else None
    else match Parent(byId, x)
      case None => None
      case Some(p) => Ancestor(byId, p, n - 1)
  }

  /** `n` parent links lead from `x` to a node without a usable link. */
  predicate RootAt(byId: map<string, TraceSpan>, x: string, n: nat) {
    var a := Ancestor(byId, x, n);
    a.Some? && Parent(byId, a.value).None?
  }

  ghost predicate ReachesRoot(byId: map<string, TraceSpan>, x: string) {
    exists n: nat :: RootAt(byId, x, n)
  }

  /** The parent chain of `x` visits some node twice. */
  ghost predicate EntersCycle(byId: map<string, TraceSpan>, x: string) {
    exists i: nat, j: nat ::
      i < j && Ancestor(byId, x, i).Some? && Ancestor(byId, x, i) == Ancestor(byId, x, j)
  }

  lemma {:induction false} AncestorStep(byId: map<string, TraceSpan>, x: string, n: nat)
    ensures Ancestor(byId, x, n + 1) ==
            match Ancestor(byId, x, n) case None => None case Some(a) => Parent(byId, a)
    ensures Ancestor(byId, x, n).Some? ==> Ancestor(byId, x, n).value in byId
    decreases n
  {
    if n == 0 {
      if x in byId {
        match Parent(byId, x) {
          case None =>
          case Some(p) => assert Ancestor(byId, p, 0) == Some(p);
        }
      }
    } else {
      match Parent(byId, x) {
        case None =>
        case Some(p) => AncestorStep(byId, p, n - 1);
      }
    }
  }

  lemma {:induction false} AncestorSum(byId: map<string, TraceSpan>, x: string, m: nat, n: nat)
    requires Ancestor(byId, x, m).Some?
    ensures Ancestor(byId, x, m + n) == Ancestor(byId, Ancestor(byId, x, m).value, n)
    decreases m
  {
    if m > 0 {
      AncestorSum(byId, Parent(byId, x).value, m - 1, n);
    } else {
    }
  }

  /** Once a chain has ended it stays ended. */
  lemma {:induction false} ChainEnds(byId: map<string, TraceSpan>, x: string, m: nat, n: nat)
    requires m <= n && Ancestor(byId, x, m).None?
    ensures Ancestor(byId, x, n).None?
    decreases n - m
  {
    if m < n {
      AncestorStep(byId, x, m);
      ChainEnds(byId, x, m + 1, n);
    }
  }

  /** A chain has at most one end, and nothing lies beyond it. */
  lemma RootUnique(byId: map<string, TraceSpan>, x: string, m: nat, n: nat)
    requires RootAt(byId, x, m)
    ensures n > m ==> Ancestor(byId, x, n).None?
    ensures RootAt(byId, x, n) ==> n == m
  {
    AncestorStep(byId, x, m);
    AncestorStep(byId, x, n);
    if n > m {
      ChainEnds(byId, x, m + 1, n);
    } else if n < m && RootAt(byId, x, n) {
      ChainEnds(byId, x, n + 1, m);
    }
  }

  lemma {:induction false} RootIsNoCycle(byId: map<string, TraceSpan>, x: string, n: nat, i: nat, j: nat)
    requires RootAt(byId, x, n) && i < j && Ancestor(byId, x, i).Some?
    ensures Ancestor(byId, x, i) != Ancestor(byId, x, j)
  {
    if Ancestor(byId, x, i) == Ancestor(byId, x, j) {
      RootUnique(byId, x, n, j);
      var k := n - i;
      AncestorSum(byId, x, i, k);
      AncestorSum(byId, x, j, k);
      RootUnique(byId, x, n, j + k);
      assert false;
    }
  }

  /** The first `n` nodes of the chain of `x`. */
  function Chain(byId: map<string, TraceSpan>, x: string, n: nat): (c: seq<Option<string>>)
    ensures |c| == n
    ensures forall i :: 0 <= i < n ==> c[i] == Ancestor(byId, x, i)
  {
    seq(n, i requires i >= 0 => Ancestor(byId, x, i))
  }

  /** Either the parent chain of a span ends at a root or it enters a cycle,
      and never both. */
  lemma RootOrCycle(byId: map<string, TraceSpan>, x: string)
    requires x in byId
    ensures ReachesRoot(byId, x) <==> !EntersCycle(byId, x)
  {
    if ReachesRoot(byId, x) && EntersCycle(byId, x) {
      var n: nat :| RootAt(byId, x, n);
      var i: nat, j: nat :|
        i < j && Ancestor(byId, x, i).Some? && Ancestor(byId, x, i) == Ancestor(byId, x, j);
      RootIsNoCycle(byId, x, n, i, j);
    }
    if !ReachesRoot(byId, x) && !EntersCycle(byId, x) {
      var n := |byId| + 1;
      forall i: nat ensures Ancestor(byId, x, i).Some? && Ancestor(byId, x, i).value in byId {
        NeverEnds(byId, x, i);
      }
      var chain := Chain(byId, x, n);
      var universe := set y | y in byId.Keys :: Some(y);
      SomeCard(byId.Keys);
      NoDuplicatesBound(chain, universe);
      assert false;
    }
  }

  lemma {:induction false} SomeCard(s: set<string>)
    ensures |set y | y in s :: Some(y)| == |s|
  {
    if s != {} {
      var x :| x in s;
      SomeCard(s - {x});
      assert (set y | y in s :: Some(y)) == (set y | y in s - {x} :: Some(y)) + {Some(x)};
    }
  }

  lemma {:induction false} NeverEnds(byId: map<string, TraceSpan>, x: string, i: nat)
    requires x in byId && !ReachesRoot(byId, x)
    ensures Ancestor(byId, x, i).Some? && Ancestor(byId, x, i).value in byId
  {
    if i > 0 {
      NeverEnds(byId, x, i - 1);
      AncestorStep(byId, x, i - 1);
      assert !RootAt(byId, x, i - 1);
    }
  }

  // --------------------------------------------------------------- rendering

  datatype Line = Line(span: TraceSpan, depth: nat)

  /** Child lists and roots are exactly the inverse of the parent links. */
  ghost predicate Consistent(t: Tree) {
    && t.children.Keys == t.byId.Keys
    && (forall x {:trigger NodeOk(t, x)} :: x in t.byId ==> NodeOk(t, x))
    && (forall c :: c in t.roots <==> c in t.byId && Parent(t.byId, c) == None)
    && NoDuplicates(t.roots)
  }

  ghost predicate NodeOk(t: Tree, x: string)
    requires x in t.byId && x in t.children
  {
    && t.byId[x].spanId == x
    && (forall c :: c in t.children[x] <==> Parent(t.byId, c) == Some(x))
    && NoDuplicates(t.children[x])
  }

  /** The nodes from a root down to the node being rendered. */
  ghost predicate IsPath(t: Tree, path: seq<string>) {
    forall i {:trigger OnPath(t, path, i)} :: 0 <= i < |path| ==> OnPath(t, path, i)
  }

  predicate OnPath(t: Tree, path: seq<string>, i: nat)
    requires i < |path|
  {
    path[i] in t.byId && Parent(t.byId, path[i]) == if i == 0 then None else Some(path[i - 1])
  }

  /** Nodes that may be rendered next below the end of `path`. */
  ghost predicate Below(t: Tree, path: seq<string>, ids: seq<string>) {
    forall c :: c in ids ==>
      c in t.byId && Parent(t.byId, c) == if path == [] then None else Some(path[|path| - 1])
  }

  lemma {:induction false} PathDistinct(t: Tree, path: seq<string>, i: nat, j: nat)
    requires IsPath(t, path) && i < j < |path|
    ensures path[i] != path[j]
  {
    assert OnPath(t, path, i) && OnPath(t, path, j);
    if i > 0 {
      PathDistinct(t, path, i - 1, j - 1);
    }
  }

  /** A path is never longer than the number of nodes, so the recursion ends. */
  lemma PathBound(t: Tree, path: seq<string>)
    requires IsPath(t, path)
    ensures |path| <= |t.byId|
  {
    forall i: nat, j: nat | i < j < |path| ensures path[i] != path[j] {
      PathDistinct(t, path, i, j);
    }
    forall x | x in path ensures x in t.byId {
      var i :| 0 <= i < |path| && path[i] == x;
      assert OnPath(t, path, i);
    }
    NoDuplicatesBound(path, t.byId.Keys);
  }

  lemma ChildrenBelow(t: Tree, path: seq<string>)
    requires Consistent(t) && IsPath(t, path) && path != []
    ensures var id := path[|path| - 1];
            && id in t.byId && id in t.children && t.byId[id].spanId == id
            && Below(t, path, t.children[id]) && NoDuplicates(t.children[id])
    ensures |path| <= |t.byId|
  {
    var id := path[|path| - 1];
    assert OnPath(t, path, |path| - 1);
    assert NodeOk(t, id);
    PathBound(t, path);
  }

  /** One span and everything below it.  `path` leads from a root to it. */
  function RenderSpan(t: Tree, id: string, depth: nat, ghost path: seq<string>): seq<Line>
    requires Consistent(t) && IsPath(t, path)
    requires |path| == depth + 1 && path[depth] == id && id in t.byId
    decreases |t.byId| - depth, 0, 0
  {
    ChildrenBelow(t, path);
    [Line(t.byId[id], depth)] + RenderAll(t, t.children[id], depth + 1, path)
  }

  lemma PathPush(t: Tree, path: seq<string>, c: string)
    requires IsPath(t, path) && Below(t, path, [c])
    ensures IsPath(t, path + [c])
  {
    assert c in [c];
    forall i: nat | i < |path + [c]| ensures OnPath(t, path + [c], i) {
      if i < |path| {
        assert OnPath(t, path, i);
      }
    }
  }

  /** The given siblings, one after the other, each with everything below it. */
  function RenderAll(t: Tree, ids: seq<string>, depth: nat, ghost path: seq<string>): seq<Line>
    requires Consistent(t) && IsPath(t, path) && |path| == depth
    requires Below(t, path, ids)
    decreases |t.byId| - depth, 1, |ids|
  {
    if ids == [] then []
    else
      PathPush(t, path, ids[0]);
      RenderSpan(t, ids[0], depth, path + [ids[0]]) + RenderAll(t, ids[1..], depth, path)
  }

  /** The whole listing of a trace. */
  function Listing(spans: seq<TraceSpan>): seq<Line>
    requires NoDuplicates(SpanIds(spans))
  {
    BuildConsistent(spans);
    var t := Build(spans);
    RenderAll(t, t.roots, 0, [])
  }

  // ------------------------------------------------- correctness of building

  lemma DistinctIds(spans: seq<TraceSpan>, i: nat, j: nat)
    requires NoDuplicates(SpanIds(spans)) && i < j < |spans|
    ensures spans[i].spanId != spans[j].spanId
  {
    assert SpanIds(spans)[i] != SpanIds(spans)[j];
  }

  /** Of rows with the same span ID the last one counts. */
  lemma {:induction false} LaterReplaces(spans: seq<TraceSpan>, n: nat, i: nat)
    requires i < n <= |spans| && forall j :: i < j < n ==> spans[j].spanId != spans[i].spanId
    ensures spans[i].spanId in ById(spans, n) && ById(spans, n)[spans[i].spanId] == spans[i]
  {
    if i < n - 1 {
      LaterReplaces(spans, n - 1, i);
    }
  }

  lemma ByIdMeaning(spans: seq<TraceSpan>, n: nat)
    requires n <= |spans| && NoDuplicates(SpanIds(spans))
    ensures forall i :: 0 <= i < n ==>
              spans[i].spanId in ById(spans, n) && ById(spans, n)[spans[i].spanId] == spans[i]
    ensures forall x :: x in ById(spans, n) ==> exists i :: 0 <= i < n && spans[i].spanId == x
    ensures |ById(spans, n)| == n
  {
    forall i: nat | i < n
      ensures spans[i].spanId in ById(spans, n) && ById(spans, n)[spans[i].spanId] == spans[i]
    {
      forall j: nat | i < j < n ensures spans[j].spanId != spans[i].spanId {
        DistinctIds(spans, i, j);
      }
      LaterReplaces(spans, n, i);
    }
    ByIdKeys(spans, n);
    ByIdSize(spans, n);
  }

  lemma {:induction false} ByIdKeys(spans: seq<TraceSpan>, n: nat)
    requires n <= |spans|
    ensures forall x :: x in ById(spans, n) ==> exists i :: 0 <= i < n && spans[i].spanId == x
  {
    if n > 0 {
      ByIdKeys(spans, n - 1);
    }
  }

  lemma {:induction false} ByIdSize(spans: seq<TraceSpan>, n: nat)
    requires n <= |spans| && NoDuplicates(SpanIds(spans))
    ensures |ById(spans, n)| == n
  {
    if n > 0 {
      ByIdSize(spans, n - 1);
      ByIdKeys(spans, n - 1);
      forall i: nat | i < n - 1 ensures spans[i].spanId != spans[n - 1].spanId {
        DistinctIds(spans, i, n - 1);
      }
    }
  }

  lemma {:induction false} RootIdsMeaning(ids: set<string>, spans: seq<TraceSpan>, n: nat)
    requires n <= |spans| && NoDuplicates(SpanIds(spans))
    ensures NoDuplicates(RootIds(ids, spans, n))
    ensures forall c :: c in RootIds(ids, spans, n) <==>
              exists i :: 0 <= i < n && spans[i].spanId == c && !Linked(ids, spans[i])
  {
    if n > 0 {
      RootIdsMeaning(ids, spans, n - 1);
      forall i: nat | i < n - 1 ensures spans[i].spanId != spans[n - 1].spanId {
        DistinctIds(spans, i, n - 1);
      }
      assert spans[n - 1].spanId !in RootIds(ids, spans, n - 1);
    }
  }

  lemma {:induction false} ChildIdsMeaning(ids: set<string>, spans: seq<TraceSpan>, n: nat, parent: string)
    requires n <= |spans| && NoDuplicates(SpanIds(spans))
    ensures NoDuplicates(ChildIds(ids, spans, n, parent))
    ensures forall c :: c in ChildIds(ids, spans, n, parent) <==>
              exists i :: 0 <= i < n && spans[i].spanId == c
                          && Linked(ids, spans[i]) && spans[i].parentSpanId == parent
  {
    if n > 0 {
      ChildIdsMeaning(ids, spans, n - 1, parent);
      forall i: nat | i < n - 1 ensures spans[i].spanId != spans[n - 1].spanId {
        DistinctIds(spans, i, n - 1);
      }
      assert spans[n - 1].spanId !in ChildIds(ids, spans, n - 1, parent);
    }
  }

  /** `x` stands somewhere before `y`. */
  ghost predicate Precedes(l: seq<string>, x: string, y: string) {
    exists u, v :: 0 <= u < v < |l| && l[u] == x && l[v] == y
  }

  lemma PrecedesSnoc(l: seq<string>, x: string, y: string)
    ensures Precedes(l, x, y) ==> Precedes(l + [y], x, y)
    ensures forall z :: Precedes(l, x, y) ==> Precedes(l + [z], x, y)
    ensures x in l ==> Precedes(l + [y], x, y)
  {
    if x in l {
      var u :| 0 <= u < |l| && l[u] == x;
      assert (l + [y])[u] == x && (l + [y])[|l|] == y;
    }
    if Precedes(l, x, y) {
      var u, v :| 0 <= u < v < |l| && l[u] == x && l[v] == y;
      assert forall z :: (l + [z])[u] == x && (l + [z])[v] == y;
    }
  }

  /** Children of one parent are in list order, and so are the roots. */
  lemma {:induction false} ListOrder(ids: set<string>, spans: seq<TraceSpan>, n: nat, i: nat, j: nat)
    requires i < j < n <= |spans|
    ensures Linked(ids, spans[i]) && Linked(ids, spans[j]) && spans[i].parentSpanId == spans[j].parentSpanId ==>
              Precedes(ChildIds(ids, spans, n, spans[i].parentSpanId), spans[i].spanId, spans[j].spanId)
    ensures !Linked(ids, spans[i]) && !Linked(ids, spans[j]) ==>
              Precedes(RootIds(ids, spans, n), spans[i].spanId, spans[j].spanId)
  {
    var p, x, y := spans[i].parentSpanId, spans[i].spanId, spans[j].spanId;
    PrecedesSnoc(ChildIds(ids, spans, n - 1, p), x, y);
    PrecedesSnoc(RootIds(ids, spans, n - 1), x, y);
    if j < n - 1 {
      ListOrder(ids, spans, n - 1, i, j);
    } else {
      IsListed(ids, spans, n - 1, i);
    }
  }

  lemma {:induction false} IsListed(ids: set<string>, spans: seq<TraceSpan>, n: nat, i: nat)
    requires i < n <= |spans|
    ensures Linked(ids, spans[i]) ==> spans[i].spanId in ChildIds(ids, spans, n, spans[i].parentSpanId)
    ensures !Linked(ids, spans[i]) ==> spans[i].spanId in RootIds(ids, spans, n)
  {
    if i < n - 1 {
      IsListed(ids, spans, n - 1, i);
    }
  }

  /** On a list with distinct span IDs the two loops invert the parent links. */
  lemma BuildConsistent(spans: seq<TraceSpan>)
    requires NoDuplicates(SpanIds(spans))
    ensures Consistent(Build(spans))
    ensures Below(Build(spans), [], Build(spans).roots)
    ensures forall i :: 0 <= i < |spans| ==>
              spans[i].spanId in Build(spans).byId && Build(spans).byId[spans[i].spanId] == spans[i]
    ensures |Build(spans).byId| == |spans|
  {
    var n, t := |spans|, Build(spans);
    ByIdMeaning(spans, n);
    RootIdsMeaning(t.byId.Keys, spans, n);
    forall p | p in t.byId ensures NodeOk(t, p) {
      ChildIdsMeaning(t.byId.Keys, spans, n, p);
    }
  }

  // ------------------------------------------------ correctness of rendering

  lemma CountPrepend(r: Line, rest: seq<Line>, x: Line)
    ensures multiset([r] + rest)[x] == multiset(rest)[x] + if x == r then 1 else 0
  {
  }

  /** How often a row occurs below one span. */
  lemma {:induction false} SpanCount(t: Tree, id: string, depth: nat, path: seq<string>, x: string, k: nat)
    requires Consistent(t) && IsPath(t, path)
    requires |path| == depth + 1 && path[depth] == id && id in t.byId
    requires x in t.byId
    ensures multiset(RenderSpan(t, id, depth, path))[Line(t.byId[x], k)] ==
            if k >= depth && Ancestor(t.byId, x, k - depth) == Some(id) then 1 else 0
    decreases |t.byId| - depth, 0, 0
  {
    ChildrenBelow(t, path);
    var kids := t.children[id];
    var rest := RenderAll(t, kids, depth + 1, path);
    AllCount(t, kids, depth + 1, path, x, k);
    assert NodeOk(t, x);
    CountPrepend(Line(t.byId[id], depth), rest, Line(t.byId[x], k));
    if k > depth {
      AncestorAmongChildren(t, x, id, k - depth - 1);
    }
  }

  lemma AncestorAmongChildren(t: Tree, x: string, id: string, n: nat)
    requires Consistent(t) && id in t.byId
    ensures Ancestor(t.byId, x, n + 1) == Some(id) <==>
            Ancestor(t.byId, x, n).Some? && Ancestor(t.byId, x, n).value in t.children[id]
  {
    AncestorStep(t.byId, x, n);
    assert NodeOk(t, id);
  }

  /** How often a row occurs below a list of siblings. */
  lemma {:induction false} AllCount(t: Tree, ids: seq<string>, depth: nat, path: seq<string>, x: string, k: nat)
    requires Consistent(t) && IsPath(t, path) && |path| == depth
    requires Below(t, path, ids) && NoDuplicates(ids)
    requires x in t.byId
    ensures multiset(RenderAll(t, ids, depth, path))[Line(t.byId[x], k)] ==
            if k >= depth && Ancestor(t.byId, x, k - depth).Some?
               && Ancestor(t.byId, x, k - depth).value in ids then 1 else 0
    decreases |t.byId| - depth, 1, |ids|
  {
    if ids != [] {
      PathPush(t, path, ids[0]);
      SpanCount(t, ids[0], depth, path + [ids[0]], x, k);
      AllCount(t, ids[1..], depth, path, x, k);
    }
  }

  /** Line `j` is the line that line `i` is indented under. */
  ghost predicate Encloses(rows: seq<Line>, j: nat, i: nat)
    requires i < |rows|
  {
    && j < i
    && rows[j].depth + 1 == rows[i].depth
    && forall m :: j < m < i ==> rows[m].depth >= rows[i].depth
  }

  /** Rows at depth `base` or deeper; each deeper row is indented under the row
      of its parent. */
  ghost predicate Nested(rows: seq<Line>, base: nat) {
    && (forall i :: 0 <= i < |rows| ==> rows[i].depth >= base)
    && forall i {:trigger NestedAt(rows, base, i)} :: 0 <= i < |rows| ==> NestedAt(rows, base, i)
  }

  ghost predicate NestedAt(rows: seq<Line>, base: nat, i: nat)
    requires i < |rows|
  {
    rows[i].depth > base ==>
      exists j: nat :: Encloses(rows, j, i) && rows[j].span.spanId == rows[i].span.parentSpanId
  }

  lemma NestedConcat(a: seq<Line>, b: seq<Line>, base: nat)
    requires Nested(a, base) && Nested(b, base)
    ensures Nested(a + b, base)
  {
    var rows := a + b;
    forall i: nat | i < |rows| ensures NestedAt(rows, base, i) {
      if i < |a| {
        assert NestedAt(a, base, i);
        NestedInLonger(a, b, base, i);
      } else {
        assert NestedAt(b, base, i - |a|);
        NestedFurtherDown(a, b, base, i - |a|);
      }
    }
  }

  lemma NestedInLonger(a: seq<Line>, b: seq<Line>, base: nat, i: nat)
    requires i < |a| && NestedAt(a, base, i)
    ensures NestedAt(a + b, base, i)
  {
    if a[i].depth > base {
      var j: nat :| Encloses(a, j, i) && a[j].span.spanId == a[i].span.parentSpanId;
      assert Encloses(a + b, j, i);
    }
  }

  lemma NestedFurtherDown(a: seq<Line>, b: seq<Line>, base: nat, i: nat)
    requires i < |b| && NestedAt(b, base, i)
    ensures NestedAt(a + b, base, |a| + i)
  {
    var rows := a + b;
    if b[i].depth > base {
      var j: nat :| Encloses(b, j, i) && b[j].span.spanId == b[i].span.parentSpanId;
      assert Encloses(rows, |a| + j, |a| + i) by {
        forall m | |a| + j < m < |a| + i ensures rows[m].depth >= b[i].depth {
          assert rows[m] == b[m - |a|];
        }
      }
    }
  }

  lemma NestedPrepend(r: Line, b: seq<Line>)
    requires Nested(b, r.depth + 1)
    requires forall i :: 0 <= i < |b| && b[i].depth == r.depth + 1 ==> b[i].span.parentSpanId == r.span.spanId
    ensures Nested([r] + b, r.depth)
  {
    var rows := [r] + b;
    forall i: nat | i < |rows| ensures rows[i].depth >= r.depth && NestedAt(rows, r.depth, i) {
      if i > 0 {
        assert NestedAt(b, r.depth + 1, i - 1);
        NestedPrependAt(r, b, rows, i);
      }
    }
  }

  lemma NestedPrependAt(r: Line, b: seq<Line>, rows: seq<Line>, i: nat)
    requires rows == [r] + b && 0 < i < |rows|
    requires forall m :: 0 <= m < |b| ==> b[m].depth >= r.depth + 1
    requires NestedAt(b, r.depth + 1, i - 1)
    requires b[i - 1].depth == r.depth + 1 ==> b[i - 1].span.parentSpanId == r.span.spanId
    ensures NestedAt(rows, r.depth, i)
  {
    if b[i - 1].depth == r.depth + 1 {
      assert Encloses(rows, 0, i);
    } else {
      var j: nat :| Encloses(b, j, i - 1) && b[j].span.spanId == b[i - 1].span.parentSpanId;
      assert Encloses(rows, j + 1, i) by {
        forall m | j + 1 < m < i ensures rows[m].depth >= rows[i].depth {
          assert rows[m] == b[m - 1];
        }
      }
    }
  }

  /** IDs of the rows at depth `d`, in order. */
  function AtDepth(rows: seq<Line>, d: nat): seq<string> {
    if rows == [] then []
    else (if rows[0].depth == d then [rows[0].span.spanId] else []) + AtDepth(rows[1..], d)
  }

  lemma {:induction false} AtDepthConcat(a: seq<Line>, b: seq<Line>, d: nat)
    ensures AtDepth(a + b, d) == AtDepth(a, d) + AtDepth(b, d)
  {
    if a == [] {
      assert a + b == b;
    } else {
      assert (a + b)[1..] == a[1..] + b;
      AtDepthConcat(a[1..], b, d);
    }
  }

  lemma {:induction false} AtDepthNone(rows: seq<Line>, d: nat)
    requires forall i :: 0 <= i < |rows| ==> rows[i].depth > d
    ensures AtDepth(rows, d) == []
  {
    if rows != [] {
      AtDepthNone(rows[1..], d);
    }
  }

  /** The lines are at depth `base` or deeper. */
  ghost predicate NotAbove(rows: seq<Line>, base: nat) {
    forall r :: r in rows ==> r.depth >= base
  }

  /** The lines show spans as they are stored. */
  ghost predicate Stored(t: Tree, rows: seq<Line>) {
    forall r :: r in rows ==> r.span.spanId in t.byId && r.span == t.byId[r.span.spanId]
  }

  lemma {:induction false} SpanStored(t: Tree, id: string, depth: nat, path: seq<string>)
    requires Consistent(t) && IsPath(t, path)
    requires |path| == depth + 1 && path[depth] == id && id in t.byId
    ensures Stored(t, RenderSpan(t, id, depth, path)) && NotAbove(RenderSpan(t, id, depth, path), depth)
    decreases |t.byId| - depth, 0, 0
  {
    ChildrenBelow(t, path);
    AllStored(t, t.children[id], depth + 1, path);
  }

  lemma {:induction false} AllStored(t: Tree, ids: seq<string>, depth: nat, path: seq<string>)
    requires Consistent(t) && IsPath(t, path) && |path| == depth
    requires Below(t, path, ids)
    ensures Stored(t, RenderAll(t, ids, depth, path)) && NotAbove(RenderAll(t, ids, depth, path), depth)
    decreases |t.byId| - depth, 1, |ids|
  {
    if ids != [] {
      PathPush(t, path, ids[0]);
      SpanStored(t, ids[0], depth, path + [ids[0]]);
      AllStored(t, ids[1..], depth, path);
    }
  }

  /** The top lines of a span's block: the span alone. */
  lemma {:induction false} SpanTop(t: Tree, id: string, depth: nat, path: seq<string>)
    requires Consistent(t) && IsPath(t, path)
    requires |path| == depth + 1 && path[depth] == id && id in t.byId
    ensures AtDepth(RenderSpan(t, id, depth, path), depth) == [id]
  {
    ChildrenBelow(t, path);
    var rest := RenderAll(t, t.children[id], depth + 1, path);
    AllStored(t, t.children[id], depth + 1, path);
    AtDepthNone(rest, depth);
    assert RenderSpan(t, id, depth, path)[1..] == rest;
  }

  /** The top lines of a list of siblings: the siblings in order. */
  lemma {:induction false} AllTops(t: Tree, ids: seq<string>, depth: nat, path: seq<string>)
    requires Consistent(t) && IsPath(t, path) && |path| == depth
    requires Below(t, path, ids)
    ensures AtDepth(RenderAll(t, ids, depth, path), depth) == ids
    decreases |ids|
  {
    if ids != [] {
      PathPush(t, path, ids[0]);
      var a, b := RenderSpan(t, ids[0], depth, path + [ids[0]]), RenderAll(t, ids[1..], depth, path);
      SpanTop(t, ids[0], depth, path + [ids[0]]);
      AllTops(t, ids[1..], depth, path);
      TopsConcat(a, b, depth, ids);
    }
  }

  lemma TopsConcat(a: seq<Line>, b: seq<Line>, depth: nat, ids: seq<string>)
    requires ids != [] && AtDepth(a, depth) == [ids[0]] && AtDepth(b, depth) == ids[1..]
    ensures AtDepth(a + b, depth) == ids
  {
    AtDepthConcat(a, b, depth);
  }

  lemma {:induction false} SpanNested(t: Tree, id: string, depth: nat, path: seq<string>)
    requires Consistent(t) && IsPath(t, path)
    requires |path| == depth + 1 && path[depth] == id && id in t.byId
    ensures Nested(RenderSpan(t, id, depth, path), depth)
    decreases |t.byId| - depth, 0, 0
  {
    ChildrenBelow(t, path);
    var rest := RenderAll(t, t.children[id], depth + 1, path);
    AllStored(t, t.children[id], depth + 1, path);
    AllTops(t, t.children[id], depth + 1, path);
    AllNested(t, t.children[id], depth + 1, path);
    ChildrenNested(t, id, depth, rest);
  }

  lemma ChildrenNested(t: Tree, id: string, depth: nat, rest: seq<Line>)
    requires Consistent(t) && id in t.byId
    requires Stored(t, rest) && AtDepth(rest, depth + 1) == t.children[id] && Nested(rest, depth + 1)
    ensures Nested([Line(t.byId[id], depth)] + rest, depth)
  {
    ParentsOfRows(t, id, depth + 1, rest);
    NestedPrepend(Line(t.byId[id], depth), rest);
  }

  lemma {:induction false} AllNested(t: Tree, ids: seq<string>, depth: nat, path: seq<string>)
    requires Consistent(t) && IsPath(t, path) && |path| == depth
    requires Below(t, path, ids)
    ensures Nested(RenderAll(t, ids, depth, path), depth)
    decreases |t.byId| - depth, 1, |ids|
  {
    if ids != [] {
      PathPush(t, path, ids[0]);
      SpanNested(t, ids[0], depth, path + [ids[0]]);
      AllNested(t, ids[1..], depth, path);
      NestedConcat(RenderSpan(t, ids[0], depth, path + [ids[0]]), RenderAll(t, ids[1..], depth, path), depth);
    }
  }

  /** A span's block starts with the span; its children follow one level
      deeper, in list order, and everything is indented under its parent. */
  lemma SpanShape(t: Tree, id: string, depth: nat, path: seq<string>)
    requires Consistent(t) && IsPath(t, path)
    requires |path| == depth + 1 && path[depth] == id && id in t.byId
    ensures var rows := RenderSpan(t, id, depth, path);
            && rows[0] == Line(t.byId[id], depth)
            && Nested(rows, depth)
            && AtDepth(rows, depth) == [id]
            && AtDepth(rows[1..], depth + 1) == t.children[id]
            && Stored(t, rows)
  {
    SpanStored(t, id, depth, path);
    SpanTop(t, id, depth, path);
    SpanNested(t, id, depth, path);
    ChildrenBelow(t, path);
    AllTops(t, t.children[id], depth + 1, path);
    assert RenderSpan(t, id, depth, path)[1..] == RenderAll(t, t.children[id], depth + 1, path);
  }

  lemma ParentsOfRows(t: Tree, id: string, depth: nat, rows: seq<Line>)
    requires Consistent(t) && id in t.byId
    requires Stored(t, rows) && AtDepth(rows, depth) == t.children[id]
    ensures forall i :: 0 <= i < |rows| && rows[i].depth == depth ==>
              rows[i].span.parentSpanId == t.byId[id].spanId
  {
    forall i | 0 <= i < |rows| && rows[i].depth == depth
      ensures rows[i].span.parentSpanId == t.byId[id].spanId
    {
      var r := rows[i];
      InAtDepth(rows, r);
      assert NodeOk(t, id);
    }
  }

  lemma {:induction false} InAtDepth(rows: seq<Line>, r: Line)
    requires r in rows
    ensures r.span.spanId in AtDepth(rows, r.depth)
  {
    if rows[0] != r {
      InAtDepth(rows[1..], r);
    }
  }

  // ------------------------------------------------------------ main results

  /** A listing shows span `s` at depth `k` once if `k` parent links lead from
      `s` to a root, and otherwise not at all; it shows nothing else. */
  lemma ListingCounts(spans: seq<TraceSpan>, s: TraceSpan, k: nat)
    requires NoDuplicates(SpanIds(spans)) && s in spans
    ensures multiset(Listing(spans))[Line(s, k)] ==
            if RootAt(Build(spans).byId, s.spanId, k) then 1 else 0
  {
    BuildConsistent(spans);
    var t := Build(spans);
    AllCount(t, t.roots, 0, [], s.spanId, k);
    AncestorStep(t.byId, s.spanId, k);
    var a := Ancestor(t.byId, s.spanId, k);
    assert a.Some? ==> (a.value in t.roots <==> Parent(t.byId, a.value) == None);
  }

  lemma ListingShape(spans: seq<TraceSpan>)
    requires NoDuplicates(SpanIds(spans))
    ensures Nested(Listing(spans), 0)
    ensures AtDepth(Listing(spans), 0) == Build(spans).roots
    ensures forall r :: r in Listing(spans) ==> r.span in spans
  {
    BuildConsistent(spans);
    var t := Build(spans);
    AllNested(t, t.roots, 0, []);
    AllTops(t, t.roots, 0, []);
    AllStored(t, t.roots, 0, []);
    ByIdMeaning(spans, |spans|);
    forall r | r in Listing(spans) ensures r.span in spans {
      var i :| 0 <= i < |spans| && spans[i].spanId == r.span.spanId;
    }
  }

  /** Rendering ends, and it shows a span exactly once, at the length of its
      parent chain, if that chain ends; a span whose chain enters a cycle is
      never shown. */
  lemma ShownOnceOrNever(spans: seq<TraceSpan>, s: TraceSpan)
    requires NoDuplicates(SpanIds(spans)) && s in spans
    ensures var byId, rows := Build(spans).byId, Listing(spans);
            if EntersCycle(byId, s.spanId) then
              forall k: nat :: Line(s, k) !in rows
            else
              exists k: nat ::
                && RootAt(byId, s.spanId, k)
                && multiset(rows)[Line(s, k)] == 1
                && forall k': nat :: k' != k ==> Line(s, k') !in rows
  {
    var byId, rows := Build(spans).byId, Listing(spans);
    BuildConsistent(spans);
    RootOrCycle(byId, s.spanId);
    forall k: nat ensures Line(s, k) in rows <==> RootAt(byId, s.spanId, k) {
      ListingCounts(spans, s, k);
      assert Line(s, k) in rows <==> Line(s, k) in multiset(rows);
    }
    if !EntersCycle(byId, s.spanId) {
      var k: nat :| RootAt(byId, s.spanId, k);
      ListingCounts(spans, s, k);
      forall k': nat | k' != k ensures Line(s, k') !in rows {
        RootUnique(byId, s.spanId, k, k');
      }
    }
  }

  lemma ShownSpansDistinct(spans: seq<TraceSpan>, i: nat, j: nat)
    requires NoDuplicates(SpanIds(spans))
    requires i < j < |Listing(spans)|
    ensures Listing(spans)[i].span != Listing(spans)[j].span
  {
    var byId, rows := Build(spans).byId, Listing(spans);
    ListingShape(spans);
    assert rows[i] in rows && rows[j] in rows;
    var s := rows[i].span;
    if rows[j].span == s {
      var d, d' := rows[i].depth, rows[j].depth;
      assert rows[i] == Line(s, d) && rows[j] == Line(s, d');
      ListingCounts(spans, s, d);
      ListingCounts(spans, s, d');
      RootUnique(byId, s.spanId, d, d');
      RepeatedElement(rows, i, j);
    }
  }

  lemma RepeatedElement<T>(s: seq<T>, i: nat, j: nat)
    requires i < j < |s| && s[i] == s[j]
    ensures multiset(s)[s[i]] >= 2
  {
    assert s == s[..j] + s[j..];
    assert s[..j][i] == s[i] && s[j..][0] == s[i];
    assert multiset(s) == multiset(s[..j]) + multiset(s[j..]);
  }

  /** The node that a line belongs to, and where its parent chain meets the siblings
      that are rendered. */
  lemma LineBelow(t: Tree, ids: seq<string>, depth: nat, path: seq<string>, a: nat)
    requires Consistent(t) && IsPath(t, path) && |path| == depth && Below(t, path, ids) && NoDuplicates(ids)
    requires a < |RenderAll(t, ids, depth, path)|
    ensures var r := RenderAll(t, ids, depth, path)[a];
            && r.span.spanId in t.byId && r.depth >= depth
            && var up := Ancestor(t.byId, r.span.spanId, r.depth - depth);
            up.Some? && up.value in ids
  {
    var rows := RenderAll(t, ids, depth, path);
    AllStored(t, ids, depth, path);
    assert rows[a] in rows;
    var x, k := rows[a].span.spanId, rows[a].depth;
    AllCount(t, ids, depth, path, x, k);
    assert rows[a] in multiset(rows) && rows[a] == Line(t.byId[x], k);
  }

  /** Lines of two siblings, the one of `r` coming first among the children of the
      parent, if there is one. */
  ghost predicate AreSiblings(t: Tree, r: Line, q: Line) {
    && r.depth == q.depth && r.span.spanId != q.span.spanId
    && Parent(t.byId, r.span.spanId) == Parent(t.byId, q.span.spanId)
    && match Parent(t.byId, r.span.spanId)
       case None => true
       case Some(p) => p in t.children && Precedes(t.children[p], r.span.spanId, q.span.spanId)
  }

  /** Two siblings are rendered in the order of the list they are in. */
  lemma {:induction false} SiblingsInOrder(t: Tree, ids: seq<string>, depth: nat, path: seq<string>, a: nat, b: nat)
    requires Consistent(t) && IsPath(t, path) && |path| == depth && Below(t, path, ids) && NoDuplicates(ids)
    requires a < |RenderAll(t, ids, depth, path)| && b < |RenderAll(t, ids, depth, path)|
    requires var r, q := RenderAll(t, ids, depth, path)[a], RenderAll(t, ids, depth, path)[b];
             AreSiblings(t, r, q) && (r.depth == depth ==> Precedes(ids, r.span.spanId, q.span.spanId))
    ensures a < b
    decreases |t.byId| - depth, 1, |ids|
  {
    if ids != [] {
      PathPush(t, path, ids[0]);
      var front := RenderSpan(t, ids[0], depth, path + [ids[0]]);
      var back := RenderAll(t, ids[1..], depth, path);
      var n := |front|;
      assert RenderAll(t, ids, depth, path) == front + back;
      if a < n && b < n {
        SiblingsInBlock(t, ids[0], depth, path + [ids[0]], a, b);
      } else if a >= n && b >= n {
        LaterBlocks(t, ids, depth, path, back[a - n], back[b - n], a - n);
        SiblingsInOrder(t, ids[1..], depth, path, a - n, b - n);
      } else if b < n {
        BlocksDisjoint(t, ids, depth, path, a - n, b);
      }
    }
  }

  lemma LaterBlocks(t: Tree, ids: seq<string>, depth: nat, path: seq<string>, r: Line, q: Line, a: nat)
    requires Consistent(t) && IsPath(t, path) && |path| == depth && Below(t, path, ids) && NoDuplicates(ids)
    requires ids != [] && a < |RenderAll(t, ids[1..], depth, path)| && r == RenderAll(t, ids[1..], depth, path)[a]
    requires r.depth == depth ==> Precedes(ids, r.span.spanId, q.span.spanId)
    ensures r.depth == depth ==> Precedes(ids[1..], r.span.spanId, q.span.spanId)
  {
    LineBelow(t, ids[1..], depth, path, a);
    PrecedesTail(ids, r.span.spanId, q.span.spanId);
  }

  lemma PrecedesTail(l: seq<string>, x: string, y: string)
    requires l != [] && NoDuplicates(l)
    ensures Precedes(l, x, y) && x in l[1..] ==> Precedes(l[1..], x, y)
    ensures Precedes(l, x, y) ==> y in l[1..]
  {
    if Precedes(l, x, y) {
      var u, v :| 0 <= u < v < |l| && l[u] == x && l[v] == y;
      assert l[1..][v - 1] == y;
      if x in l[1..] {
        var w :| 0 <= w < |l[1..]| && l[1..][w] == x;
        assert l[w + 1] == x && w + 1 == u;
        assert l[1..][u - 1] == x;
      }
    }
  }

  lemma {:induction false} SiblingsInBlock(t: Tree, id: string, depth: nat, path: seq<string>, a: nat, b: nat)
    requires Consistent(t) && IsPath(t, path)
    requires |path| == depth + 1 && path[depth] == id && id in t.byId
    requires a < |RenderSpan(t, id, depth, path)| && b < |RenderSpan(t, id, depth, path)|
    requires AreSiblings(t, RenderSpan(t, id, depth, path)[a], RenderSpan(t, id, depth, path)[b])
    ensures a < b
    decreases |t.byId| - depth, 0, 0
  {
    ChildrenBelow(t, path);
    var rows, rest := RenderSpan(t, id, depth, path), RenderAll(t, t.children[id], depth + 1, path);
    assert rows == [Line(t.byId[id], depth)] + rest;
    if a > 0 {
      DeeperLine(t, id, depth, path, a - 1);
    }
    if a > 0 && b > 0 {
      SiblingsInOrder(t, t.children[id], depth + 1, path, a - 1, b - 1);
    }
  }

  lemma DeeperLine(t: Tree, id: string, depth: nat, path: seq<string>, a: nat)
    requires Consistent(t) && IsPath(t, path)
    requires |path| == depth + 1 && path[depth] == id && id in t.byId && id in t.children
    requires Below(t, path, t.children[id]) && NoDuplicates(t.children[id]) && depth < |t.byId|
    requires a < |RenderAll(t, t.children[id], depth + 1, path)|
    ensures var r := RenderAll(t, t.children[id], depth + 1, path)[a];
            r.depth > depth && (r.depth == depth + 1 ==> Parent(t.byId, r.span.spanId) == Some(id))
  {
    LineBelow(t, t.children[id], depth + 1, path, a);
    assert NodeOk(t, id);
  }

  /** Of two siblings the later one is not in an earlier block. */
  lemma BlocksDisjoint(t: Tree, ids: seq<string>, depth: nat, path: seq<string>, a: nat, b: nat)
    requires Consistent(t) && IsPath(t, path) && |path| == depth && Below(t, path, ids) && NoDuplicates(ids)
    requires ids != [] && IsPath(t, path + [ids[0]]) && ids[0] in t.byId
    requires a < |RenderAll(t, ids[1..], depth, path)| && b < |RenderSpan(t, ids[0], depth, path + [ids[0]])|
    ensures var r, q := RenderAll(t, ids[1..], depth, path)[a], RenderSpan(t, ids[0], depth, path + [ids[0]])[b];
            AreSiblings(t, r, q) ==> r.depth == depth && !Precedes(ids, r.span.spanId, q.span.spanId)
  {
    var r, q := RenderAll(t, ids[1..], depth, path)[a], RenderSpan(t, ids[0], depth, path + [ids[0]])[b];
    LineBelow(t, ids[1..], depth, path, a);
    InFront(t, ids, depth, path, b);
    PrecedesTail(ids, r.span.spanId, q.span.spanId);
  }

  lemma SameAncestor(byId: map<string, TraceSpan>, x: string, y: string, n: nat)
    requires n > 0 && Parent(byId, x) == Parent(byId, y)
    ensures Ancestor(byId, x, n) == Ancestor(byId, y, n)
  {
  }

  lemma InFront(t: Tree, ids: seq<string>, depth: nat, path: seq<string>, b: nat)
    requires Consistent(t) && IsPath(t, path) && |path| == depth && Below(t, path, ids) && ids != []
    requires IsPath(t, path + [ids[0]]) && ids[0] in t.byId
    requires b < |RenderSpan(t, ids[0], depth, path + [ids[0]])|
    ensures var r := RenderSpan(t, ids[0], depth, path + [ids[0]])[b];
            r.depth >= depth && Ancestor(t.byId, r.span.spanId, r.depth - depth) == Some(ids[0])
  {
    var front := RenderSpan(t, ids[0], depth, path + [ids[0]]);
    SpanStored(t, ids[0], depth, path + [ids[0]]);
    assert front[b] in front;
    var x, k := front[b].span.spanId, front[b].depth;
    SpanCount(t, ids[0], depth, path + [ids[0]], x, k);
    assert front[b] in multiset(front) && front[b] == Line(t.byId[x], k);
  }

  /** The spans name the same parent and it is listed, or neither has a listed parent. */
  predicate SameFamily(spans: seq<TraceSpan>, s: TraceSpan, r: TraceSpan) {
    var listed := set x | x in spans :: x.spanId;
    || (s.parentSpanId == r.parentSpanId != "" && s.parentSpanId in listed)
    || ((s.parentSpanId == "" || s.parentSpanId !in listed) && (r.parentSpanId == "" || r.parentSpanId !in listed))
  }

  /** Stated on the list alone: spans of the same listed parent are shown in list
      order, and so are the spans without a usable parent link. */
  lemma ShownInListOrder(spans: seq<TraceSpan>, i: nat, j: nat, a: nat, b: nat)
    requires NoDuplicates(SpanIds(spans)) && i < j < |spans|
    requires a < |Listing(spans)| && b < |Listing(spans)|
    requires Listing(spans)[a].span == spans[i] && Listing(spans)[b].span == spans[j]
    requires SameFamily(spans, spans[i], spans[j])
    ensures a < b
  {
    var t, rows := Build(spans), Listing(spans);
    var x, y := spans[i].spanId, spans[j].spanId;
    BuildConsistent(spans);
    ListedKeys(spans);
    ListOrder(t.byId.Keys, spans, |spans|, i, j);
    DistinctIds(spans, i, j);
    SameDepth(spans, a, b);
    LineBelow(t, t.roots, 0, [], a);
    SiblingsInOrder(t, t.roots, 0, [], a, b);
  }

  lemma ListedKeys(spans: seq<TraceSpan>)
    requires NoDuplicates(SpanIds(spans))
    ensures Build(spans).byId.Keys == set s | s in spans :: s.spanId
  {
    var byId, listed := Build(spans).byId, set s | s in spans :: s.spanId;
    ByIdMeaning(spans, |spans|);
    forall x | x in byId ensures x in listed {
      var i :| 0 <= i < |spans| && spans[i].spanId == x;
      assert spans[i] in spans;
    }
    forall x | x in listed ensures x in byId {
      var s :| s in spans && s.spanId == x;
      var i :| 0 <= i < |spans| && spans[i] == s;
    }
  }

  lemma SameDepth(spans: seq<TraceSpan>, a: nat, b: nat)
    requires NoDuplicates(SpanIds(spans)) && a < |Listing(spans)| && b < |Listing(spans)|
    requires Parent(Build(spans).byId, Listing(spans)[a].span.spanId)
             == Parent(Build(spans).byId, Listing(spans)[b].span.spanId)
    ensures Listing(spans)[a].depth == Listing(spans)[b].depth
  {
    var byId, rows := Build(spans).byId, Listing(spans);
    var x, y, k, l := rows[a].span.spanId, rows[b].span.spanId, rows[a].depth, rows[b].depth;
    LineEnds(spans, a);
    LineEnds(spans, b);
    if k > 0 {
      SameAncestor(byId, x, y, k);
      RootUnique(byId, y, k, l);
    } else if l > 0 {
      SameAncestor(byId, y, x, l);
      RootUnique(byId, x, l, k);
    }
  }

  lemma LineEnds(spans: seq<TraceSpan>, a: nat)
    requires NoDuplicates(SpanIds(spans)) && a < |Listing(spans)|
    ensures RootAt(Build(spans).byId, Listing(spans)[a].span.spanId, Listing(spans)[a].depth)
  {
    var r := Listing(spans)[a];
    ListingShape(spans);
    assert r in Listing(spans) && r == Line(r.span, r.depth);
    ListingCounts(spans, r.span, r.depth);
    assert r in multiset(Listing(spans));
  }

  /** The page announces as many spans as the list holds.  The listing has that
      many rows exactly when no parent chain enters a cycle. */
  lemma AnnouncedCountIsRight(spans: seq<TraceSpan>)
    requires NoDuplicates(SpanIds(spans))
    ensures |Listing(spans)| <= |spans|
    ensures |Listing(spans)| == |spans| <==>
              forall s :: s in spans ==> !EntersCycle(Build(spans).byId, s.spanId)
  {
    var byId, rows := Build(spans).byId, Listing(spans);
    ListingShape(spans);
    var shown := seq(|rows|, i requires 0 <= i < |rows| => rows[i].span);
    forall i, j | 0 <= i < j < |shown| ensures shown[i] != shown[j] {
      ShownSpansDistinct(spans, i, j);
    }
    forall i: nat, j: nat | i < j < |spans| ensures spans[i] != spans[j] {
      DistinctIds(spans, i, j);
    }
    var all := set s | s in spans;
    NoDuplicatesBound(spans, all);
    forall x | x in shown ensures x in all {
      var i :| 0 <= i < |shown| && shown[i] == x;
      assert rows[i] in rows;
    }
    NoDuplicatesBound(shown, all);
    forall s | s in spans ensures s in shown <==> !EntersCycle(byId, s.spanId) {
      ShownIffAcyclic(spans, s, shown);
    }
  }

  /** For instance, a single span that names itself as its parent is announced and
      not shown. */
  lemma SelfLinkedSpanHidden(s: TraceSpan)
    requires s.spanId != "" && s.parentSpanId == s.spanId
    ensures NoDuplicates(SpanIds([s])) && Listing([s]) == []
  {
    assert ById([s], 1) == ById([s], 0)[s.spanId := s];
    assert RootIds({s.spanId}, [s], 1) == RootIds({s.spanId}, [s], 0);
    assert Build([s]).byId.Keys == {s.spanId};
  }

  lemma ShownIffAcyclic(spans: seq<TraceSpan>, s: TraceSpan, shown: seq<TraceSpan>)
    requires NoDuplicates(SpanIds(spans)) && s in spans
    requires |shown| == |Listing(spans)|
    requires forall i :: 0 <= i < |shown| ==> shown[i] == Listing(spans)[i].span
    ensures s in shown <==> !EntersCycle(Build(spans).byId, s.spanId)
  {
    var rows := Listing(spans);
    ShownOnceOrNever(spans, s);
    if s in shown {
      var i :| 0 <= i < |shown| && shown[i] == s;
      assert rows[i] == Line(s, rows[i].depth) && rows[i] in rows;
    }
  }

  /** The parent links can be read back from the indentation: each indented row
      has exactly one enclosing row, and that row shows its parent span. */
  lemma IndentationGivesParents(spans: seq<TraceSpan>, i: nat)
    requires NoDuplicates(SpanIds(spans)) && i < |Listing(spans)|
    ensures var rows := Listing(spans);
            var s := rows[i].span;
            if rows[i].depth == 0 then
              Parent(Build(spans).byId, s.spanId) == None && forall j: nat :: !Encloses(rows, j, i)
            else
              && Parent(Build(spans).byId, s.spanId) == Some(s.parentSpanId)
              && exists j: nat ::
                   && Encloses(rows, j, i)
                   && rows[j].span.spanId == s.parentSpanId
                   && forall j': nat :: Encloses(rows, j', i) ==> j' == j
    ensures var s := Listing(spans)[i].span;
            Listing(spans)[i].depth == 0 <==>
              s.parentSpanId == "" || forall p :: p in spans ==> p.spanId != s.parentSpanId
  {
    var byId, rows := Build(spans).byId, Listing(spans);
    ListingShape(spans);
    BuildConsistent(spans);
    ListedKeys(spans);
    var r := rows[i];
    assert r in rows;
    ListingCounts(spans, r.span, r.depth);
    assert r in multiset(rows);
    assert RootAt(byId, r.span.spanId, r.depth);
    if r.depth > 0 {
      assert NestedAt(rows, 0, i);
      var j: nat :| Encloses(rows, j, i) && rows[j].span.spanId == r.span.parentSpanId;
    }
  }

  // -------------------------------------------------- why IDs must be distinct

  predicate Calls(t: Tree, caller: string, callee: string) {
    caller in t.children && callee in t.children[caller]
  }

  /** A chain of nested calls of the renderer, from a top-level node downwards. */
  ghost predicate IsCallChain(t: Tree, calls: seq<string>) {
    && (calls != [] ==> calls[0] in t.roots)
    && forall i :: 0 < i < |calls| ==> Calls(t, calls[i - 1], calls[i])
  }

  /** With distinct span IDs nested calls never go deeper than the number of spans. */
  lemma NestingBounded(spans: seq<TraceSpan>, calls: seq<string>)
    requires NoDuplicates(SpanIds(spans)) && IsCallChain(Build(spans), calls)
    ensures |calls| <= |spans|
  {
    var t := Build(spans);
    BuildConsistent(spans);
    CallChainIsPath(t, calls);
    PathBound(t, calls);
  }

  lemma CallChainIsPath(t: Tree, calls: seq<string>)
    requires Consistent(t) && IsCallChain(t, calls)
    ensures IsPath(t, calls)
  {
    forall i: nat | i < |calls| ensures OnPath(t, calls, i) {
      if i > 0 {
        CalleeHasParent(t, calls[i - 1], calls[i]);
      }
    }
  }

  lemma CalleeHasParent(t: Tree, p: string, c: string)
    requires Consistent(t) && Calls(t, p, c)
    ensures Parent(t.byId, c) == Some(p)
  {
    assert NodeOk(t, p);
  }

  /** Whatever the list, the renderer is only called on spans of the list. */
  lemma {:induction false} ListedIds(spans: seq<TraceSpan>, ids: set<string>, n: nat, p: string)
    requires n <= |spans|
    ensures forall x :: x in RootIds(ids, spans, n) ==> x in ById(spans, n)
    ensures forall x :: x in ChildIds(ids, spans, n, p) ==> x in ById(spans, n)
  {
    if n > 0 {
      ListedIds(spans, ids, n - 1, p);
    }
  }

  lemma CallIsListed(spans: seq<TraceSpan>, calls: seq<string>, i: nat)
    requires IsCallChain(Build(spans), calls) && i < |calls|
    ensures calls[i] in Build(spans).byId
  {
    var t := Build(spans);
    if i == 0 {
      ListedIds(spans, t.byId.Keys, |spans|, "");
    } else {
      assert Calls(t, calls[i - 1], calls[i]);
      ListedIds(spans, t.byId.Keys, |spans|, calls[i - 1]);
    }
  }

  ghost predicate NestingAtMost(t: Tree, n: nat) {
    forall calls :: IsCallChain(t, calls) ==> |calls| <= n
  }

  /** For any list, also with repeated IDs: rendering ends exactly if no chain of
      nested calls from a top-level node comes back to a node. */
  lemma RenderingEndsIff(spans: seq<TraceSpan>)
    ensures (exists n: nat :: NestingAtMost(Build(spans), n)) <==>
            (forall calls :: IsCallChain(Build(spans), calls) ==> NoDuplicates(calls))
  {
    var t := Build(spans);
    if n: nat :| NestingAtMost(t, n) {
      forall calls | IsCallChain(t, calls) ensures NoDuplicates(calls) {
        if i: nat, j: nat :| i < j < |calls| && calls[i] == calls[j] {
          var longer := GoRound(t, calls, i, j, n);
          assert false;
        }
      }
    }
    if forall calls :: IsCallChain(t, calls) ==> NoDuplicates(calls) {
      forall calls | IsCallChain(t, calls) ensures |calls| <= |t.byId| {
        forall x | x in calls ensures x in t.byId.Keys {
          var i: nat :| i < |calls| && calls[i] == x;
          CallIsListed(spans, calls, i);
        }
        NoDuplicatesBound(calls, t.byId.Keys);
      }
      assert NestingAtMost(t, |t.byId|);
    }
  }

  /** A chain that comes back to a node can go round again. */
  lemma {:induction false} GoRound(t: Tree, calls: seq<string>, i: nat, j: nat, n: nat) returns (longer: seq<string>)
    requires IsCallChain(t, calls) && i < j < |calls| && calls[i] == calls[j]
    ensures IsCallChain(t, longer) && |longer| > n
    decreases n + 1 - |calls|
  {
    if |calls| > n {
      longer := calls;
    } else {
      var more := calls[..j] + calls[i..];
      forall k | 0 < k < |more| ensures Calls(t, more[k - 1], more[k]) {
        if k <= j {
          assert Calls(t, calls[k - 1], calls[k]);
        } else {
          assert Calls(t, calls[k - j + i - 1], calls[k - j + i]);
        }
      }
      longer := GoRound(t, more, i, j, n);
    }
  }

  function Alternate(a: string, b: string, n: nat): (calls: seq<string>)
    ensures |calls| == n
    ensures forall i :: 0 <= i < n ==> calls[i] == if i % 2 == 0 then a else b
  {
    seq(n, i => if i % 2 == 0 then a else b)
  }

  /** Without distinct IDs the recursion need not end: when span "a" occurs both
      as a root and as a child of its own child "b", calls nest arbitrarily deep. */
  lemma RepeatedIdNestsForever(n: nat)
    ensures var a := TraceSpan("", "a", "", "", "", 0, 0, "");
            var spans := [a, a.(parentSpanId := "b"), a.(spanId := "b", parentSpanId := "a")];
            exists calls :: |calls| == n && IsCallChain(Build(spans), calls)
  {
    var a := TraceSpan("", "a", "", "", "", 0, 0, "");
    var spans := [a, a.(parentSpanId := "b"), a.(spanId := "b", parentSpanId := "a")];
    var t := Build(spans);
    var ids := t.byId.Keys;
    assert ById(spans, 1) == map["a" := spans[0]];
    assert ById(spans, 2) == map["a" := spans[1]];
    assert t.byId == map["a" := spans[1], "b" := spans[2]];
    assert "a" != "b" by { assert "a"[0] != "b"[0]; }
    assert RootIds(ids, spans, 1) == ["a"];
    assert RootIds(ids, spans, 2) == ["a"];
    assert ChildIds(ids, spans, 1, "b") == [] && ChildIds(ids, spans, 1, "a") == [];
    assert ChildIds(ids, spans, 2, "b") == ["a"] && ChildIds(ids, spans, 2, "a") == [];
    assert ChildIds(ids, spans, 3, "b") == ["a"] && ChildIds(ids, spans, 3, "a") == ["b"];
    assert IsCallChain(t, Alternate("a", "b", n));
  }
}
