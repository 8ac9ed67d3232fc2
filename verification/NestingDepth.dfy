/** The nesting depth of src/smda/common/DominatorTree.py: the heaviest branch of the dominator tree. */
module NestingDepth {
  import opened Collections
  import opened Digraph
  import opened DominatorTrees

  /** The vertices that some vertex with several successors branches to. */
  ghost function Significant(graph: Graph): set<Vertex> {
    set u, v | u in graph && |graph[u]| > 1 && v in graph[u] :: v
  }

  // ----- the cost of a subtree

  function RankOf(rank: map<Vertex, nat>, v: Vertex): nat {
    if v in rank then rank[v] else 0
  }

  /** The child lists have no cycle: ranks fall from parent to child. */
  ghost predicate Ranked(t: ChildLists, rank: map<Vertex, nat>) {
    forall v, c :: IsChild(t, v, c) ==> RankOf(rank, c) < RankOf(rank, v)
  }

  ghost function Own(significant: set<Vertex>, v: Vertex): nat {
    if v in significant then 1 else 0
  }

  ghost function Max(a: nat, b: nat): nat {
    if a < b then b else a
  }

  ghost function Cost(t: ChildLists, rank: map<Vertex, nat>, significant: set<Vertex>, v: Vertex): nat
    requires Ranked(t, rank)
    decreases RankOf(rank, v), |Children(t, v)| + 1
  {
    MaxCost(t, rank, significant, v, |Children(t, v)|) + Own(significant, v)
  }

  /** The greatest cost among the first n children. */
  ghost function MaxCost(t: ChildLists, rank: map<Vertex, nat>, significant: set<Vertex>, v: Vertex, n: nat): nat
    requires Ranked(t, rank) && n <= |Children(t, v)|
    decreases RankOf(rank, v), n
  {
    if n == 0 then 0 else
      Max(MaxCost(t, rank, significant, v, n - 1), Cost(t, rank, significant, Children(t, v)[n - 1]))
  }

  // ----- branches

  ghost predicate Branch(t: ChildLists, c: seq<Vertex>) {
    |c| > 0 && forall i :: 0 <= i < |c| - 1 ==> IsChildAt(t, c, i)
  }

  ghost predicate IsChildAt(t: ChildLists, c: seq<Vertex>, i: nat)
    requires i + 1 < |c|
  {
    c[i + 1] in Children(t, c[i])
  }

  ghost function Weight(significant: set<Vertex>, c: seq<Vertex>): nat {
    if c == [] then 0 else Own(significant, c[0]) + Weight(significant, c[1..])
  }

  lemma {:induction false} MaxCostCovers(t: ChildLists, rank: map<Vertex, nat>, significant: set<Vertex>, v: Vertex,
      n: nat, k: nat)
    requires Ranked(t, rank) && k < n <= |Children(t, v)|
    ensures Cost(t, rank, significant, Children(t, v)[k]) <= MaxCost(t, rank, significant, v, n)
  {
    if k < n - 1 {
      MaxCostCovers(t, rank, significant, v, n - 1, k);
    }
  }

  lemma {:induction false} BranchTail(t: ChildLists, c: seq<Vertex>)
    requires Branch(t, c) && |c| > 1
    ensures Branch(t, c[1..]) && c[1] in Children(t, c[0])
  {
    assert IsChildAt(t, c, 0);
    forall i | 0 <= i < |c[1..]| - 1
      ensures IsChildAt(t, c[1..], i)
    {
      assert IsChildAt(t, c, i + 1);
    }
  }

  /** No branch is heavier than the cost of its root. */
  lemma {:induction false} CostBounds(t: ChildLists, rank: map<Vertex, nat>, significant: set<Vertex>, c: seq<Vertex>)
    requires Ranked(t, rank) && Branch(t, c)
    ensures Weight(significant, c) <= Cost(t, rank, significant, c[0])
  {
    if |c| > 1 {
      BranchTail(t, c);
      CostBounds(t, rank, significant, c[1..]);
      var k :| 0 <= k < |Children(t, c[0])| && Children(t, c[0])[k] == c[1];
      MaxCostCovers(t, rank, significant, c[0], |Children(t, c[0])|, k);
    } else {
      assert c[1..] == [];
    }
  }

  /** Some branch is as heavy as the cost of its root. */
  lemma {:induction false} CostAttained(t: ChildLists, rank: map<Vertex, nat>, significant: set<Vertex>,
      v: Vertex) returns (c: seq<Vertex>)
    requires Ranked(t, rank)
    ensures Branch(t, c) && c[0] == v && Weight(significant, c) == Cost(t, rank, significant, v)
    decreases RankOf(rank, v), |Children(t, v)| + 1
  {
    var tail := MaxAttained(t, rank, significant, v, |Children(t, v)|);
    c := [v] + tail;
    assert c[1..] == tail;
    forall i | 0 <= i < |c| - 1
      ensures IsChildAt(t, c, i)
    {
      assert i > 0 ==> IsChildAt(t, tail, i - 1);
    }
  }

  lemma {:induction false} MaxAttained(t: ChildLists, rank: map<Vertex, nat>, significant: set<Vertex>, v: Vertex,
      n: nat) returns (c: seq<Vertex>)
    requires Ranked(t, rank) && n <= |Children(t, v)|
    ensures Weight(significant, c) == MaxCost(t, rank, significant, v, n)
    ensures c == [] || (Branch(t, c) && c[0] in Children(t, v))
    decreases RankOf(rank, v), n
  {
    if n == 0 {
      return [];
    }
    var child := Children(t, v)[n - 1];
    if MaxCost(t, rank, significant, v, n - 1) < Cost(t, rank, significant, child) {
      c := CostAttained(t, rank, significant, child);
    } else {
      c := MaxAttained(t, rank, significant, v, n - 1);
    }
  }

  // ----- the traversal

  datatype Visit = Visit(node: Vertex, childrenDone: bool)

  /** How many stack entries a visit of v still gives rise to. */
  ghost function Work(t: ChildLists, rank: map<Vertex, nat>, v: Vertex): nat
    requires Ranked(t, rank)
    decreases RankOf(rank, v), |Children(t, v)| + 1
  {
    2 + SumWork(t, rank, v, |Children(t, v)|)
  }

  ghost function SumWork(t: ChildLists, rank: map<Vertex, nat>, v: Vertex, n: nat): nat
    requires Ranked(t, rank) && n <= |Children(t, v)|
    decreases RankOf(rank, v), n
  {
    if n == 0 then 0 else SumWork(t, rank, v, n - 1) + Work(t, rank, Children(t, v)[n - 1])
  }

  ghost function StackWork(t: ChildLists, rank: map<Vertex, nat>, stack: seq<Visit>): nat
    requires Ranked(t, rank)
  {
    if stack == [] then 0 else
      var top := stack[|stack| - 1];
      StackWork(t, rank, stack[..|stack| - 1]) + (if top.childrenDone then 1 else Work(t, rank, top.node))
  }

  /** A finished entry finds the costs of its children, or the children above it on the stack. */
  ghost predicate Served(t: ChildLists, costs: map<Vertex, nat>, stack: seq<Visit>, i: nat)
    requires i < |stack|
  {
    stack[i].childrenDone ==>
      forall c :: c in Children(t, stack[i].node) ==> c in costs || exists j :: i < j < |stack| && stack[j].node == c
  }

  ghost predicate Traversing(t: ChildLists, rank: map<Vertex, nat>, significant: set<Vertex>, root: Vertex,
                             costs: map<Vertex, nat>, stack: seq<Visit>)
    requires Ranked(t, rank)
  {
    && (forall v :: v in costs ==> costs[v] == Cost(t, rank, significant, v))
    && (forall i :: 0 <= i < |stack| ==> Served(t, costs, stack, i))
    && (root in costs || (|stack| > 0 && stack[0].node == root))
  }

  method MaxOver(t: ChildLists, v: Vertex, costs: map<Vertex, nat>,
                 ghost rank: map<Vertex, nat>, ghost significant: set<Vertex>) returns (m: nat)
    requires Ranked(t, rank)
    requires forall c :: c in Children(t, v) ==> c in costs && costs[c] == Cost(t, rank, significant, c)
    ensures m == MaxCost(t, rank, significant, v, |Children(t, v)|)
  {
    m := 0;
    var children := Children(t, v);
    for i := 0 to |children|
      invariant m == MaxCost(t, rank, significant, v, i)
    {
      var child := children[i];
      assert child in children;
      if m < costs[child] {
        m := costs[child];
      }
    }
  }

  method PushChildren(t: ChildLists, v: Vertex, costs: map<Vertex, nat>, stack0: seq<Visit>,
      ghost rank: map<Vertex, nat>)
    returns (stack: seq<Visit>)
    requires Ranked(t, rank)
    ensures |stack| >= |stack0| && stack[..|stack0|] == stack0
    ensures forall i :: |stack0| <= i < |stack| ==> !stack[i].childrenDone
    ensures forall c :: c in Children(t, v) ==> c in costs || exists j :: |stack0| <= j < |stack| && stack[j].node == c
    ensures StackWork(t, rank, stack) <= StackWork(t, rank, stack0) + SumWork(t, rank, v, |Children(t, v)|)
  {
    stack := stack0;
    var children := Children(t, v);
    for i := 0 to |children|
      invariant |stack| >= |stack0| && stack[..|stack0|] == stack0
      invariant forall j :: |stack0| <= j < |stack| ==> !stack[j].childrenDone
      invariant forall k :: 0 <= k < i ==>
        children[k] in costs || exists j :: |stack0| <= j < |stack| && stack[j].node == children[k]
      invariant StackWork(t, rank, stack) <= StackWork(t, rank, stack0) + SumWork(t, rank, v, i)
    {
      var child := children[i];
      if child !in costs {
        ghost var before := stack;
        stack := stack + [Visit(child, false)];
        assert stack[..|stack| - 1] == before;
        assert stack[|before|].node == child;
      }
    }
  }

  /** Post-order traversal with an explicit stack. */
  method MaximumCosts(t: ChildLists, significant: set<Vertex>, root: Vertex,
      ghost rank: map<Vertex, nat>) returns (depth: nat)
    requires Ranked(t, rank)
    ensures depth == Cost(t, rank, significant, root)
  {
    var costs: map<Vertex, nat> := map[];
    var stack := [Visit(root, false)];
    while stack != []
      invariant Traversing(t, rank, significant, root, costs, stack)
      decreases StackWork(t, rank, stack)
    {
      var top := stack[|stack| - 1];
      if top.childrenDone {
        costs := FinishTop(t, significant, root, costs, stack, rank);
        stack := stack[..|stack| - 1];
      } else {
        stack := OpenTop(t, significant, root, costs, stack, rank);
      }
    }
    return costs[root];
  }

  /** The cost of the entry on top, whose children are done. */
  method FinishTop(t: ChildLists, significant: set<Vertex>, ghost root: Vertex, costs: map<Vertex, nat>,
      stack: seq<Visit>, ghost rank: map<Vertex, nat>)
    returns (more: map<Vertex, nat>)
    requires Ranked(t, rank) && stack != [] && stack[|stack| - 1].childrenDone
    requires Traversing(t, rank, significant, root, costs, stack)
    ensures Traversing(t, rank, significant, root, more, stack[..|stack| - 1])
  {
    var cn := stack[|stack| - 1].node;
    assert Served(t, costs, stack, |stack| - 1);
    var most := MaxOver(t, cn, costs, rank, significant);
    FinishKeeps(t, rank, significant, root, costs, stack, cn);
    more := costs[cn := most + if cn in significant then 1 else 0];
  }

  /** The entry on top is visited again when the children put above it are done. */
  method OpenTop(t: ChildLists, ghost significant: set<Vertex>, ghost root: Vertex, costs: map<Vertex, nat>,
      stack: seq<Visit>, ghost rank: map<Vertex, nat>)
    returns (next: seq<Visit>)
    requires Ranked(t, rank) && stack != [] && !stack[|stack| - 1].childrenDone
    requires Traversing(t, rank, significant, root, costs, stack)
    ensures Traversing(t, rank, significant, root, costs, next)
    ensures StackWork(t, rank, next) < StackWork(t, rank, stack)
  {
    var cn := stack[|stack| - 1].node;
    var resumed := stack[..|stack| - 1] + [Visit(cn, true)];
    assert resumed[..|stack| - 1] == stack[..|stack| - 1];
    next := PushChildren(t, cn, costs, resumed, rank);
    PushKeeps(t, rank, significant, root, costs, stack, next, cn);
  }

  lemma FinishKeeps(t: ChildLists, rank: map<Vertex, nat>, significant: set<Vertex>, root: Vertex,
                    costs: map<Vertex, nat>, stack: seq<Visit>, cn: Vertex)
    requires Ranked(t, rank) && stack != [] && stack[|stack| - 1].node == cn
    requires Traversing(t, rank, significant, root, costs, stack)
    ensures Traversing(t, rank, significant, root, costs[cn := Cost(t, rank, significant, cn)], stack[..|stack| - 1])
  {
    var rest, costs' := stack[..|stack| - 1], costs[cn := Cost(t, rank, significant, cn)];
    forall i | 0 <= i < |rest|
      ensures Served(t, costs', rest, i)
    {
      assert Served(t, costs, stack, i);
      forall c | stack[i].childrenDone && c in Children(t, rest[i].node) && c !in costs'
        ensures exists j :: i < j < |rest| && rest[j].node == c
      {
        var j :| i < j < |stack| && stack[j].node == c;
        assert rest[j].node == c;
      }
    }
  }

  lemma PushKeeps(t: ChildLists, rank: map<Vertex, nat>, significant: set<Vertex>, root: Vertex,
                  costs: map<Vertex, nat>, before: seq<Visit>, stack: seq<Visit>, cn: Vertex)
    requires Ranked(t, rank) && before != [] && before[|before| - 1].node == cn
    requires Traversing(t, rank, significant, root, costs, before)
    requires |stack| >= |before| && stack[..|before|] == before[..|before| - 1] + [Visit(cn, true)]
    requires forall i :: |before| <= i < |stack| ==> !stack[i].childrenDone
    requires forall c :: c in Children(t, cn) ==>
      c in costs || exists j :: |before| <= j < |stack| && stack[j].node == c
    ensures Traversing(t, rank, significant, root, costs, stack)
  {
    assert forall j :: 0 <= j < |before| ==> stack[j] == stack[..|before|][j] && stack[j].node == before[j].node;
    forall i | 0 <= i < |stack|
      ensures Served(t, costs, stack, i)
    {
      if i < |before| - 1 {
        assert stack[i] == before[i] && Served(t, costs, before, i);
      }
    }
  }

  method SignificantNodes(graph: Graph) returns (nodes: set<Vertex>)
    ensures nodes == Significant(graph)
  {
    nodes := {};
    var todo := graph.Keys;
    while todo != {}
      invariant forall u :: u in todo ==> u in graph
      invariant nodes <= Significant(graph)
      invariant forall u :: u in graph && u !in todo && |graph[u]| > 1 ==> Targets(graph, u) <= nodes
    {
      var u := Any(todo);
      if |graph[u]| > 1 {
        forall w | w in Targets(graph, u) ensures w in Significant(graph) { }
        nodes := nodes + Targets(graph, u);
      }
      todo := todo - {u};
    }
  }

  function Targets(graph: Graph, u: Vertex): set<Vertex>
    requires u in graph
  {
    set w | w in graph[u]
  }

  method GetNestingDepth(graph: Graph, domtree: ChildLists, root: Vertex,
      ghost rank: map<Vertex, nat>) returns (depth: nat)
    requires Ranked(domtree, rank)
    ensures depth == Cost(domtree, rank, Significant(graph), root)
  {
    var significant := SignificantNodes(graph);
    depth := MaximumCosts(domtree, significant, root, rank);
  }

  // ----- what the depth means

  ghost function DominatorsAmong(g: Graph, r: Vertex, among: set<Vertex>, v: Vertex): set<Vertex> {
    set d | d in among && Dominates(Edges(g), r, d, v)
  }

  /** A branch from the root down to v consists of the dominators of v. */
  lemma {:induction false} BranchIsDominators(g: Graph, r: Vertex, t: ChildLists, c: seq<Vertex>)
    requires IsDominatorTree(g, r, t) && Branch(t, c) && c[0] == r
    ensures Reach(Edges(g), r, c[|c| - 1])
    ensures forall d :: d in c <==> Dominates(Edges(g), r, d, c[|c| - 1])
    ensures NoDuplicates(c)
    decreases |c|
  {
    var v := c[|c| - 1];
    if |c| == 1 {
      ReachSelf(Edges(g), r);
      assert PathBetween(Edges(g), [r], r, r);
    } else {
      BranchPrefix(t, c, |c| - 1);
      var up := c[..|c| - 1];
      BranchIsDominators(g, r, t, up);
      assert IsChildAt(t, c, |c| - 2);
      var p := up[|up| - 1];
      assert c == up + [v];
      assert IsChild(t, p, v) && Reach(Edges(g), r, v) && ImmediateDominator(Edges(g), r, p, v);
      forall d
        ensures d in c <==> Dominates(Edges(g), r, d, v)
      {
        if d in up {
          DominatesTrans(Edges(g), r, d, p, v);
        }
      }
      if v in up {
        var q :| PathBetween(Edges(g), q, r, v);
        DominanceIsAntisymmetric(Edges(g), r, v, p, q);
        assert false;
      }
    }
  }

  lemma BranchPrefix(t: ChildLists, c: seq<Vertex>, n: nat)
    requires Branch(t, c) && 0 < n <= |c|
    ensures Branch(t, c[..n])
  {
    forall i | 0 <= i < n - 1
      ensures IsChildAt(t, c[..n], i)
    {
      assert IsChildAt(t, c, i);
    }
  }

  /** Every reachable vertex ends a branch from the root. */
  lemma {:induction false} BranchTo(g: Graph, r: Vertex, t: ChildLists, v: Vertex,
      q: seq<Vertex>) returns (c: seq<Vertex>)
    requires IsDominatorTree(g, r, t) && PathBetween(Edges(g), q, r, v)
    ensures Branch(t, c) && c[0] == r && c[|c| - 1] == v
    decreases |q|
  {
    if v == r {
      return [r];
    }
    var d, k := ParentOnPath(g, r, t, v, q);
    var up := BranchTo(g, r, t, d, q[0..k + 1]);
    BranchGrows(t, up, v);
    c := up + [v];
  }

  lemma BranchGrows(t: ChildLists, up: seq<Vertex>, v: Vertex)
    requires Branch(t, up) && IsChild(t, up[|up| - 1], v)
    ensures Branch(t, up + [v])
  {
    var c := up + [v];
    forall i | 0 <= i < |c| - 1
      ensures IsChildAt(t, c, i)
    {
      assert i < |up| - 1 ==> IsChildAt(t, up, i);
    }
  }

  /** The parent of a vertex in a dominator tree lies on every path to it. */
  lemma ParentOnPath(g: Graph, r: Vertex, t: ChildLists, v: Vertex, q: seq<Vertex>) returns (d: Vertex, k: nat)
    requires IsDominatorTree(g, r, t) && PathBetween(Edges(g), q, r, v) && v != r
    ensures IsChild(t, d, v) && k + 1 < |q| && PathBetween(Edges(g), q[0..k + 1], r, d)
  {
    assert Reach(Edges(g), r, v);
    d :| IsChild(t, d, v);
    k :| 0 <= k < |q| && q[k] == d;
    PathSlice(Edges(g), q, 0, k + 1);
  }

  lemma HeadOrTail(c: seq<Vertex>)
    requires c != []
    ensures forall d :: d in c <==> d == c[0] || d in c[1..]
  {
    assert c == [c[0]] + c[1..];
  }

  /** The weight of a branch counts the significant vertices on it. */
  lemma {:induction false} WeightCounts(significant: set<Vertex>, c: seq<Vertex>)
    requires NoDuplicates(c)
    ensures Weight(significant, c) == |set d | d in significant && d in c|
    decreases |c|
  {
    if c == [] {
      assert (set d | d in significant && d in c) == {};
    } else {
      var tail := c[1..];
      WeightCounts(significant, tail);
      var s, s' := set d | d in significant && d in c, set d | d in significant && d in tail;
      assert c[0] !in tail;
      HeadOrTail(c);
      assert s == s' + if c[0] in significant then {c[0]} else {};
    }
  }

  /** The vertices a graph knows about. */
  ghost function Known(g: Graph, r: Vertex): set<Vertex> {
    {r} + Vertices(g)
  }

  lemma KnownOnPath(g: Graph, r: Vertex, q: seq<Vertex>, k: nat)
    requires Path(Edges(g), q) && q[0] == r && k < |q|
    ensures q[k] in Known(g, r)
  {
    if k > 0 {
      assert Step(Edges(g), q, k - 1);
      EdgeWithin(g, q[k - 1], q[k]);
    }
  }

  /** Ranks for a dominator tree: a child has more dominators than its parent. */
  lemma DominatorTreeIsRanked(g: Graph, r: Vertex, t: ChildLists) returns (rank: map<Vertex, nat>)
    requires IsDominatorTree(g, r, t)
    ensures Ranked(t, rank)
  {
    var all := Known(g, r);
    rank := map v | v in all :: |all - DominatorsAmong(g, r, all, v)|;
    forall p, c | IsChild(t, p, c)
      ensures RankOf(rank, c) < RankOf(rank, p)
    {
      ChildIsDominated(g, r, t, p, c);
      ChildHasMoreDominators(g, r, p, c, all);
    }
  }

  lemma ChildIsDominated(g: Graph, r: Vertex, t: ChildLists, p: Vertex, c: Vertex)
    requires IsDominatorTree(g, r, t) && IsChild(t, p, c)
    ensures Reach(Edges(g), r, c) && p != c && Dominates(Edges(g), r, p, c)
  {
  }

  /** What dominates a vertex dominates those it dominates. */
  lemma DominatorsGrow(g: Graph, r: Vertex, p: Vertex, c: Vertex, all: set<Vertex>)
    requires Dominates(Edges(g), r, p, c)
    ensures DominatorsAmong(g, r, all, p) <= DominatorsAmong(g, r, all, c)
  {
    forall d | d in DominatorsAmong(g, r, all, p)
      ensures d in DominatorsAmong(g, r, all, c)
    {
      DominatesTrans(Edges(g), r, d, p, c);
    }
  }

  /** A vertex dominates itself, but not a proper dominator of its. */
  lemma OwnDominator(g: Graph, r: Vertex, p: Vertex, c: Vertex, all: set<Vertex>)
    requires Reach(Edges(g), r, c) && p != c && Dominates(Edges(g), r, p, c) && c in all
    ensures c in DominatorsAmong(g, r, all, c) && c !in DominatorsAmong(g, r, all, p)
  {
    if Dominates(Edges(g), r, c, p) {
      var q :| PathBetween(Edges(g), q, r, c);
      DominanceIsAntisymmetric(Edges(g), r, c, p, q);
      assert false;
    }
  }

  lemma DominatorIsKnown(g: Graph, r: Vertex, p: Vertex, c: Vertex)
    requires Reach(Edges(g), r, c) && Dominates(Edges(g), r, p, c)
    ensures p in Known(g, r) && c in Known(g, r)
  {
    var q :| PathBetween(Edges(g), q, r, c);
    var k :| 0 <= k < |q| && q[k] == p;
    KnownOnPath(g, r, q, k);
    KnownOnPath(g, r, q, |q| - 1);
  }

  lemma ChildHasMoreDominators(g: Graph, r: Vertex, p: Vertex, c: Vertex, all: set<Vertex>)
    requires Reach(Edges(g), r, c) && p != c && Dominates(Edges(g), r, p, c) && all == Known(g, r)
    ensures p in all && c in all
    ensures |all - DominatorsAmong(g, r, all, c)| < |all - DominatorsAmong(g, r, all, p)|
  {
    DominatorIsKnown(g, r, p, c);
    DominatorsGrow(g, r, p, c, all);
    OwnDominator(g, r, p, c, all);
    FewerLeftOver(all, DominatorsAmong(g, r, all, c), DominatorsAmong(g, r, all, p), c);
  }

  lemma FewerLeftOver<T>(all: set<T>, more: set<T>, fewer: set<T>, x: T)
    requires x in all && x in more && x !in fewer && fewer <= more
    ensures |all - more| < |all - fewer|
  {
    SubsetCardinality(all - more, all - fewer - {x});
  }

  /** The nesting depth of a rooted graph: the greatest number of significant dominators of a reachable vertex. */
  ghost predicate IsDepth(g: Graph, r: Vertex, depth: nat) {
    && (forall v :: Reach(Edges(g), r, v) ==> |DominatorsAmong(g, r, Significant(g), v)| <= depth)
    && (exists v :: Reach(Edges(g), r, v) && |DominatorsAmong(g, r, Significant(g), v)| == depth)
  }

  lemma CostIsDepth(g: Graph, r: Vertex, t: ChildLists, rank: map<Vertex, nat>)
    requires IsDominatorTree(g, r, t) && Ranked(t, rank)
    ensures IsDepth(g, r, Cost(t, rank, Significant(g), r))
  {
    var nodes := Significant(g);
    forall v | Reach(Edges(g), r, v)
      ensures |DominatorsAmong(g, r, nodes, v)| <= Cost(t, rank, nodes, r)
    {
      var q :| PathBetween(Edges(g), q, r, v);
      var c := BranchTo(g, r, t, v, q);
      CostBounds(t, rank, nodes, c);
      BranchWeighs(g, r, t, nodes, c);
    }
    var c := CostAttained(t, rank, nodes, r);
    BranchWeighs(g, r, t, nodes, c);
  }

  lemma BranchWeighs(g: Graph, r: Vertex, t: ChildLists, nodes: set<Vertex>, c: seq<Vertex>)
    requires IsDominatorTree(g, r, t) && Branch(t, c) && c[0] == r
    ensures Reach(Edges(g), r, c[|c| - 1])
    ensures |DominatorsAmong(g, r, nodes, c[|c| - 1])| == Weight(nodes, c)
  {
    BranchIsDominators(g, r, t, c);
    WeightCounts(nodes, c);
    var a, b := DominatorsAmong(g, r, nodes, c[|c| - 1]), set d | d in nodes && d in c;
    assert forall d :: d in nodes ==> (d in a <==> d in b);
    assert a == b;
  }

  /** The nesting depth a function reports for its block graph. */
  method CalculateNestingDepth(blockrefs: Graph, root: Vertex) returns (depth: nat)
    ensures |blockrefs| <= 1 ==> depth == 0
    ensures (forall v :: Reach(Edges(blockrefs), root, v) ==> v == root) ==> depth == 0
    ensures |blockrefs| > 1 && (exists v :: v != root && Reach(Edges(blockrefs), root, v))
            ==> IsDepth(blockrefs, root, depth)
  {
    if |blockrefs| <= 1 {
      return 0;
    }
    var tree := BuildDominatorTree(blockrefs, root);
    if tree.None? {
      RootUnknown(blockrefs, root);
      return 0;
    }
    if tree.value == map[] {
      return 0;
    }
    ghost var rank := DominatorTreeIsRanked(blockrefs, root, tree.value);
    depth := GetNestingDepth(blockrefs, tree.value, root, rank);
    CostIsDepth(blockrefs, root, tree.value, rank);
    SomeChild(blockrefs, root, tree.value);
  }

  lemma RootUnknown(g: Graph, r: Vertex)
    requires r !in g
    ensures forall v :: Reach(Edges(g), r, v) ==> v == r
  {
    forall v | Reach(Edges(g), r, v)
      ensures v == r
    {
      var q :| PathBetween(Edges(g), q, r, v);
      assert |q| > 1 ==> Step(Edges(g), q, 0);
    }
  }

  lemma SomeChild(g: Graph, r: Vertex, t: ChildLists)
    requires IsDominatorTree(g, r, t) && t != map[]
    ensures exists v :: v != r && Reach(Edges(g), r, v)
  {
    var d := Member(t.Keys);
    assert IsChild(t, d, t[d][0]);
  }
}
