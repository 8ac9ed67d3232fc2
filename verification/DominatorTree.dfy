/** The Lengauer-Tarjan dominator tree of src/smda/common/DominatorTree.py. */
module DominatorTrees {
  import opened Collections
  import opened Digraph
  import opened Flowgraph

  /** What the depth-first search leaves behind and no later step changes: the discovery order, its inverse, and
      the searched part of the graph renamed by discovery number. */
  datatype Search = Search(edges: set<(Vertex, Vertex)>, order: seq<Vertex>, num: map<Vertex, nat>, flow: Flow) {

    ghost predicate Numbered() {
      && |order| == |flow.parent| > 0
      && (forall i :: 0 <= i < |order| ==> order[i] in num && num[order[i]] == i)
      && (forall v :: v in num ==> num[v] < |order| && order[num[v]] == v)
    }

    /** The flow graph is the searched part of the graph, and nothing leads out of it. */
    ghost predicate Faithful()
      requires Numbered()
    {
      && (forall e :: e in edges && e.0 in num ==> e.1 in num && (num[e.0], num[e.1]) in flow.edges)
      && (forall e :: e in flow.edges ==> e.0 < |order| && e.1 < |order| && (order[e.0], order[e.1]) in edges)
    }

    ghost predicate Complete() {
      Numbered() && Faithful() && Valid(flow)
    }

    /** `parent` holds the parents of the spanning tree. */
    ghost predicate Parents(parent: map<Vertex, Vertex>) {
      forall i :: 0 < i < |order| ==> ParentAt(parent, i)
    }

    ghost predicate ParentAt(parent: map<Vertex, Vertex>, i: nat) {
      && i < |order| == |flow.parent| && flow.parent[i] < |order|
      && order[i] in parent && parent[order[i]] == order[flow.parent[i]]
    }

    /** `pred` holds the predecessors that were searched. */
    ghost predicate Predecessors(pred: map<Vertex, set<Vertex>>) {
      forall w :: w in num ==> w in pred && forall v :: v in pred[w] <==> v in num && (v, w) in edges
    }

    lemma {:induction false} ToFlow(q: seq<Vertex>, k: nat)
      requires Complete() && Path(edges, q) && q[0] in num && k < |q|
      ensures q[k] in num
    {
      if k > 0 {
        ToFlow(q, k - 1);
        assert Step(edges, q, k - 1);
      }
    }

    /** A path of g that starts in the searched part, renamed. */
    ghost function Renamed(q: seq<Vertex>): (f: seq<nat>)
      requires Complete() && Path(edges, q) && q[0] in num
      ensures Path(flow.edges, f) && |f| == |q|
      ensures forall k :: 0 <= k < |q| ==> q[k] in num && f[k] == num[q[k]]
    {
      assert forall k :: 0 <= k < |q| ==> q[k] in num by {
        forall k | 0 <= k < |q| ensures q[k] in num { ToFlow(q, k); }
      }
      var f := seq(|q|, k requires 0 <= k < |q| => num[q[k]]);
      assert Path(flow.edges, f) by {
        forall k | 0 <= k < |f| - 1 ensures Step(flow.edges, f, k) { assert Step(edges, q, k); }
      }
      f
    }

    /** A path of the flow graph, named back. */
    ghost function Original(f: seq<nat>): (q: seq<Vertex>)
      requires Complete() && Path(flow.edges, f) && f[0] < |order|
      ensures Path(edges, q) && |f| == |q|
      ensures forall k :: 0 <= k < |q| ==> f[k] < |order| && q[k] == order[f[k]]
    {
      assert forall k :: 0 <= k < |f| ==> f[k] < |order| by {
        forall k | 0 <= k < |f| ensures f[k] < |order| { if k > 0 { assert Step(flow.edges, f, k - 1); } }
      }
      var q := seq(|f|, k requires 0 <= k < |f| => order[f[k]]);
      assert Path(edges, q) by {
        forall k | 0 <= k < |q| - 1 ensures Step(edges, q, k) { assert Step(flow.edges, f, k); }
      }
      q
    }

    /** Exactly the vertices reachable from the root were found. */
    lemma FoundIsReachable(v: Vertex)
      requires Complete()
      ensures v in num <==> Reach(edges, order[0], v)
    {
      if v in num {
        AncRoot(flow, num[v]);
        var f := TreePath(flow, 0, num[v]);
        assert PathBetween(edges, Original(f), order[0], v);
      }
      if Reach(edges, order[0], v) {
        var q :| PathBetween(edges, q, order[0], v);
        ToFlow(q, |q| - 1);
      }
    }

    lemma DominatesTransfer(a: nat, b: nat)
      requires Complete() && a < |order| && b < |order|
      ensures Dominates(flow.edges, 0, a, b) <==> Dominates(edges, order[0], order[a], order[b])
    {
      if Dominates(flow.edges, 0, a, b) {
        forall q | PathBetween(edges, q, order[0], order[b])
          ensures order[a] in q
        {
          var f := Renamed(q);
          assert PathBetween(flow.edges, f, 0, b);
          var k :| 0 <= k < |f| && f[k] == a;
          assert q[k] == order[a];
        }
      }
      if Dominates(edges, order[0], order[a], order[b]) {
        forall f | PathBetween(flow.edges, f, 0, b)
          ensures a in f
        {
          var q := Original(f);
          assert PathBetween(edges, q, order[0], order[b]);
          var k :| 0 <= k < |q| && q[k] == order[a];
          assert f[k] == a;
        }
      }
    }

    /** Immediate dominators of the flow graph are those of g. */
    lemma ImmediateTransfer(a: nat, b: nat)
      requires Complete() && a < |order| && b < |order| && ImmediateDominator(flow.edges, 0, a, b)
      ensures ImmediateDominator(edges, order[0], order[a], order[b])
    {
      DominatesTransfer(a, b);
      forall e | e != order[b] && Dominates(edges, order[0], e, order[b])
        ensures Dominates(edges, order[0], e, order[a])
      {
        FoundIsReachable(order[b]);
        var q :| PathBetween(edges, q, order[0], order[b]);
        var k :| 0 <= k < |q| && q[k] == e;
        ToFlow(q, k);
        DominatesTransfer(num[e], b);
        DominatesTransfer(num[e], a);
      }
    }
  }

  ghost predicate Closed(g: Graph) {
    forall v, w :: v in g && w in g[v] ==> w in g
  }

  /** The state of the depth-first search: the fields of the class, the stack of open vertices, the position
      `seen` of each vertex's iterator and, as ghosts, the edges of g and the discovery numbers `par` of the parents. */
  datatype Dfs = Dfs(g: Graph, vertex: seq<Vertex>, semi: map<Vertex, nat>, parent: map<Vertex, Vertex>,
                     pred: map<Vertex, set<Vertex>>, seen: map<Vertex, nat>, stack: seq<Vertex>,
                     ghost edges: set<(Vertex, Vertex)>, ghost par: seq<nat>)
  {
    /** The parents found so far, as a tree without edges. */
    ghost function Found(): Flow {
      Flow(par, {})
    }

    ghost predicate Discovered() {
      && |vertex| == |par| > 0
      && (forall i :: 0 <= i < |vertex| ==> vertex[i] in semi && semi[vertex[i]] == i)
      && (forall v :: v in semi ==> semi[v] < |vertex| && vertex[semi[v]] == v)
      && (forall v :: v in semi ==> v in g)
      && (forall v :: v in seen <==> v in semi)
      && (forall i :: 0 < i < |par| ==> par[i] < i)
    }

    ghost predicate TreeSoFar()
      requires Discovered()
    {
      && (forall v :: v in parent <==> v in semi && v != vertex[0])
      && (forall i :: 0 < i < |par| ==> Preorder(Found(), i) && Hangs(i))
    }

    ghost predicate Hangs(i: nat)
      requires |vertex| == |par| && 0 < i < |par| && par[i] < i
    {
      vertex[i] in parent && parent[vertex[i]] == vertex[par[i]] && (vertex[par[i]], vertex[i]) in edges
    }

    /** Everything known about the edges seen so far: the first `seen[v]` of each discovered vertex v. */
    ghost predicate EdgesSoFar()
      requires Discovered()
    {
      && (forall v :: v in pred <==> v in g)
      && (forall v, k :: v in semi && 0 <= k < seen[v] ==> EdgeSeen(v, k))
      && (forall w, v :: w in pred && v in pred[w] ==> v in semi && (v, w) in edges)
    }

    ghost predicate EdgeSeen(v: Vertex, k: nat) {
      && v in g && k < |g[v]| && v in semi && g[v][k] in semi && g[v][k] in pred && v in pred[g[v][k]]
      && ForwardEdge(Found(), semi[v], semi[g[v][k]])
    }

    /** The open vertices: a chain of ancestors of the vertex found last. */
    ghost predicate Open()
      requires Discovered()
    {
      && (forall k :: 0 <= k < |stack| ==> stack[k] in semi)
      && (forall k :: 0 <= k < |stack| ==> Anc(Found(), semi[stack[k]], |par| - 1))
      && (forall k, l :: 0 <= k < l < |stack| ==> semi[stack[k]] < semi[stack[l]])
    }

    ghost predicate ClosedAreExhausted()
      requires Discovered()
    {
      forall v :: v in semi ==> v in stack || seen[v] == |g[v]|
    }

    ghost predicate Searching() {
      Discovered() && TreeSoFar() && EdgesSoFar() && Open() && ClosedAreExhausted()
    }

    /** `node` is on top and its next successor is `w`. */
    ghost predicate Looking(node: Vertex, next: nat, w: Vertex) {
      && stack != [] && stack[|stack| - 1] == node
      && node in semi && node in g && node in seen && next == seen[node] < |g[node]| && w == g[node][next]
      && w in g && w in pred && (node, w) in edges
    }

    /** The next successor of the top vertex was found earlier. */
    function SeeAgain(node: Vertex, next: nat, w: Vertex): Dfs
      requires w in pred
    {
      this.(pred := pred[w := pred[w] + {node}], seen := seen[node := next + 1])
    }

    /** The next successor of the top vertex is new: it is numbered and becomes the top. */
    function Discover(node: Vertex, next: nat, w: Vertex): Dfs
      requires w in pred && node in semi
    {
      this.(vertex := vertex + [w], semi := semi[w := |vertex|], parent := parent[w := node],
            pred := pred[w := pred[w] + {node}], seen := seen[node := next + 1][w := 0], stack := stack + [w],
            par := par + [semi[node]])
    }

    lemma SeeAgainKeeps(node: Vertex, next: nat, w: Vertex)
      requires Searching() && Looking(node, next, w) && w in semi
      ensures SeeAgain(node, next, w).Searching()
    {
      SeeAgainTree(node, next, w);
      SeeAgainEdges(node, next, w);
    }

    lemma SeeAgainTree(node: Vertex, next: nat, w: Vertex)
      requires Discovered() && Looking(node, next, w) && w in semi && TreeSoFar() && Open() && ClosedAreExhausted()
      ensures var s := SeeAgain(node, next, w); s.Discovered() && s.TreeSoFar() && s.Open() && s.ClosedAreExhausted()
    {
      var s := SeeAgain(node, next, w);
      assert s.Discovered();
      forall i | 0 < i < |par| ensures s.Hangs(i) && Preorder(s.Found(), i) { assert Hangs(i) && Preorder(Found(), i); }
    }

    lemma SeeAgainEdges(node: Vertex, next: nat, w: Vertex)
      requires Discovered() && Looking(node, next, w) && w in semi && EdgesSoFar()
      requires SeeAgain(node, next, w).Discovered()
      requires forall i :: 0 < i < |par| ==> Preorder(Found(), i)
      requires Anc(Found(), semi[node], |par| - 1)
      ensures SeeAgain(node, next, w).EdgesSoFar()
    {
      var s := SeeAgain(node, next, w);
      if semi[node] < semi[w] {
        AncInterval(Found(), semi[node], semi[w], |par| - 1);
      }
      forall v, k | v in s.semi && 0 <= k < s.seen[v] ensures s.EdgeSeen(v, k) {
        assert k < seen[v] ==> EdgeSeen(v, k);
      }
    }

    lemma DiscoverKeeps(node: Vertex, next: nat, w: Vertex)
      requires Searching() && Looking(node, next, w) && w !in semi
      ensures Discover(node, next, w).Searching()
    {
      DiscoverTree(node, next, w);
      DiscoverEdges(node, next, w);
      DiscoverOpen(node, next, w);
      assert Discover(node, next, w).ClosedAreExhausted();
    }

    lemma DiscoverTree(node: Vertex, next: nat, w: Vertex)
      requires Discovered() && Looking(node, next, w) && w !in semi && TreeSoFar()
      requires Anc(Found(), semi[node], |par| - 1)
      ensures Discover(node, next, w).Discovered() && Discover(node, next, w).TreeSoFar()
    {
      var s, n := Discover(node, next, w), |vertex|;
      assert s.Discovered();
      forall i | 0 < i < |s.par| ensures Preorder(s.Found(), i) && s.Hangs(i) {
        if i < n {
          assert Preorder(Found(), i) && Hangs(i);
          AncPrefix(Found(), s.Found(), par[i], i - 1);
        } else {
          AncPrefix(Found(), s.Found(), semi[node], n - 1);
        }
      }
    }

    lemma DiscoverEdges(node: Vertex, next: nat, w: Vertex)
      requires Discovered() && Looking(node, next, w) && w !in semi && EdgesSoFar()
      requires Discover(node, next, w).Discovered()
      ensures Discover(node, next, w).EdgesSoFar()
    {
      var s := Discover(node, next, w);
      forall v, k | v in s.semi && 0 <= k < s.seen[v] ensures s.EdgeSeen(v, k) {
        if v == node && k == next {
          assert Anc(s.Found(), semi[node], s.Found().parent[|vertex|]);
        } else {
          assert EdgeSeen(v, k);
          EdgeStaysSeen(node, next, w, v, k);
        }
      }
    }

    lemma EdgeStaysSeen(node: Vertex, next: nat, w: Vertex, v: Vertex, k: nat)
      requires Looking(node, next, w) && w !in semi && EdgeSeen(v, k) && semi[g[v][k]] < |par|
      ensures Discover(node, next, w).EdgeSeen(v, k)
    {
      AncPrefix(Found(), Discover(node, next, w).Found(), semi[v], semi[g[v][k]]);
    }

    lemma DiscoverOpen(node: Vertex, next: nat, w: Vertex)
      requires Discovered() && Looking(node, next, w) && w !in semi && Open()
      requires Discover(node, next, w).Discovered()
      ensures Discover(node, next, w).Open()
    {
      var s := Discover(node, next, w);
      forall k | 0 <= k < |s.stack| ensures Anc(s.Found(), s.semi[s.stack[k]], |vertex|) {
        if k < |stack| {
          assert semi[stack[k]] <= semi[node];
          OpenAboveNew(semi[stack[k]], semi[node], s.Found());
        }
      }
    }

    /** An ancestor of the last vertex, above its ancestor p, is an ancestor of the new child of p. */
    lemma OpenAboveNew(u: nat, p: nat, f: Flow)
      requires |par| > 0 && u <= p < |par| && f.parent == par + [p]
      requires Anc(Found(), u, |par| - 1) && Anc(Found(), p, |par| - 1)
      ensures Anc(f, u, |par|)
    {
      AncChain(Found(), u, p, |par| - 1);
      AncPrefix(Found(), f, u, p);
    }

    ghost function Result(): Search
      requires Discovered()
    {
      var renamed := set i, j | 0 <= i < |vertex| && 0 <= j < |vertex| && (vertex[i], vertex[j]) in edges :: (i, j);
      Search(edges, vertex, semi, Flow(par, renamed))
    }

    /** The finished search is a depth-first search of everything in reach. */
    lemma Finished()
      requires Searching() && stack == [] && edges == Edges(g)
      ensures Result().Complete()
      ensures Result().Parents(parent) && Result().Predecessors(pred)
    {
      AllSeen();
      FinishedTree();
      FinishedEdges();
    }

    lemma AllSeen()
      requires Discovered() && EdgesSoFar() && ClosedAreExhausted() && stack == [] && edges == Edges(g)
      ensures forall e :: e in edges && e.0 in semi ==> e.1 in semi && ForwardEdge(Found(), semi[e.0], semi[e.1])
      ensures forall e :: e in edges && e.0 in semi ==> e.1 in pred && e.0 in pred[e.1]
    {
      forall e | e in edges && e.0 in semi
        ensures e.1 in semi && e.1 in pred && e.0 in pred[e.1] && ForwardEdge(Found(), semi[e.0], semi[e.1])
      {
        var k :| 0 <= k < |g[e.0]| && g[e.0][k] == e.1;
        assert EdgeSeen(e.0, k);
      }
    }

    lemma FinishedTree()
      requires Discovered() && TreeSoFar()
      ensures Result().Parents(parent)
      ensures forall i :: 0 < i < |par| ==> Preorder(Result().flow, i) && TreeEdge(Result().flow, i)
    {
      forall i | 0 < i < |par|
        ensures Result().ParentAt(parent, i)
        ensures Preorder(Result().flow, i) && TreeEdge(Result().flow, i)
      {
        assert Hangs(i) && Preorder(Found(), i);
        AncPrefix(Found(), Result().flow, par[i], i - 1);
      }
    }

    lemma FinishedEdges()
      requires Discovered()
      requires forall e :: e in edges && e.0 in semi ==> e.1 in semi && ForwardEdge(Found(), semi[e.0], semi[e.1])
      ensures Result().Numbered() && Result().Faithful()
      ensures forall e :: e in Result().flow.edges ==>
        e.0 < |par| && e.1 < |par| && ForwardEdge(Result().flow, e.0, e.1)
    {
      var s := Result();
      forall e | e in s.flow.edges
        ensures ForwardEdge(s.flow, e.0, e.1)
      {
        assert (vertex[e.0], vertex[e.1]) in edges;
        AncPrefix(Found(), s.flow, e.0, e.1);
      }
      forall e | e in edges && e.0 in semi
        ensures (semi[e.0], semi[e.1]) in s.flow.edges
      {
        var v, w := e.0, e.1;
        assert e == (v, w) && v in semi && w in semi;
        assert vertex[semi[v]] == v && vertex[semi[w]] == w;
      }
    }

    lemma Start(r: Vertex)
      requires r in g && vertex == [r] && semi == map[r := 0] && parent == map[]
      requires forall v :: v in g <==> v in pred
      requires forall v :: v in pred ==> pred[v] == {}
      requires par == [0] && seen == map[r := 0] && stack == [r]
      ensures Searching()
    {
    }

    lemma PopKeeps(node: Vertex)
      requires Searching() && stack != [] && stack[|stack| - 1] == node && node in semi && seen[node] == |g[node]|
      ensures this.(stack := stack[..|stack| - 1]).Searching()
    {
      var s := this.(stack := stack[..|stack| - 1]);
      forall i | 0 < i < |par| ensures s.Hangs(i) && Preorder(s.Found(), i) { assert Hangs(i) && Preorder(Found(), i); }
      forall v, k | v in s.semi && 0 <= k < s.seen[v] ensures s.EdgeSeen(v, k) { assert EdgeSeen(v, k); }
      assert stack == s.stack + [node];
    }

    /** What the loop needs to know about the top vertex: it can be advanced, and popped when exhausted. */
    lemma Top(node: Vertex)
      requires Searching() && Closed(g) && edges == Edges(g) && stack != [] && stack[|stack| - 1] == node
      ensures node in semi && node in seen && node in g && seen[node] <= |g[node]| && |vertex| <= |g|
      ensures seen[node] < |g[node]| ==> g[node][seen[node]] in pred
      ensures seen[node] < |g[node]| && g[node][seen[node]] in semi ==>
        SeeAgain(node, seen[node], g[node][seen[node]]).Searching()
      ensures seen[node] < |g[node]| && g[node][seen[node]] !in semi ==>
        |vertex| < |g| && Discover(node, seen[node], g[node][seen[node]]).Searching()
      ensures seen[node] == |g[node]| ==> this.(stack := stack[..|stack| - 1]).Searching()
    {
      Fits();
      var next := seen[node];
      if next > 0 {
        assert EdgeSeen(node, next - 1);
      }
      if next < |g[node]| {
        var w := g[node][next];
        assert Looking(node, next, w);
        if w in semi {
          SeeAgainKeeps(node, next, w);
        } else {
          DiscoverKeeps(node, next, w);
          Room(w);
        }
      } else {
        PopKeeps(node);
      }
    }

    lemma Fits()
      requires Discovered()
      ensures NoDuplicates(vertex) && |vertex| <= |g|
    {
      assert forall i, j :: 0 <= i < j < |vertex| ==> semi[vertex[i]] == i && semi[vertex[j]] == j;
      forall i | 0 <= i < |vertex|
        ensures vertex[i] in g.Keys
      {
        var v := vertex[i];
        assert v in semi && v in g;
      }
      NoDuplicatesFit(vertex, g.Keys);
    }

    /** A new vertex is still counted by the graph. */
    lemma Room(w: Vertex)
      requires Discovered() && w in g && w !in semi
      ensures |vertex| < |g|
    {
      assert forall i :: 0 <= i < |vertex| ==> vertex[i] != w;
      Fits();
      NoDuplicatesFit(vertex + [w], g.Keys);
    }
  }

  class DominatorTree {
    const succ: Graph
    const r: Vertex
    var parent: map<Vertex, Vertex>
    var pred: map<Vertex, set<Vertex>>
    var semi: map<Vertex, nat>
    var vertex: seq<Vertex>
    var bucket: map<Vertex, set<Vertex>>
    var dom: map<Vertex, Vertex>
    var ancestor: map<Vertex, Vertex>
    var labels: map<Vertex, Vertex>

    constructor (g: Graph, root: Vertex)
      requires root in g && Closed(g)
      ensures succ == g && r == root
    {
      succ, r := g, root;
      parent, pred, semi, vertex, bucket, dom, ancestor, labels := map[], map[], map[], [], map[], map[], map[], map[];
    }

    method InitVariables()
      modifies this
      ensures parent == map[] && semi == map[] && vertex == [] && dom == map[] && ancestor == map[] && labels == map[]
      ensures forall v :: (v in pred <==> v in succ) && (v in bucket <==> v in succ)
      ensures forall v :: v in succ ==> pred[v] == {} && bucket[v] == {}
      ensures forall v :: v in bucket ==> bucket[v] == {}
    {
      parent, semi, vertex, dom, ancestor, labels := map[], map[], [], map[], map[], map[];
      pred, bucket := map v | v in succ :: {}, map v | v in succ :: {};
    }

    // ----- depth-first search

    /** The next successor of the top vertex: discovered if it is new. */
    static method LookAtNext(d: Dfs, node: Vertex) returns (s: Dfs, discovered: bool)
      requires d.Searching() && Closed(d.g) && d.edges == Edges(d.g) && d.stack != [] && node == d.stack[|d.stack| - 1]
      requires node in d.seen && node in d.g && d.seen[node] < |d.g[node]|
      ensures s.Searching() && s.g == d.g && s.edges == d.edges && s.vertex[0] == d.vertex[0]
      ensures discovered ==> |d.vertex| < |s.vertex| <= |s.g|
      ensures !discovered ==> s.stack == d.stack && s.vertex == d.vertex
      ensures !discovered ==> node in s.semi && node in s.seen && d.seen[node] < s.seen[node] <= |s.g[node]|
    {
      d.Top(node);
      var next := d.seen[node];
      var w := d.g[node][next];
      discovered := w !in d.semi;
      s := if discovered then d.Discover(node, next, w) else d.SeeAgain(node, next, w);
    }

    /** Resumes the iterator of the top vertex until a new vertex is discovered or no successor is left. */
    static method NextDiscovery(d: Dfs, node: Vertex) returns (s: Dfs, discovered: bool)
      requires d.Searching() && Closed(d.g) && d.edges == Edges(d.g) && d.stack != [] && node == d.stack[|d.stack| - 1]
      ensures s.Searching() && s.g == d.g && s.edges == d.edges && s.vertex[0] == d.vertex[0]
      ensures discovered ==> |d.vertex| < |s.vertex| <= |s.g|
      ensures !discovered ==>
        s.stack == d.stack && s.vertex == d.vertex && node in s.semi && s.seen[node] == |s.g[node]|
    {
      s, discovered := d, false;
      s.Top(node);
      while !discovered && s.seen[node] < |s.g[node]|
        invariant s.Searching() && s.g == d.g && s.edges == d.edges && s.vertex[0] == d.vertex[0]
        invariant if discovered then |d.vertex| < |s.vertex| <= |s.g|
                  else node in s.semi && node in s.seen && s.stack == d.stack && s.vertex == d.vertex
                       && s.seen[node] <= |s.g[node]|
        decreases !discovered, if discovered then 0 else |s.g[node]| - s.seen[node]
      {
        s, discovered := LookAtNext(s, node);
      }
    }

    method DepthFirstSearch(v: Vertex) returns (ghost result: Search)
      requires v in succ && Closed(succ)
      requires forall v :: v in succ <==> v in pred
      requires forall v :: v in pred ==> pred[v] == {}
      modifies this`parent, this`semi, this`vertex, this`pred
      ensures result.edges == Edges(succ) && result.num == semi && Tables(result) && vertex[0] == v
      ensures forall v :: v in semi ==> v in succ
    {
      var s := Dfs(succ, [v], map[v := 0], map[], pred, map[v := 0], [v], Edges(succ), [0]);
      s.Start(v);
      s := DiscoverAll(s);
      result := FoundBy(s);
      vertex, semi, parent, pred := s.vertex, s.semi, s.parent, s.pred;
    }

    /** The loop over the stack, until that is empty. */
    static method DiscoverAll(d: Dfs) returns (s: Dfs)
      requires d.Searching() && Closed(d.g) && d.edges == Edges(d.g)
      ensures s.Searching() && s.g == d.g && s.edges == d.edges && s.vertex[0] == d.vertex[0] && s.stack == []
    {
      s := d;
      while s.stack != []
        invariant s.Searching() && s.g == d.g && s.edges == d.edges && s.vertex[0] == d.vertex[0]
        decreases |s.g| - |s.vertex|, |s.stack|
      {
        var node := s.stack[|s.stack| - 1];
        var discovered;
        s, discovered := NextDiscovery(s, node);
        if !discovered {
          s.Top(node);
          s := s.(stack := s.stack[..|s.stack| - 1]);
        }
      }
    }

    /** What the finished search found. */
    static lemma FoundBy(s: Dfs) returns (result: Search)
      requires s.Searching() && s.stack == [] && s.edges == Edges(s.g)
      ensures result.Complete() && result.Parents(s.parent) && result.Predecessors(s.pred)
      ensures result.edges == s.edges && result.num == s.semi && result.order == s.vertex
      ensures forall v :: v in s.semi ==> v in s.g
    {
      s.Finished();
      result := s.Result();
    }

    // ----- link and eval

    ghost predicate InForest(s: Search, sd: seq<nat>, k: nat)
      reads this
    {
      s.Numbered() && Weighted(s, sd, semi) && Forest(s, sd, k, ancestor, labels)
    }

    /** The vertices from v up to the last one whose ancestor is linked, and that ancestor's successor `top`. */
    ghost predicate Climbed(v: Vertex, path: seq<Vertex>, top: Vertex)
      reads this
    {
      && top in ancestor && v == OnPath(path, top, 0)
      && (forall i :: 0 <= i < |path| ==> path[i] in ancestor && ancestor[path[i]] == OnPath(path, top, i + 1))
      && (forall i, j :: 0 <= i < j < |path| ==> path[i] != path[j])
    }

    ghost static function OnPath(path: seq<Vertex>, top: Vertex, i: nat): Vertex
      requires i <= |path|
    {
      if i < |path| then path[i] else top
    }

    method Climb(v: Vertex, ghost s: Search, ghost sd: seq<nat>, ghost k: nat) returns (path: seq<Vertex>, top: Vertex)
      requires s.Numbered() && Forest(s, sd, k, ancestor, labels) && v in ancestor
      ensures Climbed(v, path, top) && ancestor[top] !in ancestor
    {
      path, top := [], v;
      while ancestor[top] in ancestor
        invariant Climbed(v, path, top)
        invariant top in s.num && forall i :: 0 <= i < |path| ==> path[i] in s.num && s.num[path[i]] > s.num[top]
        decreases s.num[top]
      {
        assert Hung(s, sd, k, ancestor, labels, top);
        path := path + [top];
        top := ancestor[top];
      }
    }

    /** The labels when a vertex takes over the ancestor of its ancestor. */
    method LeastLabels(node: Vertex, up: map<Vertex, Vertex>, labels: map<Vertex, Vertex>,
        ghost s: Search, ghost sd: seq<nat>, ghost k: nat)
      returns (least: map<Vertex, Vertex>)
      requires s.Numbered() && Weighted(s, sd, semi) && Forest(s, sd, k, up, labels)
      requires node in up && up[node] in up
      ensures Forest(s, sd, k, up[node := up[up[node]]], least)
    {
      var w := up[node];
      assert Hung(s, sd, k, up, labels, node) && Hung(s, sd, k, up, labels, w);
      least := labels;
      if semi[Label(labels, w)] < semi[Label(labels, node)] {
        least := labels[node := Label(labels, w)];
      }
      CompressStep(s, sd, k, up, labels, node, least);
    }

    method Compress(v: Vertex, ghost s: Search, ghost sd: seq<nat>, ghost k: nat)
      requires InForest(s, sd, k) && v in ancestor
      modifies this`ancestor, this`labels
      ensures InForest(s, sd, k) && v in ancestor && ancestor[v] !in ancestor
    {
      var path, top := Climb(v, s, sd, k);
      var up, least := ancestor, labels;
      var i := |path|;
      while i > 0
        invariant 0 <= i <= |path|
        invariant Forest(s, sd, k, up, least)
        invariant forall j :: 0 <= j < i ==> path[j] in up && up[path[j]] == OnPath(path, top, j + 1)
        invariant var node := OnPath(path, top, i); node in up && up[node] !in up
      {
        i := i - 1;
        least := LeastLabels(path[i], up, least, s, sd, k);
        up := up[path[i] := up[up[path[i]]]];
      }
      ancestor, labels := up, least;
    }

    /** EVAL: the vertex itself while it is not linked, otherwise a vertex of least `semi` among its linked ancestors.
        Compression keeps the whole forest, so the answers of all later calls stay what they are. */
    method Eval(v: Vertex, ghost s: Search, ghost sd: seq<nat>, ghost k: nat) returns (u: Vertex)
      requires InForest(s, sd, k) && v in s.num
      modifies this`ancestor, this`labels
      ensures InForest(s, sd, k) && Evaluated(s, sd, k, v, u)
    {
      if v !in ancestor {
        return v;
      }
      Compress(v, s, sd, k);
      assert Hung(s, sd, k, ancestor, labels, v);
      ghost var a := ancestor[v];
      assert a !in ancestor;
      SegmentIsLeast(s.flow, sd, k, s.num[a], s.num[v], s.num[Label(labels, v)]);
      return Label(labels, v);
    }

    // ----- steps 2 and 3

    /** Step 2 for w: lowers `semi[w]` over the predecessors of w to its semidominator. */
    method ComputeSemi(w: Vertex, ghost s: Search, ghost sd: seq<nat>) returns (ghost sd': seq<nat>)
      requires s.Complete() && w in s.num && 0 < s.num[w] && w in pred
      requires InForest(s, sd, s.num[w] + 1) && SemiKnown(s.flow, sd, s.num[w] + 1)
      requires forall v :: v in pred[w] <==> v in s.num && (v, w) in s.edges
      modifies this`semi, this`ancestor, this`labels
      ensures InForest(s, sd', s.num[w] + 1) && SemiKnown(s.flow, sd', s.num[w])
      ensures |sd'| == |sd| && sd' == sd[s.num[w] := sd'[s.num[w]]]
    {
      ghost var i, c, done := s.num[w], s.num[w], {};
      assert sd[i := c] == sd;
      var todo := pred[w];
      while todo != {}
        invariant forall x :: x in todo ==> x in pred[w]
        invariant forall x :: x in pred[w] ==> x in todo || x in done
        invariant InForest(s, sd[i := c], i + 1)
        invariant Lowered(s, sd, i, c, done)
      {
        var v := Any(todo);
        var u := Eval(v, s, sd[i := c], i + 1);
        StepTwo(s, sd, i, w, v, u, c, done, semi, ancestor, labels);
        if semi[u] < semi[w] {
          semi := semi[w := semi[u]];
          c := semi[w];
        }
        todo, done := todo - {v}, done + {v};
      }
      sd' := sd[i := c];
      StepTwoDone(s, sd, w, c, done);
    }

    /** Step 3 for w: empties the bucket of its parent p. */
    method EmptyBucket(w: Vertex, p: Vertex, ghost s: Search, ghost sd: seq<nat>)
      requires s.Complete() && w in s.num && 0 < s.num[w] && p == s.order[s.flow.parent[s.num[w]]]
      requires InForest(s, sd, s.num[w]) && SemiKnown(s.flow, sd, s.num[w])
      requires p in bucket && forall v :: v in bucket[p] ==> Waiting(s, sd, s.num[w], p, v)
      modifies this`ancestor, this`labels, this`bucket, this`dom
      ensures InForest(s, sd, s.num[w])
      ensures Emptied(s, sd, p, old(bucket), old(dom), bucket, dom)
    {
      var todo, b, d := bucket[p], bucket, dom;
      ghost var i := s.num[w];
      while todo != {}
        invariant InForest(s, sd, i) && Emptying(s, sd, p, old(bucket), old(dom), b, d, todo)
      {
        var v := Any(todo);
        var u := Eval(v, s, sd, i);
        BucketStep(s, sd, i, w, p, v, u);
        var ruler := if semi[u] < semi[v] then u else p;
        EmptyOne(s, sd, p, old(bucket), old(dom), b, d, todo, v, ruler);
        b := b[p := b[p] - {v}];
        d := d[v := ruler];
        todo := todo - {v};
      }
      bucket, dom := b, d;
    }

    /** The tables of the search, which steps 2 to 4 only read. */
    ghost predicate Tables(s: Search)
      reads this
    {
      && s.Complete() && vertex == s.order
      && s.Parents(parent)
      && s.Predecessors(pred)
    }

    method Steps2And3(ghost s: Search) returns (ghost sd: seq<nat>)
      requires Tables(s) && (forall v :: v in s.num ==> v in bucket) && (forall v :: v in bucket ==> bucket[v] == {})
      requires semi == s.num && dom == map[] && ancestor == map[] && labels == map[]
      modifies this`semi, this`ancestor, this`labels, this`bucket, this`dom
      ensures Weighted(s, sd, semi) && Settled(s, sd, dom, 1)
    {
      var i := |vertex|;
      sd := seq(|vertex|, x => x);
      NothingLinked(s, sd, semi, bucket);
      while i > 1
        invariant 1 <= i <= |vertex| && Tables(s)
        invariant InForest(s, sd, i) && SemiKnown(s.flow, sd, i) && Progress(s, sd, i, bucket, dom)
      {
        i := i - 1;
        sd := ProcessVertex(i, s, sd);
      }
      AllRuled(s, sd, bucket, dom);
    }

    /** The body of the loop over the vertices in reverse discovery order. */
    method ProcessVertex(i: nat, ghost s: Search, ghost before: seq<nat>) returns (ghost sd: seq<nat>)
      requires Tables(s) && 0 < i < |vertex|
      requires InForest(s, before, i + 1) && SemiKnown(s.flow, before, i + 1) && Progress(s, before, i + 1, bucket, dom)
      modifies this`semi, this`ancestor, this`labels, this`bucket, this`dom
      ensures InForest(s, sd, i) && SemiKnown(s.flow, sd, i) && Progress(s, sd, i, bucket, dom)
    {
      var w := vertex[i];
      sd := ComputeSemi(w, s, before);
      assert s.ParentAt(parent, i);
      var p := parent[w];
      StepThree(s, before, sd, i, w, p, bucket, dom);
      ghost var b, d := bucket, dom;
      bucket := bucket[vertex[semi[w]] := bucket[vertex[semi[w]]] + {w}];
      LinkForest(s, sd, i, w, p, ancestor, labels);
      ancestor := ancestor[w := p];
      EmptyBucket(w, p, s, sd);
      StepThreeDone(s, before, sd, i, w, p, b, d, bucket, dom);
    }

    method Step4(ghost s: Search, ghost sd: seq<nat>)
      requires s.Complete() && vertex == s.order && Weighted(s, sd, semi) && Settled(s, sd, dom, 1)
      modifies this`dom
      ensures Settled(s, sd, dom, |s.order|)
    {
      var d := dom;
      for j := 1 to |vertex|
        invariant Settled(s, sd, d, j)
      {
        var w := vertex[j];
        StepFour(s, sd, d, w);
        if d[w] != vertex[semi[w]] {
          d := d[w := d[d[w]]];
        }
      }
      dom := d;
    }

    method Compute()
      requires r in succ && Closed(succ)
      modifies this
      ensures forall v :: v in dom <==> v != r && Reach(Edges(succ), r, v)
      ensures forall v :: v in dom ==> ImmediateDominator(Edges(succ), r, dom[v], v)
    {
      InitVariables();
      ghost var s := DepthFirstSearch(r);
      ghost var sd := Steps2And3(s);
      Step4(s, sd);
      Computed(s, sd, r, dom);
    }
  }

  /** `sd` lists the values of `semi` by discovery number. */
  ghost predicate Weighted(s: Search, sd: seq<nat>, semi: map<Vertex, nat>) {
    |sd| == |s.order| && forall v :: v in s.num ==> v in semi && s.num[v] < |sd| && semi[v] == sd[s.num[v]]
  }

  /** The specification of EVAL. */
  ghost predicate Evaluated(s: Search, sd: seq<nat>, k: nat, v: Vertex, u: Vertex) {
    && v in s.num && u in s.num
    && if s.num[v] < k then u == v else LeastAbove(s.flow, sd, k, s.num[v], s.num[u])
  }

  function Label(labels: map<Vertex, Vertex>, v: Vertex): Vertex {
    if v in labels then labels[v] else v
  }

  /** The vertices from k on are linked; every entry of the forest is a segment of the depth-first tree. */
  ghost predicate Forest(s: Search, sd: seq<nat>, k: nat, ancestor: map<Vertex, Vertex>, labels: map<Vertex, Vertex>) {
    && (forall v :: v in ancestor <==> v in s.num && s.num[v] >= k)
    && (forall v :: v in labels ==> v in ancestor)
    && (forall v {:trigger Hung(s, sd, k, ancestor, labels, v)} ::
          v in ancestor ==> Hung(s, sd, k, ancestor, labels, v))
  }

  ghost predicate Hung(s: Search, sd: seq<nat>, k: nat, ancestor: map<Vertex, Vertex>, labels: map<Vertex, Vertex>,
      v: Vertex) {
    && v in ancestor && v in s.num && ancestor[v] in s.num && Label(labels, v) in s.num
    && Segment(s.flow, sd, k, s.num[ancestor[v]], s.num[v], s.num[Label(labels, v)])
  }

  /** One step of path compression. */
  lemma CompressStep(s: Search, sd: seq<nat>, k: nat, ancestor: map<Vertex, Vertex>, labels: map<Vertex, Vertex>,
                     node: Vertex, labels': map<Vertex, Vertex>)
    requires s.Numbered() && Forest(s, sd, k, ancestor, labels)
    requires node in ancestor && ancestor[node] in ancestor && |sd| == |s.order|
    requires Label(labels, ancestor[node]) in s.num && Label(labels, node) in s.num
    requires labels' == if sd[s.num[Label(labels, ancestor[node])]] < sd[s.num[Label(labels, node)]]
                        then labels[node := Label(labels, ancestor[node])] else labels
    ensures Forest(s, sd, k, ancestor[node := ancestor[ancestor[node]]], labels')
  {
    var w := ancestor[node];
    var ancestor' := ancestor[node := ancestor[w]];
    assert Hung(s, sd, k, ancestor, labels, node) && Hung(s, sd, k, ancestor, labels, w);
    SegmentJoin(s.flow, sd, k, s.num[ancestor[w]], s.num[w], s.num[node],
      s.num[Label(labels, node)], s.num[Label(labels, w)]);
    forall v | v in ancestor'
      ensures Hung(s, sd, k, ancestor', labels', v)
    {
      assert Hung(s, sd, k, ancestor, labels, v);
    }
  }

  /** Only the values of linked vertices matter to the forest. */
  lemma ForestElsewhere(s: Search, sd: seq<nat>, sd': seq<nat>, k: nat,
                        ancestor: map<Vertex, Vertex>, labels: map<Vertex, Vertex>)
    requires Forest(s, sd, k, ancestor, labels) && |sd'| == |sd|
    requires forall x :: k <= x < |sd| ==> sd'[x] == sd[x]
    ensures Forest(s, sd', k, ancestor, labels)
  {
    forall v | v in ancestor
      ensures Hung(s, sd', k, ancestor, labels, v)
    {
      assert Hung(s, sd, k, ancestor, labels, v);
    }
  }

  /** The value c of vertex i, lowered over the predecessors in `done`. */
  ghost predicate Lowered(s: Search, sd: seq<nat>, i: nat, c: nat, done: set<Vertex>) {
    && |sd| == |s.flow.parent| && c <= i
    && (c == i || exists x :: Contributes(s.flow, c, x, i))
    && (forall v :: v in done ==> v in s.num && Bounds(s.flow, sd, i, s.num[v], c))
  }

  /** One predecessor v of w, evaluated to u: the value is lowered to that of u if that is less. */
  lemma StepTwo(s: Search, sd: seq<nat>, i: nat, w: Vertex, v: Vertex, u: Vertex, c: nat, done: set<Vertex>,
                semi: map<Vertex, nat>, ancestor: map<Vertex, Vertex>, labels: map<Vertex, Vertex>)
    requires s.Complete() && w in s.num && s.num[w] == i > 0 && SemiKnown(s.flow, sd, i + 1)
    requires v in s.num && (v, w) in s.edges && Lowered(s, sd, i, c, done)
    requires Evaluated(s, sd[i := c], i + 1, v, u)
    requires Weighted(s, sd[i := c], semi) && Forest(s, sd[i := c], i + 1, ancestor, labels)
    ensures semi[u] >= semi[w] ==> Lowered(s, sd, i, c, done + {v})
    ensures semi[u] < semi[w] ==> Lowered(s, sd, i, semi[u], done + {v})
    ensures semi[u] < semi[w] ==> Weighted(s, sd[i := semi[u]], semi[w := semi[u]])
    ensures semi[u] < semi[w] ==> Forest(s, sd[i := semi[u]], i + 1, ancestor, labels)
  {
    var c' := if semi[u] < semi[w] then semi[u] else c;
    assert semi[w] == c && (u != w ==> semi[u] == sd[s.num[u]]);
    LowerStep(s, sd, i, w, v, u, c, c', done);
    if semi[u] < semi[w] {
      ForestElsewhere(s, sd[i := c], sd[i := c'], i + 1, ancestor, labels);
      WeightedElsewhere(s, sd, i, w, c, c', semi);
    }
  }

  lemma WeightedElsewhere(s: Search, sd: seq<nat>, i: nat, w: Vertex, c: nat, c': nat, semi: map<Vertex, nat>)
    requires s.Numbered() && w in s.num && s.num[w] == i < |sd| && Weighted(s, sd[i := c], semi)
    ensures Weighted(s, sd[i := c'], semi[w := c'])
  {
    forall v | v in s.num
      ensures v in semi[w := c'] && s.num[v] < |sd| && semi[w := c'][v] == sd[i := c'][s.num[v]]
    {
      assert v != w ==> s.num[v] != i;
    }
  }

  lemma LowerStep(s: Search, sd: seq<nat>, i: nat, w: Vertex, v: Vertex, u: Vertex, c: nat, c': nat, done: set<Vertex>)
    requires s.Complete() && w in s.num && s.num[w] == i > 0 && SemiKnown(s.flow, sd, i + 1)
    requires v in s.num && (v, w) in s.edges && Lowered(s, sd, i, c, done)
    requires Evaluated(s, sd[i := c], i + 1, v, u)
    requires c' == if s.num[u] != i && sd[s.num[u]] < c then sd[s.num[u]] else c
    ensures Lowered(s, sd, i, c', done + {v})
  {
    assert (v, w).0 in s.num;
    PredecessorStep(s.flow, sd, i, s.num[v], s.num[u], c, c');
    forall x | x in done
      ensures Bounds(s.flow, sd, i, s.num[x], c')
    {
      assert Bounds(s.flow, sd, i, s.num[x], c);
    }
  }

  lemma StepTwoDone(s: Search, sd: seq<nat>, w: Vertex, c: nat, done: set<Vertex>)
    requires s.Complete() && w in s.num && 0 < s.num[w] && SemiKnown(s.flow, sd, s.num[w] + 1)
    requires forall v :: v in s.num && (v, w) in s.edges ==> v in done
    requires Lowered(s, sd, s.num[w], c, done)
    ensures SemiKnown(s.flow, sd[s.num[w] := c], s.num[w])
  {
    var i := s.num[w];
    forall v | (v, i) in s.flow.edges
      ensures Bounds(s.flow, sd, i, v, c)
    {
      var e := (v, i);
      assert e.0 < |s.order|;
      var x := s.order[v];
      assert x in done && s.num[x] == v;
    }
    PredecessorsDone(s.flow, sd, i, c);
    var sd' := sd[i := c];
    forall x | i <= x < |sd'|
      ensures IsSemi(s.flow, sd'[x], x)
    {
      assert x > i ==> IsSemi(s.flow, sd[x], x);
    }
  }

  // ----- buckets

  /** v is linked and waits in the bucket of its semidominator y. */
  ghost predicate Waiting(s: Search, sd: seq<nat>, k: nat, y: Vertex, v: Vertex) {
    && |sd| == |s.order| && v in s.num && k <= s.num[v] < |sd|
    && sd[s.num[v]] < |s.order| && y == s.order[sd[s.num[v]]]
  }

  /** dom[v] obeys the rule of step 3. */
  ghost predicate Ruled(s: Search, sd: seq<nat>, dom: map<Vertex, Vertex>, v: Vertex) {
    && v in s.num && s.num[v] < |sd| && v in dom && dom[v] in s.num
    && Rule(s.flow, sd, s.num[dom[v]], s.num[v])
  }

  /** The bucket of p was emptied into dom. */
  ghost predicate Emptied(s: Search, sd: seq<nat>, p: Vertex,
                          bucket: map<Vertex, set<Vertex>>, dom: map<Vertex, Vertex>,
                          bucket': map<Vertex, set<Vertex>>, dom': map<Vertex, Vertex>) {
    && p in bucket && p in bucket'
    && (forall x :: x in bucket' <==> x in bucket)
    && (forall x :: x in bucket' && x != p ==> bucket'[x] == bucket[x])
    && (forall v :: v !in bucket'[p])
    && (forall v :: v in bucket[p] ==> Ruled(s, sd, dom', v))
    && (forall v :: v in dom' <==> v in dom || v in bucket[p])
    && (forall v :: v in dom && v !in bucket[p] ==> dom'[v] == dom[v])
  }

  /** The same with some vertices still to be taken out. */
  ghost predicate Emptying(s: Search, sd: seq<nat>, p: Vertex,
                           bucket: map<Vertex, set<Vertex>>, dom: map<Vertex, Vertex>,
                           bucket': map<Vertex, set<Vertex>>, dom': map<Vertex, Vertex>, todo: set<Vertex>) {
    && p in bucket && p in bucket' && (forall v :: v in todo ==> v in bucket[p])
    && (forall x :: x in bucket' <==> x in bucket)
    && (forall x :: x in bucket' && x != p ==> bucket'[x] == bucket[x])
    && (forall v :: v in bucket'[p] ==> v in todo)
    && (forall v :: v in bucket[p] ==> v in todo || Ruled(s, sd, dom', v))
    && (forall v :: v in dom' <==> v in dom || (v in bucket[p] && v !in todo))
    && (forall v :: v in dom && v !in bucket[p] ==> dom'[v] == dom[v])
  }

  lemma EmptyOne(s: Search, sd: seq<nat>, p: Vertex, bucket: map<Vertex, set<Vertex>>, dom: map<Vertex, Vertex>,
      bucket': map<Vertex, set<Vertex>>, dom': map<Vertex, Vertex>, todo: set<Vertex>, v: Vertex, u: Vertex)
    requires Emptying(s, sd, p, bucket, dom, bucket', dom', todo) && v in todo && Ruled(s, sd, dom'[v := u], v)
    ensures Emptying(s, sd, p, bucket, dom, bucket'[p := bucket'[p] - {v}], dom'[v := u], todo - {v})
  {
    forall x | x in bucket[p] && x !in todo - {v}
      ensures Ruled(s, sd, dom'[v := u], x)
    {
      assert x != v ==> Ruled(s, sd, dom', x);
    }
  }

  lemma BucketStep(s: Search, sd: seq<nat>, i: nat, w: Vertex, p: Vertex, v: Vertex, u: Vertex)
    requires s.Complete() && w in s.num && 0 < s.num[w] == i && p == s.order[s.flow.parent[i]]
    requires SemiKnown(s.flow, sd, i) && Waiting(s, sd, i, p, v) && Evaluated(s, sd, i, v, u)
    ensures p in s.num && sd[s.num[v]] == s.num[p]
    ensures Rule(s.flow, sd, if sd[s.num[u]] < sd[s.num[v]] then s.num[u] else s.num[p], s.num[v])
  {
    assert s.flow.parent[i] < |s.order|;
    BucketRule(s.flow, sd, i, s.num[v], s.num[u]);
  }

  /** Between iterations: every linked vertex has its entry in dom or waits for a child of its semidominator. */
  ghost predicate Progress(s: Search, sd: seq<nat>, k: nat, bucket: map<Vertex, set<Vertex>>,
      dom: map<Vertex, Vertex>) {
    && (forall i :: 0 <= i < |s.order| ==> s.order[i] in bucket)
    && (forall y, v :: y in bucket && v in bucket[y] ==> Waiting(s, sd, k, y, v))
    && (forall v :: v in dom ==> Ruled(s, sd, dom, v) && k <= s.num[v])
    && (forall v :: v in s.num && k <= s.num[v] ==> v in dom || Pending(s, sd, k, bucket, v))
  }

  /** Before step 2 no vertex is linked and every vertex carries its own number. */
  lemma NothingLinked(s: Search, sd: seq<nat>, semi: map<Vertex, nat>, bucket: map<Vertex, set<Vertex>>)
    requires s.Complete() && semi == s.num && |sd| == |s.order| && forall x :: 0 <= x < |sd| ==> sd[x] == x
    requires forall v :: v in s.num ==> v in bucket
    requires forall v :: v in bucket ==> bucket[v] == {}
    ensures Weighted(s, sd, semi) && Forest(s, sd, |s.order|, map[], map[]) && SemiKnown(s.flow, sd, |s.order|)
    ensures Progress(s, sd, |s.order|, bucket, map[])
  {
    forall j | 0 <= j < |s.order|
      ensures s.order[j] in bucket
    {
      var v := s.order[j];
      assert v in s.num;
    }
  }

  /** When only the root is left, every bucket has been emptied into dom. */
  lemma AllRuled(s: Search, sd: seq<nat>, bucket: map<Vertex, set<Vertex>>, dom: map<Vertex, Vertex>)
    requires s.Complete() && Progress(s, sd, 1, bucket, dom) && SemiKnown(s.flow, sd, 1)
    ensures Settled(s, sd, dom, 1)
  {
    forall v
      ensures v in dom <==> v in s.num && 0 < s.num[v]
    {
      if v in dom {
        assert Ruled(s, sd, dom, v);
      }
      assert !Pending(s, sd, 1, bucket, v);
    }
    forall v | v in dom
      ensures Ruled(s, sd, dom, v) && 1 <= s.num[v]
    {
    }
  }

  ghost predicate Pending(s: Search, sd: seq<nat>, k: nat, bucket: map<Vertex, set<Vertex>>, v: Vertex) {
    && v in s.num && s.num[v] < |sd| && sd[s.num[v]] < |s.order|
    && s.order[sd[s.num[v]]] in bucket && v in bucket[s.order[sd[s.num[v]]]]
    && ChildBelow(s.flow, sd[s.num[v]], s.num[v], k)
  }

  /** LINK(p, w) for the vertex w numbered i. */
  lemma LinkForest(s: Search, sd: seq<nat>, i: nat, w: Vertex, p: Vertex,
                   ancestor: map<Vertex, Vertex>, labels: map<Vertex, Vertex>)
    requires s.Complete() && w in s.num && 0 < s.num[w] == i && p == s.order[s.flow.parent[i]] && |sd| == |s.order|
    requires Forest(s, sd, i + 1, ancestor, labels)
    ensures Forest(s, sd, i, ancestor[w := p], labels)
  {
    var up := ancestor[w := p];
    SegmentLink(s.flow, sd, i);
    assert w !in ancestor && s.num[p] == s.flow.parent[i];
    forall v | v in up
      ensures Hung(s, sd, i, up, labels, v)
    {
      assert v != w ==> Hung(s, sd, i + 1, ancestor, labels, v);
    }
    forall v
      ensures v in up <==> v in s.num && s.num[v] >= i
    {
      assert v in s.num && s.num[v] == i ==> v == w;
    }
  }

  /** w joins the bucket of its semidominator; then everything in the bucket of its parent p waits there rightly. */
  lemma StepThree(s: Search, before: seq<nat>, sd: seq<nat>, i: nat, w: Vertex, p: Vertex,
                  bucket: map<Vertex, set<Vertex>>, dom: map<Vertex, Vertex>)
    requires s.Complete() && 0 < i < |s.order| && w == s.order[i] && p == s.order[s.flow.parent[i]]
    requires |sd| == |before| == |s.order| && sd == before[i := sd[i]] && SemiKnown(s.flow, sd, i)
    requires Progress(s, before, i + 1, bucket, dom)
    ensures sd[i] < |s.order| && s.order[sd[i]] in bucket
    ensures var b := bucket[s.order[sd[i]] := bucket[s.order[sd[i]]] + {w}];
      p in b && forall y, v :: y in b && v in b[y] ==> Waiting(s, sd, i, y, v)
  {
    assert IsSemi(s.flow, sd[i], i);
    SemiBelowParent(s.flow, sd[i], i);
    var b := bucket[s.order[sd[i]] := bucket[s.order[sd[i]]] + {w}];
    forall y, v | y in b && v in b[y]
      ensures Waiting(s, sd, i, y, v)
    {
      assert v != w ==> Waiting(s, before, i + 1, y, v);
    }
  }

  lemma StepThreeDone(s: Search, before: seq<nat>, sd: seq<nat>, i: nat, w: Vertex, p: Vertex,
                      bucket: map<Vertex, set<Vertex>>, dom: map<Vertex, Vertex>,
                      bucket': map<Vertex, set<Vertex>>, dom': map<Vertex, Vertex>)
    requires s.Complete() && 0 < i < |s.order| && w == s.order[i] && p == s.order[s.flow.parent[i]]
    requires |sd| == |before| == |s.order| && sd == before[i := sd[i]] && SemiKnown(s.flow, sd, i)
    requires Progress(s, before, i + 1, bucket, dom)
    requires sd[i] < |s.order| && s.order[sd[i]] in bucket
    requires Emptied(s, sd, p, bucket[s.order[sd[i]] := bucket[s.order[sd[i]]] + {w}], dom, bucket', dom')
    ensures Progress(s, sd, i, bucket', dom')
  {
    StepThree(s, before, sd, i, w, p, bucket, dom);
    var b := bucket[s.order[sd[i]] := bucket[s.order[sd[i]]] + {w}];
    forall j | 0 <= j < |s.order|
      ensures s.order[j] in bucket'
    {
      var y := s.order[j];
      assert y in bucket;
    }
    forall y, v | y in bucket' && v in bucket'[y]
      ensures Waiting(s, sd, i, y, v)
    {
      assert v in b[y];
    }
    forall v | v in dom'
      ensures Ruled(s, sd, dom', v) && i <= s.num[v]
    {
      if v in b[p] {
        assert Waiting(s, sd, i, p, v);
      } else {
        assert Ruled(s, before, dom, v);
      }
    }
    forall v | v in s.num && i <= s.num[v] && v !in dom'
      ensures Pending(s, sd, i, bucket', v)
    {
      if v == w {
        PendingNew(s, sd, i, w, p, b, bucket');
      } else {
        PendingStays(s, before, sd, i, w, p, bucket, bucket', v);
      }
    }
  }

  lemma PendingNew(s: Search, sd: seq<nat>, i: nat, w: Vertex, p: Vertex,
                   b: map<Vertex, set<Vertex>>, bucket': map<Vertex, set<Vertex>>)
    requires s.Complete() && 0 < i < |s.order| == |sd| && w == s.order[i] && p == s.order[s.flow.parent[i]]
    requires SemiKnown(s.flow, sd, i) && sd[i] < |s.order| && s.order[sd[i]] in b && w in b[s.order[sd[i]]]
    requires p in b && w !in b[p] && forall x :: x in b && x != p ==> x in bucket' && bucket'[x] == b[x]
    ensures Pending(s, sd, i, bucket', w)
  {
    assert IsSemi(s.flow, sd[i], i);
    SemiIsAncestor(s.flow, sd[i], i);
    FindChild(s.flow, sd[i], i);
    var c :| 0 < c < i + 1 && ChildOnPath(s.flow, sd[i], i, c);
    var y := s.order[sd[i]];
    assert y != p && y in bucket';
  }

  lemma PendingStays(s: Search, before: seq<nat>, sd: seq<nat>, i: nat, w: Vertex, p: Vertex,
                     bucket: map<Vertex, set<Vertex>>, bucket': map<Vertex, set<Vertex>>, v: Vertex)
    requires s.Complete() && 0 < i < |s.order| && p == s.order[s.flow.parent[i]]
    requires |sd| == |before| == |s.order| && sd == before[i := sd[i]]
    requires Pending(s, before, i + 1, bucket, v) && i < s.num[v]
    requires p in bucket && v !in bucket[p]
    requires forall x :: x in bucket && x != p ==> x in bucket' && bucket[x] <= bucket'[x]
    ensures Pending(s, sd, i, bucket', v)
  {
    var q := before[s.num[v]];
    var c :| 0 < c < i + 1 && ChildOnPath(s.flow, q, s.num[v], c);
    var y := s.order[q];
    assert y != p && y in bucket && y in bucket' && v in bucket'[y];
  }

  /** dom[v] is the immediate dominator of v in the flow graph. */
  ghost predicate Exact(s: Search, dom: map<Vertex, Vertex>, v: Vertex) {
    v in s.num && v in dom && dom[v] in s.num && ImmediateDominator(s.flow.edges, 0, s.num[dom[v]], s.num[v])
  }

  /** During step 4 the entries before j are exact and the others still obey the rule of step 3. */
  ghost predicate Settled(s: Search, sd: seq<nat>, dom: map<Vertex, Vertex>, j: nat) {
    && |sd| == |s.order|
    && (forall v :: v in dom <==> v in s.num && 0 < s.num[v])
    && (forall v :: v in dom && j <= s.num[v] ==> Ruled(s, sd, dom, v))
    && (forall v :: v in dom && s.num[v] < j ==> Exact(s, dom, v))
  }

  lemma StepFour(s: Search, sd: seq<nat>, dom: map<Vertex, Vertex>, w: Vertex)
    requires s.Complete() && w in s.num && 0 < s.num[w] && Settled(s, sd, dom, s.num[w])
    ensures sd[s.num[w]] < |s.order| && w in dom
    ensures dom[w] == s.order[sd[s.num[w]]] ==> Settled(s, sd, dom, s.num[w] + 1)
    ensures dom[w] != s.order[sd[s.num[w]]] ==> dom[w] in dom && Settled(s, sd, dom[w := dom[dom[w]]], s.num[w] + 1)
  {
    var u := dom[w];
    assert Ruled(s, sd, dom, w);
    var dom' := if u == s.order[sd[s.num[w]]] then dom else
      assert u in dom && Exact(s, dom, u);
      dom[w := dom[u]];
    assert Exact(s, dom', w);
    forall v | v in dom' && v != w
      ensures if s.num[v] < s.num[w] then Exact(s, dom', v) else Ruled(s, sd, dom', v)
    {
      assert if s.num[v] < s.num[w] then Exact(s, dom, v) else Ruled(s, sd, dom, v);
    }
    forall v | v in dom'
      ensures if s.num[v] < s.num[w] + 1 then Exact(s, dom', v) else Ruled(s, sd, dom', v)
    {
      assert v != w ==> s.num[v] != s.num[w];
    }
  }

  /** Immediate dominators, carried over to the graph itself. */
  lemma Computed(s: Search, sd: seq<nat>, r: Vertex, dom: map<Vertex, Vertex>)
    requires s.Complete() && s.order[0] == r && Settled(s, sd, dom, |s.order|)
    ensures forall v :: v in dom <==> v != r && Reach(s.edges, r, v)
    ensures forall v :: v in dom ==> ImmediateDominator(s.edges, r, dom[v], v)
  {
    forall v
      ensures v in dom <==> v != r && Reach(s.edges, r, v)
    {
      s.FoundIsReachable(v);
    }
    forall v | v in dom
      ensures ImmediateDominator(s.edges, r, dom[v], v)
    {
      assert Exact(s, dom, v);
      var d := dom[v];
      assert s.num[d] < |s.order| && s.order[s.num[d]] == d;
      s.ImmediateTransfer(s.num[d], s.num[v]);
    }
  }

  // ----- the dominator tree as child lists

  type ChildLists = map<Vertex, seq<Vertex>>

  function Children(t: ChildLists, v: Vertex): seq<Vertex> {
    if v in t then t[v] else []
  }

  ghost predicate IsChild(t: ChildLists, d: Vertex, v: Vertex) {
    v in Children(t, d)
  }

  /** Values that are no keys yet get an empty list. */
  method WithKeys(graph: Graph, values: seq<Vertex>) returns (more: Graph)
    ensures forall v :: v in graph ==> v in more && more[v] == graph[v]
    ensures forall v :: v in more ==> v in graph || (v in values && more[v] == [])
    ensures forall v :: v in values ==> v in more
  {
    more := graph;
    for i := 0 to |values|
      invariant forall v :: v in graph ==> v in more && more[v] == graph[v]
      invariant forall v :: v in more ==> v in graph || (v in values && more[v] == [])
      invariant forall j :: 0 <= j < i ==> values[j] in more
    {
      if values[i] !in more {
        more := more[values[i] := []];
      }
    }
  }

  /** Every vertex becomes a key: those that only occur as successors get an empty list. */
  method FixGraph(graph: Graph) returns (expanded: Graph)
    ensures forall v :: v in expanded <==> v in graph || exists e :: e in Edges(graph) && e.1 == v
    ensures forall v :: Succ(expanded, v) == Succ(graph, v)
    ensures Closed(expanded) && Edges(expanded) == Edges(graph)
  {
    expanded := map[];
    var todo := graph.Keys;
    while todo != {}
      invariant forall v :: v in todo ==> v in graph
      invariant forall v :: v in graph ==> v in todo || (v in expanded && expanded[v] == graph[v])
      invariant forall v :: v in expanded && (v in todo || v !in graph) ==> expanded[v] == []
      invariant forall v :: v in expanded ==> v in graph || exists e :: e in Edges(graph) && e.1 == v
      invariant forall v, w :: v in graph && v !in todo && w in graph[v] ==> w in expanded
    {
      var key := Any(todo);
      var values := graph[key];
      expanded := expanded[key := values];
      todo := todo - {key};
      assert forall value :: value in values ==> (key, value) in Edges(graph);
      expanded := WithKeys(expanded, values);
    }
    assert forall e :: e in Edges(expanded) <==> e in Edges(graph);
  }

  /** `dom`, inverted into child lists. */
  method Invert(dom: map<Vertex, Vertex>) returns (inverted: ChildLists)
    ensures forall d, v :: IsChild(inverted, d, v) <==> v in dom && dom[v] == d
    ensures forall d :: d in inverted ==> inverted[d] != [] && NoDuplicates(inverted[d])
  {
    inverted := map[];
    var todo := dom.Keys;
    while todo != {}
      invariant forall v :: v in todo ==> v in dom
      invariant forall d, v :: d in inverted && v in inverted[d] <==> v in dom && v !in todo && dom[v] == d
      invariant forall d :: d in inverted ==> inverted[d] != [] && NoDuplicates(inverted[d])
    {
      var key := Any(todo);
      var value := dom[key];
      if value !in inverted {
        inverted := inverted[value := []];
      }
      assert key !in inverted[value];
      inverted := inverted[value := inverted[value] + [key]];
      todo := todo - {key};
    }
  }

  /** The dominator tree of the vertices reachable from r, or None if r is no vertex. */
  method BuildDominatorTree(g: Graph, r: Vertex) returns (tree: Option<ChildLists>)
    ensures tree.None? <==> r !in g && forall e :: e in Edges(g) ==> e.1 != r
    ensures tree.Some? ==> IsDominatorTree(g, r, tree.value)
  {
    var expanded := FixGraph(g);
    if r !in expanded {
      return None;
    }
    var domtree := new DominatorTree(expanded, r);
    domtree.Compute();
    var dom := domtree.dom;
    var inverted := Invert(dom);
    forall d, v
      ensures IsChild(inverted, d, v) <==> v != r && Reach(Edges(g), r, v) && ImmediateDominator(Edges(g), r, d, v)
    {
      if v in dom && ImmediateDominator(Edges(g), r, d, v) {
        ImmediateDominatorIsUnique(Edges(g), r, d, dom[v], v);
      }
    }
    forall v | v != r && Reach(Edges(g), r, v)
      ensures exists d :: IsChild(inverted, d, v)
    {
      assert IsChild(inverted, dom[v], v);
    }
    return Some(inverted);
  }

  /** d is listed as the parent of v exactly when it is the immediate dominator of the reachable vertex v, and
      every reachable vertex but the root has a parent. */
  ghost predicate IsDominatorTree(g: Graph, r: Vertex, t: ChildLists) {
    && (forall d, v :: IsChild(t, d, v) <==> v != r && Reach(Edges(g), r, v) && ImmediateDominator(Edges(g), r, d, v))
    && (forall v :: v != r && Reach(Edges(g), r, v) ==> exists d :: IsChild(t, d, v))
    && (forall d :: d in t ==> t[d] != [] && NoDuplicates(t[d]))
  }
}
