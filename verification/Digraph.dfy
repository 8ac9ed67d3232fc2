/** Paths, reachability and dominance in a directed graph given by its set of edges. */
module Digraph {

  /** The graphs of the original: a vertex is mapped to its successors; a vertex that is not a key has none. */
  type Vertex = int
  type Graph = map<Vertex, seq<Vertex>>

  function Succ(g: Graph, v: Vertex): seq<Vertex> {
    if v in g then g[v] else []
  }

  ghost function Edges(g: Graph): set<(Vertex, Vertex)> {
    set v, w | v in g && w in g[v] :: (v, w)
  }

  /** Every vertex a graph mentions. */
  ghost function Vertices(g: Graph): set<Vertex> {
    g.Keys + set e | e in Edges(g) :: e.1
  }

  lemma EdgeWithin(g: Graph, x: Vertex, y: Vertex)
    requires (x, y) in Edges(g)
    ensures x in Vertices(g) && y in Vertices(g)
  {
    assert (x, y).1 == y;
  }

  // ----- paths

  ghost predicate Step<V>(edges: set<(V, V)>, q: seq<V>, i: nat)
    requires i + 1 < |q|
  {
    (q[i], q[i + 1]) in edges
  }

  ghost predicate Path<V>(edges: set<(V, V)>, q: seq<V>) {
    |q| > 0 && forall i :: 0 <= i < |q| - 1 ==> Step(edges, q, i)
  }

  ghost predicate PathBetween<V>(edges: set<(V, V)>, q: seq<V>, x: V, y: V) {
    Path(edges, q) && q[0] == x && q[|q| - 1] == y
  }

  lemma PathSlice<V>(edges: set<(V, V)>, q: seq<V>, i: nat, j: nat)
    requires Path(edges, q) && i < j <= |q|
    ensures Path(edges, q[i..j])
  {
    forall k | 0 <= k < j - i - 1
      ensures Step(edges, q[i..j], k)
    {
      assert Step(edges, q, i + k);
    }
  }

  /** Two paths sharing an endpoint, joined. */
  lemma PathJoin<V>(edges: set<(V, V)>, a: seq<V>, b: seq<V>)
    requires Path(edges, a) && Path(edges, b) && a[|a| - 1] == b[0]
    ensures PathBetween(edges, a + b[1..], a[0], b[|b| - 1])
  {
    var q := a + b[1..];
    forall i | 0 <= i < |q| - 1
      ensures Step(edges, q, i)
    {
      if i >= |a| - 1 {
        assert q[i] == b[i - |a| + 1] && q[i + 1] == b[i - |a| + 2] && Step(edges, b, i - |a| + 1);
      } else {
        assert Step(edges, a, i);
      }
    }
  }

  lemma InJoin<V>(a: seq<V>, b: seq<V>, x: V)
    requires |b| > 0 && x in a + b[1..]
    ensures x in a || exists k :: 0 < k < |b| && b[k] == x
  {
    var k :| 0 <= k < |a + b[1..]| && (a + b[1..])[k] == x;
    if k >= |a| {
      assert b[k - |a| + 1] == x;
    }
  }

  // ----- reachability

  ghost predicate Reach<V(!new)>(edges: set<(V, V)>, x: V, y: V) {
    exists q :: PathBetween(edges, q, x, y)
  }

  /** Reachability by a path with at least one edge. */
  ghost predicate ReachPlus<V(!new)>(edges: set<(V, V)>, x: V, y: V) {
    exists q :: PathBetween(edges, q, x, y) && |q| >= 2
  }

  lemma ReachSelf<V(!new)>(edges: set<(V, V)>, x: V)
    ensures Reach(edges, x, x)
  {
    assert PathBetween(edges, [x], x, x);
  }

  lemma ReachEdge<V(!new)>(edges: set<(V, V)>, x: V, y: V)
    requires (x, y) in edges
    ensures Reach(edges, x, y) && ReachPlus(edges, x, y)
  {
    assert PathBetween(edges, [x, y], x, y);
  }

  lemma ReachTrans<V(!new)>(edges: set<(V, V)>, x: V, y: V, z: V)
    requires Reach(edges, x, y) && Reach(edges, y, z)
    ensures Reach(edges, x, z)
    ensures ReachPlus(edges, x, y) || ReachPlus(edges, y, z) ==> ReachPlus(edges, x, z)
  {
    var a :| PathBetween(edges, a, x, y) && (ReachPlus(edges, x, y) ==> |a| >= 2);
    var b :| PathBetween(edges, b, y, z) && (ReachPlus(edges, y, z) ==> |b| >= 2);
    PathJoin(edges, a, b);
  }

  /** A set that no edge leaves contains everything reachable from its members. */
  lemma {:induction false} PathStaysInside<V(!new)>(edges: set<(V, V)>, q: seq<V>, inside: set<V>, k: nat)
    requires Path(edges, q) && q[0] in inside && k < |q|
    requires forall e :: e in edges && e.0 in inside ==> e.1 in inside
    ensures q[k] in inside
  {
    if k > 0 {
      PathStaysInside(edges, q, inside, k - 1);
      assert Step(edges, q, k - 1);
    }
  }

  lemma ReachStaysInside<V(!new)>(edges: set<(V, V)>, x: V, y: V, inside: set<V>)
    requires Reach(edges, x, y) && x in inside
    requires forall e :: e in edges && e.0 in inside ==> e.1 in inside
    ensures y in inside
  {
    var q :| PathBetween(edges, q, x, y);
    PathStaysInside(edges, q, inside, |q| - 1);
  }

  // ----- dominance

  /** d lies on every path from r to v. */
  ghost predicate Dominates<V(!new)>(edges: set<(V, V)>, r: V, d: V, v: V) {
    forall q :: PathBetween(edges, q, r, v) ==> d in q
  }

  /** d is the closest dominator of v other than v itself. */
  ghost predicate ImmediateDominator<V(!new)>(edges: set<(V, V)>, r: V, d: V, v: V) {
    && d != v && Dominates(edges, r, d, v)
    && forall e :: e != v && Dominates(edges, r, e, v) ==> Dominates(edges, r, e, d)
  }

  lemma DominatesTrans<V(!new)>(edges: set<(V, V)>, r: V, a: V, b: V, c: V)
    requires Dominates(edges, r, a, b) && Dominates(edges, r, b, c)
    ensures Dominates(edges, r, a, c)
  {
    forall q | PathBetween(edges, q, r, c)
      ensures a in q
    {
      var k :| 0 <= k < |q| && q[k] == b;
      PathSlice(edges, q, 0, k + 1);
      assert PathBetween(edges, q[0..k + 1], r, b);
      var j :| 0 <= j < |q[0..k + 1]| && q[0..k + 1][j] == a;
    }
  }

  /** Two different vertices cannot dominate each other, if one of them is reachable at all. */
  lemma {:induction false} DominanceIsAntisymmetric<V(!new)>(edges: set<(V, V)>, r: V, a: V, b: V, q: seq<V>)
    requires Dominates(edges, r, a, b) && Dominates(edges, r, b, a)
    requires PathBetween(edges, q, r, a)
    ensures a == b
    decreases |q|
  {
    var k :| 0 <= k < |q| && q[k] == b;
    PathSlice(edges, q, 0, k + 1);
    var p := q[0..k + 1];
    assert PathBetween(edges, p, r, b);
    var j :| 0 <= j < |p| && p[j] == a;
    PathSlice(edges, p, 0, j + 1);
    if a != b {
      assert PathBetween(edges, p[0..j + 1], r, a);
      DominanceIsAntisymmetric(edges, r, a, b, p[0..j + 1]);
    }
  }

  /** A reachable vertex has at most one immediate dominator. */
  lemma ImmediateDominatorIsUnique<V(!new)>(edges: set<(V, V)>, r: V, d: V, d': V, v: V)
    requires Reach(edges, r, v)
    requires ImmediateDominator(edges, r, d, v) && ImmediateDominator(edges, r, d', v)
    ensures d == d'
  {
    var q :| PathBetween(edges, q, r, v);
    var k :| 0 <= k < |q| && q[k] == d;
    PathSlice(edges, q, 0, k + 1);
    DominanceIsAntisymmetric(edges, r, d, d', q[0..k + 1]);
  }
}
