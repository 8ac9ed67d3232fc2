/** The theory behind the Lengauer-Tarjan dominator algorithm.

Vertices are named by their depth-first discovery number, so `a < b` reads "a was found before b"
and the root is 0.  Nothing here mentions the algorithm: the lemmas relate depth-first trees,
semidominators and dominators of an arbitrary flow graph.
*/
module Flowgraph {
  import opened Digraph

  /** A flow graph together with a depth-first spanning tree: `parent[v]` for every v but the root. */
  datatype Flow = Flow(parent: seq<nat>, edges: set<(nat, nat)>)

  ghost predicate Tree(f: Flow) {
    |f.parent| > 0 && forall i :: 0 < i < |f.parent| ==> f.parent[i] < i
  }

  /** u is a (not necessarily proper) ancestor of w in the spanning tree. */
  ghost predicate Anc(f: Flow, u: nat, w: nat)
    decreases w
  {
    u == w || (u < w < |f.parent| && f.parent[w] < w && Anc(f, u, f.parent[w]))
  }

  /** What makes the spanning tree a depth-first one: vertices are numbered in preorder, and every
      edge that leads to a later vertex leads to a descendant. */
  ghost predicate Valid(f: Flow) {
    && Tree(f)
    && (forall i :: 0 < i < |f.parent| ==> Preorder(f, i) && TreeEdge(f, i))
    && (forall e :: e in f.edges ==> e.0 < |f.parent| && e.1 < |f.parent| && ForwardEdge(f, e.0, e.1))
  }

  ghost predicate Preorder(f: Flow, i: nat)
    requires 0 < i < |f.parent|
  {
    Anc(f, f.parent[i], i - 1)
  }

  ghost predicate TreeEdge(f: Flow, i: nat)
    requires 0 < i < |f.parent|
  {
    (f.parent[i], i) in f.edges
  }

  ghost predicate ForwardEdge(f: Flow, v: nat, w: nat)
  {
    v < w ==> Anc(f, v, w)
  }

  ghost predicate RootPath(f: Flow, q: seq<nat>, w: nat) {
    PathBetween(f.edges, q, 0, w)
  }

  /** A path whose interior lies entirely after its last vertex. */
  ghost predicate SemiPath(f: Flow, q: seq<nat>, w: nat) {
    && Path(f.edges, q) && |q| >= 2 && q[|q| - 1] == w
    && forall i :: 0 < i < |q| - 1 ==> q[i] > w
  }

  /** s is the semidominator of w: the earliest vertex with a semipath to w. */
  ghost predicate IsSemi(f: Flow, s: nat, w: nat) {
    && (exists q :: SemiPath(f, q, w) && q[0] == s)
    && (forall q :: SemiPath(f, q, w) ==> s <= q[0])
  }

  // ----- ancestors

  lemma {:induction false} AncTrans(f: Flow, u: nat, v: nat, w: nat)
    requires Anc(f, u, v) && Anc(f, v, w)
    ensures Anc(f, u, w)
    decreases w
  {
    if v != w {
      AncTrans(f, u, v, f.parent[w]);
      AncLe(f, u, f.parent[w]);
    }
  }

  lemma {:induction false} AncLe(f: Flow, u: nat, w: nat)
    requires Anc(f, u, w)
    ensures u <= w
  {
  }

  /** Ancestors of one vertex form a chain. */
  lemma {:induction false} AncChain(f: Flow, u: nat, v: nat, w: nat)
    requires u <= v
    requires Anc(f, u, w) && Anc(f, v, w)
    ensures Anc(f, u, v)
    decreases w
  {
    if v != w {
      AncChain(f, u, v, f.parent[w]);
    }
  }

  lemma {:induction false} AncRoot(f: Flow, w: nat)
    requires Tree(f) && w < |f.parent|
    ensures Anc(f, 0, w)
    decreases w
  {
    if w > 0 { AncRoot(f, f.parent[w]); }
  }

  /** Preorder: whatever is numbered between a vertex and its descendant is a descendant too. */
  lemma {:induction false} AncInterval(f: Flow, u: nat, v: nat, w: nat)
    requires Tree(f) && w < |f.parent| && u <= v <= w
    requires forall i :: 0 < i <= w ==> Preorder(f, i)
    requires Anc(f, u, w)
    ensures Anc(f, u, v)
    decreases w
  {
    if v < w {
      assert Preorder(f, w);
      AncTrans(f, u, f.parent[w], w - 1);
      AncInterval(f, u, v, w - 1);
    }
  }

  /** Ancestry only looks at parents, and adding vertices leaves it alone. */
  lemma {:induction false} AncPrefix(f: Flow, f': Flow, u: nat, w: nat)
    requires f.parent <= f'.parent && w < |f.parent|
    ensures Anc(f, u, w) <==> Anc(f', u, w)
    decreases w
  {
    if u < w && f.parent[w] < w {
      AncPrefix(f, f', u, f.parent[w]);
    }
  }

  /** The tree path from an ancestor u down to w. */
  ghost function TreePath(f: Flow, u: nat, w: nat): (q: seq<nat>)
    requires Valid(f) && w < |f.parent| && Anc(f, u, w)
    ensures Path(f.edges, q) && q[0] == u && q[|q| - 1] == w
    ensures forall i :: 0 <= i < |q| ==> u <= q[i] <= w && Anc(f, q[i], w)
    ensures u < w ==> |q| >= 2
    decreases w
  {
    if u == w then [w] else
    assert TreeEdge(f, w);
    var up := TreePath(f, u, f.parent[w]);
    PathJoin(f.edges, up, [f.parent[w], w]);
    assert up + [w] == up + [f.parent[w], w][1..];
    up + [w]
  }

  /** The path lemma: a path from v to a later-or-equal w passes through a common ancestor of both. */
  lemma {:induction false} CommonAncestorOnPath(f: Flow, q: seq<nat>) returns (k: nat)
    requires Valid(f) && Path(f.edges, q) && q[0] <= q[|q| - 1]
    ensures k < |q| && Anc(f, q[k], q[0]) && Anc(f, q[k], q[|q| - 1])
    decreases |q|
  {
    var v, w := q[0], q[|q| - 1];
    if |q| == 1 {
      return 0;
    }
    var x := q[1];
    assert Step(f.edges, q, 0);
    PathSlice(f.edges, q, 1, |q|);
    if x <= w {
      var k' := CommonAncestorOnPath(f, q[1..|q|]);
      k := k' + 1;
      var u := q[k];
      AncLe(f, u, x);
      AncLe(f, u, w);
      if v < x {
        if u <= v {
          AncChain(f, u, v, x);
        } else {
          AncChain(f, v, u, x);
          AncTrans(f, v, u, w);
          k := 0;
        }
      } else {
        AncInterval(f, u, v, w);
      }
    } else {
      AncInterval(f, v, w, x);
      k := 0;
    }
  }

  lemma CommonAncestorBetween(f: Flow, q: seq<nat>, m: nat, j: nat) returns (k: nat)
    requires Valid(f) && Path(f.edges, q) && m <= j < |q| && q[m] <= q[j]
    ensures m <= k <= j && Anc(f, q[k], q[m]) && Anc(f, q[k], q[j])
    ensures q[k] <= q[m]
  {
    var seg := q[m..j + 1];
    PathSlice(f.edges, q, m, j + 1);
    k := CommonAncestorOnPath(f, seg);
    k := k + m;
    AncLe(f, q[k], q[m]);
  }

  /** A root path to b that avoids an ancestor a of b must jump over a: from before a, along a semipath,
      to a vertex strictly below a on the tree path to b. */
  lemma JumpOver(f: Flow, q: seq<nat>, a: nat, b: nat) returns (y: nat, sp: seq<nat>)
    requires Valid(f) && RootPath(f, q, b) && Anc(f, a, b) && a !in q
    ensures a < y < |f.parent| && Anc(f, a, y) && Anc(f, y, b)
    ensures SemiPath(f, sp, y) && sp[0] < a
  {
    assert q[0] in q;
    AncLe(f, a, b);
    // the last vertex before a
    var i := |q| - 1;
    while q[i] >= a
      invariant 0 <= i < |q|
      invariant forall m :: i < m < |q| ==> q[m] >= a
      decreases i
    {
      i := i - 1;
    }
    assert q[|q| - 1] in q;
    // the first vertex after it on the tree path from a to b
    var j := i + 1;
    while !(Anc(f, a, q[j]) && Anc(f, q[j], b))
      invariant i < j < |q|
      invariant forall m :: i < m < j ==> !(Anc(f, a, q[m]) && Anc(f, q[m], b))
      decreases |q| - j
    {
      j := j + 1;
    }
    y, sp := q[j], q[i..j + 1];
    PathSlice(f.edges, q, i, j + 1);
    assert q[j] in q;
    forall m | i < m < j
      ensures q[m] > y
    {
      JumpInterior(f, q, a, b, i, j, m);
    }
  }

  lemma JumpInterior(f: Flow, q: seq<nat>, a: nat, b: nat, i: nat, j: nat, m: nat)
    requires Valid(f) && Path(f.edges, q) && b < |f.parent| && i < m < j < |q|
    requires forall m :: i < m < |q| ==> q[m] >= a
    requires Anc(f, a, q[j]) && Anc(f, q[j], b)
    requires forall m :: i < m < j ==> !(Anc(f, a, q[m]) && Anc(f, q[m], b))
    ensures q[m] > q[j]
  {
    if q[m] <= q[j] {
      var k := CommonAncestorBetween(f, q, m, j);
      AncChain(f, a, q[k], q[j]);
      AncTrans(f, q[k], q[j], b);
      assert false;
    }
  }

  // ----- semidominators

  lemma SemiBelowParent(f: Flow, s: nat, w: nat)
    requires Valid(f) && 0 < w < |f.parent| && IsSemi(f, s, w)
    ensures s <= f.parent[w] < w
  {
    assert TreeEdge(f, w);
    assert SemiPath(f, [f.parent[w], w], w);
  }

  /** The semidominator is a proper ancestor. */
  lemma SemiIsAncestor(f: Flow, s: nat, w: nat)
    requires Valid(f) && 0 < w < |f.parent| && IsSemi(f, s, w)
    ensures s < w && Anc(f, s, w)
  {
    SemiBelowParent(f, s, w);
    var q :| SemiPath(f, q, w) && q[0] == s;
    var k := CommonAncestorOnPath(f, q);
    AncLe(f, q[k], s);
  }

  lemma DomOnTree(f: Flow, d: nat, w: nat)
    requires Valid(f) && w < |f.parent| && Dominates(f.edges, 0, d, w)
    ensures d <= w && Anc(f, d, w)
  {
    AncRoot(f, w);
    assert RootPath(f, TreePath(f, 0, w), w);
  }

  /** Every proper dominator of w dominates the semidominator of w. */
  lemma DomDominatesSemi(f: Flow, d: nat, s: nat, w: nat)
    requires Valid(f) && 0 < w < |f.parent| && IsSemi(f, s, w)
    requires d != w && Dominates(f.edges, 0, d, w)
    ensures Dominates(f.edges, 0, d, s)
  {
    var sp :| SemiPath(f, sp, w) && sp[0] == s;
    DomOnTree(f, d, w);
    forall q | RootPath(f, q, s)
      ensures d in q
    {
      PathJoin(f.edges, q, sp);
      assert RootPath(f, q + sp[1..], w);
      assert forall k :: 0 < k < |sp| ==> sp[k] != d;
      InJoin(q, sp, d);
    }
  }

  /** Theorem 2: the semidominator is the immediate dominator when no vertex between them on the tree has an
      earlier semidominator. */
  lemma SemiIsIdom(f: Flow, s: nat, w: nat)
    requires Valid(f) && 0 < w < |f.parent| && IsSemi(f, s, w)
    requires forall y, q :: s < y < |f.parent| && Anc(f, s, y) && Anc(f, y, w) && SemiPath(f, q, y) ==> s <= q[0]
    ensures ImmediateDominator(f.edges, 0, s, w)
  {
    SemiIsAncestor(f, s, w);
    forall q | RootPath(f, q, w)
      ensures s in q
    {
      if s !in q {
        var y, sp := JumpOver(f, q, s, w);
        assert false;
      }
    }
    forall e: nat | e != w && Dominates(f.edges, 0, e, w)
      ensures Dominates(f.edges, 0, e, s)
    {
      DomDominatesSemi(f, e, s, w);
    }
  }

  /** Theorem 3: otherwise w shares its immediate dominator with the vertex u between them whose semidominator t
      is the earliest. */
  lemma SharesIdom(f: Flow, s: nat, w: nat, t: nat, u: nat, d: nat)
    requires Valid(f) && 0 < w < |f.parent| && IsSemi(f, s, w)
    requires s < u && u < |f.parent| && Anc(f, u, w) && IsSemi(f, t, u)
    requires forall y, q :: s < y < |f.parent| && Anc(f, y, w) && SemiPath(f, q, y) ==> t <= q[0]
    requires ImmediateDominator(f.edges, 0, d, u)
    ensures ImmediateDominator(f.edges, 0, d, w)
  {
    SemiIsAncestor(f, s, w);
    AncLe(f, u, w);
    AncChain(f, s, u, w);
    DomDominatesSemi(f, d, t, u);
    SemiIsAncestor(f, t, u);
    DomOnTree(f, d, t);
    DomOnTree(f, d, u);
    AncTrans(f, d, u, w);
    SharedDominates(f, s, w, t, u, d);
    forall e: nat | e != w && Dominates(f.edges, 0, e, w)
      ensures Dominates(f.edges, 0, e, d)
    {
      DomDominatesSemi(f, e, s, w);
      DomOnTree(f, e, s);
      DomOfAncestor(f, e, u, w);
    }
  }

  /** A dominator of w above an ancestor u of w dominates u as well. */
  lemma DomOfAncestor(f: Flow, e: nat, u: nat, w: nat)
    requires Valid(f) && w < |f.parent| && Anc(f, u, w) && e < u && Dominates(f.edges, 0, e, w)
    ensures Dominates(f.edges, 0, e, u)
  {
    AncLe(f, u, w);
    forall q | RootPath(f, q, u)
      ensures e in q
    {
      var down := TreePath(f, u, w);
      PathJoin(f.edges, q, down);
      assert RootPath(f, q + down[1..], w);
      assert forall k :: 0 < k < |down| ==> down[k] != e;
      InJoin(q, down, e);
    }
  }

  lemma SharedDominates(f: Flow, s: nat, w: nat, t: nat, u: nat, d: nat)
    requires Valid(f) && 0 < w < |f.parent|
    requires s < u <= w && Anc(f, s, w) && Anc(f, s, u) && Anc(f, u, w)
    requires forall y, q :: s < y < |f.parent| && Anc(f, y, w) && SemiPath(f, q, y) ==> t <= q[0]
    requires d <= t && t <= s
    requires Dominates(f.edges, 0, d, u) && Anc(f, d, w)
    ensures Dominates(f.edges, 0, d, w)
  {
    forall q | RootPath(f, q, w)
      ensures d in q
    {
      if d !in q {
        var y, sp := JumpOver(f, q, d, w);
        assert y <= s;
        AncChain(f, y, s, w);
        AncTrans(f, y, s, u);
        AvoidingPath(f, sp, y, u, d);
        assert false;
      }
    }
  }

  /** A semipath that jumps over d gives a root path to every descendant u of its end that avoids d. */
  lemma AvoidingPath(f: Flow, sp: seq<nat>, y: nat, u: nat, d: nat)
    requires Valid(f) && u < |f.parent| && y < |f.parent| && Anc(f, y, u)
    requires SemiPath(f, sp, y) && sp[0] < d < y
    ensures !Dominates(f.edges, 0, d, u)
  {
    AncRoot(f, sp[0]);
    var top, bottom := TreePath(f, 0, sp[0]), TreePath(f, y, u);
    PathJoin(f.edges, top, sp);
    var mid := top + sp[1..];
    PathJoin(f.edges, mid, bottom);
    var q := mid + bottom[1..];
    assert RootPath(f, q, u);
    forall k | 0 <= k < |mid|
      ensures mid[k] != d
    {
      if k >= |top| { assert mid[k] == sp[k - |top| + 1]; }
    }
    forall k | 0 <= k < |q|
      ensures q[k] != d
    {
      if k >= |mid| { assert q[k] == bottom[k - |mid| + 1]; }
    }
  }

  // ----- computing semidominators

  /** `v` contributes the value `s` to the semidominator of w: v itself when it comes before w, otherwise the
      semidominator of an ancestor of v that lies after w. */
  ghost predicate Contributes(f: Flow, s: nat, v: nat, w: nat) {
    && (v, w) in f.edges
    && (|| (v < w && s == v)
        || (exists u :: w < u < |f.parent| && Contributor(f, s, u, v)))
  }

  ghost predicate Contributor(f: Flow, s: nat, u: nat, v: nat) {
    Tree(f) && v < |f.parent| && Anc(f, u, v) && IsSemi(f, s, u)
  }

  lemma ContributionIsSemiPath(f: Flow, s: nat, v: nat, w: nat)
    requires Valid(f) && 0 < w < |f.parent| && Contributes(f, s, v, w)
    ensures exists q :: SemiPath(f, q, w) && q[0] == s
  {
    assert (v, w).0 < |f.parent|;
    if v < w && s == v {
      assert SemiPath(f, [v, w], w);
    } else {
      var u :| w < u < |f.parent| && Contributor(f, s, u, v);
      var sp :| SemiPath(f, sp, u) && sp[0] == s;
      var down := TreePath(f, u, v);
      PathJoin(f.edges, sp, down);
      var long := sp + down[1..];
      PathJoin(f.edges, long, [v, w]);
      var q := long + [v, w][1..];
      forall k | 0 < k < |q| - 1
        ensures q[k] > w
      {
        if k >= |sp| { assert q[k] == down[k - |sp| + 1]; }
      }
      assert SemiPath(f, q, w);
    }
  }

  /** Every semipath to w is bounded below by the contribution of its last edge. */
  lemma SemiPathContribution(f: Flow, q: seq<nat>, w: nat) returns (u: nat, sp: seq<nat>)
    requires Valid(f) && SemiPath(f, q, w) && |q| > 2
    ensures q[|q| - 2] < |f.parent| && w < u < |f.parent| && Anc(f, u, q[|q| - 2])
    ensures SemiPath(f, sp, u) && sp[0] == q[0]
  {
    var v := q[|q| - 2];
    var j := 1;
    while !Anc(f, q[j], v)
      invariant 1 <= j <= |q| - 2
      invariant forall m :: 1 <= m < j ==> !Anc(f, q[m], v)
      decreases |q| - j
    {
      j := j + 1;
    }
    u, sp := q[j], q[0..j + 1];
    assert Step(f.edges, q, j - 1) && Step(f.edges, q, |q| - 2);
    PathSlice(f.edges, q, 0, j + 1);
    forall m | 0 < m < j
      ensures q[m] > u
    {
      if q[m] <= u {
        var k := CommonAncestorBetween(f, q, m, j);
        AncTrans(f, q[k], q[j], v);
        assert false;
      }
    }
  }

  /** Theorem 4: the least contribution over the edges into w is the semidominator of w. */
  lemma LeastContributionIsSemi(f: Flow, s: nat, w: nat)
    requires Valid(f) && 0 < w < |f.parent|
    requires exists v :: Contributes(f, s, v, w)
    requires forall v :: (v, w) in f.edges && v < w ==> s <= v
    requires forall v, u, q ::
      (v, w) in f.edges && w < v < |f.parent| && w < u < |f.parent| && Anc(f, u, v) && SemiPath(f, q, u) ==> s <= q[0]
    ensures IsSemi(f, s, w)
  {
    var v :| Contributes(f, s, v, w);
    ContributionIsSemiPath(f, s, v, w);
    assert TreeEdge(f, w);
    forall q | SemiPath(f, q, w)
      ensures s <= q[0]
    {
      var v := q[|q| - 2];
      assert Step(f.edges, q, |q| - 2);
      if |q| > 2 {
        var u, sp := SemiPathContribution(f, q, w);
      }
    }
  }

  // ----- the compressed forest

  /** An entry of the link-eval forest, in which the vertices from k on are linked to their parents: a is a proper
      ancestor of i reached over linked vertices, and l carries the least value of `sd` strictly below a. */
  ghost predicate Segment(f: Flow, sd: seq<nat>, k: nat, a: nat, i: nat, l: nat) {
    && i < |f.parent| == |sd|
    && a < i && Anc(f, a, i) && a < l <= i && Anc(f, l, i)
    && forall x :: a < x <= i && Anc(f, x, i) ==> k <= x && sd[l] <= sd[x]
  }

  lemma SegmentLink(f: Flow, sd: seq<nat>, i: nat)
    requires Tree(f) && 0 < i < |f.parent| == |sd|
    ensures Segment(f, sd, i, f.parent[i], i, i)
  {
    forall x | f.parent[i] < x <= i && Anc(f, x, i)
      ensures x == i
    {
      if x < i { AncLe(f, x, f.parent[i]); }
    }
  }

  /** One step of path compression: the segment from a to i is extended by the one from b to a. */
  lemma SegmentJoin(f: Flow, sd: seq<nat>, k: nat, b: nat, a: nat, i: nat, l: nat, m: nat)
    requires Segment(f, sd, k, a, i, l) && Segment(f, sd, k, b, a, m)
    ensures Segment(f, sd, k, b, i, if sd[m] < sd[l] then m else l)
  {
    AncTrans(f, b, a, i);
    AncTrans(f, m, a, i);
    var least := if sd[m] < sd[l] then m else l;
    forall x | b < x <= i && Anc(f, x, i)
      ensures k <= x && sd[least] <= sd[x]
    {
      if x <= a { AncChain(f, x, a, i); }
    }
  }

  /** l is a vertex of least `sd` among the ancestors of i that are numbered k or later: what the eval operation finds
      for a linked vertex i by walking the uncompressed tree. */
  ghost predicate LeastAbove(f: Flow, sd: seq<nat>, k: nat, i: nat, l: nat) {
    && i < |f.parent| == |sd| && k <= l <= i && Anc(f, l, i)
    && forall x :: k <= x <= i && Anc(f, x, i) ==> sd[l] <= sd[x]
  }

  lemma SegmentIsLeast(f: Flow, sd: seq<nat>, k: nat, a: nat, i: nat, l: nat)
    requires Segment(f, sd, k, a, i, l) && a < k
    ensures LeastAbove(f, sd, k, i, l)
  {
  }

  /** The vertices from k on know their semidominators, the others still carry their own number. */
  ghost predicate SemiKnown(f: Flow, sd: seq<nat>, k: nat) {
    && |sd| == |f.parent|
    && (forall x :: 0 <= x < k && x < |sd| ==> sd[x] == x)
    && (forall x {:trigger IsSemi(f, sd[x], x)} :: k <= x < |sd| ==> IsSemi(f, sd[x], x))
  }

  /** The bound that the edge from v to i puts on the semidominator c of i. */
  ghost predicate Bounds(f: Flow, sd: seq<nat>, i: nat, v: nat, c: nat)
    requires |sd| == |f.parent|
  {
    && (v < i ==> c <= v)
    && (i < v ==> forall u :: i < u <= v && u < |sd| && Anc(f, u, v) ==> c <= sd[u])
  }

  /** One predecessor v of i, evaluated to l: the value c is lowered to that of l. */
  lemma PredecessorStep(f: Flow, sd: seq<nat>, i: nat, v: nat, l: nat, c: nat, c': nat)
    requires Valid(f) && 0 < i < |f.parent| && SemiKnown(f, sd, i + 1)
    requires (v, i) in f.edges && v < |f.parent| && l < |f.parent|
    requires if v <= i then l == v else LeastAbove(f, sd, i + 1, v, l)
    requires c == i || exists x :: Contributes(f, c, x, i)
    requires c' == if l == i then c else if sd[l] < c then sd[l] else c
    ensures c' <= c && (c' == i || exists x :: Contributes(f, c', x, i))
    ensures Bounds(f, sd, i, v, c')
  {
    if l != i && sd[l] < c {
      if v > i {
        assert IsSemi(f, sd[l], l);
        assert Contributor(f, sd[l], l, v);
      }
      assert Contributes(f, c', v, i);
    }
  }

  /** Once every predecessor has been looked at, the value is the semidominator. */
  lemma PredecessorsDone(f: Flow, sd: seq<nat>, i: nat, c: nat)
    requires Valid(f) && 0 < i < |f.parent| && SemiKnown(f, sd, i + 1)
    requires c == i || exists x :: Contributes(f, c, x, i)
    requires forall v :: (v, i) in f.edges ==> Bounds(f, sd, i, v, c)
    ensures IsSemi(f, c, i)
  {
    assert TreeEdge(f, i);
    assert Bounds(f, sd, i, f.parent[i], c);
    forall v, u, q | (v, i) in f.edges && i < v < |f.parent| && i < u < |f.parent| && Anc(f, u, v) && SemiPath(f, q, u)
      ensures c <= q[0]
    {
      AncLe(f, u, v);
      assert Bounds(f, sd, i, v, c);
      assert IsSemi(f, sd[u], u);
    }
    forall v | (v, i) in f.edges && v < i
      ensures c <= v
    {
      assert Bounds(f, sd, i, v, c);
    }
    LeastContributionIsSemi(f, c, i);
  }

  // ----- from semidominators to dominators

  /** What the bucket step records for v: its immediate dominator, or a vertex that shares it. */
  ghost predicate Rule(f: Flow, sd: seq<nat>, d: nat, v: nat)
    requires v < |sd|
  {
    || (d == sd[v] && ImmediateDominator(f.edges, 0, d, v))
    || (sd[v] < d < v && forall e :: ImmediateDominator(f.edges, 0, e, d) ==> ImmediateDominator(f.edges, 0, e, v))
  }

  /** When the bucket of the parent of k is emptied, the linked ancestors of its members are exactly those below that
      parent. */
  lemma BucketWindow(f: Flow, k: nat, x: nat, v: nat)
    requires Valid(f) && 0 < k <= v < |f.parent| && f.parent[k] < x && Anc(f, x, v) && Anc(f, f.parent[k], v)
    ensures k <= x
  {
    if x < k {
      AncLe(f, x, v);
      AncInterval(f, x, k, v);
      AncLe(f, x, f.parent[k]);
      assert false;
    }
  }

  lemma BucketRule(f: Flow, sd: seq<nat>, k: nat, v: nat, l: nat)
    requires Valid(f) && 0 < k <= v < |f.parent| && SemiKnown(f, sd, k)
    requires sd[v] == f.parent[k] && LeastAbove(f, sd, k, v, l)
    ensures Rule(f, sd, if sd[l] < sd[v] then l else f.parent[k], v)
  {
    var q := f.parent[k];
    assert IsSemi(f, sd[v], v) && IsSemi(f, sd[l], l);
    SemiIsAncestor(f, q, v);
    forall y, p | q < y < |f.parent| && Anc(f, y, v) && SemiPath(f, p, y)
      ensures sd[l] <= p[0]
    {
      BucketWindow(f, k, y, v);
      AncLe(f, y, v);
      assert IsSemi(f, sd[y], y);
    }
    if sd[l] < sd[v] {
      forall e | ImmediateDominator(f.edges, 0, e, l)
        ensures ImmediateDominator(f.edges, 0, e, v)
      {
        SharesIdom(f, q, v, sd[l], l, e);
      }
    } else {
      SemiIsIdom(f, q, v);
    }
  }

  /** A child c of s, numbered before k, on the tree path down to v: the bucket of s is emptied again when c comes
      up. */
  ghost predicate ChildBelow(f: Flow, s: nat, v: nat, k: nat) {
    exists c :: 0 < c < k && ChildOnPath(f, s, v, c)
  }

  ghost predicate ChildOnPath(f: Flow, s: nat, v: nat, c: nat) {
    0 < c < |f.parent| && f.parent[c] == s && Anc(f, c, v)
  }

  lemma {:induction false} FindChild(f: Flow, s: nat, v: nat)
    requires Tree(f) && s < v < |f.parent| && Anc(f, s, v)
    ensures ChildBelow(f, s, v, v + 1)
    decreases v
  {
    if f.parent[v] == s {
      assert ChildOnPath(f, s, v, v);
    } else {
      AncLe(f, s, f.parent[v]);
      FindChild(f, s, f.parent[v]);
      var c :| 0 < c < f.parent[v] + 1 && ChildOnPath(f, s, f.parent[v], c);
      AncLe(f, c, f.parent[v]);
      assert ChildOnPath(f, s, v, c);
    }
  }
}
