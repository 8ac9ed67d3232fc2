/** Strongly connected components and transitive closure, as in src/smda/common/Tarjan.py. */
module Tarjans {
  import opened Collections
  import opened Digraph

  /** Reachability as a relation.  The proofs about the search use nothing but the laws of `IsClosure`. */
  ghost function ReachRelation(edges: set<(Vertex, Vertex)>): iset<(Vertex, Vertex)> {
    iset x, y | Reach(edges, x, y) :: (x, y)
  }

  ghost predicate IsClosure(edges: set<(Vertex, Vertex)>, reach: iset<(Vertex, Vertex)>) {
    && (forall x :: (x, x) in reach)
    && (forall e :: e in edges ==> e in reach)
    && (forall x, y, z :: Transitive(reach, x, y, z))
    && (forall x, y, inside :: StaysInside(edges, reach, x, y, inside))
  }

  ghost predicate Transitive(reach: iset<(Vertex, Vertex)>, x: Vertex, y: Vertex, z: Vertex) {
    (x, y) in reach && (y, z) in reach ==> (x, z) in reach
  }

  ghost predicate StaysInside(edges: set<(Vertex, Vertex)>, reach: iset<(Vertex, Vertex)>, x: Vertex, y: Vertex,
      inside: set<Vertex>) {
    (x, y) in reach && x in inside && (forall e :: e in edges && e.0 in inside ==> e.1 in inside) ==> y in inside
  }

  lemma ReachIsClosure(edges: set<(Vertex, Vertex)>)
    ensures IsClosure(edges, ReachRelation(edges))
  {
    var reach := ReachRelation(edges);
    forall x ensures (x, x) in reach { ReachSelf(edges, x); }
    forall e | e in edges ensures e in reach {
      ReachEdge(edges, e.0, e.1);
      assert e == (e.0, e.1);
    }
    forall x, y, z ensures Transitive(reach, x, y, z) {
      if Reach(edges, x, y) && Reach(edges, y, z) { ReachTrans(edges, x, y, z); }
    }
    forall x, y, inside ensures StaysInside(edges, reach, x, y, inside) {
      if Reach(edges, x, y) && x in inside && (forall e :: e in edges && e.0 in inside ==> e.1 in inside) {
        ReachStaysInside(edges, x, y, inside);
      }
    }
  }

  /** The state of the search: the fields of the class and the call stack `calls` with the iterator positions
      `seen`.  As ghosts, the edges, the vertices in the order of their indexes and, for every vertex whose component
      has been emitted, the number of that component. */
  datatype Scc = Scc(graph: Graph, stack: seq<Vertex>, stackSet: set<Vertex>, index: map<Vertex, nat>,
                     lowlink: map<Vertex, nat>, result: seq<seq<Vertex>>, idx: nat,
                     calls: seq<Vertex>, seen: map<Vertex, nat>,
                     ghost edges: set<(Vertex, Vertex)>, ghost reach: iset<(Vertex, Vertex)>,
                     ghost known: set<Vertex>, ghost order: seq<Vertex>, ghost comp: map<Vertex, nat>)
  {
    // ----- the invariant

    ghost predicate Indexed() {
      && idx == |order|
      && (forall i :: 0 <= i < |order| ==> order[i] in index && index[order[i]] == i && order[i] in known)
      && (forall v :: v in index ==> index[v] < |order| && order[index[v]] == v)
      && (forall v :: v in index ==> v in lowlink && v in seen)
      && (forall v :: v in index <==> v in stackSet || v in comp)
      && (forall v :: v in stackSet ==> v !in comp)
    }

    /** The stack lists the set by index. */
    ghost predicate Stacked()
      requires Indexed()
    {
      && (forall i :: 0 <= i < |stack| ==> stack[i] in stackSet && stack[i] in index)
      && (forall v :: v in stackSet ==> v in stack)
      && (forall i, j :: 0 <= i < j < |stack| ==> IndexOf(stack[i]) < IndexOf(stack[j]))
    }

    ghost function IndexOf(v: Vertex): nat {
      if v in index then index[v] else 0
    }

    ghost function Low(v: Vertex): nat {
      if v in lowlink then lowlink[v] else 0
    }

    /** The open calls are on the stack, in order; every other indexed vertex has seen all its successors. */
    ghost predicate Framed()
      requires Indexed()
    {
      && (forall k :: 0 <= k < |calls| ==> calls[k] in stackSet && calls[k] in index)
      && (forall k, l :: 0 <= k < l < |calls| ==> IndexOf(calls[k]) < IndexOf(calls[l]))
      && (forall v :: v in index ==> v in calls || seen[v] == |Succ(graph, v)|)
      && (forall v, j :: v in index && 0 <= j < seen[v] ==> SeenIndexed(v, j))
    }

    ghost predicate SeenIndexed(v: Vertex, j: nat) {
      j < |Succ(graph, v)| && Succ(graph, v)[j] in index
    }

    /** Lower stack entries reach higher ones, and every entry reaches an open call below it. */
    ghost predicate Connected()
      requires Indexed()
    {
      && (forall x, y :: x in stackSet && y in stackSet && IndexOf(x) <= IndexOf(y) ==> (x, y) in reach)
      && (forall y {:trigger Anchored(y)} :: y in stackSet ==> Anchored(y))
    }

    ghost predicate Anchored(y: Vertex) {
      exists k :: 0 <= k < |calls| && Anchors(calls[k], y)
    }

    ghost predicate Anchors(g: Vertex, y: Vertex) {
      IndexOf(g) <= IndexOf(y) && (y, g) in reach
    }

    /** The low link of an open call is the index of a stack entry it reaches, ... */
    ghost predicate LowSound()
      requires Indexed()
    {
      forall k :: 0 <= k < |calls| ==> LowReached(calls[k])
    }

    ghost predicate LowReached(v: Vertex) {
      Low(v) <= IndexOf(v) && Low(v) < |order| && order[Low(v)] in stackSet && (v, order[Low(v)]) in reach
    }

    /** ... and a lower bound for all the stack entries that its part of the stack has seen an edge to. */
    ghost predicate LowComplete()
      requires Indexed()
    {
      forall k, x, j :: 0 <= k < |calls| && x in stackSet && 0 <= j < seen[x] && Owns(k, x) ==> LowBounds(k, x, j)
    }

    ghost predicate Owns(k: nat, x: Vertex)
      requires k < |calls|
    {
      IndexOf(calls[k]) <= IndexOf(x) && (k + 1 < |calls| ==> IndexOf(x) < IndexOf(calls[k + 1]))
    }

    ghost predicate LowBounds(k: nat, x: Vertex, j: nat)
      requires k < |calls|
    {
      j < |Succ(graph, x)| && Succ(graph, x)[j] in stackSet ==> Low(calls[k]) <= IndexOf(Succ(graph, x)[j])
    }

    /** The emitted components: mutual reachability classes, in reverse topological order. */
    ghost predicate Emitted() {
      && (forall k, v :: 0 <= k < |result| ==> (v in result[k] <==> v in comp && comp[v] == k))
      && (forall v :: v in comp ==> comp[v] < |result|)
      && (forall k :: 0 <= k < |result| ==> result[k] != [] && NoDuplicates(result[k]))
      && Classes() && Topological()
    }

    ghost predicate Classes() {
      forall x, y :: x in comp && y in comp ==> (comp[x] == comp[y] <==> ((x, y) in reach && (y, x) in reach))
    }

    ghost predicate Topological() {
      forall e :: e in edges && e.0 in comp ==> e.1 in comp && comp[e.1] <= comp[e.0]
    }

    ghost predicate Searching() {
      && edges == Edges(graph) && IsClosure(edges, reach)
      && Indexed() && Stacked() && Framed() && Connected() && LowSound() && LowComplete() && Emitted()
    }

    // ----- an edge from the top call v to w

    ghost predicate Looking(v: Vertex, w: Vertex) {
      && calls != [] && calls[|calls| - 1] == v
      && v in seen && seen[v] < |Succ(graph, v)| && w == Succ(graph, v)[seen[v]]
      && (v, w) in edges && w in known
    }

    /** w has been indexed before: it may lower the low link of v. */
    function SeeOld(v: Vertex, w: Vertex): Scc
      requires v in seen && v in lowlink && w in index
    {
      this.(seen := seen[v := seen[v] + 1],
            lowlink := if w in stackSet && index[w] < lowlink[v] then lowlink[v := index[w]] else lowlink)
    }

    lemma SeeOldKeeps(v: Vertex, w: Vertex)
      requires Searching() && Looking(v, w) && w in index && v in stackSet && v in index && v in lowlink
      ensures SeeOld(v, w).Searching()
    {
      SeeOldIndexed(v, w);
      SeeOldFramed(v, w);
      SeeOldConnected(v, w);
      SeeOldSound(v, w);
      SeeOldComplete(v, w);
      EmittedAlike(SeeOld(v, w));
    }

    /** What was emitted does not depend on the search fields. */
    lemma EmittedAlike(s: Scc)
      requires Emitted() && s.result == result && s.comp == comp && s.edges == edges && s.reach == reach
      ensures s.Emitted()
    {
    }

    lemma SeeOldIndexed(v: Vertex, w: Vertex)
      requires Indexed() && Stacked() && Looking(v, w) && w in index && v in lowlink
      ensures SeeOld(v, w).Indexed() && SeeOld(v, w).Stacked()
    {
    }

    lemma SeeOldConnected(v: Vertex, w: Vertex)
      requires Indexed() && Connected() && Looking(v, w) && w in index && v in lowlink && SeeOld(v, w).Indexed()
      ensures SeeOld(v, w).Connected()
    {
      var s := SeeOld(v, w);
      forall y | y in s.stackSet ensures s.Anchored(y) { assert Anchored(y); }
      forall x, y | x in s.stackSet && y in s.stackSet && s.IndexOf(x) <= s.IndexOf(y) ensures (x, y) in reach {
        assert IndexOf(x) <= IndexOf(y);
      }
    }

    lemma SeeOldFramed(v: Vertex, w: Vertex)
      requires Indexed() && Framed() && Looking(v, w) && w in index && v in lowlink && SeeOld(v, w).Indexed()
      ensures SeeOld(v, w).Framed()
    {
      var s := SeeOld(v, w);
      assert v in s.calls;
      forall x, j | x in s.index && 0 <= j < s.seen[x]
        ensures s.SeenIndexed(x, j)
      {
        assert j < seen[x] ==> SeenIndexed(x, j);
      }
    }

    lemma SeeOldSound(v: Vertex, w: Vertex)
      requires IsClosure(edges, reach) && Indexed() && LowSound() && Framed()
      requires Looking(v, w) && w in index && v in lowlink && SeeOld(v, w).Indexed()
      ensures SeeOld(v, w).LowSound()
    {
      var s := SeeOld(v, w);
      forall k | 0 <= k < |s.calls|
        ensures s.LowReached(s.calls[k])
      {
        assert LowReached(calls[k]);
      }
    }

    lemma SeeOldComplete(v: Vertex, w: Vertex)
      requires Indexed() && LowComplete() && Framed()
      requires Looking(v, w) && w in index && v in lowlink && SeeOld(v, w).Indexed()
      ensures SeeOld(v, w).LowComplete()
    {
      var s := SeeOld(v, w);
      forall k, x, j | 0 <= k < |s.calls| && x in s.stackSet && 0 <= j < s.seen[x] && s.Owns(k, x)
        ensures s.LowBounds(k, x, j)
      {
        if x == v && j == seen[v] {
          assert k == |calls| - 1;
        } else {
          assert Owns(k, x) && LowBounds(k, x, j);
        }
      }
    }

    /** The new vertex w gets the next index and becomes the top call; `seen0` are the other iterators. */
    function Enter(seen0: map<Vertex, nat>, w: Vertex): Scc {
      this.(index := index[w := idx], lowlink := lowlink[w := idx], idx := idx + 1,
            stack := stack + [w], stackSet := stackSet + {w},
            calls := calls + [w], seen := seen0[w := 0], order := order + [w])
    }

    /** w is the next successor of v and new. */
    lemma SeeNewKeeps(v: Vertex, w: Vertex)
      requires Searching() && Looking(v, w) && w !in index && v in stackSet && v in index && v in lowlink
      ensures Enter(seen[v := seen[v] + 1], w).Searching()
    {
      var seen0 := seen[v := seen[v] + 1];
      EnterIndexed(seen0, w);
      SeeNewFramed(v, w);
      SeeNewConnected(v, w);
      EnterSound(seen0, w);
      SeeNewComplete(v, w);
      EmittedAlike(Enter(seen0, w));
    }

    lemma EnterIndexed(seen0: map<Vertex, nat>, w: Vertex)
      requires Indexed() && Stacked() && w !in index && w in known && forall x :: x in index ==> x in seen0
      ensures Enter(seen0, w).Indexed() && Enter(seen0, w).Stacked()
    {
      assert w !in stackSet && w !in comp;
      EnterStacked(seen0, w);
    }

    lemma EnterStacked(seen0: map<Vertex, nat>, w: Vertex)
      requires Indexed() && Stacked() && w !in index && Enter(seen0, w).Indexed()
      ensures Enter(seen0, w).Stacked()
    {
      var s := Enter(seen0, w);
      forall x | x in s.stackSet ensures x in s.stack {
        assert x != w ==> x in stack;
        assert s.stack[|stack|] == w;
      }
    }

    lemma SeeNewFramed(v: Vertex, w: Vertex)
      requires Indexed() && Framed() && Looking(v, w) && w !in index && v in index
      requires Enter(seen[v := seen[v] + 1], w).Indexed()
      ensures Enter(seen[v := seen[v] + 1], w).Framed()
    {
      var s := Enter(seen[v := seen[v] + 1], w);
      assert v in calls && w in s.calls;
      assert forall k :: 0 <= k < |calls| ==> calls[k] in index;
      forall x | x in s.index ensures x in s.calls || s.seen[x] == |Succ(graph, x)| {
        assert x in calls ==> x in s.calls;
      }
      forall x, j | x in s.index && 0 <= j < s.seen[x]
        ensures s.SeenIndexed(x, j)
      {
        assert x in index && j < seen[x] ==> SeenIndexed(x, j);
      }
    }

    lemma SeeNewConnected(v: Vertex, w: Vertex)
      requires IsClosure(edges, reach) && Indexed() && Connected() && Framed()
      requires Looking(v, w) && w !in index && v in stackSet
      requires Enter(seen[v := seen[v] + 1], w).Indexed()
      ensures Enter(seen[v := seen[v] + 1], w).Connected()
    {
      var s := Enter(seen[v := seen[v] + 1], w);
      forall x | x in stackSet ensures (x, w) in reach {
        ReachesTop(x, v);
        assert Transitive(reach, x, v, w);
      }
      forall x, y | x in s.stackSet && y in s.stackSet && s.IndexOf(x) <= s.IndexOf(y) ensures (x, y) in reach {
        assert y != w ==> x != w && IndexOf(x) <= IndexOf(y);
      }
      forall y | y in s.stackSet ensures s.Anchored(y) {
        if y == w {
          assert s.Anchors(s.calls[|calls|], w);
        } else {
          assert Anchored(y);
          var k :| 0 <= k < |calls| && Anchors(calls[k], y);
          assert s.Anchors(s.calls[k], y);
        }
      }
    }

    /** Everything on the stack reaches the top call. */
    lemma ReachesTop(x: Vertex, v: Vertex)
      requires IsClosure(edges, reach) && Indexed() && Connected() && Framed()
      requires calls != [] && calls[|calls| - 1] == v && x in stackSet
      ensures (x, v) in reach
    {
      assert Anchored(x);
      var k :| 0 <= k < |calls| && Anchors(calls[k], x);
      var g := calls[k];
      assert g in stackSet && IndexOf(g) <= IndexOf(v);
      assert Transitive(reach, x, g, v);
    }

    lemma EnterSound(seen0: map<Vertex, nat>, w: Vertex)
      requires IsClosure(edges, reach) && Indexed() && LowSound() && Framed()
      requires w !in index && Enter(seen0, w).Indexed()
      ensures Enter(seen0, w).LowSound()
    {
      var s := Enter(seen0, w);
      forall k | 0 <= k < |s.calls|
        ensures s.LowReached(s.calls[k])
      {
        if k < |calls| {
          assert LowReached(calls[k]) && calls[k] in index;
        }
      }
    }

    lemma SeeNewComplete(v: Vertex, w: Vertex)
      requires Indexed() && LowComplete() && LowSound() && Framed()
      requires Looking(v, w) && w !in index && v in stackSet && v in lowlink
      requires Enter(seen[v := seen[v] + 1], w).Indexed()
      ensures Enter(seen[v := seen[v] + 1], w).LowComplete()
    {
      var s := Enter(seen[v := seen[v] + 1], w);
      forall k, x, j | 0 <= k < |s.calls| && x in s.stackSet && 0 <= j < s.seen[x] && s.Owns(k, x)
        ensures s.LowBounds(k, x, j)
      {
        assert x in index && IndexOf(x) < |order|;
        assert k < |calls|;
        assert calls[k] in index;
        if x == v && j == seen[v] {
          assert LowReached(calls[k]);
          assert IndexOf(calls[k]) < |order|;
        } else {
          assert Owns(k, x) && LowBounds(k, x, j) && SeenIndexed(x, j);
        }
      }
    }

    /** The search from a new root starts with an empty stack. */
    lemma EnterRootKeeps(r: Vertex)
      requires Searching() && calls == [] && r !in index && r in known
      ensures Enter(seen, r).Searching() && stack == []
    {
      NothingOpen();
      EnterIndexed(seen, r);
      RootConnected(r);
      EnterSound(seen, r);
      EmittedAlike(Enter(seen, r));
    }

    lemma NothingOpen()
      requires Indexed() && Stacked() && Connected() && calls == []
      ensures stack == [] && forall x :: x !in stackSet
    {
      assert stack != [] ==> stack[0] in stackSet;
      forall x ensures x !in stackSet {
        assert !Anchored(x);
      }
      assert stack != [] ==> exists x :: x in stackSet;
    }

    lemma RootConnected(r: Vertex)
      requires IsClosure(edges, reach) && Indexed() && Framed()
      requires calls == [] && r !in index && forall x :: x !in stackSet
      requires Enter(seen, r).Indexed()
      ensures Enter(seen, r).Connected() && Enter(seen, r).Framed() && Enter(seen, r).LowComplete()
    {
      var s := Enter(seen, r);
      assert s.Anchors(s.calls[0], r);
      forall x, j | x in s.index && 0 <= j < s.seen[x]
        ensures s.SeenIndexed(x, j)
      {
        assert SeenIndexed(x, j);
      }
    }

    // ----- the top call v is exhausted

    ghost predicate Exhausted(v: Vertex) {
      calls != [] && calls[|calls| - 1] == v && v in seen && seen[v] == |Succ(graph, v)|
    }

    /** v does not start a component: its low link is passed on to the call below. */
    function Return(v: Vertex): Scc
      requires v in lowlink && |calls| > 1 && calls[|calls| - 2] in lowlink
    {
      var p := calls[|calls| - 2];
      this.(calls := calls[..|calls| - 1],
            lowlink := if lowlink[v] < lowlink[p] then lowlink[p := lowlink[v]] else lowlink)
    }

    /** Then there is a call below. */
    lemma HasCaller(v: Vertex)
      requires Indexed() && Framed() && Connected() && LowSound() && Exhausted(v) && Low(v) != IndexOf(v)
      ensures |calls| > 1 && calls[|calls| - 2] in lowlink && calls[|calls| - 2] in stackSet
    {
      assert LowReached(v);
      var y := order[Low(v)];
      assert Anchored(y);
      var k :| 0 <= k < |calls| && Anchors(calls[k], y);
      assert k != |calls| - 1;
    }

    lemma ReturnKeeps(v: Vertex)
      requires Searching() && Exhausted(v) && Low(v) != IndexOf(v)
      requires |calls| > 1 && calls[|calls| - 2] in lowlink && v in lowlink
      ensures Return(v).Searching()
    {
      ReturnFramed(v);
      ReturnConnected(v);
      ReturnSound(v);
      ReturnComplete(v);
      EmittedAlike(Return(v));
    }

    ghost predicate Returning(v: Vertex) {
      && Indexed() && Framed() && Exhausted(v) && Low(v) != IndexOf(v)
      && |calls| > 1 && calls[|calls| - 2] in lowlink && v in lowlink
    }

    lemma ReturnFramed(v: Vertex)
      requires Returning(v) && Stacked()
      ensures Return(v).Indexed() && Return(v).Stacked() && Return(v).Framed()
    {
      assert Return(v).Indexed() && Return(v).Stacked();
      ReturnLeavesFrames(v);
    }

    lemma ReturnLeavesFrames(v: Vertex)
      requires Returning(v) && Return(v).Indexed()
      ensures Return(v).Framed()
    {
      var s := Return(v);
      assert calls == s.calls + [v];
      forall x, j | x in s.index && 0 <= j < s.seen[x] ensures s.SeenIndexed(x, j) { assert SeenIndexed(x, j); }
    }

    lemma ReturnConnected(v: Vertex)
      requires Returning(v) && IsClosure(edges, reach) && Connected() && LowSound() && Return(v).Indexed()
      ensures Return(v).Connected()
    {
      var s := Return(v);
      assert LowReached(v);
      var u := order[Low(v)];
      assert Anchored(u);
      var m :| 0 <= m < |calls| && Anchors(calls[m], u);
      assert m < |calls| - 1;
      assert Transitive(reach, v, u, calls[m]);
      forall y | y in s.stackSet ensures s.Anchored(y) {
        assert Anchored(y);
        var k :| 0 <= k < |calls| && Anchors(calls[k], y);
        if k == |calls| - 1 {
          assert Transitive(reach, y, v, calls[m]);
          assert s.Anchors(s.calls[m], y);
        } else {
          assert s.Anchors(s.calls[k], y);
        }
      }
      forall x, y | x in s.stackSet && y in s.stackSet && s.IndexOf(x) <= s.IndexOf(y) ensures (x, y) in reach {
        assert IndexOf(x) <= IndexOf(y);
      }
    }

    lemma ReturnSound(v: Vertex)
      requires Returning(v) && IsClosure(edges, reach) && Connected() && LowSound() && Return(v).Indexed()
      ensures Return(v).LowSound()
    {
      var s := Return(v);
      var p := calls[|calls| - 2];
      assert LowReached(v) && LowReached(p);
      assert (p, v) in reach;
      assert Transitive(reach, p, v, order[Low(v)]);
      forall k | 0 <= k < |s.calls| ensures s.LowReached(s.calls[k]) {
        assert LowReached(calls[k]);
      }
    }

    lemma ReturnComplete(v: Vertex)
      requires Returning(v) && LowComplete() && Return(v).Indexed()
      ensures Return(v).LowComplete()
    {
      var s := Return(v);
      forall k, x, j | 0 <= k < |s.calls| && x in s.stackSet && 0 <= j < s.seen[x] && s.Owns(k, x)
        ensures s.LowBounds(k, x, j)
      {
        if k < |calls| - 2 {
          assert Owns(k, x) && LowBounds(k, x, j);
        } else if IndexOf(x) < IndexOf(v) {
          assert Owns(k, x) && LowBounds(k, x, j);
        } else {
          assert Owns(|calls| - 1, x) && LowBounds(|calls| - 1, x, j);
        }
      }
    }

    /** v starts a component: everything from v on leaves the stack. */
    ghost function Emit(scc: seq<Vertex>, rest: seq<Vertex>, restSet: set<Vertex>): Scc
      requires calls != []
    {
      this.(stack := rest, stackSet := restSet, calls := calls[..|calls| - 1], result := result + [scc],
            comp := comp + map x | x in scc :: |result|)
    }

    ghost predicate Emitting(v: Vertex, scc: seq<Vertex>, rest: seq<Vertex>, restSet: set<Vertex>) {
      && Indexed() && Framed() && Exhausted(v) && Low(v) == IndexOf(v) && v in stackSet
      && scc != [] && NoDuplicates(scc)
      && (forall x :: x in scc <==> x in stackSet && IndexOf(v) <= IndexOf(x))
      && (forall x :: x in restSet <==> x in stackSet && IndexOf(x) < IndexOf(v))
      && (forall x :: x in restSet <==> x in rest)
    }

    lemma EmitIndexed(v: Vertex, scc: seq<Vertex>, rest: seq<Vertex>, restSet: set<Vertex>)
      requires Emitting(v, scc, rest, restSet)
      ensures Emit(scc, rest, restSet).Indexed()
    {
    }

    lemma EmitStacked(v: Vertex, scc: seq<Vertex>, rest: seq<Vertex>, restSet: set<Vertex>)
      requires Emitting(v, scc, rest, restSet) && Stacked() && rest <= stack && Emit(scc, rest, restSet).Indexed()
      ensures Emit(scc, rest, restSet).Stacked()
    {
      var s := Emit(scc, rest, restSet);
      forall i | 0 <= i < |s.stack| ensures s.stack[i] in s.stackSet && s.stack[i] in s.index {
        var x := s.stack[i];
        assert x in rest && stack[i] == x;
      }
      forall i, j | 0 <= i < j < |s.stack| ensures s.IndexOf(s.stack[i]) < s.IndexOf(s.stack[j]) {
        var x, y := rest[i], rest[j];
        assert stack[i] == x && stack[j] == y && IndexOf(x) < IndexOf(y);
      }
    }

    lemma CallerStaysOnStack(v: Vertex, scc: seq<Vertex>, rest: seq<Vertex>, restSet: set<Vertex>, k: nat)
      requires Emitting(v, scc, rest, restSet) && k < |calls| - 1
      ensures calls[k] in restSet && calls[k] in index
    {
      assert IndexOf(calls[k]) < IndexOf(calls[|calls| - 1]);
    }

    /** Without its exhausted top, every vertex is still an open call or has seen all its successors. */
    lemma OpenOrDone(v: Vertex, x: Vertex)
      requires Indexed() && Framed() && Exhausted(v) && x in index
      ensures x in calls[..|calls| - 1] || seen[x] == |Succ(graph, x)|
    {
      if x in calls && x != v {
        var k :| 0 <= k < |calls| && calls[k] == x;
        assert calls[..|calls| - 1][k] == x;
      }
    }

    lemma EmitFramed(v: Vertex, scc: seq<Vertex>, rest: seq<Vertex>, restSet: set<Vertex>)
      requires Emitting(v, scc, rest, restSet) && Emit(scc, rest, restSet).Indexed()
      ensures Emit(scc, rest, restSet).Framed()
    {
      var s := Emit(scc, rest, restSet);
      forall k | 0 <= k < |s.calls| ensures s.calls[k] in s.stackSet && s.calls[k] in s.index {
        CallerStaysOnStack(v, scc, rest, restSet, k);
      }
      forall x | x in s.index ensures x in s.calls || s.seen[x] == |Succ(s.graph, x)| {
        OpenOrDone(v, x);
      }
      forall x, j | x in s.index && 0 <= j < s.seen[x] ensures s.SeenIndexed(x, j) { assert SeenIndexed(x, j); }
    }

    lemma EmitConnected(v: Vertex, scc: seq<Vertex>, rest: seq<Vertex>, restSet: set<Vertex>)
      requires Emitting(v, scc, rest, restSet) && Connected() && Emit(scc, rest, restSet).Indexed()
      ensures Emit(scc, rest, restSet).Connected()
    {
      var s := Emit(scc, rest, restSet);
      forall y | y in s.stackSet ensures s.Anchored(y) {
        assert Anchored(y);
        var k :| 0 <= k < |calls| && Anchors(calls[k], y);
        assert k != |calls| - 1;
        assert s.Anchors(s.calls[k], y);
      }
    }

    lemma EmitSound(v: Vertex, scc: seq<Vertex>, rest: seq<Vertex>, restSet: set<Vertex>)
      requires Emitting(v, scc, rest, restSet) && LowSound() && Emit(scc, rest, restSet).Indexed()
      ensures Emit(scc, rest, restSet).LowSound()
      ensures |calls| > 1 ==> calls[|calls| - 2] in lowlink && Low(calls[|calls| - 2]) <= Low(v)
    {
      var s := Emit(scc, rest, restSet);
      forall k | 0 <= k < |s.calls| ensures s.LowReached(s.calls[k]) && Low(calls[k]) <= Low(v) {
        assert LowReached(calls[k]);
        assert IndexOf(calls[k]) < IndexOf(calls[|calls| - 1]);
        var y := order[Low(calls[k])];
        assert y in stackSet;
      }
    }

    lemma EmitComplete(v: Vertex, scc: seq<Vertex>, rest: seq<Vertex>, restSet: set<Vertex>)
      requires Emitting(v, scc, rest, restSet) && LowComplete() && Emit(scc, rest, restSet).Indexed()
      ensures Emit(scc, rest, restSet).LowComplete()
    {
      var s := Emit(scc, rest, restSet);
      forall k, x, j | 0 <= k < |s.calls| && x in s.stackSet && 0 <= j < s.seen[x] && s.Owns(k, x)
        ensures s.LowBounds(k, x, j)
      {
        assert Owns(k, x) && LowBounds(k, x, j);
      }
    }

    /** No edge leaves the new component except to earlier ones. */
    lemma EmitClosed(v: Vertex, scc: seq<Vertex>, rest: seq<Vertex>, restSet: set<Vertex>)
      requires Emitting(v, scc, rest, restSet) && LowComplete() && edges == Edges(graph)
      ensures forall e :: e in edges && e.0 in scc ==> e.1 in scc || e.1 in comp
    {
      forall e | e in edges && e.0 in scc
        ensures e.1 in scc || e.1 in comp
      {
        var x, y := e.0, e.1;
        NotOpen(v, x);
        var j :| 0 <= j < |graph[x]| && graph[x][j] == y;
        assert SeenIndexed(x, j);
        assert Owns(|calls| - 1, x) && LowBounds(|calls| - 1, x, j);
      }
    }

    /** Whatever lies at or above the top call has seen all its successors. */
    lemma NotOpen(v: Vertex, x: Vertex)
      requires Indexed() && Framed() && Exhausted(v) && x in stackSet && IndexOf(v) <= IndexOf(x)
      ensures x in index && seen[x] == |Succ(graph, x)|
    {
      if x in calls {
        var k :| 0 <= k < |calls| && calls[k] == x;
        assert k == |calls| - 1;
      }
    }

    /** The new component is strongly connected. */
    lemma EmitMutual(v: Vertex, scc: seq<Vertex>, rest: seq<Vertex>, restSet: set<Vertex>, x: Vertex)
      requires Emitting(v, scc, rest, restSet) && IsClosure(edges, reach) && Connected() && x in scc
      requires forall e :: e in edges && e.0 in scc ==> e.1 in scc || e.1 in comp
      requires forall e :: e in edges && e.0 in comp ==> e.1 in comp
      ensures (v, x) in reach && (x, v) in reach
    {
      assert Anchored(x);
      var k :| 0 <= k < |calls| && Anchors(calls[k], x);
      var g := calls[k];
      var inside := comp.Keys + set y | y in scc;
      assert StaysInside(edges, reach, x, g, inside);
      assert g in scc;
      assert k == |calls| - 1;
    }

    lemma EmitEmitted(v: Vertex, scc: seq<Vertex>, rest: seq<Vertex>, restSet: set<Vertex>)
      requires Emitting(v, scc, rest, restSet) && IsClosure(edges, reach) && Connected() && LowComplete()
      requires edges == Edges(graph) && Emitted()
      ensures Emit(scc, rest, restSet).Emitted()
    {
      EmitClosed(v, scc, rest, restSet);
      var c := Emit(scc, rest, restSet).comp;
      forall x, y | x in c && y in c
        ensures c[x] == c[y] <==> ((x, y) in reach && (y, x) in reach)
      {
        SameComponent(v, scc, rest, restSet, x, y);
      }
      EmitTopological(v, scc, rest, restSet);
      EmitNumbered(v, scc, rest, restSet);
    }

    lemma EmitNumbered(v: Vertex, scc: seq<Vertex>, rest: seq<Vertex>, restSet: set<Vertex>)
      requires Emitting(v, scc, rest, restSet) && Emitted()
      requires Emit(scc, rest, restSet).Classes() && Emit(scc, rest, restSet).Topological()
      ensures Emit(scc, rest, restSet).Emitted()
    {
    }

    lemma EmitTopological(v: Vertex, scc: seq<Vertex>, rest: seq<Vertex>, restSet: set<Vertex>)
      requires Emitting(v, scc, rest, restSet) && Emitted()
      requires forall e :: e in edges && e.0 in scc ==> e.1 in scc || e.1 in comp
      ensures Emit(scc, rest, restSet).Topological()
    {
      var c := Emit(scc, rest, restSet).comp;
      forall e | e in edges && e.0 in c
        ensures e.1 in c && c[e.1] <= c[e.0]
      {
        EmittedNumber(v, scc, rest, restSet, e.0);
        EmittedNumber(v, scc, rest, restSet, e.1);
      }
    }

    /** The new component has the next number, the others keep theirs. */
    lemma EmittedNumber(v: Vertex, scc: seq<Vertex>, rest: seq<Vertex>, restSet: set<Vertex>, x: Vertex)
      requires Emitting(v, scc, rest, restSet)
      ensures var c := Emit(scc, rest, restSet).comp;
        && (x in c <==> x in scc || x in comp) && !(x in scc && x in comp)
        && (x in scc ==> c[x] == |result|)
        && (x in comp ==> c[x] == comp[x])
    {
    }

    lemma SameComponent(v: Vertex, scc: seq<Vertex>, rest: seq<Vertex>, restSet: set<Vertex>, x: Vertex, y: Vertex)
      requires Emitting(v, scc, rest, restSet) && IsClosure(edges, reach) && Connected() && Emitted()
      requires forall e :: e in edges && e.0 in scc ==> e.1 in scc || e.1 in comp
      requires x in Emit(scc, rest, restSet).comp && y in Emit(scc, rest, restSet).comp
      ensures var c := Emit(scc, rest, restSet).comp; c[x] == c[y] <==> ((x, y) in reach && (y, x) in reach)
    {
      if x in scc && y in scc {
        EmitMutual(v, scc, rest, restSet, x);
        EmitMutual(v, scc, rest, restSet, y);
        assert Transitive(reach, x, v, y) && Transitive(reach, y, v, x);
      } else {
        assert StaysInside(edges, reach, x, y, comp.Keys) && StaysInside(edges, reach, y, x, comp.Keys);
      }
    }

    lemma EmitKeeps(v: Vertex, scc: seq<Vertex>, rest: seq<Vertex>, restSet: set<Vertex>)
      requires Searching() && Emitting(v, scc, rest, restSet) && rest <= stack
      ensures Emit(scc, rest, restSet).Searching()
      ensures |calls| > 1 ==> calls[|calls| - 2] in lowlink && Low(calls[|calls| - 2]) <= Low(v)
    {
      EmitIndexed(v, scc, rest, restSet);
      EmitStacked(v, scc, rest, restSet);
      EmitFramed(v, scc, rest, restSet);
      EmitConnected(v, scc, rest, restSet);
      EmitSound(v, scc, rest, restSet);
      EmitComplete(v, scc, rest, restSet);
      EmitEmitted(v, scc, rest, restSet);
    }

    // ----- what the methods need

    ghost predicate SameProblem(d: Scc) {
      graph == d.graph && edges == d.edges && reach == d.reach && known == d.known
    }
  }

  /** Before the search of g. */
  function Beginning(g: Graph): (s: Scc)
    ensures s.Searching() && s.known == Vertices(s.graph)
  {
    ReachIsClosure(Edges(g));
    Scc(g, [], {}, map[], map[], [], 0, [], map[], Edges(g), ReachRelation(Edges(g)), Vertices(g), [], map[])
  }

  /** A search whose invariant holds. */
  type Search = s: Scc | s.Searching() && s.known == Vertices(s.graph) ghost witness Beginning(map[])

  /** What the loop needs to know about the top call: it can see its next successor. */
  lemma Top(s: Search, v: Vertex)
    requires s.calls != [] && s.calls[|s.calls| - 1] == v
    ensures v in s.stackSet && v in s.index && v in s.lowlink && v in s.seen && s.seen[v] <= |Succ(s.graph, v)|
    ensures |s.order| <= |s.known|
    ensures s.seen[v] < |Succ(s.graph, v)| ==>
      var w := Succ(s.graph, v)[s.seen[v]];
      if w in s.index then s.SeeOld(v, w).Searching()
      else |s.order| < |s.known| && s.Enter(s.seen[v := s.seen[v] + 1], w).Searching()
  {
    assert v in s.index && v in s.stackSet;
    assert s.seen[v] > 0 ==> s.SeenIndexed(v, s.seen[v] - 1);
    NoDuplicatesFit(s.order, s.known);
    if s.seen[v] < |Succ(s.graph, v)| {
      var w := Succ(s.graph, v)[s.seen[v]];
      assert (v, w) in s.edges;
      EdgeWithin(s.graph, v, w);
      if w in s.index {
        s.SeeOldKeeps(v, w);
      } else {
        s.SeeNewKeeps(v, w);
        RoomForOne(s, w);
      }
    }
  }

  lemma RoomForOne(s: Search, w: Vertex)
    requires w in s.known && w !in s.index
    ensures |s.order| < |s.known|
  {
    NoDuplicatesFit(s.order + [w], s.known);
  }

  lemma ComponentPopped(d: Search, v: Vertex, pos: nat, scc: seq<Vertex>, rest: seq<Vertex>, restSet: set<Vertex>)
    requires pos < |d.stack| && d.stack[pos] == v && rest == d.stack[..pos] && |scc| == |d.stack| - pos
    requires forall i :: 0 <= i < |scc| ==> scc[i] == d.stack[|d.stack| - 1 - i]
    requires forall x :: x in restSet <==> x in d.stackSet && x !in scc
    ensures rest <= d.stack && scc != [] && NoDuplicates(scc)
    ensures forall x :: x in scc <==> x in d.stackSet && d.IndexOf(v) <= d.IndexOf(x)
    ensures forall x :: x in restSet <==> x in d.stackSet && d.IndexOf(x) < d.IndexOf(v)
    ensures forall x :: x in restSet <==> x in rest
  {
    forall x
      ensures x in scc <==> x in d.stackSet && d.IndexOf(v) <= d.IndexOf(x)
      ensures x in rest <==> x in d.stackSet && d.IndexOf(x) < d.IndexOf(v)
    {
      PoppedOrNot(d, v, pos, scc, x);
    }
  }

  lemma OnStack(d: Search, v: Vertex)
    requires v in d.stackSet
    ensures v in d.stack
  {
  }

  lemma PoppedIsAbove(d: Search, pos: nat, scc: seq<Vertex>, x: Vertex)
    requires pos < |d.stack| && |scc| == |d.stack| - pos
    requires forall i :: 0 <= i < |scc| ==> scc[i] == d.stack[|d.stack| - 1 - i]
    ensures x in scc <==> exists k :: pos <= k < |d.stack| && d.stack[k] == x
  {
    if k :| pos <= k < |d.stack| && d.stack[k] == x {
      assert scc[|d.stack| - 1 - k] == x;
    }
  }

  lemma LeftIsBelow(d: Search, pos: nat, x: Vertex)
    requires pos < |d.stack|
    ensures x in d.stack[..pos] <==> exists k :: 0 <= k < pos && d.stack[k] == x
  {
    if k :| 0 <= k < pos && d.stack[k] == x {
      assert d.stack[..pos][k] == x;
    }
  }

  lemma PoppedOrNot(d: Search, v: Vertex, pos: nat, scc: seq<Vertex>, x: Vertex)
    requires pos < |d.stack| && d.stack[pos] == v && |scc| == |d.stack| - pos
    requires forall i :: 0 <= i < |scc| ==> scc[i] == d.stack[|d.stack| - 1 - i]
    ensures x in scc <==> x in d.stackSet && d.IndexOf(v) <= d.IndexOf(x)
    ensures x in d.stack[..pos] <==> x in d.stackSet && d.IndexOf(x) < d.IndexOf(v)
  {
    PoppedIsAbove(d, pos, scc, x);
    LeftIsBelow(d, pos, x);
    if x in d.stackSet {
      var k :| 0 <= k < |d.stack| && d.stack[k] == x;
    }
  }

  // ----- what is computed

  /** `result` lists the strongly connected components of everything reachable from the keys of g: comp[v] is the
      number of the component of v, and no edge leads to a component listed later. */
  ghost predicate Components(g: Graph, result: seq<seq<Vertex>>, comp: map<Vertex, nat>) {
    && (forall k, v :: 0 <= k < |result| ==> (v in result[k] <==> v in comp && comp[v] == k))
    && (forall v :: v in comp ==> comp[v] < |result|)
    && (forall k :: 0 <= k < |result| ==> result[k] != [] && NoDuplicates(result[k]))
    && (forall x, y :: x in comp && y in comp ==> (comp[x] == comp[y] <==> Mutual(g, x, y)))
    && (forall e :: e in Edges(g) && e.0 in comp ==> e.1 in comp && comp[e.1] <= comp[e.0])
    && (forall v :: v in comp <==> FromKey(g, v))
  }

  ghost predicate Mutual(g: Graph, x: Vertex, y: Vertex) {
    Reach(Edges(g), x, y) && Reach(Edges(g), y, x)
  }

  ghost predicate FromKey(g: Graph, v: Vertex) {
    exists root :: root in g && Reach(Edges(g), root, v)
  }

  lemma Completed(s: Search)
    requires s.calls == [] && s.reach == ReachRelation(s.edges)
    requires forall root :: root in s.graph ==> root in s.index
    ensures exists comp :: Components(s.graph, s.result, comp)
  {
    s.NothingOpen();
    CompletedPairs(s);
    CompletedVertices(s);
    Assembled(s.graph, s);
  }

  lemma Assembled(g: Graph, s: Scc)
    requires s.Emitted() && s.edges == Edges(g)
    requires forall x, y :: x in s.comp && y in s.comp ==> (s.comp[x] == s.comp[y] <==> Mutual(g, x, y))
    requires forall v :: v in s.comp <==> FromKey(g, v)
    ensures Components(g, s.result, s.comp)
  {
  }

  lemma CompletedVertices(s: Scc)
    requires s.Indexed() && s.Emitted() && IsClosure(s.edges, s.reach)
    requires s.edges == Edges(s.graph) && s.known == Vertices(s.graph) && s.reach == ReachRelation(s.edges)
    requires (forall x :: x !in s.stackSet) && forall root :: root in s.graph ==> root in s.index
    ensures forall v :: v in s.comp <==> FromKey(s.graph, v)
  {
    forall v ensures v in s.comp <==> FromKey(s.graph, v) {
      CompletedVertex(s, v);
    }
  }

  lemma CompletedPairs(s: Scc)
    requires s.Emitted() && s.edges == Edges(s.graph) && s.reach == ReachRelation(s.edges)
    ensures forall x, y :: x in s.comp && y in s.comp ==> (s.comp[x] == s.comp[y] <==> Mutual(s.graph, x, y))
  {
    forall x, y | x in s.comp && y in s.comp
      ensures s.comp[x] == s.comp[y] <==> Mutual(s.graph, x, y)
    {
      assert ((x, y) in s.reach && (y, x) in s.reach) <==> Mutual(s.graph, x, y);
    }
  }

  lemma CompletedVertex(s: Scc, v: Vertex)
    requires s.Indexed() && s.Emitted() && IsClosure(s.edges, s.reach)
    requires s.edges == Edges(s.graph) && s.known == Vertices(s.graph) && s.reach == ReachRelation(s.edges)
    requires (forall x :: x !in s.stackSet) && forall root :: root in s.graph ==> root in s.index
    ensures v in s.comp <==> FromKey(s.graph, v)
  {
    if v in s.comp {
      assert v in s.index && s.order[s.index[v]] in s.known;
      if v in s.graph {
        ReachSelf(s.edges, v);
      } else {
        var e :| e in s.edges && e.1 == v;
        assert (e.0, e.1) == e;
        ReachEdge(s.edges, e.0, v);
      }
    }
    if FromKey(s.graph, v) {
      var root :| root in s.graph && Reach(s.edges, root, v);
      assert StaysInside(s.edges, s.reach, root, v, s.comp.Keys);
    }
  }

  class Tarjan {
    const graph: Graph
    var stack: seq<Vertex>
    var stackSet: set<Vertex>
    var index: map<Vertex, nat>
    var lowlink: map<Vertex, nat>
    var result: seq<seq<Vertex>>
    constructor (g: Graph)
      ensures graph == g && Fresh()
    {
      graph := g;
      stack, stackSet, index, lowlink, result := [], {}, map[], map[], [];
    }

    ghost predicate Fresh()
      reads this
    {
      stack == [] && stackSet == {} && index == map[] && lowlink == map[] && result == []
    }

    ghost predicate Calculated()
      reads this
    {
      (exists comp :: Components(graph, result, comp)) && forall root :: root in graph ==> root in index
    }

    /** The next successor of the top call v: pushed if it is new. */
    static method LookAtNext(d: Search, v: Vertex) returns (s: Search, pushed: bool)
      requires d.calls != [] && d.calls[|d.calls| - 1] == v && v in d.seen && d.seen[v] < |Succ(d.graph, v)|
      ensures s.SameProblem(d) && d.order <= s.order
      ensures pushed ==> |d.order| < |s.order| <= |s.known|
      ensures !pushed ==> s.calls == d.calls && |s.order| == |d.order| && v in s.stackSet && v in s.lowlink
      ensures !pushed ==> v in s.seen && s.seen[v] == d.seen[v] + 1
    {
      Top(d, v);
      var w := Succ(d.graph, v)[d.seen[v]];
      pushed := w !in d.index;
      if pushed {
        var entered := d.Enter(d.seen[v := d.seen[v] + 1], w);
        assert entered.Searching();
        s := entered;
      } else {
        var looked := d.SeeOld(v, w);
        assert looked.Searching();
        s := looked;
      }
    }

    /** Resumes the iterator of the top call v until a new vertex is pushed or no successor is left. */
    static method Advance(d: Search, v: Vertex) returns (s: Search, pushed: bool)
      requires d.calls != [] && d.calls[|d.calls| - 1] == v
      ensures s.SameProblem(d) && d.order <= s.order
      ensures pushed ==> |d.order| < |s.order| <= |s.known|
      ensures !pushed ==>
        s.calls == d.calls && |s.order| == |d.order| && s.Exhausted(v) && v in s.stackSet && v in s.lowlink
    {
      s, pushed := d, false;
      Top(s, v);
      while !pushed && s.seen[v] < |Succ(s.graph, v)|
        invariant s.SameProblem(d) && d.order <= s.order
        invariant pushed ==> |d.order| < |s.order| <= |s.known|
        invariant !pushed ==> s.calls == d.calls && |s.order| == |d.order| && v in s.stackSet && v in s.lowlink
        invariant !pushed ==> v in s.seen && s.seen[v] <= |Succ(s.graph, v)|
        decreases !pushed, if pushed then 0 else |Succ(s.graph, v)| - s.seen[v]
      {
        s, pushed := LookAtNext(s, v);
      }
    }

    /** Pops a stack down to and with v. */
    static method PopDownTo(stack: seq<Vertex>, stackSet: set<Vertex>, v: Vertex)
      returns (scc: seq<Vertex>, rest: seq<Vertex>, restSet: set<Vertex>)
      requires v in stack
      ensures |rest| < |stack| && rest == stack[..|rest|] && stack[|rest|] == v && |scc| == |stack| - |rest|
      ensures forall i :: 0 <= i < |scc| ==> scc[i] == stack[|stack| - 1 - i]
      ensures forall x :: x in restSet <==> x in stackSet && x !in scc
    {
      scc, rest, restSet := [], stack, stackSet;
      var w;
      while true
        invariant v in rest && |rest| <= |stack| && rest == stack[..|rest|]
        invariant |scc| == |stack| - |rest|
        invariant forall i :: 0 <= i < |scc| ==> scc[i] == stack[|stack| - 1 - i]
        invariant forall x :: x in restSet <==> x in stackSet && x !in scc
        decreases |rest|
      {
        w := rest[|rest| - 1];
        rest := rest[..|rest| - 1];
        restSet := restSet - {w};
        scc := scc + [w];
        if w == v {
          break;
        }
      }
    }

    /** Pops the component that v starts. */
    static method PopComponent(d: Search, v: Vertex) returns (scc: seq<Vertex>, rest: seq<Vertex>, restSet: set<Vertex>)
      requires v in d.stackSet
      ensures rest <= d.stack && scc != [] && NoDuplicates(scc)
      ensures forall x :: x in scc <==> x in d.stackSet && d.IndexOf(v) <= d.IndexOf(x)
      ensures forall x :: x in restSet <==> x in d.stackSet && d.IndexOf(x) < d.IndexOf(v)
      ensures forall x :: x in restSet <==> x in rest
    {
      OnStack(d, v);
      scc, rest, restSet := PopDownTo(d.stack, d.stackSet, v);
      ComponentPopped(d, v, |rest|, scc, rest, restSet);
    }

    /** The exhausted top call v returns: it starts a component or passes on its low link. */
    static method Finish(d: Search, v: Vertex) returns (s: Search)
      requires d.Exhausted(v) && v in d.stackSet && v in d.lowlink
      ensures s.SameProblem(d) && s.order == d.order && |s.calls| == |d.calls| - 1
    {
      var lowlink := d.lowlink;
      if lowlink[v] == d.index[v] {
        var scc, rest, restSet := PopComponent(d, v);
        d.EmitKeeps(v, scc, rest, restSet);
        s := d.(calls := d.calls[..|d.calls| - 1], stack := rest, stackSet := restSet, result := d.result + [scc],
                comp := d.comp + map x | x in scc :: |d.result|);
        if s.calls != [] {
          var p := s.calls[|s.calls| - 1];
          if lowlink[v] < lowlink[p] {
            assert false;
          }
        }
      } else {
        d.HasCaller(v);
        d.ReturnKeeps(v);
        s := d.Return(v);
      }
    }

    /** The search from a new root, until the call stack is empty again. */
    static method SearchFrom(d: Search, root: Vertex) returns (s: Search)
      requires d.calls == [] && root in d.graph && root !in d.index
      ensures s.SameProblem(d) && s.calls == [] && root in s.index
      ensures forall v :: v in d.index ==> v in s.index
    {
      Start(d, root);
      s := d.Enter(d.seen, root);
      while s.calls != []
        invariant s.SameProblem(d) && d.order + [root] <= s.order && |s.order| <= |s.known|
        decreases |s.known| - |s.order|, |s.calls|
      {
        var v := s.calls[|s.calls| - 1];
        var pushed;
        s, pushed := Advance(s, v);
        if !pushed {
          s := Finish(s, v);
        }
      }
      assert s.order[|d.order|] == root;
    }

    /** The loop over the roots. */
    static method SearchRoots(s0: Search) returns (s: Search)
      requires s0.calls == []
      ensures s.SameProblem(s0) && s.calls == [] && forall root :: root in s0.graph ==> root in s.index
    {
      s := s0;
      var todo := s0.graph.Keys;
      while todo != {}
        invariant forall v :: v in todo ==> v in s0.graph
        invariant s.SameProblem(s0) && s.calls == []
        invariant forall v :: v in s0.graph ==> v in todo || v in s.index
      {
        var root := Any(todo);
        if root !in s.index {
          s := SearchFrom(s, root);
        }
        todo := todo - {root};
      }
    }

    static method CalculateFresh(g: Graph) returns (s: Scc)
      ensures exists comp :: Components(g, s.result, comp)
      ensures forall root :: root in g ==> root in s.index
    {
      var t: Search := Beginning(g);
      t := SearchRoots(t);
      Completed(t);
      s := t;
    }

    /** A second call finds every root indexed, skips them all and leaves the result as it is. */
    method CalculateScc()
      requires Fresh() || Calculated()
      modifies this
      ensures Calculated() && (old(Calculated()) ==> result == old(result))
    {
      if forall root | root in graph :: root in index {
        if Fresh() {
          NoRoots(graph);
        }
        return;
      }
      var s := CalculateFresh(graph);
      stack, stackSet, index, lowlink, result := s.stack, s.stackSet, s.index, s.lowlink, s.result;
    }

    /** The transitive closure: every vertex is mapped to what it reaches by at least one edge.  The assertion inside
        is the one of the original; it never fails. */
    method Closure() returns (ret: map<Vertex, set<Vertex>>)
      requires Fresh() || Calculated()
      modifies this
      ensures forall v :: v in ret <==> FromKey(graph, v)
      ensures forall v, x :: v in ret ==> (x in ret[v] <==> ReachPlus(Edges(graph), v, x))
    {
      CalculateScc();
      ghost var comp :| Components(graph, result, comp);
      ret := map[];
      for k := 0 to |result|
        invariant ClosedUpTo(graph, comp, k, ret)
        modifies {}
      {
        var scc := result[k];
        var ws := SuccessorsOf(graph, scc);
        forall w | w in ws
          ensures w in ret || w in scc
        {
          SuccessorKnown(graph, result, comp, k, ret, w);
        }
        var ews := Gather(scc, ws, ret);
        ClosureStep(graph, result, comp, k, ret, ws, ews);
        ret := ret + map v | v in scc :: ews;
      }
      assert forall v :: v in ret <==> v in comp;
    }
  }

  /** The successors of a component and what they reach, together with the component if it has more than one vertex. */
  method Gather(scc: seq<Vertex>, ws: set<Vertex>, ret: map<Vertex, set<Vertex>>) returns (ews: set<Vertex>)
    requires forall w :: w in ws ==> w in ret || w in scc
    ensures Gathered(scc, ret, ws, ews)
  {
    ews := {};
    var todo := ws;
    while todo != {}
      invariant forall w :: w in todo ==> w in ws
      invariant forall x :: x in ews <==> exists w :: w in ws && w !in todo && Contributed(ret, w, x)
    {
      var w := Any(todo);
      assert w in ret || w in scc;
      ews := ews + {w} + if w in ret then ret[w] else {};
      todo := todo - {w};
    }
    if |scc| > 1 {
      ews := ews + set x | x in scc;
    }
  }

  method SuccessorsOf(g: Graph, scc: seq<Vertex>) returns (ws: set<Vertex>)
    ensures IsSuccessorSet(g, scc, ws)
  {
    ws := {};
    for i := 0 to |scc|
      invariant forall w :: w in ws <==> exists j :: 0 <= j < i && (scc[j], w) in Edges(g)
    {
      var successors := Succ(g, scc[i]);
      assert forall w :: w in successors <==> (scc[i], w) in Edges(g);
      ws := ws + set w | w in successors;
    }
  }

  // ----- the closure

  ghost predicate IsSuccessorSet(g: Graph, scc: seq<Vertex>, ws: set<Vertex>) {
    forall w :: w in ws <==> exists v :: v in scc && (v, w) in Edges(g)
  }

  /** What the loop over the successors ws of a component has put together. */
  ghost predicate Gathered(scc: seq<Vertex>, ret: map<Vertex, set<Vertex>>, ws: set<Vertex>, ews: set<Vertex>) {
    forall x :: x in ews <==> (exists w :: w in ws && Contributed(ret, w, x)) || (|scc| > 1 && x in scc)
  }

  ghost predicate Contributed(ret: map<Vertex, set<Vertex>>, w: Vertex, x: Vertex) {
    x == w || (w in ret && x in ret[w])
  }

  /** The closure of the components before k. */
  ghost predicate ClosedUpTo(g: Graph, comp: map<Vertex, nat>, k: nat, ret: map<Vertex, set<Vertex>>) {
    && (forall v :: v in ret <==> v in comp && comp[v] < k)
    && (forall v :: v in ret ==> ClosedAt(g, ret, v))
  }

  ghost predicate ClosedAt(g: Graph, ret: map<Vertex, set<Vertex>>, v: Vertex) {
    v in ret && forall x :: x in ret[v] <==> ReachPlus(Edges(g), v, x)
  }

  lemma SuccessorKnown(g: Graph, result: seq<seq<Vertex>>, comp: map<Vertex, nat>, k: nat,
      ret: map<Vertex, set<Vertex>>, w: Vertex)
    requires Components(g, result, comp) && k < |result| && ClosedUpTo(g, comp, k, ret)
    requires exists v :: v in result[k] && (v, w) in Edges(g)
    ensures w in ret || w in result[k]
  {
    var v :| v in result[k] && (v, w) in Edges(g);
    var e := (v, w);
    assert e.1 in comp && comp[e.1] <= comp[e.0];
  }

  ghost predicate ExactlyReached(g: Graph, ews: set<Vertex>, v: Vertex) {
    forall x :: x in ews <==> ReachPlus(Edges(g), v, x)
  }

  lemma ClosureStep(g: Graph, result: seq<seq<Vertex>>, comp: map<Vertex, nat>, k: nat, ret: map<Vertex, set<Vertex>>,
                    ws: set<Vertex>, ews: set<Vertex>)
    requires Components(g, result, comp) && k < |result| && ClosedUpTo(g, comp, k, ret)
    requires IsSuccessorSet(g, result[k], ws) && Gathered(result[k], ret, ws, ews)
    ensures ClosedUpTo(g, comp, k + 1, ret + map v | v in result[k] :: ews)
  {
    forall v | v in result[k] ensures ExactlyReached(g, ews, v) {
      ClosureOf(g, result, comp, k, ret, ws, ews, v);
    }
    ComponentClosed(g, result[k], comp, k, ret, ews);
  }

  lemma ComponentClosed(g: Graph, scc: seq<Vertex>, comp: map<Vertex, nat>, k: nat, ret: map<Vertex, set<Vertex>>,
      ews: set<Vertex>)
    requires ClosedUpTo(g, comp, k, ret) && forall v :: v in scc <==> v in comp && comp[v] == k
    requires forall v :: v in scc ==> ExactlyReached(g, ews, v)
    ensures ClosedUpTo(g, comp, k + 1, ret + map v | v in scc :: ews)
  {
    var ret' := ret + map v | v in scc :: ews;
    forall v | v in ret'
      ensures ClosedAt(g, ret', v)
    {
      if v in scc {
        assert ExactlyReached(g, ews, v);
      } else {
        assert ClosedAt(g, ret, v);
      }
    }
  }

  lemma ClosureOf(g: Graph, result: seq<seq<Vertex>>, comp: map<Vertex, nat>, k: nat, ret: map<Vertex, set<Vertex>>,
                  ws: set<Vertex>, ews: set<Vertex>, v: Vertex)
    requires Components(g, result, comp) && k < |result| && ClosedUpTo(g, comp, k, ret) && v in result[k]
    requires IsSuccessorSet(g, result[k], ws) && Gathered(result[k], ret, ws, ews)
    ensures ExactlyReached(g, ews, v)
  {
    forall x ensures x in ews <==> ReachPlus(Edges(g), v, x) {
      if x in ews {
        ClosureSound(g, result, comp, k, ret, ws, v, x);
      }
      if ReachPlus(Edges(g), v, x) {
        ClosureComplete(g, result, comp, k, ret, ws, v, x);
      }
    }
  }

  lemma ClosureSound(g: Graph, result: seq<seq<Vertex>>, comp: map<Vertex, nat>, k: nat, ret: map<Vertex, set<Vertex>>,
                     ws: set<Vertex>, v: Vertex, x: Vertex)
    requires Components(g, result, comp) && k < |result| && ClosedUpTo(g, comp, k, ret) && v in result[k]
    requires IsSuccessorSet(g, result[k], ws)
    requires (exists w :: w in ws && Contributed(ret, w, x)) || (|result[k]| > 1 && x in result[k])
    ensures ReachPlus(Edges(g), v, x)
  {
    if w :| w in ws && Contributed(ret, w, x) {
      var u :| u in result[k] && (u, w) in Edges(g);
      assert Mutual(g, v, u);
      ReachEdge(Edges(g), u, w);
      ReachTrans(Edges(g), v, u, w);
      if x != w {
        assert ClosedAt(g, ret, w);
        ReachTrans(Edges(g), v, w, x);
      }
    } else {
      var u := if result[k][0] == x then result[k][1] else result[k][0];
      assert u in result[k] && u != x;
      assert Mutual(g, v, u) && Mutual(g, u, x);
      DifferentReach(g, u, x);
      ReachTrans(Edges(g), v, u, x);
    }
  }

  lemma DifferentReach(g: Graph, u: Vertex, x: Vertex)
    requires u != x && Reach(Edges(g), u, x)
    ensures ReachPlus(Edges(g), u, x)
  {
    var q :| PathBetween(Edges(g), q, u, x);
    assert |q| >= 2;
  }

  lemma ClosureComplete(g: Graph, result: seq<seq<Vertex>>, comp: map<Vertex, nat>, k: nat,
      ret: map<Vertex, set<Vertex>>,
                        ws: set<Vertex>, v: Vertex, x: Vertex)
    requires Components(g, result, comp) && k < |result| && ClosedUpTo(g, comp, k, ret) && v in result[k]
    requires IsSuccessorSet(g, result[k], ws)
    requires ReachPlus(Edges(g), v, x)
    ensures (exists w :: w in ws && Contributed(ret, w, x)) || (|result[k]| > 1 && x in result[k])
  {
    var q :| PathBetween(Edges(g), q, v, x) && |q| >= 2;
    // the last vertex on the path, before its end, that lies in the component
    var j := |q| - 2;
    while q[j] !in result[k]
      invariant 0 <= j <= |q| - 2
      invariant forall i :: j < i <= |q| - 2 ==> q[i] !in result[k]
      decreases j
    {
      j := j - 1;
    }
    var w := q[j + 1];
    assert Step(Edges(g), q, j);
    assert w in ws;
    if j == |q| - 2 {
      assert Contributed(ret, w, x);
    } else {
      SuccessorKnown(g, result, comp, k, ret, w);
      PathSlice(Edges(g), q, j + 1, |q|);
      assert PathBetween(Edges(g), q[j + 1..|q|], w, x) && |q[j + 1..|q|]| >= 2;
      assert ClosedAt(g, ret, w);
      assert Contributed(ret, w, x);
    }
  }

  lemma NoRoots(g: Graph)
    requires forall root :: root !in g
    ensures Components(g, [], map[])
  {
  }

  lemma Start(d: Search, root: Vertex)
    requires d.calls == [] && root in d.graph && root !in d.index
    ensures d.Enter(d.seen, root).Searching() && |d.order| < |d.known|
    ensures d.stack == []
  {
    d.EnterRootKeeps(root);
    NoDuplicatesFit(d.order + [root], d.known);
  }
}
