/** Walks along the edges of a finite directed graph. */
module Walks {
  import opened Hypergraph

  /** First tail to head, for every arc. */
  ghost function ForwardEdges<W>(h: HG<W>): set<(State, State)> {
    set a | 0 <= a < |h.arcs| && |h.arcs[a].tails| > 0 :: (h.arcs[a].tails[0], h.arcs[a].head)
  }

  ghost predicate Walk(edges: set<(State, State)>, v: State, path: seq<State>, s: State)
    decreases |path|
  {
    if path == [] then v == s else (v, path[0]) in edges && Walk(edges, path[0], path[1..], s)
  }

  ghost predicate Connected(edges: set<(State, State)>, v: State, s: State) {
    exists path :: Walk(edges, v, path, s)
  }

  lemma ConnectedStep(edges: set<(State, State)>, v: State, u: State, s: State)
    requires (v, u) in edges && Connected(edges, u, s)
    ensures Connected(edges, v, s)
  {
    var path :| Walk(edges, u, path, s);
    assert ([u] + path)[1..] == path;
    assert Walk(edges, v, [u] + path, s);
  }

  lemma ConnectedEnd(edges: set<(State, State)>, goal: State, v: State, u: State)
    requires Connected(edges, goal, v) && (v, u) in edges
    ensures Connected(edges, goal, u)
  {
    var path :| Walk(edges, goal, path, v);
    WalkExtends(edges, goal, path, v, u);
  }

  lemma {:induction false} WalkExtends(edges: set<(State, State)>, goal: State, path: seq<State>, v: State, u: State)
    requires Walk(edges, goal, path, v) && (v, u) in edges
    ensures Walk(edges, goal, path + [u], u)
    decreases |path|
  {
    if path == [] {
      assert ([u])[1..] == [] && path + [u] == [u];
    } else {
      assert (path + [u])[1..] == path[1..] + [u];
      WalkExtends(edges, path[0], path[1..], v, u);
    }
  }

  lemma {:induction false} WalkStays(edges: set<(State, State)>, visited: set<State>, v: State, path: seq<State>,
                                     s: State)
    requires v in visited && Walk(edges, v, path, s)
    requires forall e :: e in edges && e.0 in visited ==> e.1 in visited
    ensures s in visited
    decreases |path|
  {
    if path != [] {
      assert (v, path[0]) in edges;
      WalkStays(edges, visited, path[0], path[1..], s);
    }
  }

  lemma ConnectedSelf(edges: set<(State, State)>, v: State)
    ensures Connected(edges, v, v)
  {
    assert Walk(edges, v, [], v);
  }

  lemma {:induction false} WalkJoin(edges: set<(State, State)>, v: State, p: seq<State>, u: State, q: seq<State>,
                                    s: State)
    requires Walk(edges, v, p, u) && Walk(edges, u, q, s)
    ensures Walk(edges, v, p + q, s)
    decreases |p|
  {
    if p == [] {
      assert p + q == q;
    } else {
      assert (p + q)[1..] == p[1..] + q;
      WalkJoin(edges, p[0], p[1..], u, q, s);
    }
  }

  lemma ConnectedJoin(edges: set<(State, State)>, v: State, u: State, s: State)
    requires Connected(edges, v, u) && Connected(edges, u, s)
    ensures Connected(edges, v, s)
  {
    var p :| Walk(edges, v, p, u);
    var q :| Walk(edges, u, q, s);
    WalkJoin(edges, v, p, u, q, s);
  }

  lemma ConnectedMore(edges: set<(State, State)>, more: set<(State, State)>, v: State, s: State)
    requires edges <= more && Connected(edges, v, s)
    ensures Connected(more, v, s)
  {
    var path :| Walk(edges, v, path, s);
    WalkMore(edges, more, v, path, s);
  }

  lemma {:induction false} WalkMore(edges: set<(State, State)>, more: set<(State, State)>, v: State, path: seq<State>,
                                    s: State)
    requires edges <= more && Walk(edges, v, path, s)
    ensures Walk(more, v, path, s)
    decreases |path|
  {
    if path != [] {
      WalkMore(edges, more, path[0], path[1..], s);
    }
  }

  /** The last edge of a walk. */
  lemma ConnectedTarget(edges: set<(State, State)>, v: State, s: State) returns (u: State)
    requires Connected(edges, v, s) && v != s
    ensures (u, s) in edges
  {
    var path :| Walk(edges, v, path, s);
    WalkStays(edges, {v} + set e | e in edges :: e.1, v, path, s);
    var e :| e in edges && e.1 == s;
    u := e.0;
  }

  /** Among the vertices reachable from `root`, no two different ones reach each other. */
  ghost predicate Acyclic(edges: set<(State, State)>, root: State) {
    forall u, v :: Connected(edges, root, u) && Connected(edges, u, v) && Connected(edges, v, u) ==> u == v
  }

  /** No edge that can be reached from `root` is part of a cycle; a self-loop is one. */
  ghost predicate CyclefreeFrom(edges: set<(State, State)>, root: State) {
    forall u: State, v: State :: Connected(edges, root, u) && (u, v) in edges ==> !Connected(edges, v, u)
  }

  ghost predicate Cyclefree(edges: set<(State, State)>) {
    forall u: State, v: State :: (u, v) in edges ==> !Connected(edges, v, u)
  }

  lemma CyclefreeExactly(edges: set<(State, State)>, root: State)
    ensures CyclefreeFrom(edges, root) <==>
              Acyclic(edges, root) && forall s: State :: Connected(edges, root, s) ==> (s, s) !in edges
  {
    if CyclefreeFrom(edges, root) {
      forall s: State | Connected(edges, root, s) ensures (s, s) !in edges {
        ConnectedSelf(edges, s);
      }
      forall u, v | Connected(edges, root, u) && Connected(edges, u, v) && Connected(edges, v, u) ensures u == v {
        var path :| Walk(edges, u, path, v);
        if path != [] {
          assert Connected(edges, path[0], v) by { assert Walk(edges, path[0], path[1..], v); }
          ConnectedJoin(edges, path[0], v, u);
        }
      }
    }
    if Acyclic(edges, root) && forall s: State :: Connected(edges, root, s) ==> (s, s) !in edges {
      forall u: State, v: State | Connected(edges, root, u) && (u, v) in edges ensures !Connected(edges, v, u) {
        ConnectedSelf(edges, v);
        ConnectedStep(edges, u, v, v);
      }
    }
  }

  /** Every edge but a self-loop leads to an earlier place in `order`. */
  ghost predicate TargetsFirst(edges: set<(State, State)>, order: seq<State>) {
    forall i, v :: 0 <= i < |order| && (order[i], v) in edges && v != order[i] ==> v in order[..i]
  }

  ghost predicate Distinct(order: seq<State>) {
    forall i, j :: 0 <= i < j < |order| ==> order[i] != order[j]
  }

  /** Walking never leads to a later place. */
  lemma {:induction false} WalkGoesBack(edges: set<(State, State)>, order: seq<State>, i: nat, path: seq<State>,
                                        s: State) returns (j: nat)
    requires TargetsFirst(edges, order) && i < |order| && Walk(edges, order[i], path, s)
    ensures j <= i && order[j] == s && (s != order[i] ==> j < i)
    decreases |path|
  {
    if path == [] {
      j := i;
    } else if path[0] == order[i] {
      j := WalkGoesBack(edges, order, i, path[1..], s);
    } else {
      assert path[0] in order[..i];
      var k :| 0 <= k < i && order[k] == path[0];
      j := WalkGoesBack(edges, order, k, path[1..], s);
    }
  }

  lemma OrderedIsAcyclic(edges: set<(State, State)>, order: seq<State>, root: State)
    requires TargetsFirst(edges, order) && Distinct(order) && root in order
    ensures Acyclic(edges, root)
    ensures forall s :: Connected(edges, root, s) ==> s in order
  {
    var r :| 0 <= r < |order| && order[r] == root;
    forall s | Connected(edges, root, s) ensures s in order {
      var path :| Walk(edges, root, path, s);
      var j := WalkGoesBack(edges, order, r, path, s);
    }
    forall u, v | Connected(edges, root, u) && Connected(edges, u, v) && Connected(edges, v, u) ensures u == v {
      var i :| 0 <= i < |order| && order[i] == u;
      var p :| Walk(edges, u, p, v);
      var j := WalkGoesBack(edges, order, i, p, v);
      var q :| Walk(edges, v, q, u);
      var k := WalkGoesBack(edges, order, j, q, u);
    }
  }
}
