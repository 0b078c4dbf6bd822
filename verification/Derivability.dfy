/** Which states of a hypergraph have a derivation at all, and which take part in one of a goal. */
module Derivability {
  import opened Hypergraph
  import opened Walks

  ghost predicate Derivable<W>(h: HG<W>, s: State) {
    exists t :: Derives(h, false, t, s)
  }

  /** A finite derivation of every state of a list. */
  lemma {:induction false} DeriveAll<W>(h: HG<W>, ss: seq<State>) returns (ts: seq<Tree>)
    requires forall k :: 0 <= k < |ss| ==> Derivable(h, ss[k])
    ensures DerivesAll(h, false, ts, ss)
  {
    if ss == [] {
      ts := [];
    } else {
      var t :| Derives(h, false, t, ss[0]);
      var rest := DeriveAll(h, ss[1..]);
      ts := [t] + rest;
      assert ts[1..] == rest;
    }
  }

  lemma DerivableHead<W>(h: HG<W>, a: nat)
    requires a < |h.arcs| && forall k :: 0 <= k < |h.arcs[a].tails| ==> Derivable(h, h.arcs[a].tails[k])
    ensures Derivable(h, h.arcs[a].head)
  {
    var ts := DeriveAll(h, h.arcs[a].tails);
    assert Derives(h, false, Node(a, ts), h.arcs[a].head);
  }

  lemma DerivableAxiom<W>(h: HG<W>, s: State)
    requires h.IsAxiom(s)
    ensures Derivable(h, s)
  {
    assert Derives(h, false, Axiom(s), s);
  }

  /** A set of states that the axioms and the arcs cannot lead out of. */
  ghost predicate ClosedUnderArcs<W>(h: HG<W>, r: set<State>) {
    && (forall s :: h.IsAxiom(s) ==> s in r)
    && (forall a :: 0 <= a < |h.arcs| && (forall k :: 0 <= k < |h.arcs[a].tails| ==> h.arcs[a].tails[k] in r) ==>
          h.arcs[a].head in r)
  }

  lemma {:induction false} DerivedIsIn<W>(h: HG<W>, r: set<State>, t: Tree, s: State)
    requires ClosedUnderArcs(h, r) && Derives(h, false, t, s)
    ensures s in r
    decreases t
  {
    match t
    case Axiom(_) =>
    case Node(a, kids) =>
      forall k | 0 <= k < |h.arcs[a].tails| ensures h.arcs[a].tails[k] in r {
        DerivesAllAt(h, false, kids, h.arcs[a].tails, k);
        DerivedIsIn(h, r, kids[k], h.arcs[a].tails[k]);
      }
  }

  // ----- Usefulness -----

  ghost predicate OccursIn<W>(h: HG<W>, t: Tree, s: State) {
    match t
    case Axiom(u) => u == s
    case Node(a, kids) =>
      || (a < |h.arcs| && h.arcs[a].head == s)
      || exists k :: 0 <= k < |kids| && OccursIn(h, kids[k], s)
  }

  /** `s` takes part in some derivation of `goal`. */
  ghost predicate Useful<W>(h: HG<W>, goal: State, s: State) {
    exists t :: Derives(h, false, t, goal) && OccursIn(h, t, s)
  }

  /** The arc can be used: all of its tails have derivations. */
  ghost predicate Usable<W>(h: HG<W>, a: nat) {
    a < |h.arcs| && forall k :: 0 <= k < |h.arcs[a].tails| ==> Derivable(h, h.arcs[a].tails[k])
  }

  lemma UsableTails<W>(h: HG<W>, a: nat)
    requires Usable(h, a)
    ensures a < |h.arcs| && forall u :: u in h.arcs[a].tails ==> Derivable(h, u)
  {
  }

  ghost predicate Edge<W>(h: HG<W>, v: State, u: State) {
    exists a: nat :: Usable(h, a) && h.arcs[a].head == v && u in h.arcs[a].tails
  }

  /** `outside` holds the head-to-tail edges of exactly the usable arcs. */
  ghost predicate OutsideRight<W>(h: HG<W>, outside: set<(State, State)>) {
    forall v: State, u: State :: (v, u) in outside <==> Edge(h, v, u)
  }

  /** Along the edges of usable arcs, a derivable state has a derivation through each state met. */
  lemma {:induction false} WalkIsUseful<W>(h: HG<W>, outside: set<(State, State)>, v: State, path: seq<State>, s: State)
    requires OutsideRight(h, outside) && Derivable(h, v) && Walk(outside, v, path, s)
    ensures Useful(h, v, s)
    decreases |path|
  {
    if path == [] {
      var t :| Derives(h, false, t, v);
      assert OccursIn(h, t, v);
    } else {
      var u := path[0];
      var a: nat :| Usable(h, a) && h.arcs[a].head == v && u in h.arcs[a].tails;
      var tails := h.arcs[a].tails;
      var k :| 0 <= k < |tails| && tails[k] == u;
      WalkIsUseful(h, outside, u, path[1..], s);
      var inner :| Derives(h, false, inner, u) && OccursIn(h, inner, s);
      var ts := DeriveAll(h, tails);
      var kids := ts[k := inner];
      ReplaceKid(h, ts, tails, k, inner);
      var t := Node(a, kids);
      assert Derives(h, false, t, v);
      assert OccursIn(h, kids[k], s);
    }
  }

  lemma {:induction false} ReplaceKid<W>(h: HG<W>, ts: seq<Tree>, ss: seq<State>, k: nat, t: Tree)
    requires DerivesAll(h, false, ts, ss) && k < |ts| && Derives(h, false, t, ss[k])
    ensures DerivesAll(h, false, ts[k := t], ss)
  {
    if k == 0 {
      assert ts[0 := t][1..] == ts[1..];
    } else {
      ReplaceKid(h, ts[1..], ss[1..], k - 1, t);
      assert ts[k := t][1..] == ts[1..][k - 1 := t];
    }
  }

  lemma {:induction false} UsefulIsConnected<W>(h: HG<W>, outside: set<(State, State)>, t: Tree, v: State, s: State)
    requires OutsideRight(h, outside) && Derives(h, false, t, v) && OccursIn(h, t, s)
    ensures Connected(outside, v, s)
    decreases t
  {
    if s == v {
      assert Walk(outside, v, [], v);
    } else {
      var k :| 0 <= k < |t.kids| && OccursIn(h, t.kids[k], s);
      var tails := h.arcs[t.arc].tails;
      forall j | 0 <= j < |tails| ensures Derivable(h, tails[j]) {
        DerivesAllAt(h, false, t.kids, tails, j);
      }
      assert Usable(h, t.arc);
      DerivesAllAt(h, false, t.kids, tails, k);
      assert Edge(h, v, tails[k]);
      UsefulIsConnected(h, outside, t.kids[k], tails[k], s);
      ConnectedStep(outside, v, tails[k], s);
    }
  }

  /** What the second search computes, for a derivable goal and for one that is not. */
  lemma UsefulIffConnected<W>(h: HG<W>, outside: set<(State, State)>, goal: State, s: State)
    requires OutsideRight(h, outside)
    ensures Useful(h, goal, s) <==> if s == goal then Derivable(h, goal) else Connected(outside, goal, s)
  {
    if Useful(h, goal, s) {
      var t :| Derives(h, false, t, goal) && OccursIn(h, t, s);
      UsefulIsConnected(h, outside, t, goal, s);
    }
    if s == goal && Derivable(h, goal) {
      assert Walk(outside, goal, [], goal);
      WalkIsUseful(h, outside, goal, [], goal);
    }
    if s != goal && Connected(outside, goal, s) {
      var path :| Walk(outside, goal, path, s);
      var a: nat :| Usable(h, a) && h.arcs[a].head == goal && path[0] in h.arcs[a].tails;
      DerivableHead(h, a);
      WalkIsUseful(h, outside, goal, path, s);
    }
  }
}
