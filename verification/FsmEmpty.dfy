/** Finite-state machines as graphs: the emptiness test finds exactly those without an accepting path. */
module FsmEmpty {
  import opened Hypergraph
  import opened Walks
  import opened GraphPaths
  import opened SplitArc
  import opened ReachCounting
  import opened ForwardSearch
  import opened Empty

  /** A machine with states below `n`: each arc reads the label of its second tail. The start state, the
      final state or both may be missing. */
  ghost predicate FsmShape(h: HG<int>, n: nat) {
    && Inside(h, n)
    && (h.start.Some? ==> h.start.value !in h.labels)
    && (h.final.Some? ==> h.final.value < n && h.final.value !in h.labels)
    && forall a :: 0 <= a < |h.arcs| ==>
         |h.arcs[a].tails| == 2 && h.arcs[a].tails[0] !in h.labels && h.arcs[a].tails[1] in h.labels
           && h.arcs[a].head !in h.labels
  }

  ghost predicate HasPath(h: HG<int>) {
    h.start.Some? && h.final.Some? && exists p :: Path(h, h.start.value, p, h.final.value)
  }

  lemma {:induction false} PathIsForward(h: HG<int>, s: State, p: seq<nat>, t: State)
    requires Path(h, s, p, t)
    ensures Connected(ForwardEdges(h), s, t)
    decreases |p|
  {
    if p == [] {
      ConnectedSelf(ForwardEdges(h), s);
    } else {
      var v := h.arcs[p[0]].head;
      PathIsForward(h, v, p[1..], t);
      assert (s, v) in ForwardEdges(h);
      ConnectedStep(ForwardEdges(h), s, v, t);
    }
  }

  lemma {:induction false} WalkIsPath(h: HG<int>, s: State, path: seq<State>, t: State) returns (p: seq<nat>)
    requires Walk(ForwardEdges(h), s, path, t)
    ensures Path(h, s, p, t)
    decreases |path|
  {
    if path == [] {
      p := [];
    } else {
      var a :| 0 <= a < |h.arcs| && |h.arcs[a].tails| > 0 && (s, path[0]) == (h.arcs[a].tails[0], h.arcs[a].head);
      var rest := WalkIsPath(h, path[0], path[1..], t);
      p := [a] + rest;
      assert p[1..] == rest;
    }
  }

  /** Without a start state only labels are derived. */
  lemma {:induction false} NoStartNoDerivation(h: HG<int>, n: nat, t: Tree, s: State)
    requires FsmShape(h, n) && h.start.None? && s !in h.labels
    ensures !Derives(h, false, t, s)
    decreases t
  {
    if t.Node? && t.arc < |h.arcs| && DerivesAll(h, false, t.kids, h.arcs[t.arc].tails) {
      DerivesAllAt(h, false, t.kids, h.arcs[t.arc].tails, 0);
      NoStartNoDerivation(h, n, t.kids[0], h.arcs[t.arc].tails[0]);
    }
  }

  /** Both the quick test and the whole one are right about machines. */
  lemma EmptyIffNoPath(g: Indexed<int>, n: nat, inArcs: bool, stored: OutStorage)
    requires FsmShape(g.h, n) && SearchLists(g, stored)
    ensures PrunedEmpty(g.h, inArcs, stored) || !Found(g, g.h.final.value) <==> !HasPath(g.h)
    ensures PrunedEmpty(g.h, inArcs, stored) ==> !HasPath(g.h)
  {
    if g.h.final.Some? {
      var f := g.h.final.value;
      if g.h.start.None? {
        forall t ensures !Derives(g.h, false, t, f) {
          NoStartNoDerivation(g.h, n, t, f);
        }
      } else {
        ForwardIffPath(g.h);
        MeetsForward(g, f);
        if PrunedEmpty(g.h, inArcs, stored) {
          PrunedGraph(g, inArcs, stored);
        }
      }
    }
  }

  lemma ForwardIffPath(h: HG<int>)
    requires h.start.Some? && h.final.Some?
    ensures Forward(h, h.final.value) <==> HasPath(h)
  {
    if Forward(h, h.final.value) {
      var path :| Walk(ForwardEdges(h), h.start.value, path, h.final.value);
      var p := WalkIsPath(h, h.start.value, path, h.final.value);
    }
    if HasPath(h) {
      var p :| Path(h, h.start.value, p, h.final.value);
      PathIsForward(h, h.start.value, p, h.final.value);
    }
  }
}
