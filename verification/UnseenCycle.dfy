/** A graph with a cycle that the best-path search does not come to, and marks acyclic. */
module UnseenCycle {
  import opened Hypergraph
  import opened Walks
  import opened StateOrder
  import opened GraphPaths
  import opened AcyclicBest

  /** 1 <- 0 from start to final state, beside the cycle of 2 and 3. */
  function CycleAside(storesOut: bool): Graph {
    Graph(HG([Arc(1, [0], 0), Arc(2, [3], 0), Arc(3, [2], 0)], Some(0), Some(1), map[]), 4,
          storesOut, [[0], [], [2], [1]], true, [[], [0], [1], [2]])
  }

  lemma ArcsAside(storesOut: bool)
    ensures var h := CycleAside(storesOut).h; |h.arcs| == 3 && h.arcs[0] == Arc(1, [0], 0)
    ensures var h := CycleAside(storesOut).h; h.arcs[1] == Arc(2, [3], 0) && h.arcs[2] == Arc(3, [2], 0)
    ensures forall a :: 0 <= a < 3 ==> |CycleAside(storesOut).h.arcs[a].tails| == 1
  {
  }

  lemma ListsAside(storesOut: bool)
    ensures var g := CycleAside(storesOut); g.OutArcs().Valid() && g.InArcs().Valid()
  {
    InAside(storesOut);
  }

  lemma InAside(storesOut: bool)
    ensures CycleAside(storesOut).InArcs().Valid()
  {
    ArcsAside(storesOut);
    var g := CycleAside(storesOut);
    assert |g.ins| == 4 && g.ins[0] == [] && g.ins[1] == [0] && g.ins[2] == [1] && g.ins[3] == [2];
    hide CycleAside;
  }

  lemma EdgesAside(storesOut: bool)
    requires CycleAside(storesOut).OutArcs().Valid() && CycleAside(storesOut).InArcs().Valid()
    ensures ForwardEdges(CycleAside(storesOut).h) == {(0, 1), (3, 2), (2, 3)}
    ensures CycleAside(storesOut).OutArcs().Edges() == {(0, 1), (3, 2), (2, 3)}
    ensures CycleAside(storesOut).InArcs().Edges() == {(1, 0), (2, 3), (3, 2)}
  {
    ArcsAside(storesOut);
    var g := CycleAside(storesOut);
    hide CycleAside, Adjacency.Valid;
  }

  lemma CyclesAside()
    ensures !Cyclefree({(0, 1), (3, 2), (2, 3)})
    ensures Acyclic({(0, 1), (3, 2), (2, 3)}, 0) && Acyclic({(1, 0), (2, 3), (3, 2)}, 1)
    ensures forall s :: Connected({(0, 1), (3, 2), (2, 3)}, 0, s) ==> s in {0, 1}
  {
    var edges: set<(State, State)> := {(0, 1), (3, 2), (2, 3)};
    ConnectedSelf(edges, 2);
    ConnectedStep(edges, 3, 2, 2);
    assert [1, 0][..1] == [1] && [0, 1][..1] == [0];
    OrderedIsAcyclic(edges, [1, 0], 0);
    OrderedIsAcyclic({(1, 0), (2, 3), (3, 2)}, [0, 1], 1);
  }

  /** A search that meets no cycle and can find a path finds one, and without self-loops it marks the graph. */
  method FindsAndMarks(g: Graph, p: seq<nat>) returns (r: Outcome, marked: bool)
    requires g.Valid() && NoNegativeSelfLoop(g.h) && g.h.start.Some? && g.h.final.Some?
    requires g.storesIn && Path(g.h, g.h.start.value, p, g.h.final.value)
    requires if g.storesOut then Acyclic(g.OutArcs().Edges(), g.h.start.value)
             else Acyclic(g.InArcs().Edges(), g.h.final.value)
    requires forall a :: 0 <= a < |g.h.arcs| ==> g.h.arcs[a].tails[0] != g.h.arcs[a].head
    ensures r == Found && marked
  {
    var best := new AcyclicBest(g);
    hide Acyclic, Cyclefree, CyclefreeFrom, PointersValid, NoNegativeSelfLoop, AcyclicBest.LeadsBack;
    assert Chain(g.h, ToHead, g.h.start.value, p, g.h.final.value);
    r := best.Compute();
    marked := best.markedAcyclic;
  }

  lemma AsideIsReady(storesOut: bool)
    ensures var g := CycleAside(storesOut);
      && g.Valid() && NoNegativeSelfLoop(g.h) && g.h.start == Some(0) && g.h.final == Some(1) && g.storesIn
      && (forall a :: 0 <= a < |g.h.arcs| ==> g.h.arcs[a].tails[0] != g.h.arcs[a].head)
  {
    ListsAside(storesOut);
    ArcsAside(storesOut);
    hide Adjacency.Valid;
  }

  lemma PathAside(storesOut: bool)
    ensures Path(CycleAside(storesOut).h, 0, [0], 1)
  {
    ArcsAside(storesOut);
    var h := CycleAside(storesOut).h;
    hide CycleAside;
    assert [0][1..] == [];
    assert Chain(h, ToHead, 1, [], 1);
  }

  /** From either end the search finds its path and marks the graph acyclic. */
  method UnseenCycleIsMarked(storesOut: bool) returns (r: Outcome, marked: bool)
    ensures r == Found && marked && !Cyclefree(ForwardEdges(CycleAside(storesOut).h))
  {
    AsideIsReady(storesOut);
    ListsAside(storesOut);
    EdgesAside(storesOut);
    PathAside(storesOut);
    CyclesAside();
    hide *;
    r, marked := FindsAndMarks(CycleAside(storesOut), [0]);
  }
}
