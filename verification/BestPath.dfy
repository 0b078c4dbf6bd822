/** The best derivation of a graph's final state, from the search to the tree, and how the
    implementations of the search agree. */
module BestPath {
  import opened Hypergraph
  import opened Walks
  import opened StateOrder
  import opened GraphPaths
  import opened AcyclicBest
  import B = BuildDerivation
  import I = InsideCosts

  /** All tails but the first are labels. */
  ghost predicate LabelTails(h: HG<int>) {
    forall a, k :: 0 <= a < |h.arcs| && 0 <= k < |h.arcs[a].tails| ==> (k > 0 <==> h.arcs[a].tails[k] in h.labels)
  }

  ghost function Leaves(ss: seq<State>): seq<Tree> {
    seq(|ss|, k requires 0 <= k < |ss| => Axiom(ss[k]))
  }

  lemma {:induction false} LeavesCostNothing(h: HG<int>, ss: seq<State>)
    ensures CostAll(h, Leaves(ss)) == 0
  {
    if ss != [] {
      assert Leaves(ss)[1..] == Leaves(ss[1..]);
      LeavesCostNothing(h, ss[1..]);
    }
  }

  lemma {:induction false} LeavesDerive(h: HG<int>, ss: seq<State>)
    requires forall s :: s in ss ==> s in h.labels
    ensures DerivesAll(h, true, Leaves(ss), ss)
  {
    if ss != [] {
      assert Leaves(ss)[1..] == Leaves(ss[1..]);
      LeavesDerive(h, ss[1..]);
    }
  }

  /** Best predecessors that lead back to the start state describe a tree that costs what `mu` says. */
  lemma {:induction false} BackIsTree(h: HG<int>, mu: seq<Distance>, pi: seq<Option<nat>>, start: State, p: seq<nat>,
                                      s: State, vs: set<State>)
    returns (t: Tree)
    requires |mu| == |pi| && h.start == Some(start) && LabelTails(h)
    requires Back(h, ToHead, mu, pi, start, p, s, vs) && Path(h, start, p, s)
    requires s !in h.labels && start < |pi| && pi[start] == None
    ensures B.PiTree(h, pi, s, t) && Derives(h, true, t, s) && mu[s] == Finite(Cost(h, t))
    decreases |p|
  {
    if p == [] {
      t := Axiom(s);
    } else {
      var n := |p| - 1;
      var a := p[n];
      var tails := h.arcs[a].tails;
      assert p == p[..n] + [a];
      WeightAppend(h, p[..n], a);
      assert [a][1..] == [];
      PathInit(h, start, p, s);
      var inner := BackIsTree(h, mu, pi, start, p[..n], tails[0], vs);
      var kids := [inner] + Leaves(tails[1..]);
      t := Node(a, kids);
      LeavesCostNothing(h, tails[1..]);
      LeavesDerive(h, tails[1..]);
      assert kids[1..] == Leaves(tails[1..]);
      forall k | 0 <= k < |kids| ensures B.PiTree(h, pi, tails[k], kids[k]) {
      }
    }
  }

  lemma {:induction false} BackEnds(h: HG<int>, mu: seq<Distance>, pi: seq<Option<nat>>, start: State, p: seq<nat>,
                                    s: State, vs: set<State>)
    requires |mu| == |pi| && Back(h, ToHead, mu, pi, start, p, s, vs)
    ensures start < |pi| && pi[start] == None
    decreases |p|
  {
    if p != [] {
      BackEnds(h, mu, pi, start, p[..|p| - 1], h.arcs[p[|p| - 1]].tails[0], vs);
    }
  }

  /** A derivation in a graph is a path from the start state at the same cost. */
  lemma {:induction false} TreeIsPath(h: HG<int>, start: State, t: Tree, s: State) returns (p: seq<nat>)
    requires h.start == Some(start) && LabelTails(h) && Derives(h, true, t, s) && s !in h.labels
    requires forall a :: 0 <= a < |h.arcs| ==> |h.arcs[a].tails| > 0
    ensures Path(h, start, p, s) && Weight(h, p) == Cost(h, t)
    decreases t
  {
    match t
    case Axiom(_) => p := [];
    case Node(a, kids) =>
      var tails := h.arcs[a].tails;
      var q := TreeIsPath(h, start, kids[0], tails[0]);
      LabelKidsCostNothing(h, kids[1..], tails[1..]);
      ChainAppend(h, ToHead, start, q, tails[0], a);
      WeightAppend(h, q, a);
      assert [a][1..] == [];
      p := q + [a];
  }

  lemma {:induction false} LabelKidsCostNothing(h: HG<int>, ts: seq<Tree>, ss: seq<State>)
    requires DerivesAll(h, true, ts, ss) && forall s :: s in ss ==> s in h.labels
    ensures CostAll(h, ts) == 0
  {
    if ts != [] {
      LabelKidsCostNothing(h, ts[1..], ss[1..]);
    }
  }

  /** `c` is the least cost of a derivation of `s`, infinite when `s` has none. */
  ghost predicate LeastDerivation(h: HG<int>, s: State, c: Distance) {
    && (c.Finite? ==> exists t :: Derives(h, true, t, s) && Cost(h, t) == c.value)
    && (forall t :: Derives(h, true, t, s) ==> AtMost(c, Finite(Cost(h, t))))
  }

  /** Graphs as composition and parsing make them: one state tail, then labels. */
  ghost predicate PlainGraph(g: Graph) {
    && g.Valid() && NoNegativeSelfLoop(g.h) && LabelTails(g.h)
    && forall a, k :: 0 <= a < |g.h.arcs| && 0 <= k < |g.h.arcs[a].tails| ==> g.h.arcs[a].tails[k] < g.nStates
  }

  /** The tree at the end of the best path, and that no derivation is cheaper. */
  lemma BestTree(g: Graph, mu: seq<Distance>, pi: seq<Option<nat>>) returns (t: Tree)
    requires PlainGraph(g) && g.h.start.Some? && g.h.final.Some? && |mu| == |pi| == g.nStates
    requires IsLeast(g.h, ToHead, g.h.start.value, g.h.final.value, mu[g.h.final.value]) && mu[g.h.final.value].Finite?
    requires exists p, vs :: Path(g.h, g.h.start.value, p, g.h.final.value)
                          && Back(g.h, ToHead, mu, pi, g.h.start.value, p, g.h.final.value, vs)
    ensures Derives(g.h, true, t, g.h.final.value) && B.PiTree(g.h, pi, g.h.final.value, t)
    ensures mu[g.h.final.value] == Finite(Cost(g.h, t)) && LeastDerivation(g.h, g.h.final.value, mu[g.h.final.value])
  {
    var start, final := g.h.start.value, g.h.final.value;
    var p, vs :| Path(g.h, start, p, final) && Back(g.h, ToHead, mu, pi, start, p, final, vs);
    BackEnds(g.h, mu, pi, start, p, final, vs);
    t := BackIsTree(g.h, mu, pi, start, p, final, vs);
    NoneCheaper(g.h, start, final, mu[final]);
  }

  lemma NoneCheaper(h: HG<int>, start: State, s: State, c: Distance)
    requires h.start == Some(start) && LabelTails(h) && s !in h.labels && IsLeast(h, ToHead, start, s, c)
    requires forall a :: 0 <= a < |h.arcs| ==> |h.arcs[a].tails| > 0
    ensures forall t :: Derives(h, true, t, s) ==> AtMost(c, Finite(Cost(h, t)))
  {
    forall t | Derives(h, true, t, s) ensures AtMost(c, Finite(Cost(h, t))) {
      var p := TreeIsPath(h, start, t, s);
    }
  }

  /** Searches and then builds: the derivation returned unfolds to a tree of least cost. */
  method BestDerivation(g: Graph) returns (r: Outcome, best: Distance, d: B.Child, memo: map<State, B.Memo>)
    requires PlainGraph(g)
    ensures r == Found ==> g.h.final.Some? && LeastDerivation(g.h, g.h.final.value, best)
    ensures r == NoPathRecovered ==> g.h.final.Some? && LeastDerivation(g.h, g.h.final.value, Infinite)
    ensures r == Found && best.Finite? ==>
              exists t :: Derives(g.h, true, t, g.h.final.value) && Cost(g.h, t) == best.value
                       && B.Unfolds(g.h, memo, d, g.h.final.value, t)
    ensures r == HasCycle ==> g.h.start.Some? && g.h.final.Some? && (g.storesOut || g.storesIn)
    ensures r == HasCycle && g.storesOut ==> !Acyclic(g.OutArcs().Edges(), g.h.start.value)
    ensures r == HasCycle && !g.storesOut ==> !Acyclic(g.InArcs().Edges(), g.h.final.value)
    ensures r == NoFinalState <==> g.h.final.None?
    ensures r == NoArcsStored <==> g.h.final.Some? && !g.storesOut && !g.storesIn
    ensures r == NoStartState <==> g.h.final.Some? && (g.storesOut || g.storesIn) && g.h.start.None?
  {
    hide Relaxing, Ordered, AcyclicBest.Marked;
    best, d, memo := Infinite, B.Unset, map[];
    var a := new AcyclicBest(g);
    r := a.Compute();
    if r == NoPathRecovered {
      NoneCheaper(g.h, g.h.start.value, g.h.final.value, Infinite);
    }
    if r != Found {
      return;
    }
    var final := g.h.final.value;
    best := a.mu[final];
    if best.Infinite? {
      NoneCheaper(g.h, g.h.start.value, final, best);
      return;
    }
    ghost var t := BestTree(g, a.mu, a.pi);
    var b := new B.BuildDerivation(g.h, a.pi);
    d := b.Derivation(final);
    memo := b.memo;
  }

  /** What a search says about the final state where it meets no cycle. */
  method CostToFinal(g: Graph) returns (r: Outcome, c: Distance)
    requires g.Valid() && NoNegativeSelfLoop(g.h) && g.h.start.Some? && g.h.final.Some? && (g.storesOut || g.storesIn)
    requires if g.storesOut then Acyclic(g.OutArcs().Edges(), g.h.start.value)
             else Acyclic(g.InArcs().Edges(), g.h.final.value)
    ensures r in {Found, NoPathRecovered} && IsLeast(g.h, ToHead, g.h.start.value, g.h.final.value, c)
    ensures !g.storesOut ==> (r == Found <==> c.Finite?)
  {
    hide NoNegativeSelfLoop, IsLeast, PointersValid, AcyclicBest.Marked, AcyclicBest.LeadsBack;
    var a := new AcyclicBest(g);
    r := a.Compute();
    c := if r == Found then a.mu[g.h.final.value] else Infinite;
  }

  /** The search from the start state, the search from the final state and the inside costs, on one graph
      without cycles: all three find the same cost at the final state, and it is the least of all paths.
      The search from the final state fails just when there is no path. */
  method ThreeCosts(h: HG<int>, out: seq<seq<nat>>, ins: seq<seq<nat>>, isMutable: bool)
    returns (byOut: Distance, byIn: Distance, byInside: Distance, recovered: bool)
    requires var n := |out|; Graph(h, n, true, out, false, []).Valid() && Graph(h, n, false, [], true, ins).Valid()
    requires I.Plain(Adjacency(h, ToHead, out)) && h.final.Some? && h.start != h.final
    requires Acyclic(Adjacency(h, ToTail0, ins).Edges(), h.final.value)
    ensures byOut == byIn == byInside && IsLeast(h, ToHead, h.start.value, h.final.value, byOut)
    ensures recovered <==> byOut.Finite?
  {
    I.PlainLoops(Adjacency(h, ToHead, out));
    hide Relaxing, Ordered, Chain, Weight, NoNegativeSelfLoop, IsLeast;
    var final := h.final.value;
    var ra;
    ra, byOut := CostToFinal(Graph(h, |out|, true, out, false, []));
    var rb;
    rb, byIn := CostToFinal(Graph(h, |out|, false, [], true, ins));
    recovered := rb == Found;
    var inside := new Distance[|out|](_ => Infinite);
    I.InsideCosts(Adjacency(h, ToHead, out), isMutable, inside);
    byInside := inside[final];
    LeastUnique(h, ToHead, h.start.value, final, byOut, byIn);
    LeastUnique(h, ToHead, h.start.value, final, byOut, byInside);
  }
}
