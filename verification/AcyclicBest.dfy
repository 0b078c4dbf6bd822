/** The best path of an acyclic graph, from its out-arcs or from its in-arcs. */
module AcyclicBest {
  import opened Hypergraph
  import opened Walks
  import opened StateOrder
  import opened GraphPaths

  /** How the computation ends; all but the last are the program's exceptions and early returns. */
  datatype Outcome = NoFinalState | NoArcsStored | NoStartState | HasCycle | NoPathRecovered | Found

  /** A graph with whichever of its two indexes are stored; the empty list of lists when it is not. */
  datatype Graph = Graph(h: HG<int>, nStates: nat, storesOut: bool, out: seq<seq<nat>>, storesIn: bool,
                         ins: seq<seq<nat>>) {

    function OutArcs(): Adjacency<int> {
      Adjacency(h, ToHead, out)
    }

    function InArcs(): Adjacency<int> {
      Adjacency(h, ToTail0, ins)
    }

    ghost predicate Valid() {
      && (storesOut ==> OutArcs().Valid() && |out| == nStates)
      && (storesIn ==> InArcs().Valid() && |ins| == nStates)
      && (forall a :: 0 <= a < |h.arcs| ==> |h.arcs[a].tails| > 0 && h.arcs[a].tails[0] !in h.labels)
      && (h.start.Some? ==> h.start.value < nStates && h.start.value !in h.labels)
      && (h.final.Some? ==> h.final.value < nStates && h.final.value !in h.labels)
    }
  }

  class AcyclicBest {
    const g: Graph
    var mu: seq<Distance>
    var pi: seq<Option<nat>>
    var backEdges: nat
    var selfLoops: nat
    var markedAcyclic: bool

    constructor (g: Graph)
      ensures this.g == g && |mu| == |pi| == g.nStates && backEdges == 0 && selfLoops == 0 && !markedAcyclic
      ensures forall s :: 0 <= s < g.nStates ==> mu[s] == Infinite && pi[s] == None
    {
      this.g := g;
      mu, pi := seq(g.nStates, _ => Infinite), seq(g.nStates, _ => None);
      backEdges, selfLoops, markedAcyclic := 0, 0, false;
    }

    /** Bottom-up: the head of the arc takes the cost through its tail when that is better. */
    method Improve(arc: nat)
      requires arc < |g.h.arcs| && |g.h.arcs[arc].tails| > 0 && |mu| == |pi|
      requires g.h.arcs[arc].tails[0] < |mu| && g.h.arcs[arc].head < |mu|
      modifies `mu, `pi, `selfLoops
      ensures (mu, pi) == Try(g.h, ToHead, old(mu), old(pi), arc)
      ensures var head, tail, w := g.h.arcs[arc].head, old(mu)[g.h.arcs[arc].tails[0]], g.h.arcs[arc].weight;
              if tail.Finite? && (old(mu)[head].Infinite? || tail.value + w < old(mu)[head].value)
              then mu == old(mu)[head := Finite(tail.value + w)] && pi == old(pi)[head := Some(arc)]
              else mu == old(mu) && pi == old(pi)
      ensures selfLoops == old(selfLoops) + if g.h.arcs[arc].tails[0] == g.h.arcs[arc].head then 1 else 0
    {
      var head, tail := g.h.arcs[arc].head, g.h.arcs[arc].tails[0];
      if tail == head {
        selfLoops := selfLoops + 1;
      }
      var w := Extend(mu[tail], g.h.arcs[arc].weight);
      if Better(w, mu[head]) {
        mu := mu[head := w];
        pi := pi[head := Some(arc)];
      }
    }

    /** Top-down: the tail of the arc takes the cost through its head when that is better. */
    method ImproveTopDown(arc: nat)
      requires arc < |g.h.arcs| && |g.h.arcs[arc].tails| > 0 && |mu| == |pi|
      requires g.h.arcs[arc].tails[0] < |mu| && g.h.arcs[arc].head < |mu|
      modifies `mu, `pi
      ensures (mu, pi) == Try(g.h, ToTail0, old(mu), old(pi), arc)
      ensures var head, tail, w := old(mu)[g.h.arcs[arc].head], g.h.arcs[arc].tails[0], g.h.arcs[arc].weight;
              if head.Finite? && (old(mu)[tail].Infinite? || head.value + w < old(mu)[tail].value)
              then mu == old(mu)[tail := Finite(head.value + w)] && pi == old(pi)[tail := Some(arc)]
              else mu == old(mu) && pi == old(pi)
    {
      var head, tail := g.h.arcs[arc].head, g.h.arcs[arc].tails[0];
      var fromCost := Extend(mu[head], g.h.arcs[arc].weight);
      if Better(fromCost, mu[tail]) {
        mu := mu[tail := fromCost];
        pi := pi[tail := Some(arc)];
      }
    }

    /** Orders what the root reaches; an empty order stands for a search that met a back edge. */
    method OrderFrom(adj: Adjacency<int>, root: State) returns (order: seq<State>)
      requires adj.Valid() && root < |adj.lists|
      modifies `backEdges
      ensures backEdges == 0 <==> Acyclic(adj.Edges(), root)
      ensures backEdges == 0 ==> Ordered(adj, order, root)
    {
      var c := new ComputeStateOrder(adj, 0);
      var _ := c.Start(root);
      backEdges, order := c.nBackEdges, c.order;
    }

    /** The states whose entries only stand for labels. */
    ghost function Labels(): set<State> {
      g.h.labels.Keys
    }

    /** Tries every arc that leaves `order[i]`. */
    method RelaxOutState(order: seq<State>, i: nat)
      requires g.Valid() && g.storesOut && g.h.start.Some? && NoNegativeSelfLoop(g.h) && |mu| == g.nStates
      requires Ordered(g.OutArcs(), order, g.h.start.value) && i < |order|
      requires Relaxing(g.OutArcs(), order, g.h.start.value, Labels(), mu, pi, i + 1, 0)
      modifies `mu, `pi, `selfLoops
      ensures |mu| == |pi| == g.nStates && Relaxing(g.OutArcs(), order, g.h.start.value, Labels(), mu, pi, i, 0)
      ensures selfLoops >= old(selfLoops) && (selfLoops > old(selfLoops) <==> SelfLoopAmong(g.h, [order[i]]))
    {
      hide Relaxing, NoNegativeSelfLoop, Ordered, SelfLoopAmong;
      RootIsLast(g.OutArcs(), order, g.h.start.value);
      var tail := order[i];
      assert tail in order;
      var lists := g.OutArcs().lists;
      ghost var loops0 := selfLoops;
      RelaxingLengths(g.OutArcs(), order, g.h.start.value, Labels(), mu, pi, i + 1, 0);
      for k := 0 to |lists[tail]|
        invariant |mu| == |pi| == g.nStates
        invariant Relaxing(g.OutArcs(), order, g.h.start.value, Labels(), mu, pi, i + 1, k)
        invariant selfLoops >= loops0
        invariant selfLoops > loops0 <==> exists j :: 0 <= j < k && g.h.arcs[lists[tail][j]].head == tail
      {
        TryKeeps(g.OutArcs(), order, g.h.start.value, Labels(), mu, pi, i + 1, k);
        Improve(lists[tail][k]);
      }
      NextState(g.OutArcs(), order, g.h.start.value, Labels(), mu, pi, i + 1);
      LoopsAreListed(tail);
    }

    lemma LoopsAreListed(tail: State)
      requires g.Valid() && g.storesOut && tail < |g.out|
      ensures SelfLoopAmong(g.h, [tail]) <==>
                exists j :: 0 <= j < |g.out[tail]| && g.h.arcs[g.out[tail][j]].head == tail
    {
      if SelfLoopAmong(g.h, [tail]) {
        var a :| 0 <= a < |g.h.arcs| && g.h.arcs[a].tails[0] == g.h.arcs[a].head && g.h.arcs[a].head in [tail];
        var j :| 0 <= j < |g.out[tail]| && g.out[tail][j] == a;
      }
    }

    /** From the start state's out-arcs: axioms cost nothing, then every state in topological order. */
    method RelaxOut(order: seq<State>)
      requires g.Valid() && g.storesOut && g.h.start.Some? && NoNegativeSelfLoop(g.h)
      requires |mu| == g.nStates && pi == seq(g.nStates, _ => None)
      requires Ordered(g.OutArcs(), order, g.h.start.value)
      modifies `mu, `pi, `selfLoops
      ensures |mu| == |pi| == g.nStates && Relaxing(g.OutArcs(), order, g.h.start.value, Labels(), mu, pi, 0, 0)
      ensures selfLoops >= old(selfLoops) && (selfLoops > old(selfLoops) <==> SelfLoopAmong(g.h, order))
    {
      hide Relaxing, NoNegativeSelfLoop, Ordered;
      mu := seq(g.nStates, s requires 0 <= s < g.nStates => if g.h.IsAxiom(s) then Finite(0) else Infinite);
      RelaxingBegins(g.OutArcs(), order, g.h.start.value, Labels(), mu, pi);
      ghost var loops0 := selfLoops;
      assert order[|order|..] == [];
      for i := |order| downto 0
        invariant |mu| == |pi| == g.nStates && Relaxing(g.OutArcs(), order, g.h.start.value, Labels(), mu, pi, i, 0)
        invariant selfLoops >= loops0 && (selfLoops > loops0 <==> SelfLoopAmong(g.h, order[i..]))
      {
        assert order[i..] == [order[i]] + order[i + 1..];
        RelaxOutState(order, i);
      }
      assert order[0..] == order;
    }

    /** From the final state's in-arcs: it costs nothing, then every state in topological order. */
    method RelaxIn(order: seq<State>)
      requires g.Valid() && g.storesIn && g.h.final.Some? && NoNegativeSelfLoop(g.h)
      requires |mu| == g.nStates && pi == seq(g.nStates, _ => None)
      requires Ordered(g.InArcs(), order, g.h.final.value)
      modifies `mu, `pi
      ensures |mu| == |pi| == g.nStates && Relaxing(g.InArcs(), order, g.h.final.value, {}, mu, pi, 0, 0)
    {
      hide Relaxing, NoNegativeSelfLoop, Ordered;
      var final := g.h.final.value;
      mu := seq(g.nStates, _ => Infinite);
      mu := mu[final := Finite(0)];
      RelaxingBegins(g.InArcs(), order, final, {}, mu, pi);
      RootIsLast(g.InArcs(), order, final);
      var lists := g.InArcs().lists;
      for i := |order| downto 0
        invariant |mu| == |pi| == g.nStates && Relaxing(g.InArcs(), order, final, {}, mu, pi, i, 0)
      {
        var head := order[i];
        assert head in order;
        for k := 0 to |lists[head]|
          invariant |mu| == |pi| == g.nStates && Relaxing(g.InArcs(), order, final, {}, mu, pi, i + 1, k)
        {
          TryKeeps(g.InArcs(), order, final, {}, mu, pi, i + 1, k);
          ImproveTopDown(lists[head][k]);
        }
        NextState(g.InArcs(), order, final, {}, mu, pi, i + 1);
      }
    }

    /** Turns the pointers along the best path around: from tail to arc-towards-final into head to
        arc-from-start, with the cost from the start state. Fails when the start state has no pointer. */
    method RecoverPath(ghost order: seq<State>) returns (ok: bool, ghost p: seq<nat>, ghost vs: set<State>)
      requires g.Valid() && g.storesIn && g.h.final.Some? && g.h.start.Some? && |mu| == |pi| == g.nStates
      requires Ordered(g.InArcs(), order, g.h.final.value)
      requires Relaxing(g.InArcs(), order, g.h.final.value, {}, mu, pi, 0, 0)
      modifies `mu, `pi
      ensures |mu| == |pi| == g.nStates
      ensures ok <==> old(mu)[g.h.start.value].Finite?
      ensures ok ==> Path(g.h, g.h.start.value, p, g.h.final.value) && mu[g.h.final.value] == old(mu)[g.h.start.value]
      ensures ok ==> Back(g.h, ToHead, mu, pi, g.h.start.value, p, g.h.final.value, vs)
      ensures PointersValid(g.h, pi)
      ensures ok ==> forall s :: 0 <= s < g.nStates && s !in vs ==> mu[s] == old(mu)[s] && pi[s] == old(pi)[s]
    {
      hide Relaxing, Ordered, Back, Arrived, PiRight, Chain, Weight, PointersValid;
      var start, final := g.h.start.value, g.h.final.value;
      assert start < g.nStates && final < g.nStates;
      hide Graph.Valid, Adjacency.Valid;
      ghost var mu0, pi0 := mu, pi;
      p, vs := [], {};
      var lastarc: Option<nat> := None;
      var mucost := 0;
      var s: State := start;
      ghost var x: nat := 0;
      if mu0[start].Finite? {
        x := PlaceOf(order, mu0, pi0, start);
      }
      NothingWalked(g.h, mu, pi, start);
      InPointersValid(order, mu, pi);
      while s != final
        invariant |mu| == |pi| == g.nStates && s < g.nStates && x <= |order|
        invariant forall v :: v in vs ==> v in order[..x]
        invariant mu0[s].Finite? ==> x < |order| && order[x] == s && s !in vs
        invariant forall v :: 0 <= v < g.nStates && v !in vs ==> mu[v] == mu0[v] && pi[v] == pi0[v]
        invariant Path(g.h, start, p, s) && mucost == Weight(g.h, p)
        invariant mu0[start] == Extend(mu0[s], mucost)
        invariant mu0[s] == Infinite ==> vs == {}
        invariant Arrived(g.h, mu, pi, start, p, s, lastarc, vs)
        invariant PointersValid(g.h, pi)
        decreases |order| - x
      {
        PointerRight(order, mu0, pi0, s);
        if pi[s].None? {
          return false, p, vs;
        }
        var arc := pi[s].value;
        ArrivedBack(g.h, mu, pi, start, p, s, lastarc, mucost, vs);
        pi := pi[s := lastarc];
        mu := mu[s := Finite(mucost)];
        vs := vs + {s};
        mucost := mucost + g.h.arcs[arc].weight;
        lastarc := Some(arc);
        ghost var j := NextPlace(order, mu0, pi0, s, x);
        WalkedOn(g.h, mu, pi, start, p, s, arc, vs);
        p := p + [arc];
        assert order[..x] <= order[..j] && order[x] in order[..j];
        s, x := g.h.arcs[arc].head, j;
      }
      ArrivedBack(g.h, mu, pi, start, p, final, lastarc, mucost, vs);
      pi := pi[final := lastarc];
      mu := mu[final := Finite(mucost)];
      vs := vs + {final};
      FinalCostsNothing(order, mu0, pi0);
      ok := true;
    }

    lemma InPointersValid(order: seq<State>, mu0: seq<Distance>, pi0: seq<Option<nat>>)
      requires g.Valid() && g.storesIn && g.h.final.Some? && |mu0| == |pi0| == g.nStates
      requires Relaxing(g.InArcs(), order, g.h.final.value, {}, mu0, pi0, 0, 0)
      ensures PointersValid(g.h, pi0)
    {
      forall s | 0 <= s < |pi0| && pi0[s].Some? ensures pi0[s].value < |g.h.arcs| {
        assert PiRight(g.h, ToTail0, order, g.h.final.value, mu0, pi0, s);
      }
    }

    /** Before the pointers are turned around: what the pointer of `s` says. */
    lemma PointerRight(order: seq<State>, mu0: seq<Distance>, pi0: seq<Option<nat>>, s: State)
      requires g.Valid() && g.storesIn && g.h.final.Some? && |mu0| == |pi0| == g.nStates && s < g.nStates
      requires Relaxing(g.InArcs(), order, g.h.final.value, {}, mu0, pi0, 0, 0) && s != g.h.final.value
      ensures mu0[s] == Infinite <==> pi0[s].None?
      ensures pi0[s].Some? ==>
                var a := pi0[s].value;
                && a < |g.h.arcs| && g.h.arcs[a].tails[0] == s && g.h.arcs[a].head < g.nStates
                && mu0[s] == Extend(mu0[g.h.arcs[a].head], g.h.arcs[a].weight)
    {
      assert PiRight(g.h, ToTail0, order, g.h.final.value, mu0, pi0, s);
    }

    /** The pointer leads on to a later place of the order. */
    lemma NextPlace(order: seq<State>, mu0: seq<Distance>, pi0: seq<Option<nat>>, s: State, x: nat) returns (j: nat)
      requires g.Valid() && g.storesIn && g.h.final.Some? && |mu0| == |pi0| == g.nStates && s < g.nStates
      requires Ordered(g.InArcs(), order, g.h.final.value)
      requires Relaxing(g.InArcs(), order, g.h.final.value, {}, mu0, pi0, 0, 0) && s != g.h.final.value
      requires x < |order| && order[x] == s && pi0[s].Some?
      ensures x < j < |order| && pi0[s].value < |g.h.arcs| && order[j] == g.h.arcs[pi0[s].value].head
      ensures order[j] !in order[..j]
    {
      assert PiRight(g.h, ToTail0, order, g.h.final.value, mu0, pi0, s);
      var i, j' :| 0 <= i < j' < |order| && order[i] == s && order[j'] == g.h.arcs[pi0[s].value].head;
      j := j';
    }

    lemma FinalCostsNothing(order: seq<State>, mu0: seq<Distance>, pi0: seq<Option<nat>>)
      requires g.Valid() && g.storesIn && g.h.final.Some? && |mu0| == |pi0| == g.nStates
      requires Relaxing(g.InArcs(), order, g.h.final.value, {}, mu0, pi0, 0, 0)
      ensures mu0[g.h.final.value] == Finite(0)
    {
      assert PiRight(g.h, ToTail0, order, g.h.final.value, mu0, pi0, g.h.final.value);
    }

    lemma PlaceOf(order: seq<State>, mu0: seq<Distance>, pi0: seq<Option<nat>>, s: State) returns (x: nat)
      requires g.Valid() && g.storesIn && g.h.final.Some? && |mu0| == |pi0| == g.nStates && s < g.nStates
      requires Ordered(g.InArcs(), order, g.h.final.value) && mu0[s].Finite?
      requires Relaxing(g.InArcs(), order, g.h.final.value, {}, mu0, pi0, 0, 0)
      ensures x < |order| && order[x] == s
    {
      assert PiRight(g.h, ToTail0, order, g.h.final.value, mu0, pi0, s);
      ConnectedSelf(g.InArcs().Edges(), g.h.final.value);
      assert g.h.final.value in order;
      x :| 0 <= x < |order| && order[x] == s;
    }

    /** The whole computation. */
    method Compute() returns (r: Outcome)
      requires g.Valid() && NoNegativeSelfLoop(g.h) && |mu| == g.nStates && pi == seq(g.nStates, _ => None)
      requires backEdges == 0 && selfLoops == 0 && !markedAcyclic
      modifies this
      ensures r == NoFinalState <==> g.h.final.None?
      ensures r == NoArcsStored <==> g.h.final.Some? && !g.storesOut && !g.storesIn
      ensures r == NoStartState <==> g.h.final.Some? && (g.storesOut || g.storesIn) && g.h.start.None?
      ensures r in {HasCycle, NoPathRecovered, Found} ==> Searched(r)
      ensures r == Found ==> g.h.start.Some? && g.h.final.Some? && (g.storesOut || g.storesIn) && Marked()
      ensures markedAcyclic ==> r == Found
      ensures r !in {NoPathRecovered, Found} ==> mu == old(mu) && pi == old(pi)
    {
      hide Marked, Searched, NoNegativeSelfLoop;
      if g.h.final.None? {
        return NoFinalState;
      }
      if !g.storesOut && !g.storesIn {
        return NoArcsStored;
      }
      if g.h.start.None? {
        return NoStartState;
      }
      if g.storesOut {
        r := FromStart();
      } else {
        r := FromFinal();
      }
    }

    method FromStart() returns (r: Outcome)
      requires g.Valid() && NoNegativeSelfLoop(g.h) && |mu| == g.nStates && pi == seq(g.nStates, _ => None)
      requires backEdges == 0 && selfLoops == 0 && g.storesOut && g.h.start.Some? && g.h.final.Some? && !markedAcyclic
      modifies this
      ensures (markedAcyclic ==> r == Found) && (r == HasCycle ==> mu == old(mu) && pi == old(pi))
      ensures r in {HasCycle, Found} && Searched(r) && (r == Found ==> Marked())
    {
      hide Relaxing, Ordered, NoNegativeSelfLoop, LeadsBack, IsLeast, PointersValid, SelfLoopAmong, SelfLoopReached;
      hide Acyclic;
      var order := OrderFrom(g.OutArcs(), g.h.start.value);
      if backEdges > 0 {
        return HasCycle;
      }
      RelaxOut(order);
      OutIsLeast(order);
      markedAcyclic := selfLoops == 0;
      MarkedRight(order);
      CyclefreeReached();
      r := Found;
    }

    method FromFinal() returns (r: Outcome)
      requires g.Valid() && NoNegativeSelfLoop(g.h) && |mu| == g.nStates && pi == seq(g.nStates, _ => None)
      requires backEdges == 0 && selfLoops == 0 && !g.storesOut && g.storesIn && g.h.start.Some? && g.h.final.Some?
      requires !markedAcyclic
      modifies this
      ensures (markedAcyclic ==> r == Found) && (r == HasCycle ==> mu == old(mu) && pi == old(pi))
      ensures r in {HasCycle, NoPathRecovered, Found} && Searched(r) && (r == Found ==> Marked())
    {
      hide Relaxing, Ordered, NoNegativeSelfLoop, Back, Chain, IsLeast, PointersValid, SelfLoopReached, Acyclic;
      var order := OrderFrom(g.InArcs(), g.h.final.value);
      if backEdges > 0 {
        return HasCycle;
      }
      RelaxIn(order);
      InIsLeast(order);
      var ok, p, vs := RecoverPath(order);
      if !ok {
        return NoPathRecovered;
      }
      assert LeadsBack();
      markedAcyclic := selfLoops == 0;
      r := Found;
    }

    /** The outcome of a search, from whichever end it was made. */
    ghost predicate Searched(r: Outcome)
      requires g.Valid()
      reads this
    {
      && g.h.start.Some? && g.h.final.Some? && |mu| == |pi| == g.nStates
      && var start, final := g.h.start.value, g.h.final.value;
      && (g.storesOut || g.storesIn)
      && (r == HasCycle <==>
            !if g.storesOut then Acyclic(g.OutArcs().Edges(), start) else Acyclic(g.InArcs().Edges(), final))
      && (r == NoPathRecovered ==> !g.storesOut && IsLeast(g.h, ToHead, start, final, Infinite))
      && (r == Found ==> IsLeast(g.h, ToHead, start, final, mu[final]))
      && (r == Found && mu[final].Finite? ==> LeadsBack())
      && (r == Found && g.storesOut ==>
            forall s :: 0 <= s < g.nStates && s !in g.h.labels ==> IsLeast(g.h, ToHead, start, s, mu[s]))
      && (r == Found ==> PointersValid(g.h, pi))
      && (r == Found && !g.storesOut ==> mu[final].Finite?)
    }

    /** Following pi from the final state retraces some path from the start state. */
    ghost predicate LeadsBack()
      requires g.h.start.Some? && g.h.final.Some? && |mu| == |pi|
      reads `mu, `pi
    {
      exists p, vs :: Path(g.h, g.h.start.value, p, g.h.final.value)
                      && Back(g.h, ToHead, mu, pi, g.h.start.value, p, g.h.final.value, vs)
    }

    /** The mark as it is left by a search that has found its result. Only the out-arc branch counts self-loops;
        its mark tells whether what the start state reaches is free of cycles, the other's is always set. As a
        statement about the whole graph either is wrong exactly when it is set although there is a cycle, which
        a search cannot see where it does not come. */
    ghost predicate Marked()
      requires g.Valid() && g.h.start.Some? && g.h.final.Some? && (g.storesOut || g.storesIn)
      reads this
    {
      && (markedAcyclic <==> !(g.storesOut && SelfLoopReached()))
      && (g.storesOut ==> (markedAcyclic <==> CyclefreeFrom(ForwardEdges(g.h), g.h.start.value)))
      && ((markedAcyclic ==> Cyclefree(ForwardEdges(g.h))) <==>
            Cyclefree(ForwardEdges(g.h)) || (g.storesOut && SelfLoopReached()))
    }

    /** The search has met an arc from a state to itself. */
    ghost predicate SelfLoopReached()
      requires g.Valid() && g.h.start.Some? && g.h.final.Some? && (g.storesOut || g.storesIn)
    {
      exists a :: 0 <= a < |g.h.arcs| && g.h.arcs[a].tails[0] == g.h.arcs[a].head &&
        if g.storesOut then Connected(g.OutArcs().Edges(), g.h.start.value, g.h.arcs[a].head)
        else Connected(g.InArcs().Edges(), g.h.final.value, g.h.arcs[a].head)
    }

    lemma OutIsLeast(order: seq<State>)
      requires g.Valid() && g.storesOut && g.h.start.Some? && g.h.final.Some? && |mu| == |pi| == g.nStates
      requires Ordered(g.OutArcs(), order, g.h.start.value)
      requires Relaxing(g.OutArcs(), order, g.h.start.value, Labels(), mu, pi, 0, 0)
      ensures PointersValid(g.h, pi)
      ensures forall s :: 0 <= s < g.nStates && s !in g.h.labels ==> IsLeast(g.h, ToHead, g.h.start.value, s, mu[s])
      ensures mu[g.h.final.value].Finite? ==> LeadsBack()
    {
      hide Back, Chain;
      var start, final := g.h.start.value, g.h.final.value;
      forall s | 0 <= s < g.nStates && s !in g.h.labels ensures IsLeast(g.h, ToHead, start, s, mu[s]) {
        RelaxedIsLeast(g.OutArcs(), order, start, Labels(), mu, pi, s);
      }
      if mu[final].Finite? {
        var p := OutPath(order);
      }
    }

    lemma OutPath(order: seq<State>) returns (p: seq<nat>)
      requires g.Valid() && g.storesOut && g.h.start.Some? && g.h.final.Some? && |mu| == |pi| == g.nStates
      requires Ordered(g.OutArcs(), order, g.h.start.value) && mu[g.h.final.value].Finite?
      requires Relaxing(g.OutArcs(), order, g.h.start.value, Labels(), mu, pi, 0, 0)
      ensures Path(g.h, g.h.start.value, p, g.h.final.value)
      ensures exists vs :: Back(g.h, ToHead, mu, pi, g.h.start.value, p, g.h.final.value, vs)
    {
      var start, final := g.h.start.value, g.h.final.value;
      assert PiRight(g.h, ToHead, order, start, mu, pi, final);
      RootIsLast(g.OutArcs(), order, start);
      var i :| 0 <= i < |order| && order[i] == final;
      p := PiChain(g.OutArcs(), order, start, Labels(), mu, pi, i);
    }

    lemma InIsLeast(order: seq<State>)
      requires g.Valid() && g.storesIn && g.h.start.Some? && g.h.final.Some? && |mu| == |pi| == g.nStates
      requires Ordered(g.InArcs(), order, g.h.final.value)
      requires Relaxing(g.InArcs(), order, g.h.final.value, {}, mu, pi, 0, 0)
      ensures IsLeast(g.h, ToHead, g.h.start.value, g.h.final.value, mu[g.h.start.value])
    {
      RelaxedIsLeast(g.InArcs(), order, g.h.final.value, {}, mu, pi, g.h.start.value);
      LeastReversed(g.h, ToTail0, g.h.final.value, g.h.start.value, mu[g.h.start.value]);
    }

    lemma MarkedRight(order: seq<State>)
      requires g.Valid() && g.storesOut && g.h.start.Some? && g.h.final.Some?
      requires Ordered(g.OutArcs(), order, g.h.start.value)
      ensures SelfLoopAmong(g.h, order) <==> SelfLoopReached()
    {
    }

    lemma CyclefreeReached()
      requires g.Valid() && g.storesOut && g.h.start.Some? && g.h.final.Some?
      requires Acyclic(g.OutArcs().Edges(), g.h.start.value)
      ensures !SelfLoopReached() <==> CyclefreeFrom(ForwardEdges(g.h), g.h.start.value)
    {
      hide Connected, Acyclic;
      assert g.OutArcs().Edges() == ForwardEdges(g.h);
      CyclefreeExactly(ForwardEdges(g.h), g.h.start.value);
    }
  }

  /** Every pointer but those of axioms, which nobody follows, is an arc. */
  ghost predicate PointersValid(h: HG<int>, pi: seq<Option<nat>>) {
    forall s :: 0 <= s < |pi| && pi[s].Some? && !h.IsAxiom(s) ==> pi[s].value < |h.arcs|
  }

  /** The walk has come to `s` by `p`; behind it every pointer is turned around. */
  ghost predicate Arrived(h: HG<int>, mu: seq<Distance>, pi: seq<Option<nat>>, start: State, p: seq<nat>, s: State,
                          lastarc: Option<nat>, vs: set<State>)
    requires |mu| == |pi|
  {
    if p == [] then s == start && lastarc == None
    else
      var a := p[|p| - 1];
      && lastarc == Some(a) && a < |h.arcs| && |h.arcs[a].tails| > 0 && h.arcs[a].head == s
      && Back(h, ToHead, mu, pi, start, p[..|p| - 1], h.arcs[a].tails[0], vs)
  }

  lemma NothingWalked(h: HG<int>, mu: seq<Distance>, pi: seq<Option<nat>>, start: State)
    requires |mu| == |pi|
    ensures Arrived(h, mu, pi, start, [], start, None, {}) && Path(h, start, [], start) && Weight(h, []) == 0
  {
  }

  lemma WalkedOn(h: HG<int>, mu: seq<Distance>, pi: seq<Option<nat>>, start: State, p: seq<nat>, s: State, a: nat,
                 vs: set<State>)
    requires |mu| == |pi| && Path(h, start, p, s) && Back(h, ToHead, mu, pi, start, p, s, vs)
    requires a < |h.arcs| && |h.arcs[a].tails| > 0 && h.arcs[a].tails[0] == s
    ensures Path(h, start, p + [a], h.arcs[a].head) && Weight(h, p + [a]) == Weight(h, p) + h.arcs[a].weight
    ensures Arrived(h, mu, pi, start, p + [a], h.arcs[a].head, Some(a), vs)
  {
    ChainAppend(h, ToHead, start, p, s, a);
    WeightAppend(h, p, a);
    assert [a][1..] == [] && (p + [a])[..|p|] == p;
  }

  lemma ArrivedBack(h: HG<int>, mu: seq<Distance>, pi: seq<Option<nat>>, start: State, p: seq<nat>, s: State,
                    lastarc: Option<nat>, mucost: int, vs: set<State>)
    requires |mu| == |pi| && s < |mu| && s !in vs && Arrived(h, mu, pi, start, p, s, lastarc, vs)
    requires mucost == Weight(h, p)
    requires PointersValid(h, pi)
    ensures PointersValid(h, pi[s := lastarc])
    ensures Back(h, ToHead, mu[s := Finite(mucost)], pi[s := lastarc], start, p, s, vs + {s})
  {
    if p != [] {
      var a := p[|p| - 1];
      BackKept(h, ToHead, mu, pi, start, p[..|p| - 1], h.arcs[a].tails[0], vs,
               mu[s := Finite(mucost)], pi[s := lastarc], vs + {s});
    }
  }
}
