/** Hypergraphs for which the emptiness test or the useful states come out wrong. */
module EmptinessExamples {
  import opened Hypergraph
  import opened Walks
  import opened Derivability
  import opened ReachCounting
  import opened ForwardSearch
  import opened GraphUse
  import opened Empty

  // ----- A labelled first tail: 2 <- 1 with 1 labelled -----

  ghost function LooseArcAlone(allTails: bool): Indexed<int> {
    Indexed(HG([Arc(2, [1], 0)], Some(0), Some(2), map[1 := 4]), [[], [Mention(0, 0)], []], allTails)
  }

  lemma LooseArcStored(allTails: bool)
    ensures var g := LooseArcAlone(allTails); g.ByGraph() && g.Loose(0) && Reach<int>.Stored(g)
  {
    var g := LooseArcAlone(allTails);
    assert g.out[1][0] == Mention(0, 0);
  }

  /** The code takes this for a graph, although the documentation does not. So nothing leads from the start
      state 0 to the final state 2, which counts as empty but has a derivation. */
  lemma LooseArcIsMissed(allTails: bool)
    ensures var g := LooseArcAlone(allTails);
      && SearchLists(g, if allTails then AllOut else FirstTailOut) && g.ByGraph() && g.Loose(0)
      && g.h.final == Some(2) && !Found(g, 2) && Derivable(g.h, 2)
      && forall stored :: !PrunedEmpty(g.h, true, stored) && Misjudged(g, true, stored)
  {
    var g := LooseArcAlone(allTails);
    LooseArcStored(allTails);
    LooseIsUsable(g, 0);
    assert HasInArc(g.h, 2) by { assert g.h.arcs[0].head == 2; }
    GraphDerivable(g, 2);
    MeetsForward(g, 2);
  }

  /** 2 <- 1 0, listed under both tails. */
  ghost function OverBoth(labels: map<State, Sym>): Indexed<int> {
    Indexed(HG([Arc(2, [1, 0], 0)], Some(0), Some(2), labels), [[Mention(0, 1)], [Mention(0, 0)], []], true)
  }

  lemma OverBothStored(labels: map<State, Sym>)
    requires forall s :: s in labels ==> s < 2
    ensures var g := OverBoth(labels); Reach<int>.Stored(g) && g.h.arcs[0].tails[0] == 1 && g.h.arcs[0].tails[1] == 0
    ensures 1 in labels ==> !OverBoth(labels).ByGraph()
    ensures 1 !in labels && 2 !in labels && 0 in labels ==>
              OverBoth(labels).ByGraph() && LaterStart(OverBoth(labels), 0)
  {
    var g := OverBoth(labels);
    assert g.h.start == Some(0) && g.h.labels == labels && g.allTails;
    hide OverBoth;
    assert 1 in labels ==> !g.IsGraphArc(g.h.arcs[0]);
  }

  // ----- The start state as a further tail: 2 <- 1 0 with the start state 0 labelled -----

  ghost function LaterStartAlone(): Indexed<int> {
    OverBoth(map[0 := 4])
  }

  lemma LaterStartStored()
    ensures var g := LaterStartAlone(); SearchLists(g, AllOut) && g.ByGraph() && LaterStart(g, 0)
  {
    OverBothStored(map[0 := 4]);
  }

  lemma NothingForward()
    ensures var g := LaterStartAlone(); !Derivable(g.h, 1) && !Derivable(g.h, 2) && !Forward(g.h, 2) && !FromLoose(g, 2)
  {
    var g := LaterStartAlone();
    LaterStartStored();
    assert forall a: nat :: !g.Loose(a);
    GraphDerivable(g, 1);
    GraphDerivable(g, 2);
  }

  /** Listed under both of its tails, the arc leads from 0 to the final state 2, which counts as derived. But 1 has
      no derivation, so neither has 2. */
  lemma LaterStartIsFollowed()
    ensures var g := LaterStartAlone();
      && SearchLists(g, AllOut) && g.ByGraph() && LaterStart(g, 0)
      && g.h.final == Some(2) && Found(g, 2) && !Derivable(g.h, 2)
      && forall inArcs :: !PrunedEmpty(g.h, inArcs, AllOut) && Misjudged(g, inArcs, AllOut)
  {
    hide Forward, FromLoose, SearchMeets, Derivable;
    var g := LaterStartAlone();
    LaterStartStored();
    NothingForward();
    LaterIsSeen(g, 0);
    MeetsExactly(g, 2);
    assert g.h.arcs[0].head == 2 && g.h.arcs[0].tails[1] == 0;
  }

  /** And 1 counts as useful. */
  lemma LaterStartIsNoUse()
    ensures var g := LaterStartAlone();
      g.ByGraph() && CountsAsUseful(g, 2, 1) && !Useful(g.h, 2, 1) && !ServesGoal(g, 2)
  {
    hide CountsAsUseful, ServesGoal, SearchMeets, Derivable;
    var g := LaterStartAlone();
    LaterStartStored();
    NothingForward();
    LaterIsSeen(g, 0);
    ConnectedSelf(ForwardEdges(g.h), 2);
    assert 0 in SeenArcs(g) && LeadsTo(g.h, 0, 2) && 1 in g.h.arcs[0].tails;
    CountsIffShown(g, 2, 1);
    UsefulExactly(g, 2);
  }

  // ----- A goal found without one of its arcs: 2 <- 0 and 2 <- 1 with 1 labelled -----

  ghost function LooseArcBeside(allTails: bool): Indexed<int> {
    Indexed(HG([Arc(2, [0], 0), Arc(2, [1], 0)], Some(0), Some(2), map[1 := 4]),
            [[Mention(0, 0)], [Mention(1, 0)], []], allTails)
  }

  lemma LooseBesideStored(allTails: bool)
    ensures var g := LooseArcBeside(allTails); Reach<int>.Stored(g) && g.ByGraph() && g.Loose(1) && g.Lists(0, 0)
  {
    var g := LooseArcBeside(allTails);
    assert g.h.start == Some(0) && g.h.labels == map[1 := 4] && g.allTails == allTails;
    hide LooseArcBeside;
  }

  /** The goal 2 is found, but its tail 1 is not seen to be useful. */
  lemma LooseTailIsMissed(allTails: bool)
    ensures var g := LooseArcBeside(allTails);
      && Reach<int>.Stored(g) && g.ByGraph() && Found(g, 2)
      && Useful(g.h, 2, 1) && !CountsAsUseful(g, 2, 1) && !LooseArcsServe(g, 2)
  {
    hide CountsAsUseful, LooseArcsServe, ServesGoal, SearchMeets, Useful, Derivable;
    var g := LooseArcBeside(allTails);
    LooseBesideStored(allTails);
    StartIsMet(g);
    HeadIsMet(g, 0, 0);
    LooseIsUsable(g, 1);
    ConnectedSelf(ForwardEdges(g.h), 2);
    assert 1 in UsableArcs(g.h) && LeadsTo(g.h, 1, 2) && 1 in g.h.arcs[1].tails;
    assert !Shown(g.h, SeenArcs(g), 2, 1) by {
      if SearchMeets(g, 1) { MetIsHead(g, 1); }
    }
    CountsIffShown(g, 2, 1);
    UsefulExactly(g, 2);
    ServedByLooseArcs(g, 2);
  }

  // ----- No graphs -----

  ghost function IdleStartGrammar(): Indexed<int> {
    Indexed(HG([Arc(2, [1, 1], 0)], Some(0), Some(2), map[1 := 4]), [[], [Mention(0, 0), Mention(0, 1)], []], true)
  }

  lemma IdleStartStored()
    ensures var g := IdleStartGrammar(); Reach<int>.Stored(g) && !g.ByGraph()
  {
    var g := IdleStartGrammar();
    assert g.out[1][0] == Mention(0, 0) && g.out[1][1] == Mention(0, 1);
    assert !g.IsGraphArc(g.h.arcs[0]) by { assert g.h.arcs[0].tails[0] == 1; }
  }

  /** Stored by out-arcs, what is no graph can be misjudged by the quick test: 2 <- 1 1 with 1 labelled has
      a derivation of 2, but the idle start state 0 makes it count as empty. */
  lemma PrunedEmptyCanBeWrong(stored: OutStorage)
    requires stored != NoOut
    ensures var g := IdleStartGrammar();
      && SearchLists(g, stored) && !g.ByGraph() && g.h.final == Some(2) && PrunedEmpty(g.h, false, stored)
      && Derivable(g.h, 2) && Misjudged(g, false, stored)
  {
    var g := IdleStartGrammar();
    IdleStartStored();
    DerivableAxiom(g.h, 1);
    DerivableHead(g.h, 0);
    DerivableAxiom(g.h.(start := None), 1);
    DerivableHead(g.h.(start := None), 0);
    assert 0 !in g.h.arcs[0].tails;
  }

  ghost function NeededStartGrammar(): Indexed<int> {
    OverBoth(map[1 := 4])
  }

  lemma NeededStartStored()
    ensures var g := NeededStartGrammar(); Reach<int>.Stored(g) && !g.ByGraph()
  {
    OverBothStored(map[1 := 4]);
  }

  /** Where only first tails are listed, the derivation may even need the start state that the quick test takes for
      idle: 2 <- 1 0 with 1 labelled. */
  lemma PrunedStartIsNeeded()
    ensures var g := NeededStartGrammar();
      && SearchLists(g, FirstTailOut) && !g.ByGraph() && g.h.final == Some(2)
      && PrunedEmpty(g.h, false, FirstTailOut) && Misjudged(g, false, FirstTailOut)
      && Derivable(g.h, 2) && !Derivable(g.h.(start := None), 2)
  {
    var g := NeededStartGrammar();
    NeededStartStored();
    DerivableAxiom(g.h, 1);
    DerivableAxiom(g.h, 0);
    DerivableHead(g.h, 0);
    NothingWithoutStart(g.h.(start := None));
  }

  lemma NothingWithoutStart(h: HG<int>)
    requires h.arcs == [Arc(2, [1, 0], 0)] && h.start.None? && h.labels == map[1 := 4]
    ensures !Derivable(h, 2)
  {
    forall t ensures !Derives(h, false, t, 2) {
      if Derives(h, false, t, 2) {
        DerivesAllAt(h, false, t.kids, [1, 0], 1);
      }
    }
  }
}
