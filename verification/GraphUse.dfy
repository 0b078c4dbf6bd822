/** Which states the search takes for useful, and when those are the useful ones. */
module GraphUse {
  import opened Hypergraph
  import opened Walks
  import opened Derivability
  import opened ReachCounting
  import opened ForwardSearch

  /** What the search answers: the goal itself when it has been found, and what the recorded edges lead to. */
  ghost predicate CountsAsUseful<W>(g: Indexed<W>, goal: State, s: State) {
    if s == goal then Found(g, goal) else Connected(Recorded(g), goal, s)
  }

  lemma UsefulIff<W>(h: HG<W>, goal: State, s: State)
    ensures Useful(h, goal, s) <==>
              if s == goal then Derivable(h, goal) else Connected(EdgesOver(h, UsableArcs(h)), goal, s)
  {
    hide Derivable;
    forall v: State, u: State ensures (v, u) in EdgesOver(h, UsableArcs(h)) <==> Edge(h, v, u) {
      if Edge(h, v, u) {
        var a: nat :| Usable(h, a) && h.arcs[a].head == v && u in h.arcs[a].tails;
        UsableTails(h, a);
        assert a in UsableArcs(h);
      }
    }
    UsefulIffConnected(h, EdgesOver(h, UsableArcs(h)), goal, s);
  }

  /** In other hypergraphs the answer is right. */
  lemma UsefulByCounting<W>(g: Indexed<W>, goal: State, s: State)
    requires !g.ByGraph()
    ensures CountsAsUseful(g, goal, s) <==> Useful(g.h, goal, s)
  {
    UsefulIff(g.h, goal, s);
  }

  // ----- Along first tails -----

  /** First tails lead from the arc to the goal. */
  ghost predicate LeadsTo<W>(h: HG<W>, a: nat, goal: State) {
    a < |h.arcs| && Connected(ForwardEdges(h), h.arcs[a].head, goal)
  }

  lemma LeadsInside<W>(h: HG<W>, a: nat, goal: State)
    requires LeadsTo(h, a, goal)
    ensures a < |h.arcs|
  {
  }

  /** Some arc of the set has `u` as a tail and leads to the goal. */
  ghost predicate Shown<W>(h: HG<W>, arcs: set<nat>, goal: State, u: State) {
    exists a :: a in arcs && LeadsTo(h, a, goal) && u in h.arcs[a].tails
  }

  /** With an arc the set has all those that take its head as their first tail. */
  ghost predicate ClosedForward<W>(h: HG<W>, arcs: set<nat>) {
    forall a, b ::
      (a in arcs && a < |h.arcs| && 0 <= b < |h.arcs| && |h.arcs[b].tails| > 0 && h.arcs[b].tails[0] == h.arcs[a].head)
        ==> b in arcs
  }

  lemma {:induction false} WalkBack<W>(g: Indexed<W>, arcs: set<nat>, a: nat, path: seq<State>, goal: State)
    requires g.ByGraph() && ClosedForward(g.h, arcs) && a in arcs && a < |g.h.arcs|
    requires Walk(ForwardEdges(g.h), g.h.arcs[a].head, path, goal)
    ensures Connected(EdgesOver(g.h, arcs), goal, g.h.arcs[a].head)
    decreases |path|
  {
    var over := EdgesOver(g.h, arcs);
    if path == [] {
      ConnectedSelf(over, goal);
    } else {
      var b :| 0 <= b < |g.h.arcs| && |g.h.arcs[b].tails| > 0
        && (g.h.arcs[a].head, path[0]) == (g.h.arcs[b].tails[0], g.h.arcs[b].head);
      WalkBack(g, arcs, b, path[1..], goal);
      assert (path[0], g.h.arcs[a].head) in over;
      ConnectedEnd(over, goal, path[0], g.h.arcs[a].head);
    }
  }

  lemma {:induction false} WalkShows<W>(g: Indexed<W>, arcs: set<nat>, goal: State, v: State, path: seq<State>,
                                        u: State)
    requires g.ByGraph() && Connected(ForwardEdges(g.h), v, goal) && Walk(EdgesOver(g.h, arcs), v, path, u)
    ensures v == u || Shown(g.h, arcs, goal, u)
    decreases |path|
  {
    if path != [] {
      var a :| a in arcs && a < |g.h.arcs| && path[0] in g.h.arcs[a].tails && g.h.arcs[a].head == v;
      assert LeadsTo(g.h, a, goal);
      if path[0] == u {
        assert Shown(g.h, arcs, goal, u);
      } else {
        TailOfArc(g, arcs, a, path[0], path[1..], u);
        ConnectedStep(ForwardEdges(g.h), path[0], v, goal);
        WalkShows(g, arcs, goal, path[0], path[1..], u);
      }
    }
  }

  /** A tail from which the edges lead on is a head itself, so it is the arc's first tail. */
  lemma TailOfArc<W>(g: Indexed<W>, arcs: set<nat>, a: nat, v: State, path: seq<State>, u: State)
    requires g.ByGraph() && a < |g.h.arcs| && v in g.h.arcs[a].tails
    requires Walk(EdgesOver(g.h, arcs), v, path, u) && v != u
    ensures (v, g.h.arcs[a].head) in ForwardEdges(g.h)
  {
    var b :| b in arcs && b < |g.h.arcs| && g.h.arcs[b].head == v;
    assert g.IsGraphArc(g.h.arcs[b]) && g.IsGraphArc(g.h.arcs[a]);
  }

  /** The edges of a closed set of arcs lead from the goal to exactly the tails of its arcs that lead to the goal. */
  lemma ConnectedIffShown<W>(g: Indexed<W>, arcs: set<nat>, goal: State, u: State)
    requires g.ByGraph() && ClosedForward(g.h, arcs) && u != goal
    ensures Connected(EdgesOver(g.h, arcs), goal, u) <==> Shown(g.h, arcs, goal, u)
  {
    if Connected(EdgesOver(g.h, arcs), goal, u) {
      var path :| Walk(EdgesOver(g.h, arcs), goal, path, u);
      ConnectedSelf(ForwardEdges(g.h), goal);
      WalkShows(g, arcs, goal, goal, path, u);
    }
    if Shown(g.h, arcs, goal, u) {
      var a :| a in arcs && LeadsTo(g.h, a, goal) && u in g.h.arcs[a].tails;
      var path :| Walk(ForwardEdges(g.h), g.h.arcs[a].head, path, goal);
      WalkBack(g, arcs, a, path, goal);
      assert (g.h.arcs[a].head, u) in EdgesOver(g.h, arcs);
      ConnectedEnd(EdgesOver(g.h, arcs), goal, g.h.arcs[a].head, u);
    }
  }

  lemma SeenIsClosed<W>(g: Indexed<W>)
    requires g.ByGraph()
    ensures ClosedForward(g.h, SeenArcs(g))
  {
    hide SearchMeets;
    forall a, b | a in SeenArcs(g) && 0 <= b < |g.h.arcs| && |g.h.arcs[b].tails| > 0
        && g.h.arcs[b].tails[0] == g.h.arcs[a].head
      ensures b in SeenArcs(g)
    {
      var u :| u in g.h.arcs[a].tails && g.Lists(a, u) && SearchMeets(g, u);
      HeadIsMet(g, a, u);
      assert g.Lists(b, g.h.arcs[b].tails[0]);
    }
  }

  lemma UsableIsClosed<W>(g: Indexed<W>)
    requires g.ByGraph()
    ensures ClosedForward(g.h, UsableArcs(g.h))
  {
    hide Derivable;
    forall a, b | a in UsableArcs(g.h) && 0 <= b < |g.h.arcs| && |g.h.arcs[b].tails| > 0
        && g.h.arcs[b].tails[0] == g.h.arcs[a].head
      ensures b in UsableArcs(g.h)
    {
      DerivableHead(g.h, a);
      FirstTailSuffices(g, b);
    }
  }

  lemma CountsIffShown<W>(g: Indexed<W>, goal: State, u: State)
    requires g.ByGraph() && u != goal
    ensures CountsAsUseful(g, goal, u) <==> Shown(g.h, SeenArcs(g), goal, u)
    ensures Useful(g.h, goal, u) <==> Shown(g.h, UsableArcs(g.h), goal, u)
  {
    SeenIsClosed(g);
    ConnectedIffShown(g, SeenArcs(g), goal, u);
    UsableIsClosed(g);
    ConnectedIffShown(g, UsableArcs(g.h), goal, u);
    UsefulIff(g.h, goal, u);
  }

  // ----- When the answer is right -----

  /** What a caller can check by following first tails. A labelled goal is the start state; a goal that an arc with
      a labelled first tail leads to is met. Of the arcs that lead to the goal, those with the start state as a
      further tail can be used; and the tails of those that can be used thanks to labels only are tails of arcs
      that are seen and lead to the goal. */
  ghost predicate ServesGoal<W>(g: Indexed<W>, goal: State) {
    && (goal in g.h.labels ==> g.h.start == Some(goal))
    && (FromLoose(g, goal) ==> SearchMeets(g, goal))
    && (forall a: nat :: LeadsTo(g.h, a, goal) ==> ServesArc(g, goal, a))
  }

  ghost predicate ServesArc<W>(g: Indexed<W>, goal: State, a: nat)
    requires a < |g.h.arcs|
  {
    && (LaterStart(g, a) ==> Supported(g, g.h.arcs[a].tails[0]))
    && (g.Loose(a) || (|g.h.arcs[a].tails| > 0 && FromLoose(g, g.h.arcs[a].tails[0])) ==>
          forall u :: u in g.h.arcs[a].tails ==> Shown(g.h, SeenArcs(g), goal, u))
  }

  /** Where only first tails are listed or the start state has no label, this is enough: each arc with a labelled
      first tail that leads to the goal has its head met, and its tails are tails of arcs that the search follows
      to the goal. */
  ghost predicate LooseArcsServe<W>(g: Indexed<W>, goal: State) {
    && (goal in g.h.labels ==> g.h.start == Some(goal))
    && forall a: nat :: g.Loose(a) && LeadsTo(g.h, a, goal) ==>
         Forward(g.h, g.h.arcs[a].head) && forall u :: u in g.h.arcs[a].tails ==> ShownForward(g.h, goal, u)
  }

  ghost predicate ShownForward<W>(h: HG<W>, goal: State, u: State) {
    exists b: nat :: LeadsTo(h, b, goal) && u in h.arcs[b].tails && Forward(h, h.arcs[b].tails[0])
  }

  /** In a graph, first tails decide: the states taken for useful are the useful ones exactly when the search
      serves the goal. */
  lemma UsefulExactly<W>(g: Indexed<W>, goal: State)
    requires g.ByGraph()
    ensures (forall s: State :: CountsAsUseful(g, goal, s) <==> Useful(g.h, goal, s)) <==> ServesGoal(g, goal)
  {
    hide CountsAsUseful, Useful, ServesArc;
    if ServesGoal(g, goal) {
      forall s: State ensures CountsAsUseful(g, goal, s) <==> Useful(g.h, goal, s) {
        if s == goal {
          GoalServed(g, goal);
        } else {
          CountsIffShown(g, goal, s);
          ShownAlike(g, goal, s);
        }
      }
    }
    if forall s: State :: CountsAsUseful(g, goal, s) <==> Useful(g.h, goal, s) {
      GoalAlike(g, goal);
      GraphDerivable(g, goal);
      if goal in g.h.labels { MetIsHead(g, goal); }
      forall a: nat | LeadsTo(g.h, a, goal) ensures ServesArc(g, goal, a) {
        forall s: State | s != goal
          ensures Shown(g.h, SeenArcs(g), goal, s) <==> Shown(g.h, UsableArcs(g.h), goal, s)
        {
          CountsIffShown(g, goal, s);
        }
        ArcServed(g, goal, a);
      }
    }
  }

  lemma GoalAlike<W>(g: Indexed<W>, goal: State)
    requires g.ByGraph()
    ensures CountsAsUseful(g, goal, goal) <==> SearchMeets(g, goal)
    ensures Useful(g.h, goal, goal) <==> Derivable(g.h, goal)
  {
    UsefulIff(g.h, goal, goal);
  }

  lemma ArcServed<W>(g: Indexed<W>, goal: State, a: nat)
    requires g.ByGraph() && LeadsTo(g.h, a, goal) && (Derivable(g.h, goal) <==> SearchMeets(g, goal))
    requires forall s: State :: s != goal ==>
               (Shown(g.h, SeenArcs(g), goal, s) <==> Shown(g.h, UsableArcs(g.h), goal, s))
    ensures ServesArc(g, goal, a)
  {
    hide Shown, Derivable, SearchMeets, FromLoose, Forward;
    var x := g.h.arcs[a].tails[0];
    if LaterStart(g, a) {
      LaterServed(g, goal, a);
    }
    if g.Loose(a) || FromLoose(g, x) {
      GraphDerivable(g, x);
      FirstTailSuffices(g, a);
      forall u | u in g.h.arcs[a].tails ensures Shown(g.h, SeenArcs(g), goal, u) {
        TailServed(g, goal, a, u);
      }
    }
  }

  lemma LaterServed<W>(g: Indexed<W>, goal: State, a: nat)
    requires g.ByGraph() && LaterStart(g, a) && LeadsTo(g.h, a, goal)
    requires Derivable(g.h, goal) <==> SearchMeets(g, goal)
    requires forall s: State :: s != goal ==>
               (Shown(g.h, SeenArcs(g), goal, s) <==> Shown(g.h, UsableArcs(g.h), goal, s))
    ensures Supported(g, g.h.arcs[a].tails[0])
  {
    hide Seen, Usable, Supported;
    var x := g.h.arcs[a].tails[0];
    LaterIsSeen(g, a);
    GraphDerivable(g, x);
    if x == goal {
      FirstTailIsListed(g);
      ConnectedMore(ForwardEdges(g.h), ListedEdges(g), g.h.arcs[a].head, goal);
      ConnectedJoin(ListedEdges(g), g.h.start.value, g.h.arcs[a].head, goal);
    } else {
      assert a in SeenArcs(g);
      assert Shown(g.h, SeenArcs(g), goal, x);
      var b :| b in UsableArcs(g.h) && LeadsTo(g.h, b, goal) && x in g.h.arcs[b].tails;
      UsableTails(g.h, b);
    }
  }

  lemma TailServed<W>(g: Indexed<W>, goal: State, a: nat, u: State)
    requires g.ByGraph() && Usable(g.h, a) && LeadsTo(g.h, a, goal) && u in g.h.arcs[a].tails
    requires Derivable(g.h, goal) <==> SearchMeets(g, goal)
    requires forall s: State :: s != goal ==>
               (Shown(g.h, SeenArcs(g), goal, s) <==> Shown(g.h, UsableArcs(g.h), goal, s))
    ensures Shown(g.h, SeenArcs(g), goal, u)
  {
    hide Seen, SearchMeets;
    if u == goal {
      GoalIsHead(g, a, goal);
      SeenBy(g, a);
      assert a in SeenArcs(g);
    } else {
      assert a in UsableArcs(g.h);
      assert Shown(g.h, UsableArcs(g.h), goal, u);
    }
  }

  lemma GoalIsHead<W>(g: Indexed<W>, a: nat, goal: State)
    requires g.ByGraph() && LeadsTo(g.h, a, goal)
    ensures goal !in g.h.labels
    ensures goal in g.h.arcs[a].tails ==> goal == g.h.arcs[a].tails[0]
  {
    assert g.IsGraphArc(g.h.arcs[a]);
    if g.h.arcs[a].head != goal {
      var u := ConnectedTarget(ForwardEdges(g.h), g.h.arcs[a].head, goal);
      var b: nat :| b < |g.h.arcs| && g.h.arcs[b].head == goal;
      assert g.IsGraphArc(g.h.arcs[b]);
    }
  }

  lemma MetToGoal<W>(g: Indexed<W>, goal: State, x: State)
    requires g.ByGraph() && ServesGoal(g, goal) && SearchMeets(g, x) && Connected(ForwardEdges(g.h), x, goal)
    ensures Derivable(g.h, x)
  {
    hide Shown, FromLoose, SearchMeets;
    forall b: nat | LaterStart(g, b) && Connected(ForwardEdges(g.h), g.h.arcs[b].head, x)
      ensures Derivable(g.h, g.h.arcs[b].head)
    {
      ConnectedJoin(ForwardEdges(g.h), g.h.arcs[b].head, x, goal);
      assert LeadsTo(g.h, b, goal) && ServesArc(g, goal, b);
      GraphDerivable(g, g.h.arcs[b].tails[0]);
      FirstTailSuffices(g, b);
    }
    MetIsDerivable(g, x);
  }

  lemma GoalServed<W>(g: Indexed<W>, goal: State)
    requires g.ByGraph() && ServesGoal(g, goal)
    ensures CountsAsUseful(g, goal, goal) <==> Useful(g.h, goal, goal)
  {
    hide Useful, Recorded, FromLater, ServesArc;
    UsefulIff(g.h, goal, goal);
    if SearchMeets(g, goal) {
      ConnectedSelf(ForwardEdges(g.h), goal);
      MetToGoal(g, goal, goal);
    }
    if Derivable(g.h, goal) {
      GraphDerivable(g, goal);
      MeetsExactly(g, goal);
      StartIsMet(g);
    }
  }

  lemma ShownAlike<W>(g: Indexed<W>, goal: State, s: State)
    requires g.ByGraph() && ServesGoal(g, goal)
    ensures Shown(g.h, SeenArcs(g), goal, s) <==> Shown(g.h, UsableArcs(g.h), goal, s)
  {
    hide Seen, Usable, ServesGoal;
    if Shown(g.h, SeenArcs(g), goal, s) {
      var a :| a in SeenArcs(g) && LeadsTo(g.h, a, goal) && s in g.h.arcs[a].tails;
      SeenServes(g, goal, a);
      assert a in UsableArcs(g.h);
    }
    if Shown(g.h, UsableArcs(g.h), goal, s) {
      var a :| a in UsableArcs(g.h) && LeadsTo(g.h, a, goal) && s in g.h.arcs[a].tails;
      UsableServed(g, goal, a, s);
    }
  }

  lemma SeenServes<W>(g: Indexed<W>, goal: State, a: nat)
    requires g.ByGraph() && ServesGoal(g, goal) && Seen(g, a) && LeadsTo(g.h, a, goal)
    ensures Usable(g.h, a)
  {
    hide Shown, FromLoose, SearchMeets;
    var x := g.h.arcs[a].tails[0];
    SeenBy(g, a);
    if SearchMeets(g, x) {
      assert (x, g.h.arcs[a].head) in ForwardEdges(g.h);
      ConnectedStep(ForwardEdges(g.h), x, g.h.arcs[a].head, goal);
      MetToGoal(g, goal, x);
    } else {
      assert ServesArc(g, goal, a);
      GraphDerivable(g, x);
    }
    FirstTailSuffices(g, a);
  }

  lemma UsableServed<W>(g: Indexed<W>, goal: State, a: nat, s: State)
    requires g.ByGraph() && ServesGoal(g, goal) && Usable(g.h, a) && LeadsTo(g.h, a, goal) && s in g.h.arcs[a].tails
    ensures Shown(g.h, SeenArcs(g), goal, s)
  {
    hide FromLoose, SearchMeets;
    var x := g.h.arcs[a].tails[0];
    GraphDerivable(g, x);
    assert ServesArc(g, goal, a);
    if Forward(g.h, x) {
      MeetsExactly(g, x);
      SeenBy(g, a);
      assert a in SeenArcs(g);
    }
  }

  // ----- The simpler condition -----

  /** Without arcs that have the start state as a listed further tail, only arcs with a labelled first tail matter. */
  lemma ServedByLooseArcs<W>(g: Indexed<W>, goal: State)
    requires g.ByGraph() && (g.allTails ==> g.h.start.value !in g.h.labels)
    ensures ServesGoal(g, goal) <==> LooseArcsServe(g, goal)
  {
    hide Shown, ShownForward, Forward, FromLoose, SearchMeets, LeadsTo, ServesArc;
    forall u ensures Shown(g.h, SeenArcs(g), goal, u) <==> ShownForward(g.h, goal, u) {
      ShownByForward(g, goal, u);
    }
    MeetsForward(g, goal);
    if ServesGoal(g, goal) {
      forall a: nat | g.Loose(a) && LeadsTo(g.h, a, goal)
        ensures Forward(g.h, g.h.arcs[a].head) && forall u :: u in g.h.arcs[a].tails ==> ShownForward(g.h, goal, u)
      {
        assert ServesArc(g, goal, a);
        LooseServed(g, goal, a);
        LooseHeadIsForward(g, goal, a);
      }
    }
    if LooseArcsServe(g, goal) {
      if FromLoose(g, goal) { LooseGoal(g, goal); }
      forall a: nat | LeadsTo(g.h, a, goal) ensures a < |g.h.arcs| && ServesArc(g, goal, a) {
        LeadsInside(g.h, a, goal);
        LooseArc(g, goal, a);
      }
    }
  }

  lemma ShownByForward<W>(g: Indexed<W>, goal: State, u: State)
    requires g.ByGraph() && (g.allTails ==> g.h.start.value !in g.h.labels)
    ensures Shown(g.h, SeenArcs(g), goal, u) <==> ShownForward(g.h, goal, u)
  {
    hide LeadsTo, SearchMeets, Forward, Seen;
    forall b: nat | b < |g.h.arcs| ensures Seen(g, b) <==> Forward(g.h, g.h.arcs[b].tails[0]) {
      SeenBy(g, b);
      MeetsForward(g, g.h.arcs[b].tails[0]);
    }
    forall b: nat | LeadsTo(g.h, b, goal) ensures b < |g.h.arcs| {
      LeadsInside(g.h, b, goal);
    }
    if ShownForward(g.h, goal, u) {
      var b: nat :| LeadsTo(g.h, b, goal) && u in g.h.arcs[b].tails && Forward(g.h, g.h.arcs[b].tails[0]);
      assert b in SeenArcs(g);
    }
  }

  lemma LooseHeadIsForward<W>(g: Indexed<W>, goal: State, a: nat)
    requires g.ByGraph() && (g.allTails ==> g.h.start.value !in g.h.labels)
    requires ServesGoal(g, goal) && g.Loose(a) && LeadsTo(g.h, a, goal)
    ensures Forward(g.h, g.h.arcs[a].head)
  {
    var edges, v := ForwardEdges(g.h), g.h.arcs[a].head;
    ConnectedSelf(edges, v);
    assert FromLoose(g, v);
    MeetsForward(g, goal);
    if v != goal {
      var path :| Walk(edges, v, path, goal);
      var b: nat :| b < |g.h.arcs| && (v, path[0]) == (g.h.arcs[b].tails[0], g.h.arcs[b].head);
      assert Walk(edges, path[0], path[1..], goal);
      assert LeadsTo(g.h, b, goal) && ServesArc(g, goal, b);
      assert Shown(g.h, SeenArcs(g), goal, v);
      ShownByForward(g, goal, v);
      var c: nat :| LeadsTo(g.h, c, goal) && v in g.h.arcs[c].tails && Forward(g.h, g.h.arcs[c].tails[0]);
      assert g.IsGraphArc(g.h.arcs[a]) && g.IsGraphArc(g.h.arcs[c]);
    }
  }

  lemma LooseServed<W>(g: Indexed<W>, goal: State, a: nat)
    requires g.Loose(a) && ServesArc(g, goal, a)
    ensures forall u :: u in g.h.arcs[a].tails ==> Shown(g.h, SeenArcs(g), goal, u)
  {
  }

  lemma LooseGoal<W>(g: Indexed<W>, goal: State)
    requires g.ByGraph() && LooseArcsServe(g, goal) && FromLoose(g, goal)
    ensures SearchMeets(g, goal)
  {
    var a: nat :| g.Loose(a) && Connected(ForwardEdges(g.h), g.h.arcs[a].head, goal);
    assert LeadsTo(g.h, a, goal);
    ConnectedJoin(ForwardEdges(g.h), g.h.start.value, g.h.arcs[a].head, goal);
    MeetsExactly(g, goal);
  }

  lemma LooseArc<W>(g: Indexed<W>, goal: State, a: nat)
    requires g.ByGraph() && (g.allTails ==> g.h.start.value !in g.h.labels)
    requires LooseArcsServe(g, goal) && LeadsTo(g.h, a, goal)
    ensures ServesArc(g, goal, a)
  {
    var edges, x := ForwardEdges(g.h), g.h.arcs[a].tails[0];
    MeetsForward(g, x);
    if FromLoose(g, x) {
      var b: nat :| g.Loose(b) && Connected(edges, g.h.arcs[b].head, x);
      assert (x, g.h.arcs[a].head) in edges;
      ConnectedStep(edges, x, g.h.arcs[a].head, goal);
      ConnectedJoin(edges, g.h.arcs[b].head, x, goal);
      assert LeadsTo(g.h, b, goal);
      ConnectedJoin(edges, g.h.start.value, g.h.arcs[b].head, x);
      SeenBy(g, a);
      assert a in SeenArcs(g);
    }
    forall u | u in g.h.arcs[a].tails && (g.Loose(a) || FromLoose(g, x)) ensures Shown(g.h, SeenArcs(g), goal, u) {
      ShownByForward(g, goal, u);
    }
  }
}
