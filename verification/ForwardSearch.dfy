/** The shortcut for graphs: a search along the out-lists, what it meets, and where it goes wrong, because the
    program also takes arcs with a labelled first tail for graph arcs and searches lists of all tails as they are. */
module ForwardSearch {
  import opened Hypergraph
  import opened Walks
  import opened Derivability
  import opened ReachCounting

  ghost predicate Forward<W>(h: HG<W>, s: State) {
    h.start.Some? && Connected(ForwardEdges(h), h.start.value, s)
  }

  /** What the search follows: from a state to the heads of the arcs listed under it. */
  ghost function ListedEdges<W>(g: Indexed<W>): set<(State, State)> {
    set a: nat, u | a < |g.h.arcs| && u in g.h.arcs[a].tails && g.Lists(a, u) :: (u, g.h.arcs[a].head)
  }

  ghost predicate SearchMeets<W>(g: Indexed<W>, s: State) {
    g.h.start.Some? && Connected(ListedEdges(g), g.h.start.value, s)
  }

  /** What the search is to find. */
  ghost predicate Found<W>(g: Indexed<W>, s: State) {
    if g.ByGraph() then SearchMeets(g, s) else Derivable(g.h, s)
  }

  /** The arc is listed under a state that the search meets. */
  ghost predicate Seen<W>(g: Indexed<W>, a: nat) {
    a < |g.h.arcs| && exists u :: u in g.h.arcs[a].tails && g.Lists(a, u) && SearchMeets(g, u)
  }

  // ----- What the search keeps -----

  /** The mentions in `done` have led to their heads and to their edges. */
  ghost predicate ForwardRight<W>(g: Indexed<W>, reached: set<State>, outside: set<(State, State)>, computeUseful: bool,
                                  done: set<Mention>, next: set<State>) {
    && (forall s :: s in reached ==> s < |g.out| && SearchMeets(g, s))
    && (forall m :: m in done ==> Followed(g, reached, m, next))
    && (computeUseful ==> EdgesOfDone(g, outside, done))
  }

  ghost predicate Followed<W>(g: Indexed<W>, reached: set<State>, m: Mention, next: set<State>) {
    && ListedAt(g, m)
    && g.h.arcs[m.arc].tails[m.pos] in reached && g.h.arcs[m.arc].head in reached + next
  }

  ghost predicate ListedAt<W>(g: Indexed<W>, m: Mention) {
    m.arc < |g.h.arcs| && m.pos < |g.h.arcs[m.arc].tails| && g.Lists(m.arc, g.h.arcs[m.arc].tails[m.pos])
  }

  lemma ForwardLatched<W>(g: Indexed<W>, reached: set<State>, outside: set<(State, State)>, computeUseful: bool,
                          done: set<Mention>, s: State)
    requires ForwardRight(g, reached, outside, computeUseful, done, {s}) && s < |g.out| && SearchMeets(g, s)
    ensures ForwardRight(g, reached + {s}, outside, computeUseful, done, {})
  {
    hide SearchMeets, EdgesOfDone;
  }

  ghost predicate DoneEdge<W>(g: Indexed<W>, done: set<Mention>, v: State, u: State) {
    exists m :: m in done && m.arc < |g.h.arcs| && g.h.arcs[m.arc].head == v && u in g.h.arcs[m.arc].tails
  }

  ghost predicate EdgesOfDone<W>(g: Indexed<W>, outside: set<(State, State)>, done: set<Mention>) {
    forall v: State, u: State :: (v, u) in outside <==> DoneEdge(g, done, v, u)
  }

  lemma EdgesOfDoneGrows<W>(g: Indexed<W>, outside: set<(State, State)>, done: set<Mention>, m: Mention)
    requires EdgesOfDone(g, outside, done) && m.arc < |g.h.arcs|
    ensures EdgesOfDone(g, outside + EdgesOf(g.h.arcs[m.arc]), done + {m})
  {
    forall v: State, u: State
      ensures (v, u) in outside + EdgesOf(g.h.arcs[m.arc]) <==> DoneEdge(g, done + {m}, v, u)
    {
      if DoneEdge(g, done, v, u) {
        var b :| b in done && b.arc < |g.h.arcs| && g.h.arcs[b.arc].head == v && u in g.h.arcs[b.arc].tails;
        assert b in done + {m};
      }
      if (v, u) in EdgesOf(g.h.arcs[m.arc]) {
        assert m in done + {m};
      }
    }
  }

  lemma StartIsMet<W>(g: Indexed<W>)
    requires g.h.start.Some?
    ensures SearchMeets(g, g.h.start.value)
  {
    ConnectedSelf(ListedEdges(g), g.h.start.value);
  }

  lemma HeadIsMet<W>(g: Indexed<W>, a: nat, u: State)
    requires a < |g.h.arcs| && u in g.h.arcs[a].tails && g.Lists(a, u) && SearchMeets(g, u)
    ensures SearchMeets(g, g.h.arcs[a].head)
  {
    assert (u, g.h.arcs[a].head) in ListedEdges(g);
    ConnectedEnd(ListedEdges(g), g.h.start.value, u, g.h.arcs[a].head);
  }

  /** When every mention of a reached state has been followed, all that the lists lead to has been reached. */
  lemma ForwardReached<W>(g: Indexed<W>, reached: set<State>, done: set<Mention>)
    requires g.Valid() && g.ByGraph() && g.StoresOutArcs() && g.h.start.value in reached
    requires forall s :: s in reached ==> AllDone(g, done, s)
    requires forall m :: m in done ==> Followed(g, reached, m, {})
    ensures forall s: State :: SearchMeets(g, s) ==> s in reached
  {
    forall e | e in ListedEdges(g) && e.0 in reached ensures e.1 in reached {
      var a: nat :| a < |g.h.arcs| && g.Lists(a, e.0) && e.1 == g.h.arcs[a].head;
      var m := ListedMention(g, a, e.0);
      assert AllDone(g, done, e.0);
      assert m in done;
      assert Followed(g, reached, m, {});
    }
    forall s: State | SearchMeets(g, s) ensures s in reached {
      var path :| Walk(ListedEdges(g), g.h.start.value, path, s);
      WalkStays(ListedEdges(g), reached, g.h.start.value, path, s);
    }
  }

  lemma ListedMention<W>(g: Indexed<W>, a: nat, u: State) returns (m: Mention)
    requires g.StoresOutArcs() && g.Lists(a, u)
    ensures u < |g.out| && m in g.out[u] && m.arc == a
  {
    var k: nat :| k < |g.h.arcs[a].tails| && g.h.arcs[a].tails[k] == u && (g.allTails || k == 0);
    m := Mention(a, k);
    assert g.IsTailAt(m, u);
  }

  // ----- The edges that the search records -----

  /** Head to tail, for the arcs in a set. */
  ghost function EdgesOver<W>(h: HG<W>, arcs: set<nat>): set<(State, State)> {
    set a, u | a in arcs && a < |h.arcs| && u in h.arcs[a].tails :: (h.arcs[a].head, u)
  }

  ghost function SeenArcs<W>(g: Indexed<W>): set<nat> {
    set a | 0 <= a < |g.h.arcs| && Seen(g, a)
  }

  ghost function UsableArcs<W>(h: HG<W>): set<nat> {
    set a | 0 <= a < |h.arcs| && Usable(h, a)
  }

  /** In a graph every arc that is seen is recorded, usable or not. */
  ghost function Recorded<W>(g: Indexed<W>): set<(State, State)> {
    EdgesOver(g.h, if g.ByGraph() then SeenArcs(g) else UsableArcs(g.h))
  }

  lemma GraphOutside<W>(g: Indexed<W>, reached: set<State>, outside: set<(State, State)>, done: set<Mention>)
    requires g.Valid() && g.ByGraph() && g.StoresOutArcs()
    requires ForwardRight(g, reached, outside, true, done, {})
    requires forall s :: s in reached ==> AllDone(g, done, s)
    requires forall s: State :: SearchMeets(g, s) ==> s in reached
    ensures outside == Recorded(g)
  {
    hide SearchMeets;
    forall v: State, u: State ensures DoneEdge(g, done, v, u) <==> (v, u) in Recorded(g) {
      if (v, u) in Recorded(g) {
        var a :| a in SeenArcs(g) && g.h.arcs[a].head == v && u in g.h.arcs[a].tails;
        var w :| g.Lists(a, w) && SearchMeets(g, w);
        var m := ListedMention(g, a, w);
        assert AllDone(g, done, w);
        assert m in done;
      }
      if DoneEdge(g, done, v, u) {
        var m :| m in done && m.arc < |g.h.arcs| && g.h.arcs[m.arc].head == v && u in g.h.arcs[m.arc].tails;
        assert Followed(g, reached, m, {});
        assert m.arc in SeenArcs(g);
      }
    }
    SameEdges(outside, Recorded(g));
  }

  lemma SameEdges(xs: set<(State, State)>, ys: set<(State, State)>)
    requires forall v: State, u: State :: (v, u) in xs <==> (v, u) in ys
    ensures xs == ys
  {
    forall e: (State, State) ensures e in xs <==> e in ys {
      assert e == (e.0, e.1);
    }
  }

  lemma UsableRecorded<W>(g: Indexed<W>, outside: set<(State, State)>)
    requires OutsideRight(g.h, outside)
    ensures outside == EdgesOver(g.h, UsableArcs(g.h))
  {
    hide Derivable;
    forall v: State, u: State ensures (v, u) in outside <==> (v, u) in EdgesOver(g.h, UsableArcs(g.h)) {
      if Edge(g.h, v, u) {
        var a: nat :| Usable(g.h, a) && g.h.arcs[a].head == v && u in g.h.arcs[a].tails;
        UsableTails(g.h, a);
        assert a in UsableArcs(g.h);
      }
    }
    SameEdges(outside, EdgesOver(g.h, UsableArcs(g.h)));
  }

  // ----- What the search meets -----

  /** The start state is among the arc's further tails, which only lists of all tails show. */
  predicate LaterStart<W>(g: Indexed<W>, a: nat) {
    && a < |g.h.arcs| && g.allTails && g.h.start.Some?
    && exists k :: 1 <= k < |g.h.arcs[a].tails| && g.h.arcs[a].tails[k] == g.h.start.value
  }

  /** First tails lead to `s` from an arc that has the start state as a further tail. */
  ghost predicate FromLater<W>(g: Indexed<W>, s: State) {
    exists a: nat :: LaterStart(g, a) && Connected(ForwardEdges(g.h), g.h.arcs[a].head, s)
  }

  /** First tails lead to `s` from an arc all of whose tails are labelled. */
  ghost predicate FromLoose<W>(g: Indexed<W>, s: State) {
    exists a: nat :: g.Loose(a) && Connected(ForwardEdges(g.h), g.h.arcs[a].head, s)
  }

  lemma FirstTailIsListed<W>(g: Indexed<W>)
    requires g.ByGraph()
    ensures ForwardEdges(g.h) <= ListedEdges(g)
  {
    forall a | 0 <= a < |g.h.arcs| && |g.h.arcs[a].tails| > 0
      ensures (g.h.arcs[a].tails[0], g.h.arcs[a].head) in ListedEdges(g)
    {
      assert g.Lists(a, g.h.arcs[a].tails[0]);
    }
  }

  /** From a state without a label the lists lead on by first tails. */
  lemma {:induction false} ListedIsForward<W>(g: Indexed<W>, v: State, path: seq<State>, s: State)
    requires g.ByGraph() && v !in g.h.labels && Walk(ListedEdges(g), v, path, s)
    ensures Connected(ForwardEdges(g.h), v, s)
    decreases |path|
  {
    if path == [] {
      ConnectedSelf(ForwardEdges(g.h), v);
    } else {
      var a: nat :| a < |g.h.arcs| && g.Lists(a, v) && path[0] == g.h.arcs[a].head;
      assert g.IsGraphArc(g.h.arcs[a]);
      ListedIsForward(g, path[0], path[1..], s);
      assert (v, path[0]) in ForwardEdges(g.h);
      ConnectedStep(ForwardEdges(g.h), v, path[0], s);
    }
  }

  /** In a graph the search meets what first tails lead to, from the start state or, where lists show all tails,
      from an arc that has the start state as a further tail. */
  lemma MeetsExactly<W>(g: Indexed<W>, s: State)
    requires g.ByGraph()
    ensures SearchMeets(g, s) <==> Forward(g.h, s) || FromLater(g, s)
  {
    var edges, listed, start := ForwardEdges(g.h), ListedEdges(g), g.h.start.value;
    FirstTailIsListed(g);
    if Forward(g.h, s) {
      ConnectedMore(edges, listed, start, s);
    }
    if FromLater(g, s) {
      var a: nat :| LaterStart(g, a) && Connected(edges, g.h.arcs[a].head, s);
      ConnectedMore(edges, listed, g.h.arcs[a].head, s);
      assert (start, g.h.arcs[a].head) in listed by { assert g.Lists(a, start); }
      ConnectedStep(listed, start, g.h.arcs[a].head, s);
    }
    if SearchMeets(g, s) {
      var path :| Walk(listed, start, path, s);
      if path == [] {
        ConnectedSelf(edges, start);
      } else {
        var a: nat :| a < |g.h.arcs| && g.Lists(a, start) && path[0] == g.h.arcs[a].head;
        assert g.IsGraphArc(g.h.arcs[a]);
        ListedIsForward(g, path[0], path[1..], s);
        if g.h.arcs[a].tails[0] == start {
          assert (start, path[0]) in edges;
          ConnectedStep(edges, start, path[0], s);
        } else {
          LaterIsListed(g, a);
        }
      }
    }
  }

  lemma LaterIsListed<W>(g: Indexed<W>, a: nat)
    requires g.ByGraph() && g.Lists(a, g.h.start.value) && g.h.arcs[a].tails[0] != g.h.start.value
    ensures LaterStart(g, a)
  {
    var k :| 0 <= k < |g.h.arcs[a].tails| && g.h.arcs[a].tails[k] == g.h.start.value;
  }

  /** Without a label on the start state, or with first tails listed only, nothing else is met. */
  lemma MeetsForward<W>(g: Indexed<W>, s: State)
    requires g.ByGraph() && (g.allTails ==> g.h.start.value !in g.h.labels)
    ensures SearchMeets(g, s) <==> Forward(g.h, s)
    ensures !FromLater(g, s) && forall a: nat :: !LaterStart(g, a)
  {
    forall a: nat ensures !LaterStart(g, a) {
      if a < |g.h.arcs| { assert g.IsGraphArc(g.h.arcs[a]); }
    }
    MeetsExactly(g, s);
  }

  /** The start state is the only labelled state that can be met. */
  lemma MetIsHead<W>(g: Indexed<W>, s: State)
    requires g.ByGraph() && SearchMeets(g, s)
    ensures s == g.h.start.value || s !in g.h.labels
  {
    if s != g.h.start.value {
      var u := ConnectedTarget(ListedEdges(g), g.h.start.value, s);
      var a: nat :| a < |g.h.arcs| && g.h.arcs[a].head == s;
      assert g.IsGraphArc(g.h.arcs[a]);
    }
  }

  // ----- What is derivable in a graph -----

  lemma FirstTailSuffices<W>(g: Indexed<W>, a: nat)
    requires g.ByGraph() && a < |g.h.arcs| && Derivable(g.h, g.h.arcs[a].tails[0])
    ensures Usable(g.h, a) && Derivable(g.h, g.h.arcs[a].head)
  {
    var tails := g.h.arcs[a].tails;
    forall k | 0 <= k < |tails| ensures Derivable(g.h, tails[k]) {
      if k > 0 { DerivableAxiom(g.h, tails[k]); }
    }
    DerivableHead(g.h, a);
  }

  /** From a derivable state, following first tails leads to derivable states. */
  lemma {:induction false} WalkIsDerivable<W>(g: Indexed<W>, v: State, path: seq<State>, s: State)
    requires g.ByGraph() && Derivable(g.h, v) && Walk(ForwardEdges(g.h), v, path, s)
    ensures Derivable(g.h, s)
    decreases |path|
  {
    if path != [] {
      var a :| 0 <= a < |g.h.arcs| && (v, path[0]) == (g.h.arcs[a].tails[0], g.h.arcs[a].head);
      FirstTailSuffices(g, a);
      WalkIsDerivable(g, path[0], path[1..], s);
    }
  }

  lemma ConnectedIsDerivable<W>(g: Indexed<W>, v: State, s: State)
    requires g.ByGraph() && Derivable(g.h, v) && Connected(ForwardEdges(g.h), v, s)
    ensures Derivable(g.h, s)
  {
    var path :| Walk(ForwardEdges(g.h), v, path, s);
    WalkIsDerivable(g, v, path, s);
  }

  /** By labels and first tails alone: `s` has a derivation. */
  ghost predicate Supported<W>(g: Indexed<W>, s: State) {
    s in g.h.labels || Forward(g.h, s) || FromLoose(g, s)
  }

  /** In a graph a state has a derivation exactly when it is labelled, or following first tails leads to it
      from the start state or from an arc that needs no more than labels. */
  lemma GraphDerivable<W>(g: Indexed<W>, s: State)
    requires g.ByGraph()
    ensures Derivable(g.h, s) <==> Supported(g, s)
  {
    if t :| Derives(g.h, false, t, s) {
      DerivedInGraph(g, t, s);
    }
    if s in g.h.labels {
      DerivableAxiom(g.h, s);
    } else if Forward(g.h, s) {
      DerivableAxiom(g.h, g.h.start.value);
      ConnectedIsDerivable(g, g.h.start.value, s);
    } else if FromLoose(g, s) {
      var a: nat :| g.Loose(a) && Connected(ForwardEdges(g.h), g.h.arcs[a].head, s);
      LooseIsUsable(g, a);
      ConnectedIsDerivable(g, g.h.arcs[a].head, s);
    }
  }

  lemma LooseIsUsable<W>(g: Indexed<W>, a: nat)
    requires g.ByGraph() && g.Loose(a)
    ensures Usable(g.h, a) && Derivable(g.h, g.h.arcs[a].head)
  {
    DerivableAxiom(g.h, g.h.arcs[a].tails[0]);
    FirstTailSuffices(g, a);
  }

  lemma {:induction false} DerivedInGraph<W>(g: Indexed<W>, t: Tree, s: State)
    requires g.ByGraph() && Derives(g.h, false, t, s)
    ensures Supported(g, s)
    decreases t
  {
    var edges := ForwardEdges(g.h);
    match t
    case Axiom(_) =>
      ConnectedSelf(edges, s);
    case Node(a, kids) =>
      var u := g.h.arcs[a].tails[0];
      assert (u, s) in edges;
      if u in g.h.labels {
        ConnectedSelf(edges, s);
        assert g.Loose(a) && Connected(edges, g.h.arcs[a].head, s);
      } else {
        DerivesAllAt(g.h, false, kids, g.h.arcs[a].tails, 0);
        DerivedInGraph(g, kids[0], u);
        SupportedHead(g, a);
      }
  }

  lemma SupportedHead<W>(g: Indexed<W>, a: nat)
    requires g.ByGraph() && a < |g.h.arcs|
    requires Forward(g.h, g.h.arcs[a].tails[0]) || FromLoose(g, g.h.arcs[a].tails[0])
    ensures Supported(g, g.h.arcs[a].head)
  {
    var edges, u, s := ForwardEdges(g.h), g.h.arcs[a].tails[0], g.h.arcs[a].head;
    assert (u, s) in edges;
    if Forward(g.h, u) {
      ConnectedEnd(edges, g.h.start.value, u, s);
    } else {
      var b: nat :| g.Loose(b) && Connected(edges, g.h.arcs[b].head, u);
      ConnectedEnd(edges, g.h.arcs[b].head, u, s);
    }
  }

  /** First tails miss no derivable state but labels exactly when the heads of all the arcs with a labelled
      first tail can be reached forward. */
  lemma ShortcutMissesNothing<W>(g: Indexed<W>)
    requires g.ByGraph()
    ensures (forall s: State :: s !in g.h.labels && Derivable(g.h, s) ==> SearchMeets(g, s))
       <==> (forall a: nat :: g.Loose(a) ==> SearchMeets(g, g.h.arcs[a].head))
  {
    if forall s: State :: s !in g.h.labels && Derivable(g.h, s) ==> SearchMeets(g, s) {
      forall a: nat | g.Loose(a) ensures SearchMeets(g, g.h.arcs[a].head) {
        LooseIsUsable(g, a);
        assert g.IsGraphArc(g.h.arcs[a]);
      }
    }
    if forall a: nat :: g.Loose(a) ==> SearchMeets(g, g.h.arcs[a].head) {
      forall s: State | s !in g.h.labels && Derivable(g.h, s) ensures SearchMeets(g, s) {
        GraphDerivable(g, s);
        MeetsExactly(g, s);
        if FromLoose(g, s) {
          var a: nat :| g.Loose(a) && Connected(ForwardEdges(g.h), g.h.arcs[a].head, s);
          FirstTailIsListed(g);
          ConnectedMore(ForwardEdges(g.h), ListedEdges(g), g.h.arcs[a].head, s);
          ConnectedJoin(ListedEdges(g), g.h.start.value, g.h.arcs[a].head, s);
        }
      }
    }
  }

  /** All states met are derivable exactly when the heads of the arcs that have the start state as a further tail
      are; and all arcs seen are usable exactly when the first tails of those arcs are derivable. */
  lemma ShortcutInventsNothing<W>(g: Indexed<W>)
    requires g.ByGraph()
    ensures (forall s: State :: SearchMeets(g, s) ==> Derivable(g.h, s))
       <==> (forall a: nat :: LaterStart(g, a) ==> Supported(g, g.h.arcs[a].head))
    ensures (forall a: nat :: Seen(g, a) ==> Usable(g.h, a))
       <==> (forall a: nat :: LaterStart(g, a) ==> Supported(g, g.h.arcs[a].tails[0]))
  {
    forall a: nat | LaterStart(g, a)
      ensures Seen(g, a) && SearchMeets(g, g.h.arcs[a].head)
      ensures Supported(g, g.h.arcs[a].tails[0]) ==> Derivable(g.h, g.h.arcs[a].head)
      ensures Usable(g.h, a) ==> Supported(g, g.h.arcs[a].tails[0])
      ensures Derivable(g.h, g.h.arcs[a].head) <==> Supported(g, g.h.arcs[a].head)
    {
      LaterIsSeen(g, a);
      GraphDerivable(g, g.h.arcs[a].tails[0]);
      GraphDerivable(g, g.h.arcs[a].head);
      if Supported(g, g.h.arcs[a].tails[0]) { FirstTailSuffices(g, a); }
    }
    if forall a: nat :: LaterStart(g, a) ==> Derivable(g.h, g.h.arcs[a].head) {
      forall s: State | SearchMeets(g, s) ensures Derivable(g.h, s) {
        MetIsDerivable(g, s);
      }
    }
    if forall a: nat :: LaterStart(g, a) ==> Supported(g, g.h.arcs[a].tails[0]) {
      forall a: nat | Seen(g, a) ensures Usable(g.h, a) {
        SeenByTail(g, a);
        GraphDerivable(g, g.h.arcs[a].tails[0]);
        FirstTailSuffices(g, a);
      }
    }
  }

  lemma LaterIsSeen<W>(g: Indexed<W>, a: nat)
    requires g.ByGraph() && LaterStart(g, a)
    ensures Seen(g, a) && SearchMeets(g, g.h.arcs[a].head)
  {
    StartIsMet(g);
    assert g.Lists(a, g.h.start.value);
    HeadIsMet(g, a, g.h.start.value);
  }

  lemma MetIsDerivable<W>(g: Indexed<W>, s: State)
    requires g.ByGraph() && SearchMeets(g, s)
    requires forall a: nat :: LaterStart(g, a) && Connected(ForwardEdges(g.h), g.h.arcs[a].head, s) ==>
              Derivable(g.h, g.h.arcs[a].head)
    ensures Derivable(g.h, s)
  {
    MeetsExactly(g, s);
    if Forward(g.h, s) {
      GraphDerivable(g, s);
    } else {
      var a: nat :| LaterStart(g, a) && Connected(ForwardEdges(g.h), g.h.arcs[a].head, s);
      ConnectedIsDerivable(g, g.h.arcs[a].head, s);
    }
  }

  /** An arc is seen by its first tail or as one that has the start state as a further tail. */
  lemma SeenBy<W>(g: Indexed<W>, a: nat)
    requires g.ByGraph() && a < |g.h.arcs|
    ensures Seen(g, a) <==> SearchMeets(g, g.h.arcs[a].tails[0]) || LaterStart(g, a)
  {
    assert g.IsGraphArc(g.h.arcs[a]);
    if Seen(g, a) {
      var u :| u in g.h.arcs[a].tails && g.Lists(a, u) && SearchMeets(g, u);
      if u != g.h.arcs[a].tails[0] {
        MetIsHead(g, u);
        LaterIsListed(g, a);
      }
    }
    if SearchMeets(g, g.h.arcs[a].tails[0]) {
      assert g.Lists(a, g.h.arcs[a].tails[0]);
    }
    if LaterStart(g, a) {
      LaterIsSeen(g, a);
    }
  }

  lemma SeenByTail<W>(g: Indexed<W>, a: nat)
    requires g.ByGraph() && Seen(g, a)
    requires forall b: nat :: LaterStart(g, b) ==> Supported(g, g.h.arcs[b].tails[0])
    ensures Derivable(g.h, g.h.arcs[a].tails[0])
  {
    SeenBy(g, a);
    GraphDerivable(g, g.h.arcs[a].tails[0]);
    if SearchMeets(g, g.h.arcs[a].tails[0]) {
      forall b: nat | LaterStart(g, b) ensures Derivable(g.h, g.h.arcs[b].head) {
        GraphDerivable(g, g.h.arcs[b].tails[0]);
        FirstTailSuffices(g, b);
      }
      MetIsDerivable(g, g.h.arcs[a].tails[0]);
    }
  }
}
