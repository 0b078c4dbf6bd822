/** Emptiness: bottom-up reachability with a counter per arc, the forward shortcut for graphs, and
    the states that are of use to a goal. */
module Empty {
  import opened Counting
  import opened Hypergraph
  import opened Walks
  import opened Derivability
  import opened ReachCounting
  import opened ForwardSearch
  import opened GraphUse

  /** The vertices that `goal` can reach along the edges. */
  method DfsColor(edges: set<(State, State)>, goal: State) returns (visited: set<State>)
    ensures forall s :: s in visited <==> Connected(edges, goal, s)
  {
    visited := {goal};
    assert Walk(edges, goal, [], goal);
    var frontier := edges;
    while exists e :: e in frontier && e.0 in visited
      invariant frontier <= edges && goal in visited
      invariant forall s :: s in visited ==> Connected(edges, goal, s)
      invariant forall e :: e in edges - frontier ==> e.1 in visited
      decreases frontier
    {
      var e :| e in frontier && e.0 in visited;
      ConnectedEnd(edges, goal, e.0, e.1);
      visited := visited + {e.1};
      frontier := frontier - {e};
    }
    forall s | Connected(edges, goal, s) ensures s in visited {
      var path :| Walk(edges, goal, path, s);
      WalkStays(edges, visited, goal, path, s);
    }
  }

  class Reach<W> {
    const g: Indexed<W>
    const computeUseful: bool
    const stopAtFinal: bool
    var reached: set<State>
    var tailsLeft: map<nat, nat>
    var outside: set<(State, State)>
    ghost var done: set<Mention>

    ghost predicate Counting(next: set<State>)
      reads this
    {
      CountingRight(g, reached, tailsLeft, outside, computeUseful, done, next)
    }

    ghost function Stops(): set<State> {
      if stopAtFinal && g.h.final.Some? then {g.h.final.value} else {}
    }

    /** Where the search stops at the final state, nothing listed under it is followed. */
    ghost predicate Stopped()
      reads `done
    {
      forall m :: m in done ==>
        m.arc < |g.h.arcs| && m.pos < |g.h.arcs[m.arc].tails| && g.h.arcs[m.arc].tails[m.pos] !in Stops()
    }

    /** Counts one mention of `s`; `finished` tells whether it was its arc's last tail. */
    method CountMention(m: Mention, s: State) returns (finished: bool)
      requires g.Valid() && Counting({}) && g.IsTailAt(m, s) && s in reached && m !in done
      requires Stopped() && s !in Stops()
      modifies `tailsLeft, `outside, `done
      ensures done == old(done) + {m} && Stopped()
      ensures Counting(if finished then {g.h.arcs[m.arc].head} else {})
      ensures finished ==> Derivable(g.h, g.h.arcs[m.arc].head)
    {
      hide Derivable, CountingRight;
      CountedOne(g, reached, tailsLeft, outside, computeUseful, done, m, s);
      tailsLeft := tailsLeft[m.arc := tailsLeft[m.arc] - 1];
      done := done + {m};
      finished := tailsLeft[m.arc] == 0;
      if finished && computeUseful {
        outside := outside + EdgesOf(g.h.arcs[m.arc]);
      }
    }

    lemma VisitedMore(r0: set<State>, d0: set<Mention>, r1: set<State>, d1: set<Mention>,
                      r2: set<State>, d2: set<Mention>, s: State)
      requires Visited(g, r0, d0, r1, d1, Stops() + {s}) && Visited(g, r1, d1, r2, d2, Stops())
      ensures Visited(g, r0, d0, r2, d2, Stops() + {s})
    {
    }

    /** Latches `s` and counts down the arcs it is a tail of, following those that finish. */
    method ReachState(s: State)
      requires g.Valid() && g.StoresAllOutArcs() && Counting({s}) && s < |g.out| && Derivable(g.h, s) && Stopped()
      modifies this
      ensures Counting({}) && s in reached && Stopped()
      ensures Visited(g, old(reached), old(done), reached, done, Stops())
      decreases UpTo(|g.out|) - reached, 0
    {
      hide Derivable, CountingRight, DoneRight, Visited;
      CountingLatched(g, reached, tailsLeft, outside, computeUseful, done, s);
      VisitedLatch(g, reached, done, s, Stops());
      if s in reached {
        assert reached + {s} == reached;
        return;
      }
      NothingCounted(g, reached, done, s);
      ghost var r0, d0 := reached, done;
      reached := reached + {s};
      if stopAtFinal && g.h.final == Some(s) {
        VisitedStopped(r0, d0, s);
        return;
      }
      CountMentions(s, r0, d0);
    }

    /** Counts all mentions of the state that has just been latched. */
    method CountMentions(s: State, ghost r0: set<State>, ghost d0: set<Mention>)
      requires g.Valid() && g.StoresAllOutArcs() && Counting({}) && s < |g.out|
      requires s in reached && s !in r0 && forall j :: 0 <= j < |g.out[s]| ==> g.out[s][j] !in done
      requires Visited(g, r0, d0, reached, done, Stops() + {s}) && Stopped() && s !in Stops()
      modifies this
      ensures Counting({}) && Stopped() && old(reached) <= reached && Visited(g, r0, d0, reached, done, Stops())
      decreases UpTo(|g.out|) - reached, 2
    {
      hide CountingRight, Visited;
      for k := 0 to |g.out[s]|
        invariant Counting({}) && old(reached) <= reached && Visited(g, r0, d0, reached, done, Stops() + {s})
        invariant Stopped()
        invariant forall j :: 0 <= j < k ==> g.out[s][j] in done
        invariant forall j :: k <= j < |g.out[s]| ==> g.out[s][j] !in done
      {
        ghost var r1, d1, m := reached, done, g.out[s][k];
        FollowMention(g.out[s][k], s);
        VisitedMention(g, r0, d0, r1, d1, m, Stops() + {s});
        VisitedMore(r0, d0, r1, d1 + {m}, reached, done, s);
        VisitedLeaves(g, r1, d1 + {m}, reached, done, Stops(), s, k + 1);
      }
      VisitedClosed(g, r0, d0, reached, done, s, Stops());
    }

    /** Counts one mention of the latched state `s`, and goes on to the head of an arc that finishes. */
    method FollowMention(m: Mention, s: State)
      requires g.Valid() && g.StoresAllOutArcs() && Counting({}) && g.IsTailAt(m, s) && s in reached && m !in done
      requires Stopped() && s !in Stops()
      modifies this
      ensures Stopped() && Counting({}) && Visited(g, old(reached), old(done) + {m}, reached, done, Stops())
      ensures old(reached) <= reached && old(done) + {m} <= done
      decreases UpTo(|g.out|) - reached, 1
    {
      hide Derivable, CountingRight;
      var finished := CountMention(m, s);
      if finished {
        ReachState(g.h.arcs[m.arc].head);
      }
    }

    /** The final state itself is not searched when that is where to stop. */
    lemma VisitedStopped(r0: set<State>, d0: set<Mention>, s: State)
      requires Visited(g, r0, d0, r0 + {s}, d0, Stops() + {s}) && stopAtFinal && g.h.final == Some(s)
      ensures Visited(g, r0, d0, r0 + {s}, d0, Stops())
    {
    }

    ghost predicate ForwardState(next: set<State>)
      reads this
    {
      ForwardRight(g, reached, outside, computeUseful, done, next)
    }

    /** Latches `state` and follows the arcs listed under it. */
    method ReachGraph(state: State)
      requires g.Valid() && g.ByGraph() && g.StoresOutArcs()
      requires ForwardState({state}) && state < |g.out| && SearchMeets(g, state) && Stopped()
      modifies `reached, `outside, `done
      ensures ForwardState({}) && state in reached && Stopped()
      ensures Visited(g, old(reached), old(done), reached, done, Stops())
      decreases UpTo(|g.out|) - reached, 0
    {
      hide SearchMeets, ForwardRight, Visited;
      ForwardLatched(g, reached, outside, computeUseful, done, state);
      VisitedLatch(g, reached, done, state, Stops());
      if state in reached {
        assert reached + {state} == reached;
        return;
      }
      ghost var r0, d0 := reached, done;
      reached := reached + {state};
      if stopAtFinal && g.h.final == Some(state) {
        VisitedStopped(r0, d0, state);
        return;
      }
      for k := 0 to |g.out[state]|
        invariant ForwardState({}) && r0 + {state} <= reached && Visited(g, r0, d0, reached, done, Stops() + {state})
        invariant Stopped()
        invariant forall j :: 0 <= j < k ==> g.out[state][j] in done
      {
        var m := g.out[state][k];
        ghost var r1, d1 := reached, done;
        FollowForward(m);
        VisitedMention(g, r0, d0, r1, d1, m, Stops() + {state});
        VisitedMore(r0, d0, r1, d1 + {m}, reached, done, state);
      }
      VisitedClosed(g, r0, d0, reached, done, state, Stops());
    }

    /** Records the arc and goes on to its head. */
    method FollowForward(m: Mention)
      requires g.Valid() && g.ByGraph() && g.StoresOutArcs() && ForwardState({})
      requires ListedAt(g, m) && g.h.arcs[m.arc].tails[m.pos] in reached - Stops() && Stopped()
      modifies `reached, `outside, `done
      ensures Stopped() && ForwardState({}) && Visited(g, old(reached), old(done) + {m}, reached, done, Stops())
      ensures old(reached) <= reached && old(done) + {m} <= done
      decreases UpTo(|g.out|) - reached, 1
    {
      hide SearchMeets, ForwardRight;
      RecordForward(m);
      ReachGraph(g.h.arcs[m.arc].head);
    }

    method RecordForward(m: Mention)
      requires g.Valid() && g.ByGraph() && ForwardState({})
      requires ListedAt(g, m) && g.h.arcs[m.arc].tails[m.pos] in reached - Stops() && Stopped()
      modifies `outside, `done
      ensures done == old(done) + {m} && Stopped()
      ensures ForwardState({g.h.arcs[m.arc].head}) && SearchMeets(g, g.h.arcs[m.arc].head)
    {
      hide SearchMeets, EdgesOfDone;
      HeadIsMet(g, m.arc, g.h.arcs[m.arc].tails[m.pos]);
      if computeUseful {
        EdgesOfDoneGrows(g, outside, done, m);
        outside := outside + EdgesOf(g.h.arcs[m.arc]);
      }
      done := done + {m};
    }

    /** The lists the search needs: of all tails, but in a graph lists of first tails do as well. */
    static ghost predicate Stored(g: Indexed<W>) {
      g.Valid() && g.StoresOutArcs() && (g.ByGraph() || g.allTails)
    }

    constructor (g: Indexed<W>, computeUseful: bool, stopAtFinal: bool)
      requires Stored(g)
      ensures this.g == g && this.computeUseful == computeUseful && this.stopAtFinal == stopAtFinal
      ensures forall s :: s in reached ==> s < |g.out| && Found(g, s)
      ensures !stopAtFinal ==> forall s: State :: Found(g, s) ==> s in reached
      ensures g.h.final.Some? ==> (g.h.final.value in reached <==> Found(g, g.h.final.value))
      ensures computeUseful && !stopAtFinal ==> outside == Recorded(g)
      ensures Stopped()
    {
      this.g, this.computeUseful, this.stopAtFinal := g, computeUseful, stopAtFinal;
      reached, outside, done := {}, {}, {};
      tailsLeft := map a | 0 <= a < |g.h.arcs| :: |g.h.arcs[a].tails|;
      new;
      hide Derivable, SearchMeets, CountersRight, OutsideOf, EdgesOfDone, OutsideRight, EdgesOver;
      if g.ByGraph() {
        StartIsMet(g);
        assert g.h.IsAxiom(g.h.start.value);
        ReachGraph(g.h.start.value);
        GraphDone();
      } else {
        ReachAxioms();
        AxiomsDone();
      }
    }

    method ReachAxioms()
      requires g.Valid() && g.StoresAllOutArcs()
      requires tailsLeft == (map a | 0 <= a < |g.h.arcs| :: |g.h.arcs[a].tails|)
      requires reached == {} && outside == {} && done == {}
      modifies this
      ensures Counting({}) && Stopped()
      ensures forall r :: r in reached && r !in Stops() ==> AllDone(g, done, r)
      ensures forall r: State :: r < |g.out| && g.h.IsAxiom(r) ==> r in reached
    {
      hide Derivable, CountersRight, OutsideOf;
      Fresh();
      for s := 0 to |g.out|
        invariant Counting({}) && Stopped()
        invariant forall r :: r in reached && r !in Stops() ==> AllDone(g, done, r)
        invariant forall r: State :: r < s && g.h.IsAxiom(r) ==> r in reached
      {
        if g.h.IsAxiom(s) {
          DerivableAxiom(g.h, s);
          ghost var r0, d0 := reached, done;
          ReachState(s);
          forall r | r in reached && r !in Stops() ensures AllDone(g, done, r) {
            if r in r0 { assert AllDone(g, d0, r); }
          }
        }
      }
    }

    lemma Fresh()
      requires tailsLeft == (map a | 0 <= a < |g.h.arcs| :: |g.h.arcs[a].tails|)
      requires g.Valid() && reached == {} && outside == {} && done == {}
      ensures Counting({})
    {
      CountersBegin(g, tailsLeft);
      hide CountersRight, HeadsFollow, OutsideOf, Indexed.Valid;
    }

    lemma AxiomsDone()
      requires g.Valid() && g.StoresAllOutArcs() && Counting({})
      requires forall r :: r in reached && r !in Stops() ==> AllDone(g, done, r)
      requires forall r: State :: r < |g.out| && g.h.IsAxiom(r) ==> r in reached
      ensures Stops() !! reached ==> forall s: State :: Derivable(g.h, s) ==> s in reached
      ensures Stops() !! reached && computeUseful ==> outside == EdgesOver(g.h, UsableArcs(g.h))
    {
      if Stops() !! reached {
        AllCounted(g, reached, tailsLeft, done);
        forall s: State | Derivable(g.h, s) ensures s in reached {
          var t :| Derives(g.h, false, t, s);
          DerivedIsIn(g.h, reached, t, s);
        }
        if computeUseful {
          OutsideIsUsable(g, reached, tailsLeft, outside, done);
          UsableRecorded(g, outside);
        }
      }
    }

    lemma GraphDone()
      requires g.Valid() && g.ByGraph() && g.StoresOutArcs() && ForwardState({})
      requires g.h.start.value in reached
      requires forall r :: r in reached && r !in Stops() ==> AllDone(g, done, r)
      ensures Stops() !! reached ==> forall s: State :: SearchMeets(g, s) ==> s in reached
      ensures Stops() !! reached && computeUseful ==> outside == Recorded(g)
    {
      if Stops() !! reached {
        ForwardReached(g, reached, done);
        if computeUseful {
          GraphOutside(g, reached, outside, done);
        }
      }
    }

    /** The states that occur in some derivation of `goal`, as far as the search has seen. */
    method UsefulFor(goal: State) returns (r: set<State>)
      requires outside == Recorded(g) && (goal in reached <==> Found(g, goal))
      ensures forall s: State :: s in r <==> CountsAsUseful(g, goal, s)
      ensures !g.ByGraph() ==> forall s: State :: s in r <==> Useful(g.h, goal, s)
      ensures g.ByGraph() ==> ((forall s: State :: s in r <==> Useful(g.h, goal, s)) <==> ServesGoal(g, goal))
      ensures g.ByGraph() && (g.allTails ==> g.h.start.value !in g.h.labels) ==>
                ((forall s: State :: s in r <==> Useful(g.h, goal, s)) <==> LooseArcsServe(g, goal))
    {
      var visited := DfsColor(outside, goal);
      r := if goal in reached then visited + {goal} else visited - {goal};
      hide ServesGoal, LooseArcsServe, Useful, Recorded, Found;
      assert forall s: State :: s in r <==> CountsAsUseful(g, goal, s);
      hide CountsAsUseful;
      if g.ByGraph() {
        UsefulExactly(g, goal);
        if g.allTails ==> g.h.start.value !in g.h.labels {
          ServedByLooseArcs(g, goal);
        }
      } else {
        forall s: State ensures CountsAsUseful(g, goal, s) <==> Useful(g.h, goal, s) {
          UsefulByCounting(g, goal, s);
        }
      }
    }

    predicate FinalReached()
      reads `reached
    {
      g.h.final.Some? && g.h.final.value in reached
    }
  }

  /** How the hypergraph that is asked about stores its arcs. */
  datatype OutStorage = NoOut | FirstTailOut | AllOut

  predicate HasInArc<W>(h: HG<W>, s: State) {
    exists a :: 0 <= a < |h.arcs| && h.arcs[a].head == s
  }

  predicate HasOutArc<W>(h: HG<W>, stored: OutStorage, s: State) {
    exists a :: 0 <= a < |h.arcs| && |h.arcs[a].tails| > 0 &&
      if stored == AllOut then s in h.arcs[a].tails else h.arcs[a].tails[0] == s
  }

  /** The constant-time test that comes first. */
  predicate PrunedEmpty<W>(h: HG<W>, inArcs: bool, stored: OutStorage) {
    || h.final.None?
    || (h.final != h.start &&
        if inArcs then !HasInArc(h, h.final.value)
        else stored != NoOut && h.start.Some? && !HasOutArc(h, stored, h.start.value))
  }

  /** The lists that are searched when the arcs are stored as `stored`: in a graph the hypergraph's own
      out-lists, whichever kind they are, or a copy's lists of first tails; otherwise lists of all tails. */
  ghost predicate SearchLists<W>(g: Indexed<W>, stored: OutStorage) {
    Reach<W>.Stored(g) && (g.ByGraph() ==> (g.allTails <==> stored == AllOut))
  }

  /** The quick test, then a search that stops at the final state. */
  method IsEmpty<W>(g: Indexed<W>, inArcs: bool, stored: OutStorage) returns (b: bool)
    requires SearchLists(g, stored)
    ensures b <==> PrunedEmpty(g.h, inArcs, stored) || !Found(g, g.h.final.value)
    ensures g.h.final.Some? ==> ((b <==> !Derivable(g.h, g.h.final.value)) <==> !Misjudged(g, inArcs, stored))
  {
    if PrunedEmpty(g.h, inArcs, stored) {
      b := true;
    } else {
      var r := new Reach(g, false, true);
      b := !r.FinalReached();
    }
    if g.h.final.Some? {
      IsEmptyExactly(g, inArcs, stored);
    }
  }

  // ----- When the answer is right -----

  /** By arcs alone. In a graph: first tails do not lead to the final state from the start state, and either it is
      labelled or they do from an arc with labelled tails only (a derivation is missed), or they do from an arc that
      has the start state as a listed further tail (one is invented), but not both. Otherwise the two states differ
      and, where in-arcs are stored, the final state is labelled and the head of no arc; where only out-arcs are, it
      has a derivation although the start state is no tail that is listed. Nothing else is misjudged. */
  ghost predicate Misjudged<W>(g: Indexed<W>, inArcs: bool, stored: OutStorage)
    requires g.h.final.Some?
  {
    var f := g.h.final.value;
    if g.ByGraph() then
      !Forward(g.h, f) && (FromLater(g, f) <==> !(f in g.h.labels || FromLoose(g, f)))
    else if inArcs then
      g.h.final != g.h.start && f in g.h.labels && forall a :: 0 <= a < |g.h.arcs| ==> g.h.arcs[a].head != f
    else
      && stored != NoOut && g.h.start.Some? && g.h.final != g.h.start
      && (forall a :: 0 <= a < |g.h.arcs| ==> |g.h.arcs[a].tails| > 0 ==>
            if stored == AllOut then g.h.start.value !in g.h.arcs[a].tails
            else g.h.arcs[a].tails[0] != g.h.start.value)
      && Derivable(if stored == AllOut then g.h.(start := None) else g.h, f)
  }

  /** The answer is wrong exactly for these. */
  lemma IsEmptyExactly<W>(g: Indexed<W>, inArcs: bool, stored: OutStorage)
    requires SearchLists(g, stored) && g.h.final.Some?
    ensures (PrunedEmpty(g.h, inArcs, stored) || !Found(g, g.h.final.value) <==> !Derivable(g.h, g.h.final.value))
       <==> !Misjudged(g, inArcs, stored)
  {
    var f := g.h.final.value;
    if g.ByGraph() {
      GraphDerivable(g, f);
      MeetsExactly(g, f);
      if PrunedEmpty(g.h, inArcs, stored) {
        PrunedGraph(g, inArcs, stored);
      }
    } else {
      PrunedByArcs(g.h, inArcs, stored);
      if PrunedEmpty(g.h, inArcs, stored) {
        if inArcs {
          PrunedByInArcs(g.h, stored);
        } else if stored == AllOut {
          PrunedByOutArcs(g.h);
        }
      }
    }
  }

  /** The quick test, spelled out: the final state is not the start state and, by whatever is stored, no arc leads
      to the one or no arc is listed under the other. */
  lemma PrunedByArcs<W>(h: HG<W>, inArcs: bool, stored: OutStorage)
    requires h.final.Some?
    ensures inArcs ==> (PrunedEmpty(h, inArcs, stored) <==>
              h.final != h.start && forall a :: 0 <= a < |h.arcs| ==> h.arcs[a].head != h.final.value)
    ensures !inArcs ==> (PrunedEmpty(h, inArcs, stored) <==>
              && stored != NoOut && h.start.Some? && h.final != h.start
              && forall a :: 0 <= a < |h.arcs| ==> |h.arcs[a].tails| > 0 ==>
                   if stored == AllOut then h.start.value !in h.arcs[a].tails
                   else h.arcs[a].tails[0] != h.start.value)
  {
    if h.start.Some? {
      forall a | 0 <= a < |h.arcs| && |h.arcs[a].tails| > 0
        ensures HasOutArc(h, AllOut, h.start.value) || h.start.value !in h.arcs[a].tails
      {
      }
    }
  }

  /** Where in-arcs are stored, the quick test rejects a derivable final state only if it is labelled. */
  lemma PrunedByInArcs<W>(h: HG<W>, stored: OutStorage)
    requires h.final.Some? && PrunedEmpty(h, true, stored)
    ensures Derivable(h, h.final.value) <==> h.final.value in h.labels
  {
    var f := h.final.value;
    if t :| Derives(h, false, t, f) {
      assert t.Node? ==> HasInArc(h, f);
    }
    if f in h.labels {
      DerivableAxiom(h, f);
    }
  }

  /** Where arcs are listed under all their tails, it rejects a derivable final state only if that has a derivation
      without the start state. */
  lemma PrunedByOutArcs<W>(h: HG<W>)
    requires h.final.Some? && PrunedEmpty(h, false, AllOut)
    ensures Derivable(h, h.final.value) <==> Derivable(h.(start := None), h.final.value)
  {
    var f := h.final.value;
    if t :| Derives(h, false, t, f) {
      IdleStart(h, t, f);
    }
    if t :| Derives(h.(start := None), false, t, f) {
      SpareStart(h, t, f);
    }
  }

  lemma {:induction false} IdleStart<W>(h: HG<W>, t: Tree, s: State)
    requires h.start.Some? && !HasOutArc(h, AllOut, h.start.value) && s != h.start.value && Derives(h, false, t, s)
    ensures Derives(h.(start := None), false, t, s)
    decreases t, 1
  {
    if t.Node? {
      assert h.start.value !in h.arcs[t.arc].tails;
      IdleStarts(h, t.kids, h.arcs[t.arc].tails);
    }
  }

  lemma {:induction false} IdleStarts<W>(h: HG<W>, ts: seq<Tree>, ss: seq<State>)
    requires h.start.Some? && !HasOutArc(h, AllOut, h.start.value) && h.start.value !in ss
    requires DerivesAll(h, false, ts, ss)
    ensures DerivesAll(h.(start := None), false, ts, ss)
    decreases ts, 0
  {
    if ts != [] {
      IdleStart(h, ts[0], ss[0]);
      IdleStarts(h, ts[1..], ss[1..]);
    }
  }

  lemma {:induction false} SpareStart<W>(h: HG<W>, t: Tree, s: State)
    requires Derives(h.(start := None), false, t, s)
    ensures Derives(h, false, t, s)
    decreases t, 1
  {
    if t.Node? { SpareStarts(h, t.kids, h.arcs[t.arc].tails); }
  }

  lemma {:induction false} SpareStarts<W>(h: HG<W>, ts: seq<Tree>, ss: seq<State>)
    requires DerivesAll(h.(start := None), false, ts, ss)
    ensures DerivesAll(h, false, ts, ss)
    decreases ts, 0
  {
    if ts != [] {
      SpareStart(h, ts[0], ss[0]);
      SpareStarts(h, ts[1..], ss[1..]);
    }
  }

  /** In a graph the quick test rejects nothing that the search would find. */
  lemma PrunedGraph<W>(g: Indexed<W>, inArcs: bool, stored: OutStorage)
    requires SearchLists(g, stored) && g.ByGraph() && g.h.final.Some? && PrunedEmpty(g.h, inArcs, stored)
    ensures !SearchMeets(g, g.h.final.value)
  {
    MetHasArcs(g, stored);
  }

  lemma MetHasArcs<W>(g: Indexed<W>, stored: OutStorage)
    requires SearchLists(g, stored) && g.ByGraph() && g.h.final.Some?
    ensures SearchMeets(g, g.h.final.value) && g.h.final != g.h.start ==>
              HasInArc(g.h, g.h.final.value) && HasOutArc(g.h, stored, g.h.start.value)
  {
    var edges, start, f := ListedEdges(g), g.h.start.value, g.h.final.value;
    if SearchMeets(g, f) && f != start {
      var u := ConnectedTarget(edges, start, f);
      var a: nat :| a < |g.h.arcs| && g.h.arcs[a].head == f;
      var path :| Walk(edges, start, path, f);
      var b: nat :| b < |g.h.arcs| && g.Lists(b, start) && path[0] == g.h.arcs[b].head;
    }
  }
}
