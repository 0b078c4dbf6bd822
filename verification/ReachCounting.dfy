/** Out-lists that mention an arc once a tail, and what counting those mentions down shows. */
module ReachCounting {
  import opened Hypergraph
  import opened Counting
  import opened Derivability

  /** One mention of an arc in a state's out-list. An arc is mentioned once for each of its tails
      that is this state; `pos` is the tail the mention stands for (the program keeps only `arc`). */
  datatype Mention = Mention(arc: nat, pos: nat)

  /** The hypergraph with its out-lists, which list an arc under all its tails or under the first only. */
  datatype Indexed<+W> = Indexed(h: HG<W>, out: seq<seq<Mention>>, allTails: bool) {

    ghost predicate Valid() {
      && (forall a :: 0 <= a < |h.arcs| ==> h.arcs[a].head < |out| && |h.arcs[a].tails| > 0)
      && (forall s: State :: h.IsAxiom(s) ==> s < |out|)
    }

    ghost predicate IsTailAt(m: Mention, s: State) {
      m.arc < |h.arcs| && m.pos < |h.arcs[m.arc].tails| && h.arcs[m.arc].tails[m.pos] == s
    }

    /** Graphs with a start state are searched forward from it. */
    predicate ByGraph() {
      IsGraph() && h.start.Some?
    }

    /** Every tail of every arc is mentioned exactly once. */
    ghost predicate StoresAllOutArcs() {
      && (forall m, s: State :: IsTailAt(m, s) ==> s < |out| && m in out[s])
      && (forall s, k :: 0 <= s < |out| && 0 <= k < |out[s]| ==> IsTailAt(out[s][k], s))
      && (forall s, j, k :: 0 <= s < |out| && 0 <= j < k < |out[s]| ==> out[s][j] != out[s][k])
    }

    /** Each arc is listed under its first tail. */
    ghost predicate StoresFirstTailOutArcs() {
      && (forall a :: 0 <= a < |h.arcs| ==>
          |h.arcs[a].tails| > 0 && h.arcs[a].tails[0] < |out| && Mention(a, 0) in out[h.arcs[a].tails[0]])
      && (forall s, k :: 0 <= s < |out| && 0 <= k < |out[s]| ==> IsTailAt(out[s][k], s) && out[s][k].pos == 0)
    }

    ghost predicate StoresOutArcs() {
      if allTails then StoresAllOutArcs() else StoresFirstTailOutArcs()
    }

    /** The arc is listed under `u`. */
    predicate Lists(a: nat, u: State) {
      a < |h.arcs| && u in h.arcs[a].tails && (allTails || u == h.arcs[a].tails[0])
    }

    /** The arc's head is not labelled and its tails are, except the first: that one must not be when
        there are two tails, and may or may not be otherwise. */
    predicate IsGraphArc(arc: Arc<W>) {
      && arc.head !in h.labels
      && |arc.tails| > 0
      && (|arc.tails| == 2 ==> arc.tails[0] !in h.labels)
      && (forall k :: 1 <= k < |arc.tails| ==> arc.tails[k] in h.labels)
    }

    predicate IsGraph() {
      forall a :: 0 <= a < |h.arcs| ==> IsGraphArc(h.arcs[a])
    }

    /** The first tail is labelled, which a graph as documented does not have. */
    predicate Loose(a: nat) {
      a < |h.arcs| && |h.arcs[a].tails| > 0 && h.arcs[a].tails[0] in h.labels
    }
  }

  /** The tails of arc `a` not yet counted down. */
  ghost function Pending<W>(g: Indexed<W>, a: nat, done: set<Mention>): set<nat>
    requires a < |g.h.arcs|
  {
    set k | 0 <= k < |g.h.arcs[a].tails| && Mention(a, k) !in done
  }

  ghost predicate CountersRight<W>(g: Indexed<W>, tailsLeft: map<nat, nat>, done: set<Mention>) {
    && (forall a :: a in tailsLeft <==> 0 <= a < |g.h.arcs|)
    && (forall a :: 0 <= a < |g.h.arcs| ==> tailsLeft[a] == |Pending(g, a, done)|)
  }

  ghost predicate TailIn<W>(g: Indexed<W>, m: Mention, ss: set<State>) {
    m.arc < |g.h.arcs| && m.pos < |g.h.arcs[m.arc].tails| && g.h.arcs[m.arc].tails[m.pos] in ss
  }

  ghost predicate DoneRight<W>(g: Indexed<W>, reached: set<State>, done: set<Mention>) {
    forall m :: m in done ==> TailIn(g, m, reached)
  }

  ghost predicate ReachedRight<W>(g: Indexed<W>, reached: set<State>) {
    forall s :: s in reached ==> s < |g.out| && Derivable(g.h, s)
  }

  /** The head of every arc counted down to nothing is reached, or in `next`. */
  ghost predicate HeadsFollow<W>(g: Indexed<W>, reached: set<State>, tailsLeft: map<nat, nat>, next: set<State>) {
    forall a :: 0 <= a < |g.h.arcs| && a in tailsLeft && tailsLeft[a] == 0 ==> g.h.arcs[a].head in reached + next
  }

  ghost predicate CountedDown<W>(g: Indexed<W>, tailsLeft: map<nat, nat>, v: State, u: State) {
    exists a :: 0 <= a < |g.h.arcs| && a in tailsLeft && tailsLeft[a] == 0 && g.h.arcs[a].head == v
      && u in g.h.arcs[a].tails
  }

  /** `outside` holds the head-to-tail edges of exactly the arcs counted down to nothing. */
  ghost predicate OutsideOf<W>(g: Indexed<W>, tailsLeft: map<nat, nat>, outside: set<(State, State)>) {
    forall v: State, u: State :: (v, u) in outside <==> CountedDown(g, tailsLeft, v, u)
  }

  function EdgesOf<W>(arc: Arc<W>): set<(State, State)> {
    set t | t in arc.tails :: (arc.head, t)
  }

  /** All mentions in the list of `s` have been counted. */
  ghost predicate AllDone<W>(g: Indexed<W>, done: set<Mention>, s: State) {
    s < |g.out| && forall k :: 0 <= k < |g.out[s]| ==> g.out[s][k] in done
  }

  lemma CountDown<W>(g: Indexed<W>, tailsLeft: map<nat, nat>, done: set<Mention>, m: Mention, s: State)
    requires CountersRight(g, tailsLeft, done) && g.IsTailAt(m, s) && m !in done
    ensures m.arc in tailsLeft && tailsLeft[m.arc] > 0
    ensures CountersRight(g, tailsLeft[m.arc := tailsLeft[m.arc] - 1], done + {m})
  {
    assert m.pos in Pending(g, m.arc, done);
    assert Pending(g, m.arc, done + {m}) == Pending(g, m.arc, done) - {m.pos};
    forall b | 0 <= b < |g.h.arcs| && b != m.arc ensures Pending(g, b, done + {m}) == Pending(g, b, done) {
    }
  }

  /** When the last tail is counted the arc can be used. */
  lemma CountedDownIsUsable<W>(g: Indexed<W>, reached: set<State>, tailsLeft: map<nat, nat>, done: set<Mention>, a: nat)
    requires CountersRight(g, tailsLeft, done) && DoneRight(g, reached, done) && ReachedRight(g, reached)
    requires a < |g.h.arcs| && tailsLeft[a] == 0
    ensures Usable(g.h, a) && Derivable(g.h, g.h.arcs[a].head)
  {
    forall k | 0 <= k < |g.h.arcs[a].tails| ensures Derivable(g.h, g.h.arcs[a].tails[k]) {
      assert Pending(g, a, done) == {};
      assert k !in Pending(g, a, done);
      assert Mention(a, k) in done;
    }
    DerivableHead(g.h, a);
  }

  lemma OutsideGrows<W>(g: Indexed<W>, tailsLeft: map<nat, nat>, outside: set<(State, State)>, a: nat)
    requires OutsideOf(g, tailsLeft, outside) && a < |g.h.arcs| && a in tailsLeft && tailsLeft[a] > 0
    ensures OutsideOf(g, tailsLeft[a := tailsLeft[a] - 1],
                      if tailsLeft[a] == 1 then outside + EdgesOf(g.h.arcs[a]) else outside)
  {
    var tailsLeft' := tailsLeft[a := tailsLeft[a] - 1];
    var outside' := if tailsLeft[a] == 1 then outside + EdgesOf(g.h.arcs[a]) else outside;
    forall v: State, u: State ensures (v, u) in outside' <==> CountedDown(g, tailsLeft', v, u) {
      if CountedDown(g, tailsLeft, v, u) {
        var b :| 0 <= b < |g.h.arcs| && b in tailsLeft && tailsLeft[b] == 0 && g.h.arcs[b].head == v
          && u in g.h.arcs[b].tails;
        assert tailsLeft'[b] == 0;
      }
      if tailsLeft[a] == 1 && (v, u) in EdgesOf(g.h.arcs[a]) {
        assert tailsLeft'[a] == 0;
      }
      if CountedDown(g, tailsLeft', v, u) {
        var b :| 0 <= b < |g.h.arcs| && b in tailsLeft' && tailsLeft'[b] == 0 && g.h.arcs[b].head == v
          && u in g.h.arcs[b].tails;
      }
    }
  }

  /** What the search by counters keeps; the state in `next` is about to be reached. */
  ghost predicate CountingRight<W>(g: Indexed<W>, reached: set<State>, tailsLeft: map<nat, nat>,
                                   outside: set<(State, State)>,
                                   computeUseful: bool, done: set<Mention>, next: set<State>) {
    && CountersRight(g, tailsLeft, done) && DoneRight(g, reached, done) && ReachedRight(g, reached)
    && HeadsFollow(g, reached, tailsLeft, next)
    && (computeUseful ==> OutsideOf(g, tailsLeft, outside))
  }

  /** Before anything is counted. */
  lemma CountersBegin<W>(g: Indexed<W>, tailsLeft: map<nat, nat>)
    requires g.Valid() && tailsLeft == map a | 0 <= a < |g.h.arcs| :: |g.h.arcs[a].tails|
    ensures CountersRight(g, tailsLeft, {}) && HeadsFollow(g, {}, tailsLeft, {}) && OutsideOf(g, tailsLeft, {})
  {
    forall a | 0 <= a < |g.h.arcs| ensures Pending(g, a, {}) == UpTo(|g.h.arcs[a].tails|) {
    }
  }

  lemma CountingLatched<W>(g: Indexed<W>, reached: set<State>, tailsLeft: map<nat, nat>, outside: set<(State, State)>,
                           computeUseful: bool, done: set<Mention>, s: State)
    requires CountingRight(g, reached, tailsLeft, outside, computeUseful, done, {s}) && s < |g.out| && Derivable(g.h, s)
    ensures CountingRight(g, reached + {s}, tailsLeft, outside, computeUseful, done, {}) && DoneRight(g, reached, done)
  {
    hide Derivable, CountersRight, OutsideOf;
  }

  lemma NothingCounted<W>(g: Indexed<W>, reached: set<State>, done: set<Mention>, s: State)
    requires DoneRight(g, reached, done) && g.StoresAllOutArcs() && s < |g.out| && s !in reached
    ensures forall j :: 0 <= j < |g.out[s]| ==> g.out[s][j] !in done
  {
    forall j | 0 <= j < |g.out[s]| ensures g.out[s][j] !in done {
      assert g.IsTailAt(g.out[s][j], s);
    }
  }

  /** One mention is counted; if it was the last of its arc, the arc's head comes next. */
  lemma CountedOne<W>(g: Indexed<W>, reached: set<State>, tailsLeft: map<nat, nat>, outside: set<(State, State)>,
                      computeUseful: bool, done: set<Mention>, m: Mention, s: State)
    requires CountingRight(g, reached, tailsLeft, outside, computeUseful, done, {})
    requires g.IsTailAt(m, s) && s in reached && m !in done
    ensures m.arc in tailsLeft && tailsLeft[m.arc] > 0
    ensures tailsLeft[m.arc] == 1 ==> Derivable(g.h, g.h.arcs[m.arc].head)
    ensures CountingRight(g, reached, tailsLeft[m.arc := tailsLeft[m.arc] - 1],
                          if computeUseful && tailsLeft[m.arc] == 1 then outside + EdgesOf(g.h.arcs[m.arc])
                              else outside,
                          computeUseful, done + {m}, if tailsLeft[m.arc] == 1 then {g.h.arcs[m.arc].head} else {})
  {
    hide Derivable, Pending, CountersRight, OutsideOf;
    CountDown(g, tailsLeft, done, m, s);
    if computeUseful {
      OutsideGrows(g, tailsLeft, outside, m.arc);
    }
    if tailsLeft[m.arc] == 1 {
      CountedDownIsUsable(g, reached, tailsLeft[m.arc := 0], done + {m}, m.arc);
    }
  }

  /** At the end the reached states are closed: none can be added. */
  lemma AllCounted<W>(g: Indexed<W>, reached: set<State>, tailsLeft: map<nat, nat>, done: set<Mention>)
    requires g.Valid() && g.StoresAllOutArcs()
    requires CountersRight(g, tailsLeft, done) && HeadsFollow(g, reached, tailsLeft, {})
    requires forall s :: s in reached ==> AllDone(g, done, s)
    requires forall s: State :: g.h.IsAxiom(s) ==> s in reached
    ensures ClosedUnderArcs(g.h, reached)
  {
    forall a | 0 <= a < |g.h.arcs| && (forall k :: 0 <= k < |g.h.arcs[a].tails| ==> g.h.arcs[a].tails[k] in reached)
      ensures g.h.arcs[a].head in reached
    {
      forall k | 0 <= k < |g.h.arcs[a].tails| ensures Mention(a, k) in done {
        var s := g.h.arcs[a].tails[k];
        assert g.IsTailAt(Mention(a, k), s);
        assert AllDone(g, done, s);
      }
      assert Pending(g, a, done) == {};
    }
  }

  /** With all states reached that can be, the arcs counted down are exactly the usable ones. */
  lemma OutsideIsUsable<W>(g: Indexed<W>, reached: set<State>, tailsLeft: map<nat, nat>, outside: set<(State, State)>,
                           done: set<Mention>)
    requires g.Valid() && g.StoresAllOutArcs()
    requires CountersRight(g, tailsLeft, done) && DoneRight(g, reached, done) && ReachedRight(g, reached)
    requires forall s :: s in reached ==> AllDone(g, done, s)
    requires forall s: State :: Derivable(g.h, s) ==> s in reached
    requires OutsideOf(g, tailsLeft, outside)
    ensures OutsideRight(g.h, outside)
  {
    forall a: nat | a < |g.h.arcs| ensures Usable(g.h, a) <==> tailsLeft[a] == 0 {
      if tailsLeft[a] == 0 {
        CountedDownIsUsable(g, reached, tailsLeft, done, a);
      }
      if Usable(g.h, a) {
        forall k | 0 <= k < |g.h.arcs[a].tails| ensures Mention(a, k) in done {
          var s := g.h.arcs[a].tails[k];
          assert g.IsTailAt(Mention(a, k), s);
          assert AllDone(g, done, s);
        }
        assert Pending(g, a, done) == {};
      }
    }
    forall v: State, u: State ensures CountedDown(g, tailsLeft, v, u) <==> Edge(g.h, v, u) {
      if Edge(g.h, v, u) {
        var a: nat :| Usable(g.h, a) && g.h.arcs[a].head == v && u in g.h.arcs[a].tails;
        assert tailsLeft[a] == 0;
      }
      if CountedDown(g, tailsLeft, v, u) {
        var a :| 0 <= a < |g.h.arcs| && a in tailsLeft && tailsLeft[a] == 0 && g.h.arcs[a].head == v
          && u in g.h.arcs[a].tails;
        assert Usable(g.h, a);
      }
    }
  }

  /** What visiting adds to `r0` and `d0`: more states, each with its mentions counted unless it is
      `busy`, and no mention of a state that was there before. */
  ghost predicate Visited<W>(g: Indexed<W>, r0: set<State>, d0: set<Mention>, r1: set<State>, d1: set<Mention>,
                             busy: set<State>) {
    && r0 <= r1 && d0 <= d1
    && (forall m :: m in d1 && m !in d0 ==> TailIn(g, m, r1 - r0))
    && (forall s :: s in r1 && s !in r0 && s !in busy ==> AllDone(g, d1, s))
  }

  lemma VisitedLatch<W>(g: Indexed<W>, r: set<State>, d: set<Mention>, s: State, busy: set<State>)
    ensures Visited(g, r, d, r, d, busy) && Visited(g, r, d, r + {s}, d, busy + {s})
  {
  }

  /** The other mentions of a state that was there before are left to be counted. */
  lemma VisitedLeaves<W>(g: Indexed<W>, r0: set<State>, d0: set<Mention>, r1: set<State>, d1: set<Mention>,
                         busy: set<State>, s: State, k: nat)
    requires Visited(g, r0, d0, r1, d1, busy) && g.StoresAllOutArcs() && s < |g.out| && s in r0 && k <= |g.out[s]|
    requires forall j :: k <= j < |g.out[s]| ==> g.out[s][j] !in d0
    ensures forall j :: k <= j < |g.out[s]| ==> g.out[s][j] !in d1
  {
    forall j | k <= j < |g.out[s]| ensures g.out[s][j] !in d1 {
      assert g.IsTailAt(g.out[s][j], s);
    }
  }

  lemma VisitedMention<W>(g: Indexed<W>, r0: set<State>, d0: set<Mention>, r1: set<State>, d1: set<Mention>,
                          m: Mention, busy: set<State>)
    requires Visited(g, r0, d0, r1, d1, busy) && TailIn(g, m, r1 - r0)
    ensures Visited(g, r0, d0, r1, d1 + {m}, busy)
  {
    forall s | s in r1 && s !in r0 && s !in busy ensures AllDone(g, d1 + {m}, s) {
      assert AllDone(g, d1, s);
    }
  }

  /** A latched state stays busy until its own mentions are counted. */
  lemma VisitedClosed<W>(g: Indexed<W>, r0: set<State>, d0: set<Mention>, r1: set<State>, d1: set<Mention>,
                         s: State, busy: set<State>)
    requires Visited(g, r0, d0, r1, d1, busy + {s}) && AllDone(g, d1, s)
    ensures Visited(g, r0, d0, r1, d1, busy)
  {
  }

  // ----- The test for graph arcs -----

  /** The program's way through the tails, from the first one if that is labelled and from the second otherwise. The
      mark for finite-state machines is kept or taken away. */
  method IsGraphArcImpl<W>(g: Indexed<W>, arc: Arc<W>, fsm: bool) returns (r: bool, fsm': bool)
    ensures r <==> g.IsGraphArc(arc)
    ensures fsm' <==> fsm && |arc.tails| == 2 && g.IsGraphArc(arc)
  {
    var tails, labels := arc.tails, g.h.labels;
    if arc.head in labels {
      return false, false;
    }
    if |tails| == 2 {
      if tails[0] in labels {
        return false, false;
      } else if tails[1] !in labels {
        return false, false;
      } else {
        return true, fsm;
      }
    }
    if |tails| == 0 {
      return false, false;
    }
    var i := if tails[0] in labels then 0 else 1;
    while i < |tails|
      invariant i <= |tails| && (tails[0] in labels || i >= 1)
      invariant forall k :: 1 <= k < i ==> tails[k] in labels
    {
      if tails[i] !in labels {
        return false, false;
      }
      i := i + 1;
    }
    return true, false;
  }
}
