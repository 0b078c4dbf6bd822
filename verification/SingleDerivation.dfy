/** Reading the only derivation off a hypergraph that has one in-arc for each state. */
module SingleDerivation {
  import opened Counting
  import opened Hypergraph
  import opened SplitArc
  import opened Walks
  import Empty

  /** A derivation, or the exception that says why there is not just one. */
  datatype Reading = Read(tree: Tree) | CycleException | MultipleDerivationsException | EmptySetException

  datatype Readings = AllRead(trees: seq<Tree>) | Failed(why: Reading)

  /** The arcs that lead to `s`, among the first `n`. */
  function InArcs(h: HG<int>, s: State, n: nat): seq<nat>
    requires n <= |h.arcs|
  {
    if n == 0 then [] else InArcs(h, s, n - 1) + if h.arcs[n - 1].head == s then [n - 1] else []
  }

  lemma {:induction false} InArcsRight(h: HG<int>, s: State, n: nat)
    requires n <= |h.arcs|
    ensures forall a: nat :: a in InArcs(h, s, n) <==> a < n && h.arcs[a].head == s
    ensures forall x, y :: 0 <= x < y < |InArcs(h, s, n)| ==> InArcs(h, s, n)[x] != InArcs(h, s, n)[y]
  {
    if n > 0 {
      InArcsRight(h, s, n - 1);
      var before := InArcs(h, s, n - 1);
      forall x | 0 <= x < |before| ensures before[x] < n - 1 {
        assert before[x] in before;
      }
    }
  }

  ghost predicate OnlyInArc(h: HG<int>, s: State, a: nat) {
    a < |h.arcs| && h.arcs[a].head == s && forall b :: 0 <= b < |h.arcs| && h.arcs[b].head == s ==> b == a
  }

  /** Every state below `s` in order is an axiom or has one in-arc, whose tails are further down. */
  ghost predicate Tame(h: HG<int>, rank: map<State, nat>) {
    forall s :: s in rank && !h.IsAxiom(s) ==> TameAt(h, rank, s)
  }

  ghost predicate TameAt(h: HG<int>, rank: map<State, nat>, s: State)
    requires s in rank
  {
    exists a: nat :: OnlyInArc(h, s, a) && forall k :: 0 <= k < |h.arcs[a].tails| ==>
      h.arcs[a].tails[k] in rank && rank[h.arcs[a].tails[k]] < rank[s]
  }

  /** `s` lies below everything that is being read. */
  ghost predicate Below(rank: map<State, nat>, seen: set<State>, s: State) {
    s in rank && forall u :: u in seen ==> u in rank && rank[s] < rank[u]
  }

  /** `t` is the only derivation of `s`. */
  ghost predicate OnlyDerivation(h: HG<int>, t: Tree, s: State) {
    Derives(h, true, t, s) && forall u :: Derives(h, true, u, s) ==> u == t
  }

  ghost predicate OnlyDerivations(h: HG<int>, ts: seq<Tree>, ss: seq<State>) {
    DerivesAll(h, true, ts, ss) && forall us :: DerivesAll(h, true, us, ss) ==> us == ts
  }

  lemma OnlyMore(h: HG<int>, ts: seq<Tree>, ss: seq<State>, t: Tree, s: State)
    requires OnlyDerivations(h, ts, ss) && OnlyDerivation(h, t, s)
    ensures OnlyDerivations(h, ts + [t], ss + [s])
  {
    DerivesAllAppend(h, true, ts, t, ss, s);
    forall us | DerivesAll(h, true, us, ss + [s]) ensures us == ts + [t] {
      var n := |ss|;
      DerivesAllCut(h, true, us, ss + [s], n);
      assert (ss + [s])[..n] == ss && (ss + [s])[n..] == [s];
      assert us[..n] == ts;
      assert us[n..] == [us[n]] && us == us[..n] + us[n..];
    }
  }

  // ----- What reading comes upon -----

  /** From a state that is no axiom and has one in-arc to the tails of that arc. */
  ghost function SoleEdges(h: HG<int>): set<(State, State)> {
    set a, u | 0 <= a < |h.arcs| && u in h.arcs[a].tails && OnlyInArc(h, h.arcs[a].head, a)
      && !h.IsAxiom(h.arcs[a].head) :: (h.arcs[a].head, u)
  }

  /** `u` is `s`, or only in-arcs lead down from `s` to `u`. */
  ghost predicate Under(h: HG<int>, s: State, u: State) {
    Connected(SoleEdges(h), s, u)
  }

  /** The same, by one arc at least. */
  ghost predicate FarUnder(h: HG<int>, s: State, u: State) {
    exists v :: (s, v) in SoleEdges(h) && Under(h, v, u)
  }

  ghost predicate HeadsNothing(h: HG<int>, s: State) {
    !h.IsAxiom(s) && forall a :: 0 <= a < |h.arcs| ==> h.arcs[a].head != s
  }

  ghost predicate HeadsTwo(h: HG<int>, s: State) {
    !h.IsAxiom(s) && exists a, b :: 0 <= a < b < |h.arcs| && h.arcs[a].head == s && h.arcs[b].head == s
  }

  /** What each way to fail means for the states under `s`; and there are no such states when reading succeeds. */
  ghost predicate SaysWhy(h: HG<int>, s: State, r: Reading) {
    match r
    case Read(_) => forall u :: Under(h, s, u) ==> !HeadsNothing(h, u) && !HeadsTwo(h, u) && !FarUnder(h, u, u)
    case EmptySetException => exists u :: Under(h, s, u) && HeadsNothing(h, u)
    case MultipleDerivationsException => exists u :: Under(h, s, u) && HeadsTwo(h, u)
    case CycleException => exists u :: Under(h, s, u) && FarUnder(h, u, u)
  }

  lemma UnderSelf(h: HG<int>, s: State)
    ensures Under(h, s, s)
  {
    ConnectedSelf(SoleEdges(h), s);
  }

  lemma UnderTail(h: HG<int>, a: nat, v: State, u: State)
    requires a < |h.arcs| && OnlyInArc(h, h.arcs[a].head, a) && !h.IsAxiom(h.arcs[a].head) && v in h.arcs[a].tails
    requires Under(h, v, u)
    ensures FarUnder(h, h.arcs[a].head, u) && Under(h, h.arcs[a].head, u)
  {
    assert (h.arcs[a].head, v) in SoleEdges(h);
    ConnectedStep(SoleEdges(h), h.arcs[a].head, v, u);
  }

  lemma FarUnderTail(h: HG<int>, s: State, a: nat, v: State)
    requires a < |h.arcs| && OnlyInArc(h, h.arcs[a].head, a) && !h.IsAxiom(h.arcs[a].head) && v in h.arcs[a].tails
    requires FarUnder(h, s, h.arcs[a].head)
    ensures FarUnder(h, s, v)
  {
    var u :| (s, u) in SoleEdges(h) && Under(h, u, h.arcs[a].head);
    assert (h.arcs[a].head, v) in SoleEdges(h);
    ConnectedEnd(SoleEdges(h), u, h.arcs[a].head, v);
  }

  /** What lies under a state is the state itself or under a tail of its only in-arc. */
  lemma UnderBy(h: HG<int>, a: nat, u: State)
    requires a < |h.arcs| && OnlyInArc(h, h.arcs[a].head, a) && Under(h, h.arcs[a].head, u)
    ensures u == h.arcs[a].head || exists v :: v in h.arcs[a].tails && Under(h, v, u)
  {
    var path :| Walk(SoleEdges(h), h.arcs[a].head, path, u);
    if path != [] {
      assert Walk(SoleEdges(h), path[0], path[1..], u);
    }
  }

  lemma AxiomHasNothingUnder(h: HG<int>, s: State, u: State)
    requires h.IsAxiom(s) && Under(h, s, u)
    ensures u == s
  {
    var path :| Walk(SoleEdges(h), s, path, u);
  }

  /** A state that leads down to itself has no derivation ... */
  lemma {:induction false} CycleHasNone(h: HG<int>, t: Tree, s: State)
    requires FarUnder(h, s, s)
    ensures !Derives(h, true, t, s)
    decreases t
  {
    if Derives(h, true, t, s) {
      var u :| (s, u) in SoleEdges(h) && Under(h, u, s);
      var a :| 0 <= a < |h.arcs| && h.arcs[a].head == s && u in h.arcs[a].tails && OnlyInArc(h, s, a);
      var k :| 0 <= k < |h.arcs[a].tails| && h.arcs[a].tails[k] == u;
      assert t.Node? && t.arc == a;
      DerivesAllAt(h, true, t.kids, h.arcs[a].tails, k);
      CycleGoesRound(h, s, u);
      CycleHasNone(h, t.kids[k], u);
    }
  }

  lemma CycleGoesRound(h: HG<int>, s: State, u: State)
    requires (s, u) in SoleEdges(h) && Under(h, u, s)
    ensures FarUnder(h, u, u)
  {
    var path :| Walk(SoleEdges(h), u, path, s);
    if path == [] {
      UnderSelf(h, u);
    } else {
      assert Connected(SoleEdges(h), path[0], s) by { assert Walk(SoleEdges(h), path[0], path[1..], s); }
      ConnectedEnd(SoleEdges(h), path[0], s, u);
    }
  }

  /** ... and neither has a state above one that has none. */
  lemma {:induction false} NoneAbove(h: HG<int>, s: State, path: seq<State>, u: State)
    requires Walk(SoleEdges(h), s, path, u) && forall t :: !Derives(h, true, t, u)
    ensures forall t :: !Derives(h, true, t, s)
    decreases |path|
  {
    if path != [] {
      NoneAbove(h, path[0], path[1..], u);
      var a :| 0 <= a < |h.arcs| && h.arcs[a].head == s && path[0] in h.arcs[a].tails && OnlyInArc(h, s, a);
      var k :| 0 <= k < |h.arcs[a].tails| && h.arcs[a].tails[k] == path[0];
      forall t ensures !Derives(h, true, t, s) {
        if Derives(h, true, t, s) {
          DerivesAllAt(h, true, t.kids, h.arcs[a].tails, k);
        }
      }
    }
  }

  /** No in-arc somewhere below, or a cycle there: nothing derives the state. */
  lemma FailureMeansNone(h: HG<int>, s: State, r: Reading)
    requires SaysWhy(h, s, r) && (r == EmptySetException || r == CycleException)
    ensures forall t :: !Derives(h, true, t, s)
  {
    var u :| Under(h, s, u) && if r == EmptySetException then HeadsNothing(h, u) else FarUnder(h, u, u);
    forall t ensures !Derives(h, true, t, u) {
      if r == CycleException { CycleHasNone(h, t, u); }
    }
    var path :| Walk(SoleEdges(h), s, path, u);
    NoneAbove(h, s, path, u);
  }

  ghost predicate TailsSayWhy(h: HG<int>, tails: seq<State>, r: Readings) {
    match r
    case AllRead(ts) => |ts| == |tails| && forall k :: 0 <= k < |tails| ==> SaysWhy(h, tails[k], Read(ts[k]))
    case Failed(why) => !why.Read? && exists k :: 0 <= k < |tails| && SaysWhy(h, tails[k], why)
  }

  lemma AxiomIsFine(h: HG<int>, s: State)
    requires h.IsAxiom(s)
    ensures SaysWhy(h, s, Read(Axiom(s)))
  {
    forall u | Under(h, s, u) ensures !HeadsNothing(h, u) && !HeadsTwo(h, u) && !FarUnder(h, u, u) {
      AxiomHasNothingUnder(h, s, u);
    }
  }

  lemma NotOneInArc(h: HG<int>, s: State, arcs: seq<nat>)
    requires !h.IsAxiom(s) && forall a: nat :: a in arcs <==> a < |h.arcs| && h.arcs[a].head == s
    requires forall x, y :: 0 <= x < y < |arcs| ==> arcs[x] != arcs[y]
    ensures |arcs| == 0 ==> SaysWhy(h, s, EmptySetException)
    ensures |arcs| > 1 ==> SaysWhy(h, s, MultipleDerivationsException)
  {
    UnderSelf(h, s);
    hide Under;
    if |arcs| > 1 {
      var a, b := arcs[0], arcs[1];
      assert a in arcs && b in arcs && a != b;
      assert HeadsTwo(h, s);
    } else if |arcs| == 0 {
      forall a: nat | a < |h.arcs| ensures h.arcs[a].head != s {
        assert a !in arcs;
      }
      assert HeadsNothing(h, s);
    }
  }

  lemma OnlyNode(h: HG<int>, a: nat, kids: seq<Tree>)
    requires a < |h.arcs| && OnlyInArc(h, h.arcs[a].head, a) && !h.IsAxiom(h.arcs[a].head)
    requires OnlyDerivations(h, kids, h.arcs[a].tails)
    ensures OnlyDerivation(h, Node(a, kids), h.arcs[a].head)
  {
  }

  lemma CycleSaysWhy(h: HG<int>, s: State)
    requires FarUnder(h, s, s)
    ensures SaysWhy(h, s, CycleException)
  {
    UnderSelf(h, s);
  }

  lemma SeenAbove(h: HG<int>, a: nat, seen: set<State>)
    requires a < |h.arcs| && OnlyInArc(h, h.arcs[a].head, a) && !h.IsAxiom(h.arcs[a].head)
    requires forall u :: u in seen ==> FarUnder(h, u, h.arcs[a].head)
    ensures forall k, u :: 0 <= k < |h.arcs[a].tails| && u in seen + {h.arcs[a].head} ==>
              FarUnder(h, u, h.arcs[a].tails[k])
  {
    forall k, u | 0 <= k < |h.arcs[a].tails| && u in seen + {h.arcs[a].head}
      ensures FarUnder(h, u, h.arcs[a].tails[k])
    {
      if u in seen {
        FarUnderTail(h, u, a, h.arcs[a].tails[k]);
      } else {
        UnderSelf(h, h.arcs[a].tails[k]);
        UnderTail(h, a, h.arcs[a].tails[k], h.arcs[a].tails[k]);
      }
    }
  }

  lemma WhyByTails(h: HG<int>, a: nat, kids: Readings)
    requires a < |h.arcs| && OnlyInArc(h, h.arcs[a].head, a) && !h.IsAxiom(h.arcs[a].head)
    requires TailsSayWhy(h, h.arcs[a].tails, kids)
    ensures kids.Failed? ==> SaysWhy(h, h.arcs[a].head, kids.why)
    ensures kids.AllRead? ==> forall u :: Under(h, h.arcs[a].head, u) && u != h.arcs[a].head ==>
              !HeadsNothing(h, u) && !HeadsTwo(h, u) && !FarUnder(h, u, u)
  {
    var s, tails := h.arcs[a].head, h.arcs[a].tails;
    if kids.Failed? {
      var k :| 0 <= k < |tails| && SaysWhy(h, tails[k], kids.why);
      forall u | Under(h, tails[k], u) ensures Under(h, s, u) {
        UnderTail(h, a, tails[k], u);
      }
    } else {
      forall u | Under(h, s, u) && u != s ensures !HeadsNothing(h, u) && !HeadsTwo(h, u) && !FarUnder(h, u, u) {
        UnderBy(h, a, u);
        var v :| v in tails && Under(h, v, u);
        var k :| 0 <= k < |tails| && tails[k] == v;
        assert SaysWhy(h, tails[k], Read(kids.trees[k]));
      }
    }
  }

  /** The state itself has its one in-arc, and does not lead down to itself because it has a derivation. */
  lemma ReadIsFine(h: HG<int>, a: nat, t: Tree)
    requires a < |h.arcs| && OnlyInArc(h, h.arcs[a].head, a) && Derives(h, true, t, h.arcs[a].head)
    requires forall u :: Under(h, h.arcs[a].head, u) && u != h.arcs[a].head ==>
               !HeadsNothing(h, u) && !HeadsTwo(h, u) && !FarUnder(h, u, u)
    ensures SaysWhy(h, h.arcs[a].head, Read(t))
  {
    if FarUnder(h, h.arcs[a].head, h.arcs[a].head) {
      CycleHasNone(h, t, h.arcs[a].head);
    }
  }

  class Reader {
    const h: HG<int>
    const nStates: nat
    var seen: set<State>

    constructor (h: HG<int>, nStates: nat)
      ensures this.h == h && this.nStates == nStates && seen == {}
    {
      this.h, this.nStates, seen := h, nStates, {};
    }

    /** Top-down along the one in-arc of each state. What is read is the only derivation there is; reading succeeds
        wherever the states below are ordered and have one in-arc each, and the exception tells what is wrong with
        one of the states below. */
    method ReadState(from: State) returns (r: Reading)
      requires Inside(h, nStates) && from < nStates && forall u :: u in seen ==> FarUnder(h, u, from)
      modifies this
      ensures SaysWhy(h, from, r)
      ensures r.Read? ==> seen == old(seen) && OnlyDerivation(h, r.tree, from)
      ensures forall rank :: Tame(h, rank) && Below(rank, old(seen), from) ==> r.Read?
      decreases UpTo(nStates) - seen, 1, 0
    {
      hide SaysWhy, FarUnder, Under, TailsSayWhy, Tame;
      if h.IsAxiom(from) {
        AxiomIsFine(h, from);
        return Read(Axiom(from));
      }
      if from in seen {
        CycleSaysWhy(h, from);
        return CycleException;
      }
      ghost var seen0 := seen;
      seen := seen + {from};
      assert from in UpTo(nStates);
      var arcs := InArcs(h, from, |h.arcs|);
      InArcsRight(h, from, |h.arcs|);
      if |arcs| != 1 {
        NotTame(h, from, arcs, seen0);
        NotOneInArc(h, from, arcs);
        return if |arcs| > 1 then MultipleDerivationsException else EmptySetException;
      }
      var arc := arcs[0];
      assert arc in arcs;
      assert OnlyInArc(h, from, arc) by {
        forall b | 0 <= b < |h.arcs| && h.arcs[b].head == from ensures b == arc {
          assert b in arcs;
        }
      }
      GoesDown(h, from, arc, seen0);
      SeenAbove(h, arc, seen0);
      var kids := ReadTails(h.arcs[arc].tails);
      WhyByTails(h, arc, kids);
      if kids.Failed? {
        return kids.why;
      }
      seen := seen - {from};
      r := Read(Node(arc, kids.trees));
      OnlyNode(h, arc, kids.trees);
      ReadIsFine(h, arc, r.tree);
    }

    method ReadTails(tails: seq<State>) returns (r: Readings)
      requires Inside(h, nStates) && forall k :: 0 <= k < |tails| ==> tails[k] < nStates
      requires forall k, u :: 0 <= k < |tails| && u in seen ==> FarUnder(h, u, tails[k])
      modifies this
      ensures TailsSayWhy(h, tails, r)
      ensures r.AllRead? ==> seen == old(seen) && OnlyDerivations(h, r.trees, tails)
      ensures r.Failed? ==> !r.why.Read?
      ensures forall rank :: Tame(h, rank) && (forall k :: 0 <= k < |tails| ==> Below(rank, old(seen), tails[k])) ==>
                r.AllRead?
      decreases UpTo(nStates) - seen, 2, 0
    {
      var ch: seq<Tree> := [];
      assert tails[..0] == [];
      for i := 0 to |tails|
        invariant seen == old(seen) && |ch| == i && OnlyDerivations(h, ch, tails[..i])
        invariant forall k :: 0 <= k < i ==> SaysWhy(h, tails[k], Read(ch[k]))
      {
        var t := ReadState(tails[i]);
        if !t.Read? {
          return Failed(t);
        }
        OnlyMore(h, ch, tails[..i], t.tree, tails[i]);
        assert tails[..i + 1] == tails[..i] + [tails[i]];
        ch := ch + [t.tree];
      }
      assert tails[..|tails|] == tails;
      r := AllRead(ch);
    }
  }

  /** There is no final state, or it is not the start state and the head of no arc. */
  ghost predicate Rejected(h: HG<int>) {
    h.final.None? || (h.final != h.start && forall a :: 0 <= a < |h.arcs| ==> h.arcs[a].head != h.final.value)
  }

  /** The derivation of the final state, where in-arcs are stored and no out-arcs; nothing is read, as for
      EmptySetException, when the quick test says that there is none. */
  method ReadFinal(h: HG<int>, nStates: nat) returns (r: Reading)
    requires Inside(h, nStates) && (h.final.Some? ==> h.final.value < nStates)
    ensures r.Read? ==> h.final.Some? && OnlyDerivation(h, r.tree, h.final.value)
    ensures Rejected(h) ==> r == EmptySetException
    ensures !Rejected(h) ==> SaysWhy(h, h.final.value, r)
    ensures !Rejected(h) && (r == EmptySetException || r == CycleException) ==>
              forall t :: !Derives(h, true, t, h.final.value)
    ensures !Rejected(h) ==> forall rank :: Tame(h, rank) && h.final.value in rank ==> r.Read?
  {
    if Empty.PrunedEmpty(h, true, Empty.NoOut) {
      return EmptySetException;
    }
    var reader := new Reader(h, nStates);
    r := reader.ReadState(h.final.value);
    if r == EmptySetException || r == CycleException {
      FailureMeansNone(h, h.final.value, r);
    }
    assert forall rank :: Tame(h, rank) && h.final.value in rank ==> Below(rank, {}, h.final.value);
  }

  lemma OneIfOnly(h: HG<int>, s: State, a: nat)
    ensures OnlyInArc(h, s, a) ==> |InArcs(h, s, |h.arcs|)| == 1
  {
    var arcs := InArcs(h, s, |h.arcs|);
    InArcsRight(h, s, |h.arcs|);
    if OnlyInArc(h, s, a) {
      assert a in arcs;
      assert arcs[0] in arcs && arcs[|arcs| - 1] in arcs;
    }
  }

  /** A state with no in-arc, or several, is in no such order. */
  lemma NotTame(h: HG<int>, s: State, arcs: seq<nat>, seen: set<State>)
    requires !h.IsAxiom(s) && arcs == InArcs(h, s, |h.arcs|) && |arcs| != 1
    ensures forall rank :: Below(rank, seen, s) ==> !Tame(h, rank)
  {
    InArcsRight(h, s, |h.arcs|);
    forall rank | Below(rank, seen, s) ensures !Tame(h, rank) {
      forall a: nat | a < |h.arcs| ensures !OnlyInArc(h, s, a) {
        OneIfOnly(h, s, a);
      }
      assert Tame(h, rank) ==> TameAt(h, rank, s);
    }
  }

  /** In such an order the tails of the in-arc lie below the state itself and all above it. */
  lemma GoesDown(h: HG<int>, s: State, a: nat, seen: set<State>)
    requires !h.IsAxiom(s) && OnlyInArc(h, s, a)
    ensures forall rank :: Tame(h, rank) && Below(rank, seen, s) ==>
              forall k :: 0 <= k < |h.arcs[a].tails| ==> Below(rank, seen + {s}, h.arcs[a].tails[k])
  {
    forall rank | Tame(h, rank) && Below(rank, seen, s)
      ensures forall k :: 0 <= k < |h.arcs[a].tails| ==> Below(rank, seen + {s}, h.arcs[a].tails[k])
    {
      assert TameAt(h, rank, s);
      var b: nat :| OnlyInArc(h, s, b) && forall k :: 0 <= k < |h.arcs[b].tails| ==>
        h.arcs[b].tails[k] in rank && rank[h.arcs[b].tails[k]] < rank[s];
      assert b == a;
    }
  }
}
