/** Depth-first ordering of a graph's states, along out-arcs or along in-arcs. */
module StateOrder {
  import opened Hypergraph
  import opened Walks

  /** Along out-arcs an arc leads from its first tail to its head, along in-arcs the other way. */
  datatype Direction = ToHead | ToTail0

  /** A graph and one of its arc indexes: `lists[s]` are the arcs that leave `s` in this direction. */
  datatype Adjacency<+W> = Adjacency(h: HG<W>, direction: Direction, lists: seq<seq<nat>>) {

    ghost predicate Valid() {
      && (forall a :: 0 <= a < |h.arcs| ==>
          |h.arcs[a].tails| > 0 && To(h.arcs[a]) < |lists| && From(h.arcs[a]) < |lists|)
      && (forall s, k :: 0 <= s < |lists| && 0 <= k < |lists[s]| ==>
          lists[s][k] < |h.arcs| && From(h.arcs[lists[s][k]]) == s)
      && (forall a :: 0 <= a < |h.arcs| ==> a in lists[From(h.arcs[a])])
    }

    function From<V>(arc: Arc<V>): State
      requires |arc.tails| > 0
    {
      if direction == ToHead then arc.tails[0] else arc.head
    }

    function To<V>(arc: Arc<V>): State
      requires |arc.tails| > 0
    {
      if direction == ToHead then arc.head else arc.tails[0]
    }

    ghost function Edges(): set<(State, State)>
      requires Valid()
    {
      set a | 0 <= a < |h.arcs| :: (From(h.arcs[a]), To(h.arcs[a]))
    }
  }

  datatype Color = Fresh | Opened | Closed

  class ComputeStateOrder<W> {
    const g: Adjacency<W>
    const maxBackEdges: nat
    const color: array<Color>
    var order: seq<State>
    var nBackEdges: nat

    constructor (g: Adjacency<W>, maxBackEdges: nat)
      ensures this.g == g && this.maxBackEdges == maxBackEdges && order == [] && nBackEdges == 0
      ensures fresh(color) && color.Length == |g.lists| && forall s :: 0 <= s < color.Length ==> color[s] == Fresh
    {
      this.g, this.maxBackEdges, order, nBackEdges := g, maxBackEdges, [], 0;
      color := new Color[|g.lists|](_ => Fresh);
    }

    /** The ordered states are the closed ones; without a back edge every edge of theirs leads back. */
    ghost predicate Ordering(root: State)
      reads this, color
    {
      && g.Valid() && color.Length == |g.lists|
      && OrderingBy(g, root, color[..], order, nBackEdges)
    }

    /** Visits `from` and what it leads to; false when too many back edges were met. */
    method Open(ghost root: State, from: State) returns (ok: bool)
      requires Ordering(root) && StackLeadsTo(g, color[..], from) && from < color.Length && color[from] == Opened
      requires nBackEdges <= maxBackEdges
      modifies this, color
      ensures Ordering(root)
      ensures old(nBackEdges) <= nBackEdges <= maxBackEdges + 1 && (ok <==> nBackEdges <= maxBackEdges)
      ensures ok ==> color[from] == Closed && Advanced(old(color[..]), color[..], from)
      decreases FreshSet(color[..])
    {
      hide OrderingBy, StackLeadsTo;
      ghost var c0, n0 := color[..], nBackEdges;
      for k := 0 to |g.lists[from]|
        invariant Ordering(root) && StackLeadsTo(g, color[..], from) && color[from] == Opened
        invariant Advanced(c0, color[..], from) && n0 <= nBackEdges <= maxBackEdges
        invariant MetSoFar(g, color[..], from, k)
        invariant nBackEdges == 0 ==> Followed(g, color[..], from, k)
      {
        var arc := g.h.arcs[g.lists[from][k]];
        var to := g.To(arc);
        ghost var c1, n1 := color[..], nBackEdges;
        ArcIsEdge(g, from, k);
        var prevColor := color[to];
        if prevColor == Fresh {
          color[to] := Opened;
          OpenedNext(g, root, c1, order, nBackEdges, from, to);
          ok := Open(root, to);
          if !ok {
            return;
          }
          ClosedAgain(g, c1, to, color[..], from);
        } else if prevColor == Opened && to != from {
          BackEdgeIsCycle(g, root, c1, order, nBackEdges, from, to);
          nBackEdges := nBackEdges + 1;
          if nBackEdges > maxBackEdges {
            return false;
          }
        }
      }
      CloseLast(g, root, color[..], order, nBackEdges, from);
      order := order + [from];
      color[from] := Closed;
      ok := true;
    }

    /** Orders what `root` reaches. */
    method Start(root: State) returns (ok: bool)
      requires g.Valid() && root < |g.lists| && order == [] && nBackEdges == 0
      requires color.Length == |g.lists| && forall s :: 0 <= s < color.Length ==> color[s] == Fresh
      modifies this, color
      ensures nBackEdges <= maxBackEdges + 1 && (ok <==> nBackEdges <= maxBackEdges)
      ensures nBackEdges == 0 <==> Acyclic(g.Edges(), root)
      ensures nBackEdges == 0 ==> TargetsFirst(g.Edges(), order)
      ensures Distinct(order) && forall s :: s in order ==> Connected(g.Edges(), root, s)
      ensures ok ==> forall s :: s in order <==> Connected(g.Edges(), root, s)
    {
      color[root] := Opened;
      ConnectedSelf(g.Edges(), root);
      ok := Open(root, root);
      if ok {
        AllClosed(g, root, color[..], order, nBackEdges);
      }
      if nBackEdges == 0 {
        OrderedIsAcyclic(g.Edges(), order, root);
      }
    }
  }

  // ----- What each step keeps -----

  ghost predicate OrderingBy<W>(g: Adjacency<W>, root: State, color: seq<Color>, order: seq<State>, nBackEdges: nat)
    requires g.Valid()
  {
    && root < |color| && Distinct(order)
    && (forall s :: s in order <==> 0 <= s < |color| && color[s] == Closed)
    && (forall s :: 0 <= s < |color| && color[s] != Fresh ==> Connected(g.Edges(), root, s))
    && ClosedOnward(g, color)
    && (nBackEdges == 0 ==> TargetsFirst(g.Edges(), order))
    && (nBackEdges > 0 ==> !Acyclic(g.Edges(), root))
  }

  /** Edges of closed states lead to states that have been met. */
  ghost predicate ClosedOnward<W>(g: Adjacency<W>, color: seq<Color>)
    requires g.Valid()
  {
    forall s, v :: 0 <= s < |color| && color[s] == Closed && (s, v) in g.Edges() ==> v < |color| && color[v] != Fresh
  }

  lemma OnwardStill<W>(g: Adjacency<W>, color: seq<Color>, to: State)
    requires g.Valid() && ClosedOnward(g, color) && to < |color| && color[to] == Fresh
    ensures ClosedOnward(g, color[to := Opened])
  {
  }

  /** Every opened state is on the way to `from`. */
  ghost predicate StackLeadsTo<W>(g: Adjacency<W>, color: seq<Color>, from: State)
    requires g.Valid()
  {
    forall s :: 0 <= s < |color| && color[s] == Opened ==> Connected(g.Edges(), s, from)
  }

  ghost function FreshSet(color: seq<Color>): set<State> {
    set s | 0 <= s < |color| && color[s] == Fresh
  }

  /** A visit only closes states that were fresh, and leaves the stack as it was. */
  ghost predicate Advanced(c0: seq<Color>, c1: seq<Color>, from: State) {
    && |c0| == |c1|
    && forall s :: 0 <= s < |c0| && s != from ==> c1[s] == c0[s] || (c0[s] == Fresh && c1[s] == Closed)
  }

  /** The first `k` arcs of `from` lead to closed states or back to `from`. */
  ghost predicate Followed<W>(g: Adjacency<W>, color: seq<Color>, from: State, k: nat)
    requires g.Valid() && |color| == |g.lists| && from < |g.lists| && k <= |g.lists[from]|
  {
    forall j :: 0 <= j < k ==>
      var v := g.To(g.h.arcs[g.lists[from][j]]); v == from || color[v] == Closed
  }

  /** The first `k` arcs of `from` lead to states that have been met. */
  ghost predicate MetSoFar<W>(g: Adjacency<W>, color: seq<Color>, from: State, k: nat)
    requires g.Valid() && |color| == |g.lists| && from < |g.lists| && k <= |g.lists[from]|
  {
    forall j :: 0 <= j < k ==> color[g.To(g.h.arcs[g.lists[from][j]])] != Fresh
  }

  /** When nothing is open any more, what was met is all that can be reached. */
  lemma AllClosed<W>(g: Adjacency<W>, root: State, color: seq<Color>, order: seq<State>, n: nat)
    requires g.Valid() && OrderingBy(g, root, color, order, n)
    requires color[root] == Closed && forall s :: 0 <= s < |color| ==> color[s] != Opened
    ensures forall s :: s in order <==> Connected(g.Edges(), root, s)
  {
    var closed := set s | 0 <= s < |color| && color[s] == Closed;
    forall s | Connected(g.Edges(), root, s) ensures s in order {
      var path :| Walk(g.Edges(), root, path, s);
      WalkStays(g.Edges(), closed, root, path, s);
    }
  }

  lemma ArcIsEdge<W>(g: Adjacency<W>, from: State, k: nat)
    requires g.Valid() && from < |g.lists| && k < |g.lists[from]|
    ensures (from, g.To(g.h.arcs[g.lists[from][k]])) in g.Edges()
  {
  }

  lemma OpenedNext<W>(g: Adjacency<W>, root: State, color: seq<Color>, order: seq<State>, n: nat, from: State,
                      to: State)
    requires g.Valid() && OrderingBy(g, root, color, order, n) && StackLeadsTo(g, color, from)
    requires from < |color| && to < |color| && color[from] == Opened && color[to] == Fresh && (from, to) in g.Edges()
    ensures OrderingBy(g, root, color[to := Opened], order, n) && StackLeadsTo(g, color[to := Opened], to)
    ensures FreshSet(color[to := Opened]) == FreshSet(color) - {to}
  {
    OnwardStill(g, color, to);
    ConnectedEnd(g.Edges(), root, from, to);
    StackGrows(g, color, from, to);
    FreshLess(color, to);
    hide ClosedOnward, StackLeadsTo, FreshSet, Connected, Acyclic, TargetsFirst, Distinct, Adjacency.Valid;
    assert forall s :: 0 <= s < |color| ==> (color[to := Opened][s] == Closed <==> color[s] == Closed);
  }

  lemma FreshLess(color: seq<Color>, to: State)
    requires to < |color| && color[to] == Fresh
    ensures FreshSet(color[to := Opened]) == FreshSet(color) - {to}
  {
  }

  lemma StackGrows<W>(g: Adjacency<W>, color: seq<Color>, from: State, to: State)
    requires g.Valid() && StackLeadsTo(g, color, from)
    requires from < |color| && to < |color| && color[from] == Opened && (from, to) in g.Edges()
    ensures StackLeadsTo(g, color[to := Opened], to)
  {
    ConnectedSelf(g.Edges(), to);
    forall s | 0 <= s < |color| && color[s] == Opened ensures Connected(g.Edges(), s, to) {
      ConnectedEnd(g.Edges(), s, from, to);
    }
  }

  lemma ClosedAgain<W>(g: Adjacency<W>, c1: seq<Color>, to: State, c2: seq<Color>, from: State)
    requires g.Valid() && StackLeadsTo(g, c1, from) && to < |c1| && c1[to] == Fresh
    requires Advanced(c1[to := Opened], c2, to) && c2[to] == Closed && from < |c1| && c1[from] == Opened
    ensures StackLeadsTo(g, c2, from) && c2[from] == Opened
  {
  }

  lemma BackEdgeIsCycle<W>(g: Adjacency<W>, root: State, color: seq<Color>, order: seq<State>, n: nat, from: State,
                           to: State)
    requires g.Valid() && OrderingBy(g, root, color, order, n) && StackLeadsTo(g, color, from)
    requires from < |color| && to < |color| && color[from] == Opened && color[to] == Opened && from != to
    requires (from, to) in g.Edges()
    ensures OrderingBy(g, root, color, order, n + 1)
  {
    ConnectedSelf(g.Edges(), from);
    ConnectedEnd(g.Edges(), from, from, to);
  }

  lemma ClosedOnwardToo<W>(g: Adjacency<W>, color: seq<Color>, from: State)
    requires g.Valid() && |color| == |g.lists| && ClosedOnward(g, color) && from < |color|
    requires MetSoFar(g, color, from, |g.lists[from]|)
    ensures ClosedOnward(g, color[from := Closed])
  {
    forall v | (from, v) in g.Edges() ensures v < |color| && color[v] != Fresh {
      var a :| 0 <= a < |g.h.arcs| && (g.From(g.h.arcs[a]), g.To(g.h.arcs[a])) == (from, v);
      var j :| 0 <= j < |g.lists[from]| && g.lists[from][j] == a;
    }
  }

  lemma TargetsStillFirst<W>(g: Adjacency<W>, color: seq<Color>, order: seq<State>, from: State)
    requires g.Valid() && |color| == |g.lists| && TargetsFirst(g.Edges(), order) && from < |color|
    requires forall s :: 0 <= s < |color| && color[s] == Closed ==> s in order
    requires Followed(g, color, from, |g.lists[from]|)
    ensures TargetsFirst(g.Edges(), order + [from])
  {
    var order' := order + [from];
    forall i, v | 0 <= i < |order'| && (order'[i], v) in g.Edges() && v != order'[i] ensures v in order'[..i] {
      if i < |order| {
        assert order'[..i] == order[..i] && order'[i] == order[i];
      } else {
        assert order'[..i] == order;
        var a :| 0 <= a < |g.h.arcs| && (g.From(g.h.arcs[a]), g.To(g.h.arcs[a])) == (from, v);
        var j :| 0 <= j < |g.lists[from]| && g.lists[from][j] == a;
      }
    }
  }

  lemma CloseLast<W>(g: Adjacency<W>, root: State, color: seq<Color>, order: seq<State>, n: nat, from: State)
    requires g.Valid() && |color| == |g.lists| && OrderingBy(g, root, color, order, n)
    requires from < |color| && color[from] == Opened && (n == 0 ==> Followed(g, color, from, |g.lists[from]|))
    requires MetSoFar(g, color, from, |g.lists[from]|)
    ensures OrderingBy(g, root, color[from := Closed], order + [from], n)
  {
    ClosedOnwardToo(g, color, from);
    if n == 0 {
      TargetsStillFirst(g, color, order, from);
    }
    hide ClosedOnward, MetSoFar, Followed, TargetsFirst, Acyclic, Connected;
  }
}
