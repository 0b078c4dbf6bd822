/** Inside costs of an acyclic graph by one pass over its out-arcs in topological order. */
module InsideCosts {
  import opened Counting
  import opened Hypergraph
  import opened Walks
  import opened StateOrder
  import opened GraphPaths

  /** The program never marks the root as opened; this is the colouring with that made good. */
  ghost function Marked(color: seq<Color>, root: State): (c: seq<Color>)
    requires root < |color|
    ensures |c| == |color|
  {
    if color[root] == Fresh then color[root := Opened] else color
  }

  ghost predicate NoSelfLoop(g: Adjacency<int>)
    requires g.Valid()
  {
    forall v: State :: (v, v) !in g.Edges()
  }

  /** `order` lists the closed states, targets first; the states opened on the way lead to `s`. */
  ghost predicate Sorting(g: Adjacency<int>, root: State, color: seq<Color>, order: seq<State>, s: State)
    requires g.Valid()
  {
    && |color| == |g.lists| && root < |color| && s < |color|
    && OrderingBy(g, root, Marked(color, root), order, 0) && StackLeadsTo(g, Marked(color, root), s)
    && Marked(color, root)[s] == Opened
  }

  /** In an acyclic graph an arc out of `s` that meets an opened state only comes back to `s`. */
  lemma OpenedIsSource(g: Adjacency<int>, root: State, color: seq<Color>, order: seq<State>, s: State, t: State)
    requires g.Valid() && Acyclic(g.Edges(), root) && Sorting(g, root, color, order, s)
    requires (s, t) in g.Edges() && t < |color|
    ensures Marked(color, root)[t] == Opened || t == root ==> t == s
  {
    ConnectedSelf(g.Edges(), s);
    ConnectedSelf(g.Edges(), root);
    ConnectedEnd(g.Edges(), s, s, t);
    assert Connected(g.Edges(), root, s);
    assert Marked(color, root)[t] == Opened ==> Connected(g.Edges(), t, s);
  }

  /** Without self-loops it never meets one. */
  lemma NoOpenedTarget(g: Adjacency<int>, root: State, color: seq<Color>, order: seq<State>, s: State, t: State)
    requires g.Valid() && Acyclic(g.Edges(), root) && NoSelfLoop(g) && Sorting(g, root, color, order, s)
    requires (s, t) in g.Edges() && t < |color|
    ensures t != root && Marked(color, root)[t] == color[t] && color[t] != Opened
  {
    OpenedIsSource(g, root, color, order, s, t);
  }

  lemma RoomForOne(g: Adjacency<int>, root: State, color: seq<Color>, order: seq<State>, s: State)
    requires g.Valid() && Sorting(g, root, color, order, s)
    ensures |order| < |color| && s !in order
  {
    var all := order + [s];
    forall k | 0 <= k < |all| ensures all[k] in UpTo(|color|) {
      if k < |order| { assert order[k] in order; }
    }
    DistinctSize(all, UpTo(|color|));
  }

  lemma Onward(g: Adjacency<int>, root: State, color: seq<Color>, order: seq<State>, s: State, t: State)
    requires g.Valid() && Sorting(g, root, color, order, s) && (s, t) in g.Edges()
    requires t < |color| && t != root && Marked(color, root)[t] == color[t] == Fresh
    ensures Marked(color, root)[s] == Opened && Sorting(g, root, color[t := Opened], order, t)
    ensures FreshSet(Marked(color[t := Opened], root)) < FreshSet(Marked(color, root))
  {
    hide OrderingBy, StackLeadsTo;
    assert Marked(color[t := Opened], root) == Marked(color, root)[t := Opened];
    OpenedNext(g, root, Marked(color, root), order, 0, s, t);
  }

  lemma Returned(g: Adjacency<int>, root: State, c0: seq<Color>, c1: seq<Color>, o1: seq<State>, s: State, t: State,
                 c2: seq<Color>, o2: seq<State>, k: nat)
    requires g.Valid() && Sorting(g, root, c1, o1, s) && s < |g.lists| && k < |g.lists[s]|
    requires t < |c1| && t != root && c1[t] == Fresh && t == g.To(g.h.arcs[g.lists[s][k]])
    requires root < |c2| == |c1| && OrderingBy(g, root, Marked(c2, root), o2, 0) && c2[t] == Closed
    requires StateOrder.Advanced(Marked(c1[t := Opened], root), Marked(c2, root), t)
    requires StateOrder.Advanced(c0, Marked(c1, root), s) && Followed(g, Marked(c1, root), s, k)
    ensures Sorting(g, root, c2, o2, s) && StateOrder.Advanced(c0, Marked(c2, root), s)
    ensures Followed(g, Marked(c2, root), s, k + 1)
  {
    hide OrderingBy, StackLeadsTo;
    assert Marked(c1[t := Opened], root) == Marked(c1, root)[t := Opened];
    ClosedAgain(g, Marked(c1, root), t, Marked(c2, root), s);
  }

  lemma Finishing(g: Adjacency<int>, root: State, c0: seq<Color>, color: seq<Color>, order: seq<State>, s: State)
    requires s < |g.lists| && Visiting(g, root, c0, color, order, s, |g.lists[s]|)
    ensures root < |color| == |g.lists| && |order| < |color|
    ensures OrderingBy(g, root, Marked(color[s := Closed], root), order + [s], 0)
    ensures StateOrder.Advanced(c0, Marked(color[s := Closed], root), s)
  {
    hide OrderingBy, StackLeadsTo;
    RoomForOne(g, root, color, order, s);
    CloseLast(g, root, Marked(color, root), order, 0, s);
    assert Marked(color[s := Closed], root) == Marked(color, root)[s := Closed];
  }

  /** What is known while the arcs of `s` are followed, the first `k` of them done; `c0` is how the visit began. */
  ghost predicate Visiting(g: Adjacency<int>, root: State, c0: seq<Color>, color: seq<Color>, order: seq<State>,
                           s: State, k: nat) {
    && g.Valid() && Acyclic(g.Edges(), root) && NoSelfLoop(g) && Sorting(g, root, color, order, s)
    && StateOrder.Advanced(c0, Marked(color, root), s) && k <= |g.lists[s]| && Followed(g, Marked(color, root), s, k)
  }

  /** Appends to `out` what `s` leads to and then `s` itself; `e` is the end of what is written. */
  method ReverseTopological(g: Adjacency<int>, ghost root: State, s: State, out: array<State>, e: nat,
                            color: array<Color>) returns (e': nat)
    requires g.Valid() && Acyclic(g.Edges(), root) && NoSelfLoop(g)
    requires color.Length == out.Length == |g.lists| && e <= out.Length
    requires Sorting(g, root, color[..], out[..e], s)
    modifies out, color
    ensures e <= e' <= out.Length
    ensures root < color.Length && OrderingBy(g, root, Marked(color[..], root), out[..e'], 0)
    ensures s < color.Length && color[s] == Closed
    ensures StateOrder.Advanced(Marked(old(color[..]), root), Marked(color[..], root), s)
    decreases FreshSet(Marked(color[..], root)), 1
  {
    hide *;
    ghost var c0 := VisitBegins(g, root, color[..], out[..e], s);
    e' := e;
    for k := 0 to |g.lists[s]|
      invariant e <= e' <= out.Length
      invariant Visiting(g, root, c0, color[..], out[..e'], s, k)
    {
      FreshShrinks(g, root, c0, color[..], out[..e'], s, k);
      e' := Follow(g, root, s, k, out, e', color, c0);
    }
    ghost var c2, order := color[..], out[..e'];
    Finishing(g, root, c0, c2, order, s);
    color[s] := Closed;
    out[e'] := s;
    e' := e' + 1;
    assert out[..e'] == order + [s];
    assert color[..] == c2[s := Closed];
  }

  /** Follows arc `k` of `s`, visiting its head when that is new. */
  method Follow(g: Adjacency<int>, ghost root: State, s: State, k: nat, out: array<State>, e: nat, color: array<Color>,
                ghost c0: seq<Color>)
    returns (e': nat)
    requires color.Length == out.Length == |g.lists| && e <= out.Length && s < |g.lists| && k < |g.lists[s]|
    requires Visiting(g, root, c0, color[..], out[..e], s, k)
    modifies out, color
    ensures e <= e' <= out.Length && Visiting(g, root, c0, color[..], out[..e'], s, k + 1)
    decreases FreshSet(Marked(color[..], root)), 0
  {
    hide OrderingBy, Sorting, Acyclic, NoSelfLoop, StateOrder.Advanced, Followed, Marked, FreshSet, Adjacency.Edges;
    var t := g.To(g.h.arcs[g.lists[s][k]]);
    ArcIsEdge(g, s, k);
    ghost var c1, o1 := color[..], out[..e];
    NoOpenedTarget(g, root, c1, o1, s, t);
    e' := e;
    if color[t] == Fresh {
      Onward(g, root, c1, o1, s, t);
      color[t] := Opened;
      assert color[..] == c1[t := Opened];
      e' := ReverseTopological(g, root, t, out, e, color);
      Returned(g, root, c0, c1, o1, s, t, color[..], out[..e'], k);
    } else {
      FollowedOne(g, root, c0, c1, o1, s, k);
    }
  }

  lemma VisitBegins(g: Adjacency<int>, root: State, color: seq<Color>, order: seq<State>, s: State)
    returns (c0: seq<Color>)
    requires g.Valid() && Acyclic(g.Edges(), root) && NoSelfLoop(g) && Sorting(g, root, color, order, s)
    ensures root < |color| && s < |color| && c0 == Marked(color, root) && Visiting(g, root, c0, color, order, s, 0)
  {
    hide OrderingBy, StackLeadsTo, Acyclic, NoSelfLoop;
    c0 := Marked(color, root);
  }

  lemma FollowedOne(g: Adjacency<int>, root: State, c0: seq<Color>, color: seq<Color>, order: seq<State>, s: State,
                    k: nat)
    requires s < |g.lists| && Visiting(g, root, c0, color, order, s, k) && k < |g.lists[s]|
    requires var t := g.To(g.h.arcs[g.lists[s][k]]); t < |color| && t != root && color[t] == Closed
    ensures Visiting(g, root, c0, color, order, s, k + 1)
  {
    hide OrderingBy, StackLeadsTo, Acyclic, NoSelfLoop;
  }

  lemma FreshShrinks(g: Adjacency<int>, root: State, c0: seq<Color>, color: seq<Color>, order: seq<State>, s: State,
                     k: nat)
    requires Visiting(g, root, c0, color, order, s, k)
    ensures root < |color| && FreshSet(Marked(color, root)) <= FreshSet(c0)
  {
    hide OrderingBy, StackLeadsTo, Acyclic, NoSelfLoop;
  }

  /** A graph by its out-arcs, acyclic from its start state and without self-loops. */
  ghost predicate Plain(g: Adjacency<int>) {
    && g.Valid() && g.direction == ToHead
    && g.h.start.Some? && g.h.start.value < |g.lists| && g.h.start.value !in g.h.labels
    && (forall a :: 0 <= a < |g.h.arcs| ==> g.h.arcs[a].tails[0] !in g.h.labels)
    && Acyclic(g.Edges(), g.h.start.value) && NoSelfLoop(g)
  }

  lemma PlainLoops(g: Adjacency<int>)
    requires Plain(g)
    ensures NoNegativeSelfLoop(g.h)
  {
    forall a | 0 <= a < |g.h.arcs| ensures g.h.arcs[a].tails[0] != g.h.arcs[a].head {
      assert (g.From(g.h.arcs[a]), g.To(g.h.arcs[a])) in g.Edges();
    }
  }

  lemma NotBackToRoot(g: Adjacency<int>, order: seq<State>, s: State, t: State)
    requires Plain(g) && Ordered(g, order, g.h.start.value) && s in order && (s, t) in g.Edges()
    ensures t != g.h.start.value && t != s
  {
    ConnectedSelf(g.Edges(), s);
    ConnectedEnd(g.Edges(), s, s, t);
    ConnectedSelf(g.Edges(), g.h.start.value);
  }

  /** What a state with out-arcs is worth: nothing for the start state, its entry otherwise. */
  lemma EntryRight(g: Adjacency<int>, order: seq<State>, i: nat, mu: seq<Distance>, pi: seq<Option<nat>>,
                   inside: seq<Distance>, s: State)
    requires Plain(g) && |mu| == |pi| == |g.lists| && s < |mu| && g.lists[s] != []
    requires Relaxing(g, order, g.h.start.value, g.h.labels.Keys, mu, pi, i, 0) && Inside(mu, inside, g.h.start.value)
    ensures mu[s] == if g.h.IsAxiom(s) then Finite(0) else inside[s]
  {
    var a := g.lists[s][0];
    assert g.From(g.h.arcs[a]) == s;
    assert PiRight(g.h, ToHead, order, g.h.start.value, mu, pi, g.h.start.value);
  }

  /** The table the pass keeps, seen as a relaxation from the root: the root's own entry stays
      unreachable, which never matters because it counts as an axiom. */
  ghost predicate Inside(mu: seq<Distance>, inside: seq<Distance>, root: State) {
    |mu| == |inside| && root < |mu| && inside == mu[root := Infinite]
  }

  /** Takes the better of what the head of `a` has and the cost through this arc. */
  method MinEq(h: HG<int>, inside: array<Distance>, a: nat, c: Distance, ghost mu: seq<Distance>,
               ghost pi: seq<Option<nat>>, ghost root: State)
    requires a < |h.arcs| && |h.arcs[a].tails| > 0 && h.arcs[a].head < inside.Length
    requires h.arcs[a].tails[0] < inside.Length
    requires |mu| == |pi| && Inside(mu, inside[..], root) && h.arcs[a].head != root && c == mu[h.arcs[a].tails[0]]
    modifies inside
    ensures Inside(Try(h, ToHead, mu, pi, a).0, inside[..], root)
  {
    var head := h.arcs[a].head;
    var w := Extend(c, h.arcs[a].weight);
    if Better(w, inside[head]) {
      inside[head] := w;
    }
  }

  /** Lowers the heads of all arcs out of `s`, which is `order[i]`. */
  method PassOver(g: Adjacency<int>, s: State, ghost order: seq<State>, ghost i: nat, inside: array<Distance>,
                  ghost mu: seq<Distance>, ghost pi: seq<Option<nat>>)
    returns (ghost mu': seq<Distance>, ghost pi': seq<Option<nat>>)
    requires Plain(g) && inside.Length == |mu| == |g.lists| && i < |order| && order[i] == s
    requires Ordered(g, order, g.h.start.value) && Inside(mu, inside[..], g.h.start.value)
    requires Relaxing(g, order, g.h.start.value, g.h.labels.Keys, mu, pi, i + 1, 0)
    modifies inside
    ensures |mu'| == |mu| && Inside(mu', inside[..], g.h.start.value)
    ensures Relaxing(g, order, g.h.start.value, g.h.labels.Keys, mu', pi', i, 0)
  {
    hide Relaxing, Ordered, NoNegativeSelfLoop;
    var root := g.h.start.value;
    RootIsLast(g, order, root);
    assert s in order;
    var c := if g.h.IsAxiom(s) then Finite(0) else inside[s];
    mu', pi' := mu, pi;
    RelaxingLengths(g, order, root, g.h.labels.Keys, mu, pi, i + 1, 0);
    PlainLoops(g);
    if g.lists[s] != [] {
      EntryRight(g, order, i + 1, mu, pi, inside[..], s);
    }
    for k := 0 to |g.lists[s]|
      invariant |mu'| == |pi'| == inside.Length && Inside(mu', inside[..], root) && mu'[s] == mu[s]
      invariant Relaxing(g, order, root, g.h.labels.Keys, mu', pi', i + 1, k)
    {
      ArcIsEdge(g, s, k);
      NotBackToRoot(g, order, s, g.h.arcs[g.lists[s][k]].head);
      TryKeeps(g, order, root, g.h.labels.Keys, mu', pi', i + 1, k);
      MinEq(g.h, inside, g.lists[s][k], c, mu', pi', root);
      ghost var r := Try(g.h, ToHead, mu', pi', g.lists[s][k]);
      mu', pi' := r.0, r.1;
    }
    NextState(g, order, root, g.h.labels.Keys, mu', pi', i + 1);
  }

  /** Fills `inside` with the least cost from the start state to each other state. The branch for
      immutable graphs never looks at the last state of the topological order. */
  method InsideCosts(g: Adjacency<int>, isMutable: bool, inside: array<Distance>)
    requires Plain(g) && inside.Length == |g.lists|
    modifies inside
    ensures inside[g.h.start.value] == Infinite
    ensures forall s :: 0 <= s < inside.Length && s != g.h.start.value && s !in g.h.labels ==>
              IsLeast(g.h, ToHead, g.h.start.value, s, inside[s])
  {
    hide Relaxing, Ordered, OrderingBy, StackLeadsTo;
    var n, root := inside.Length, g.h.start.value;
    var revorder := new State[n](_ => 0);
    var color := new Color[n](_ => Fresh);
    SortingBegins(g, color[..], revorder[..0]);
    var e := ReverseTopological(g, root, root, revorder, 0, color);
    ghost var order := revorder[..e];
    SortingEnds(g, Marked(color[..], root), order);
    for s := 0 to n
      invariant forall r :: 0 <= r < s ==> inside[r] == Infinite
      modifies inside
    {
      inside[s] := Infinite;
    }
    ghost var mu := inside[..][root := Finite(0)];
    ghost var pi: seq<Option<nat>> := seq(n, _ => None);
    RelaxingBegins(g, order, root, g.h.labels.Keys, mu, pi);
    RootIsLast(g, order, root);
    assert revorder[..e] == order;
    while if isMutable then e > 0 else e > 1
      invariant |mu| == n && Inside(mu, inside[..], root) && e <= |order| <= n && (!isMutable ==> e > 0)
      invariant Relaxing(g, order, root, g.h.labels.Keys, mu, pi, e, 0)
      decreases e
      modifies inside
    {
      e := e - 1;
      mu, pi := PassOver(g, revorder[e], order, e, inside, mu, pi);
    }
    if e == 1 {
      assert order[0] in order;
      LastHasNoArcs(g, order);
      NextState(g, order, root, g.h.labels.Keys, mu, pi, 1);
    }
    forall s | 0 <= s < n && s != root && s !in g.h.labels ensures IsLeast(g.h, ToHead, root, s, inside[s]) {
      RelaxingLengths(g, order, root, g.h.labels.Keys, mu, pi, 0, 0);
      RelaxedIsLeast(g, order, root, g.h.labels.Keys, mu, pi, s);
    }
  }

  lemma SortingBegins(g: Adjacency<int>, color: seq<Color>, order: seq<State>)
    requires Plain(g) && |color| == |g.lists| && (forall s :: 0 <= s < |color| ==> color[s] == Fresh) && order == []
    ensures Sorting(g, g.h.start.value, color, order, g.h.start.value)
  {
    ConnectedSelf(g.Edges(), g.h.start.value);
  }

  lemma SortingEnds(g: Adjacency<int>, color: seq<Color>, order: seq<State>)
    requires Plain(g) && OrderingBy(g, g.h.start.value, color, order, 0) && color[g.h.start.value] == Closed
    ensures Ordered(g, order, g.h.start.value)
  {
    OrderedIsAcyclic(g.Edges(), order, g.h.start.value);
  }

  lemma HasEdge(g: Adjacency<int>, s: State)
    requires g.Valid() && s < |g.lists|
    ensures g.lists[s] != [] ==> exists v :: (s, v) in g.Edges()
  {
    if g.lists[s] != [] { ArcIsEdge(g, s, 0); }
  }

  lemma LastHasNoArcs(g: Adjacency<int>, order: seq<State>)
    requires Plain(g) && Ordered(g, order, g.h.start.value) && |order| > 0 && order[0] < |g.lists|
    ensures g.lists[order[0]] == []
  {
    HasEdge(g, order[0]);
    assert order[..0] == [];
    assert forall v :: (order[0], v) in g.Edges() ==> v == order[0] || v in order[..0];
  }
}
