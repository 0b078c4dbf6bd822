/** Weighted paths of a graph and what it means for a table to hold their least costs. */
module GraphPaths {
  import opened Hypergraph
  import opened Walks
  import opened StateOrder

  /** A cost or "unreachable". */
  datatype Distance = Finite(value: int) | Infinite

  function Extend(c: Distance, w: int): Distance {
    if c.Finite? then Finite(c.value + w) else Infinite
  }

  predicate Better(a: Distance, b: Distance) {
    a.Finite? && (b.Finite? ==> a.value < b.value)
  }

  ghost predicate AtMost(a: Distance, b: Distance) {
    b.Finite? ==> a.Finite? && a.value <= b.value
  }

  /** `p` leads from `s` to `t`, arc by arc, in the given direction. */
  ghost predicate Chain<W>(h: HG<W>, d: Direction, s: State, p: seq<nat>, t: State)
    decreases |p|
  {
    if p == [] then s == t
    else
      && p[0] < |h.arcs| && |h.arcs[p[0]].tails| > 0 && FromIn(d, h.arcs[p[0]]) == s
      && Chain(h, d, ToIn(d, h.arcs[p[0]]), p[1..], t)
  }

  function FromIn<W>(d: Direction, arc: Arc<W>): State
    requires |arc.tails| > 0
  {
    if d == ToHead then arc.tails[0] else arc.head
  }

  function ToIn<W>(d: Direction, arc: Arc<W>): State
    requires |arc.tails| > 0
  {
    if d == ToHead then arc.head else arc.tails[0]
  }

  ghost predicate Path<W>(h: HG<W>, s: State, p: seq<nat>, t: State) {
    Chain(h, ToHead, s, p, t)
  }

  ghost function Weight(h: HG<int>, p: seq<nat>): int {
    if p == [] then 0 else (if p[0] < |h.arcs| then h.arcs[p[0]].weight else 0) + Weight(h, p[1..])
  }

  lemma {:induction false} WeightAppend(h: HG<int>, p: seq<nat>, a: nat)
    ensures Weight(h, p + [a]) == Weight(h, p) + Weight(h, [a])
  {
    if p == [] {
      assert p + [a] == [a];
    } else {
      assert (p + [a])[1..] == p[1..] + [a];
      WeightAppend(h, p[1..], a);
    }
  }

  lemma {:induction false} ChainAppend<W>(h: HG<W>, d: Direction, s: State, p: seq<nat>, t: State, a: nat)
    requires Chain(h, d, s, p, t) && a < |h.arcs| && |h.arcs[a].tails| > 0 && FromIn(d, h.arcs[a]) == t
    ensures Chain(h, d, s, p + [a], ToIn(d, h.arcs[a]))
    decreases |p|
  {
    if p == [] {
      assert p + [a] == [a] && [a][1..] == [];
      assert Chain(h, d, ToIn(d, h.arcs[a]), [], ToIn(d, h.arcs[a]));
    } else {
      assert (p + [a])[1..] == p[1..] + [a];
      ChainAppend(h, d, ToIn(d, h.arcs[p[0]]), p[1..], t, a);
    }
  }

  lemma {:induction false} PathInit<W>(h: HG<W>, s: State, p: seq<nat>, t: State)
    requires Path(h, s, p, t) && p != []
    ensures p[|p| - 1] < |h.arcs| && |h.arcs[p[|p| - 1]].tails| > 0
    ensures Path(h, s, p[..|p| - 1], h.arcs[p[|p| - 1]].tails[0])
    decreases |p|
  {
    if |p| > 1 {
      PathInit(h, h.arcs[p[0]].head, p[1..], t);
      assert p[..|p| - 1][1..] == p[1..][..|p| - 2];
    }
  }

  function Reversed(p: seq<nat>): seq<nat> {
    if p == [] then [] else Reversed(p[1..]) + [p[0]]
  }

  function Other(d: Direction): Direction {
    if d == ToHead then ToTail0 else ToHead
  }

  /** Read backwards, a chain leads the other way at the same weight. */
  lemma {:induction false} ChainReversed(h: HG<int>, d: Direction, s: State, p: seq<nat>, t: State)
    requires Chain(h, d, s, p, t)
    ensures Chain(h, Other(d), t, Reversed(p), s) && Weight(h, Reversed(p)) == Weight(h, p)
    decreases |p|
  {
    if p != [] {
      ChainReversed(h, d, ToIn(d, h.arcs[p[0]]), p[1..], t);
      ChainAppend(h, Other(d), t, Reversed(p[1..]), ToIn(d, h.arcs[p[0]]), p[0]);
      WeightAppend(h, Reversed(p[1..]), p[0]);
      assert [p[0]][1..] == [];
    }
  }

  /** `c` is the least weight of a chain from `s` to `t`, infinite when there is none. */
  ghost predicate IsLeast(h: HG<int>, d: Direction, s: State, t: State, c: Distance) {
    && (c.Finite? ==> exists p :: Chain(h, d, s, p, t) && Weight(h, p) == c.value)
    && (forall p :: Chain(h, d, s, p, t) ==> AtMost(c, Finite(Weight(h, p))))
  }

  /** The least weight does not depend on the end one starts from. */
  lemma LeastReversed(h: HG<int>, d: Direction, s: State, t: State, c: Distance)
    requires IsLeast(h, d, s, t, c)
    ensures IsLeast(h, Other(d), t, s, c)
  {
    if c.Finite? {
      var p :| Chain(h, d, s, p, t) && Weight(h, p) == c.value;
      ChainReversed(h, d, s, p, t);
    }
    forall p | Chain(h, Other(d), t, p, s) ensures AtMost(c, Finite(Weight(h, p))) {
      ChainReversed(h, Other(d), t, p, s);
    }
  }

  lemma LeastUnique(h: HG<int>, d: Direction, s: State, t: State, a: Distance, b: Distance)
    requires IsLeast(h, d, s, t, a) && IsLeast(h, d, s, t, b)
    ensures a == b
  {
    if a.Finite? {
      var p :| Chain(h, d, s, p, t) && Weight(h, p) == a.value;
      assert AtMost(b, a);
    }
    if b.Finite? {
      var p :| Chain(h, d, s, p, t) && Weight(h, p) == b.value;
      assert AtMost(a, b);
    }
  }

  /** No arc out of `u` would improve what it leads to. */
  ghost predicate RelaxedFrom(h: HG<int>, d: Direction, mu: seq<Distance>, u: State) {
    forall a :: 0 <= a < |h.arcs| && |h.arcs[a].tails| > 0 && FromIn(d, h.arcs[a]) == u ==>
      u < |mu| && ToIn(d, h.arcs[a]) < |mu| && AtMost(mu[ToIn(d, h.arcs[a])], Extend(mu[u], h.arcs[a].weight))
  }

  /** With nothing left to improve, no chain is cheaper than the table says. */
  lemma {:induction false} RelaxedIsLower(h: HG<int>, d: Direction, mu: seq<Distance>, s: State, p: seq<nat>, t: State)
    requires forall u :: 0 <= u < |mu| ==> RelaxedFrom(h, d, mu, u)
    requires s < |mu| && mu[s].Finite? && Chain(h, d, s, p, t)
    ensures t < |mu| && AtMost(mu[t], Extend(mu[s], Weight(h, p)))
    decreases |p|
  {
    if p != [] {
      assert RelaxedFrom(h, d, mu, s);
      RelaxedIsLower(h, d, mu, ToIn(d, h.arcs[p[0]]), p[1..], t);
    }
  }

  /** What a relaxation in a given order leaves behind for one state: `pi[s]` is an arc whose source
      comes later in `order` and whose use gives `mu[s]`; the root has cost zero and no arc. */
  ghost predicate PiRight(h: HG<int>, d: Direction, order: seq<State>, root: State, mu: seq<Distance>,
                          pi: seq<Option<nat>>, s: State)
    requires |mu| == |pi| && s < |mu|
  {
    && (s == root ==> mu[s] == Finite(0) && pi[s] == None)
    && (mu[s] == Infinite <==> s != root && pi[s] == None)
    && (pi[s].Some? ==>
          var a := pi[s].value;
          && a < |h.arcs| && |h.arcs[a].tails| > 0 && ToIn(d, h.arcs[a]) == s
          && Later(order, s, FromIn(d, h.arcs[a]))
          && FromIn(d, h.arcs[a]) < |mu| && mu[s] == Extend(mu[FromIn(d, h.arcs[a])], h.arcs[a].weight))
  }

  ghost predicate Later(order: seq<State>, s: State, u: State) {
    exists i, j :: 0 <= i < j < |order| && order[i] == s && order[j] == u
  }

  /** The effect of trying arc `a`: the state it leads to takes the better cost and remembers the arc. */
  function Try(h: HG<int>, d: Direction, mu: seq<Distance>, pi: seq<Option<nat>>,
               a: nat): (r: (seq<Distance>, seq<Option<nat>>))
    requires a < |h.arcs| && |h.arcs[a].tails| > 0 && |mu| == |pi|
    requires FromIn(d, h.arcs[a]) < |mu| && ToIn(d, h.arcs[a]) < |mu|
    ensures |r.0| == |r.1| == |mu|
  {
    var c := Extend(mu[FromIn(d, h.arcs[a])], h.arcs[a].weight);
    var v := ToIn(d, h.arcs[a]);
    if Better(c, mu[v]) then (mu[v := c], pi[v := Some(a)]) else (mu, pi)
  }

  /** The states in `order[i..]` have been relaxed from, the first `k` arcs of `order[i - 1]` tried.
      `others` are the states the table does not speak of. */
  ghost predicate Relaxing(g: Adjacency<int>, order: seq<State>, root: State, others: set<State>,
                           mu: seq<Distance>, pi: seq<Option<nat>>, i: nat, k: nat)
    requires g.Valid()
  {
    && |mu| == |pi| && |g.lists| <= |mu| && i <= |order|
    && (forall s :: 0 <= s < |mu| && s !in others ==>
          PiRight(g.h, g.direction, order, root, mu, pi, s)
            && (pi[s].Some? ==> InTail(order, i, FromIn(g.direction, g.h.arcs[pi[s].value]))))
    && (forall j :: i <= j < |order| ==> RelaxedFrom(g.h, g.direction, mu, order[j]))
    && (i > 0 ==> TriedFirst(g, mu, order[i - 1], k))
  }

  lemma RelaxingLengths(g: Adjacency<int>, order: seq<State>, root: State, others: set<State>,
                        mu: seq<Distance>, pi: seq<Option<nat>>, i: nat, k: nat)
    requires g.Valid() && Relaxing(g, order, root, others, mu, pi, i, k)
    ensures |mu| == |pi|
  {
  }

  ghost predicate TriedFirst(g: Adjacency<int>, mu: seq<Distance>, u: State, k: nat) {
    && u < |g.lists| && k <= |g.lists[u]|
    && forall j :: 0 <= j < k ==> Tried(g.h, g.direction, mu, g.lists[u][j])
  }

  ghost predicate InTail(order: seq<State>, i: nat, s: State) {
    exists j :: 0 <= j < |order| && i - 1 <= j && order[j] == s
  }

  ghost predicate Tried(h: HG<int>, d: Direction, mu: seq<Distance>, a: nat) {
    && a < |h.arcs| && |h.arcs[a].tails| > 0 && FromIn(d, h.arcs[a]) < |mu| && ToIn(d, h.arcs[a]) < |mu|
    && AtMost(mu[ToIn(d, h.arcs[a])], Extend(mu[FromIn(d, h.arcs[a])], h.arcs[a].weight))
  }

  ghost predicate NoNegativeSelfLoop(h: HG<int>) {
    forall a :: 0 <= a < |h.arcs| && |h.arcs[a].tails| > 0 && h.arcs[a].tails[0] == h.arcs[a].head ==>
        h.arcs[a].weight >= 0
  }

  /** An order as depth-first search leaves it: the root last, every target before its source. */
  ghost predicate Ordered(g: Adjacency<int>, order: seq<State>, root: State)
    requires g.Valid()
  {
    && Distinct(order) && TargetsFirst(g.Edges(), order)
    && (forall s :: s in order <==> Connected(g.Edges(), root, s))
    && root < |g.lists|
  }

  lemma RootIsLast(g: Adjacency<int>, order: seq<State>, root: State)
    requires g.Valid() && Ordered(g, order, root)
    ensures |order| > 0 && order[|order| - 1] == root
    ensures forall s :: s in order ==> s < |g.lists|
  {
    ConnectedSelf(g.Edges(), root);
    assert root in order;
    var r :| 0 <= r < |order| && order[r] == root;
    var last := order[|order| - 1];
    assert last in order;
    var p :| Walk(g.Edges(), root, p, last);
    var j := WalkGoesBack(g.Edges(), order, r, p, last);
    forall s | s in order ensures s < |g.lists| {
      var q :| Walk(g.Edges(), root, q, s);
      WalkInside(g, root, q, s);
    }
  }

  lemma {:induction false} WalkInside(g: Adjacency<int>, v: State, p: seq<State>, s: State)
    requires g.Valid() && v < |g.lists| && Walk(g.Edges(), v, p, s)
    ensures s < |g.lists|
    decreases |p|
  {
    if p != [] { WalkInside(g, p[0], p[1..], s); }
  }

  lemma TriedStays(h: HG<int>, d: Direction, mu: seq<Distance>, a: nat, v: State, c: Distance)
    requires Tried(h, d, mu, a) && a < |h.arcs| && |h.arcs[a].tails| > 0 && FromIn(d, h.arcs[a]) != v
    requires v < |mu| && Better(c, mu[v])
    ensures Tried(h, d, mu[v := c], a)
  {
  }

  lemma PiStays(h: HG<int>, d: Direction, order: seq<State>, root: State, mu: seq<Distance>, pi: seq<Option<nat>>,
                s: State, a: nat)
    requires |mu| == |pi| && s < |mu| && PiRight(h, d, order, root, mu, pi, s)
    requires a < |h.arcs| && |h.arcs[a].tails| > 0 && FromIn(d, h.arcs[a]) < |mu| && ToIn(d, h.arcs[a]) < |mu|
    requires Later(order, ToIn(d, h.arcs[a]), FromIn(d, h.arcs[a])) && ToIn(d, h.arcs[a]) != FromIn(d, h.arcs[a])
    requires ToIn(d, h.arcs[a]) != root && (pi[s].Some? ==> FromIn(d, h.arcs[pi[s].value]) != ToIn(d, h.arcs[a]))
    ensures var (mu', pi') := Try(h, d, mu, pi, a); PiRight(h, d, order, root, mu', pi', s)
  {
  }

  /** Trying one more arc of `order[i - 1]` keeps what relaxation has established. */
  lemma TryKeeps(g: Adjacency<int>, order: seq<State>, root: State, others: set<State>,
                 mu: seq<Distance>, pi: seq<Option<nat>>, i: nat, k: nat)
    requires g.Valid() && Ordered(g, order, root) && NoNegativeSelfLoop(g.h)
    requires Relaxing(g, order, root, others, mu, pi, i, k) && i > 0 && k < |g.lists[order[i - 1]]| && root !in others
    ensures var r := Try(g.h, g.direction, mu, pi, g.lists[order[i - 1]][k]);
            Relaxing(g, order, root, others, r.0, r.1, i, k + 1)
  {
    var u := order[i - 1];
    var a := g.lists[u][k];
    var v := ToIn(g.direction, g.h.arcs[a]);
    var (mu', pi') := Try(g.h, g.direction, mu, pi, a);
    RootIsLast(g, order, root);
    assert (u, v) in g.Edges();
    if mu' != mu {
      assert v != u;
      assert v in order[..i - 1];
      var x :| 0 <= x < i - 1 && order[x] == v;
      assert Later(order, v, u);
      var c := mu'[v];
      forall j | i <= j < |order| ensures RelaxedFrom(g.h, g.direction, mu', order[j]) {
      }
      forall j | 0 <= j < k + 1 ensures Tried(g.h, g.direction, mu', g.lists[u][j]) {
        if j < k { TriedStays(g.h, g.direction, mu, g.lists[u][j], v, c); }
      }
      forall s | 0 <= s < |mu'| && s !in others
        ensures PiRight(g.h, g.direction, order, root, mu', pi', s)
        ensures pi'[s].Some? ==> InTail(order, i, FromIn(g.direction, g.h.arcs[pi'[s].value]))
      {
        if pi[s].Some? { assert InTail(order, i, FromIn(g.direction, g.h.arcs[pi[s].value])); }
        PiStays(g.h, g.direction, order, root, mu, pi, s, a);
      }
    }
  }

  /** All arcs of `order[i - 1]` are tried: on to the state before it. */
  lemma NextState(g: Adjacency<int>, order: seq<State>, root: State, others: set<State>,
                  mu: seq<Distance>, pi: seq<Option<nat>>, i: nat)
    requires g.Valid() && Ordered(g, order, root) && 0 < i <= |order|
    requires order[i - 1] < |g.lists| && Relaxing(g, order, root, others, mu, pi, i, |g.lists[order[i - 1]]|)
    ensures Relaxing(g, order, root, others, mu, pi, i - 1, 0)
  {
    RootIsLast(g, order, root);
    var u := order[i - 1];
    if i > 1 { assert order[i - 2] in order; }
    assert TriedFirst(g, mu, u, |g.lists[u]|);
    forall a | 0 <= a < |g.h.arcs| && FromIn(g.direction, g.h.arcs[a]) == u ensures Tried(g.h, g.direction, mu, a) {
      var j :| 0 <= j < |g.lists[u]| && g.lists[u][j] == a;
    }
    assert RelaxedFrom(g.h, g.direction, mu, u);
  }

  /** Following `pi` back from `t` meets the arcs of `p`, last to first, and stops at `root`, where it
      is empty; each state met is in `vs`, and its `mu` is the weight of the part of `p` that leads to it. */
  ghost predicate Back(h: HG<int>, d: Direction, mu: seq<Distance>, pi: seq<Option<nat>>, root: State, p: seq<nat>,
                       t: State, vs: set<State>)
    requires |mu| == |pi|
    decreases |p|
  {
    && t < |mu| && t in vs && mu[t] == Finite(Weight(h, p))
    && if p == [] then t == root && pi[t] == None
       else
         var a := p[|p| - 1];
         && pi[t] == Some(a) && a < |h.arcs| && |h.arcs[a].tails| > 0 && ToIn(d, h.arcs[a]) == t
         && Back(h, d, mu, pi, root, p[..|p| - 1], FromIn(d, h.arcs[a]), vs)
  }

  /** Only the entries of the states met matter. */
  lemma {:induction false} BackKept(h: HG<int>, d: Direction, mu: seq<Distance>, pi: seq<Option<nat>>, root: State,
                                    p: seq<nat>, t: State,
                                    vs: set<State>, mu': seq<Distance>, pi': seq<Option<nat>>, vs': set<State>)
    requires |mu| == |pi| == |mu'| == |pi'| && Back(h, d, mu, pi, root, p, t, vs) && vs <= vs'
    requires forall v :: v in vs && 0 <= v < |mu| ==> mu'[v] == mu[v] && pi'[v] == pi[v]
    ensures Back(h, d, mu', pi', root, p, t, vs')
    decreases |p|
  {
    if p != [] {
      BackKept(h, d, mu, pi, root, p[..|p| - 1], FromIn(d, h.arcs[p[|p| - 1]]), vs, mu', pi', vs');
    }
  }

  /** `pi` leads from a finite entry that is not the root's to one later in the order. */
  lemma PiStep(g: Adjacency<int>, order: seq<State>, root: State, mu: seq<Distance>, pi: seq<Option<nat>>, i: nat)
    returns (a: nat, j: nat)
    requires g.Valid() && Ordered(g, order, root) && |mu| == |pi| && i < |order| && order[i] < |mu|
    requires PiRight(g.h, g.direction, order, root, mu, pi, order[i]) && mu[order[i]].Finite? && order[i] != root
    ensures i < j < |order| && pi[order[i]] == Some(a) && a < |g.h.arcs| && |g.h.arcs[a].tails| > 0
    ensures ToIn(g.direction, g.h.arcs[a]) == order[i] && FromIn(g.direction, g.h.arcs[a]) == order[j] < |mu|
    ensures mu[order[j]].Finite? && mu[order[i]].value == mu[order[j]].value + g.h.arcs[a].weight
  {
    a := pi[order[i]].value;
    var i';
    i', j :| 0 <= i' < j < |order| && order[i'] == order[i] && order[j] == FromIn(g.direction, g.h.arcs[a]);
    assert i' == i;
  }

  /** One more arc at the end of a chain that `pi` describes. */
  lemma BackLonger(h: HG<int>, d: Direction, mu: seq<Distance>, pi: seq<Option<nat>>, root: State, q: seq<nat>, a: nat,
                   vs: set<State>)
    requires |mu| == |pi| && a < |h.arcs| && |h.arcs[a].tails| > 0
    requires var u := FromIn(d, h.arcs[a]); Chain(h, d, root, q, u) && Back(h, d, mu, pi, root, q, u, vs)
    requires var t := ToIn(d, h.arcs[a]);
             t < |mu| && t in vs && pi[t] == Some(a) && mu[t] == Finite(Weight(h, q) + h.arcs[a].weight)
    ensures Chain(h, d, root, q + [a], ToIn(d, h.arcs[a])) && Weight(h, q + [a]) == Weight(h, q) + h.arcs[a].weight
    ensures Back(h, d, mu, pi, root, q + [a], ToIn(d, h.arcs[a]), vs)
  {
    ChainAppend(h, d, root, q, FromIn(d, h.arcs[a]), a);
    WeightAppend(h, q, a);
    assert [a][1..] == [] && (q + [a])[..|q|] == q;
  }

  /** The cost of a finite entry is the weight of the chain that `pi` describes. */
  lemma {:induction false} PiChain(g: Adjacency<int>, order: seq<State>, root: State, others: set<State>,
                                   mu: seq<Distance>, pi: seq<Option<nat>>, i: nat) returns (p: seq<nat>)
    requires g.Valid() && Ordered(g, order, root) && |mu| == |pi| && |g.lists| <= |mu| && i < |order|
    requires forall s :: 0 <= s < |mu| && s !in others ==> PiRight(g.h, g.direction, order, root, mu, pi, s)
    requires forall a :: 0 <= a < |g.h.arcs| ==> FromIn(g.direction, g.h.arcs[a]) !in others
    requires order[i] < |mu| && order[i] !in others && mu[order[i]].Finite?
    ensures Chain(g.h, g.direction, root, p, order[i]) && Weight(g.h, p) == mu[order[i]].value
    ensures Back(g.h, g.direction, mu, pi, root, p, order[i], set s | s in order)
    decreases |order| - i
  {
    assert PiRight(g.h, g.direction, order, root, mu, pi, order[i]);
    if order[i] == root {
      p := [];
    } else {
      hide Ordered, PiRight, Chain, Weight, Back;
      var a, j := PiStep(g, order, root, mu, pi, i);
      var q := PiChain(g, order, root, others, mu, pi, j);
      BackLonger(g.h, g.direction, mu, pi, root, q, a, set s | s in order);
      p := q + [a];
    }
  }

  /** When relaxation is through, the table holds the least costs. */
  lemma RelaxedIsLeast(g: Adjacency<int>, order: seq<State>, root: State, others: set<State>,
                       mu: seq<Distance>, pi: seq<Option<nat>>, s: State)
    requires g.Valid() && Ordered(g, order, root) && Relaxing(g, order, root, others, mu, pi, 0, 0)
    requires forall a :: 0 <= a < |g.h.arcs| ==> FromIn(g.direction, g.h.arcs[a]) !in others
    requires root !in others && s < |mu| && s !in others
    ensures IsLeast(g.h, g.direction, root, s, mu[s])
  {
    forall u | 0 <= u < |mu| ensures RelaxedFrom(g.h, g.direction, mu, u) {
      if j :| 0 <= j < |order| && order[j] == u {
      } else if u !in others {
        assert PiRight(g.h, g.direction, order, root, mu, pi, u);
        ConnectedSelf(g.Edges(), root);
        assert root in order;
        assert mu[u] == Infinite;
      }
    }
    forall p | Chain(g.h, g.direction, root, p, s) ensures AtMost(mu[s], Finite(Weight(g.h, p))) {
      assert PiRight(g.h, g.direction, order, root, mu, pi, root);
      RelaxedIsLower(g.h, g.direction, mu, root, p, s);
    }
    if mu[s].Finite? {
      assert PiRight(g.h, g.direction, order, root, mu, pi, s);
      assert s in order by {
        ConnectedSelf(g.Edges(), root);
        if s == root { assert root in order; }
      }
      var i :| 0 <= i < |order| && order[i] == s;
      var p := PiChain(g, order, root, others, mu, pi, i);
    }
  }

  /** Before relaxation: the root costs nothing, nothing else is known outside `others`. */
  lemma RelaxingBegins(g: Adjacency<int>, order: seq<State>, root: State, others: set<State>, mu: seq<Distance>,
                       pi: seq<Option<nat>>)
    requires g.Valid() && Ordered(g, order, root) && |mu| == |pi| && |g.lists| <= |mu| && root !in others
    requires forall s :: 0 <= s < |mu| ==>
              pi[s] == None && (s !in others ==> mu[s] == if s == root then Finite(0) else Infinite)
    ensures Relaxing(g, order, root, others, mu, pi, |order|, 0)
  {
    RootIsLast(g, order, root);
  }

  /** Some arc of one of the states leads back to it. */
  ghost predicate SelfLoopAmong(h: HG<int>, ss: seq<State>) {
    exists a :: 0 <= a < |h.arcs| && |h.arcs[a].tails| > 0 && h.arcs[a].tails[0] == h.arcs[a].head
      && h.arcs[a].head in ss
  }
}
