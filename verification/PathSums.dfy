/** Weights as a semiring, and the sum of a graph's path weights that this makes sense of. */
module PathSums {
  import opened Hypergraph
  import opened StateOrder
  import opened GraphPaths

  datatype Semiring<!W> = Semiring(zero: W, one: W, plus: (W, W) -> W, times: (W, W) -> W)

  ghost predicate Lawful<W(!new)>(s: Semiring<W>) {
    && s.one != s.zero
    && (forall a, b :: s.plus(a, b) == s.plus(b, a))
    && (forall a, b, c :: s.plus(s.plus(a, b), c) == s.plus(a, s.plus(b, c)))
    && (forall a :: s.plus(s.zero, a) == a)
    && (forall a, b, c :: s.times(s.times(a, b), c) == s.times(a, s.times(b, c)))
    && (forall a :: s.times(s.one, a) == a && s.times(a, s.one) == a)
    && (forall a :: s.times(s.zero, a) == s.zero && s.times(a, s.zero) == s.zero)
    && (forall a, b, c :: s.times(s.plus(a, b), c) == s.plus(s.times(a, c), s.times(b, c)))
    && (forall a, b, c :: s.times(c, s.plus(a, b)) == s.plus(s.times(c, a), s.times(c, b)))
  }

  ghost function Product<W>(s: Semiring<W>, h: HG<W>, p: seq<nat>): W {
    if p == [] then s.one
    else
      var a := p[|p| - 1];
      s.times(Product(s, h, p[..|p| - 1]), if a < |h.arcs| then h.arcs[a].weight else s.one)
  }

  /** The sum, over the listed paths, of the products of their arcs' weights. */
  ghost function Total<W>(s: Semiring<W>, h: HG<W>, ps: seq<seq<nat>>): W {
    if ps == [] then s.zero else s.plus(Total(s, h, ps[..|ps| - 1]), Product(s, h, ps[|ps| - 1]))
  }

  lemma {:induction false} TotalAppend<W(!new)>(s: Semiring<W>, h: HG<W>, ps: seq<seq<nat>>, qs: seq<seq<nat>>)
    requires Lawful(s)
    ensures Total(s, h, ps + qs) == s.plus(Total(s, h, ps), Total(s, h, qs))
  {
    if qs == [] {
      assert ps + qs == ps;
      assert s.plus(Total(s, h, ps), s.zero) == s.plus(s.zero, Total(s, h, ps));
    } else {
      var n := |qs| - 1;
      assert (ps + qs)[..|ps + qs| - 1] == ps + qs[..n];
      TotalAppend(s, h, ps, qs[..n]);
    }
  }

  /** Every listed path with arc `a` put at its end. */
  ghost function Extended(ps: seq<seq<nat>>, a: nat): seq<seq<nat>> {
    seq(|ps|, i requires 0 <= i < |ps| => ps[i] + [a])
  }

  lemma {:induction false} TotalExtended<W(!new)>(s: Semiring<W>, h: HG<W>, ps: seq<seq<nat>>, a: nat)
    requires Lawful(s) && a < |h.arcs|
    ensures Total(s, h, Extended(ps, a)) == s.times(Total(s, h, ps), h.arcs[a].weight)
  {
    hide Lawful;
    if ps == [] {
      ZeroTimes(s, h.arcs[a].weight);
    } else {
      var n := |ps| - 1;
      assert Extended(ps, a)[..n] == Extended(ps[..n], a);
      TotalExtended(s, h, ps[..n], a);
      ProductExtended(s, h, ps[n], a);
      Distributes(s, Total(s, h, ps[..n]), Product(s, h, ps[n]), h.arcs[a].weight);
    }
  }

  lemma ProductExtended<W>(s: Semiring<W>, h: HG<W>, p: seq<nat>, a: nat)
    requires a < |h.arcs|
    ensures Product(s, h, p + [a]) == s.times(Product(s, h, p), h.arcs[a].weight)
  {
    assert (p + [a])[..|p|] == p;
  }

  lemma Distributes<W(!new)>(s: Semiring<W>, a: W, b: W, c: W)
    requires Lawful(s)
    ensures s.times(s.plus(a, b), c) == s.plus(s.times(a, c), s.times(b, c))
  {
  }

  lemma ZeroTimes<W(!new)>(s: Semiring<W>, a: W)
    requires Lawful(s)
    ensures s.times(s.zero, a) == s.zero
  {
  }

  /** The order of the list does not matter. */
  lemma {:induction false} TotalPermuted<W(!new)>(s: Semiring<W>, h: HG<W>, ps: seq<seq<nat>>, qs: seq<seq<nat>>)
    requires Lawful(s) && multiset(ps) == multiset(qs)
    ensures Total(s, h, ps) == Total(s, h, qs)
  {
    hide Lawful;
    if ps == [] {
      assert |multiset(qs)| == 0;
    } else {
      var n := |ps| - 1;
      var p := ps[n];
      assert ps == ps[..n] + [p];
      assert p in multiset(qs);
      var i :| 0 <= i < |qs| && qs[i] == p;
      var left, right := qs[..i], qs[i + 1..];
      assert qs == left + [p] + right;
      assert multiset(left + right) == multiset(ps[..n]) by {
        assert multiset(ps) == multiset(ps[..n]) + multiset{p};
        assert multiset(left + right) == multiset(left) + multiset(right);
        assert multiset(ps[..n]) == multiset(ps) - multiset{p};
        assert multiset(qs) == multiset(left) + multiset{p} + multiset(right);
      }
      TotalPermuted(s, h, ps[..n], left + right);
      TotalAppend(s, h, left, right);
      TotalAppend(s, h, left + [p], right);
      assert (left + [p])[..|left|] == left;
      Regroup(s, Total(s, h, left), Product(s, h, p), Total(s, h, right));
    }
  }

  lemma Regroup<W(!new)>(s: Semiring<W>, a: W, b: W, c: W)
    requires Lawful(s)
    ensures s.plus(s.plus(a, b), c) == s.plus(s.plus(a, c), b)
  {
    assert s.plus(s.plus(a, b), c) == s.plus(a, s.plus(b, c));
    assert s.plus(b, c) == s.plus(c, b);
  }

  ghost predicate Once(ps: seq<seq<nat>>) {
    forall x, y :: 0 <= x < y < |ps| ==> ps[x] != ps[y]
  }

  /** `ps` lists every path from `i` to `j` once. */
  ghost predicate Enumerates<W>(h: HG<W>, i: State, j: State, ps: seq<seq<nat>>) {
    && Once(ps)
    && (forall p :: p in ps <==> Path(h, i, p, j))
  }

  /** `w` is the sum over all paths from `i` to `j`; there are finitely many. */
  ghost predicate IsPathSum<W>(s: Semiring<W>, h: HG<W>, i: State, j: State, w: W) {
    && (exists ps :: Enumerates(h, i, j, ps))
    && (forall ps :: Enumerates(h, i, j, ps) ==> w == Total(s, h, ps))
  }

  lemma {:induction false} DistinctCounts<T>(ps: seq<T>, p: T)
    requires forall x, y :: 0 <= x < y < |ps| ==> ps[x] != ps[y]
    ensures multiset(ps)[p] == if p in ps then 1 else 0
  {
    if ps != [] {
      var n := |ps| - 1;
      assert ps == ps[..n] + [ps[n]];
      DistinctCounts(ps[..n], p);
    }
  }

  lemma OneListIsEnough<W(!new)>(s: Semiring<W>, h: HG<W>, i: State, j: State, ps: seq<seq<nat>>)
    requires Lawful(s) && Enumerates(h, i, j, ps)
    ensures IsPathSum(s, h, i, j, Total(s, h, ps))
  {
    forall qs | Enumerates(h, i, j, qs) ensures Total(s, h, ps) == Total(s, h, qs) {
      forall p ensures multiset(ps)[p] == multiset(qs)[p] {
        DistinctCounts(ps, p);
        DistinctCounts(qs, p);
        assert p in ps <==> Path(h, i, p, j);
        assert p in qs <==> Path(h, i, p, j);
      }
      TotalPermuted(s, h, ps, qs);
    }
  }

  // ----- The paths of a graph whose arcs lead to greater states -----

  /** A graph by its out-arcs, each stored once. */
  ghost predicate OnceEach<W>(g: Adjacency<W>) {
    && g.Valid() && g.direction == ToHead
    && forall s, k, l :: 0 <= s < |g.lists| && 0 <= k < l < |g.lists[s]| ==> g.lists[s][k] != g.lists[s][l]
  }

  ghost predicate Increasing<W>(g: Adjacency<W>)
    requires g.Valid()
  {
    forall a :: 0 <= a < |g.h.arcs| ==> g.From(g.h.arcs[a]) < g.To(g.h.arcs[a])
  }

  /** The paths from `i` to `j` whose last arc leaves a state below `v`, or is among the first `k` arcs of `v`. */
  ghost function Into<W>(g: Adjacency<W>, i: State, j: State, v: State, k: nat): seq<seq<nat>>
    requires g.Valid() && v <= |g.lists| && k <= if v < |g.lists| then |g.lists[v]| else 0
    decreases j, v, k
  {
    if k > 0 then
      var a := g.lists[v][k - 1];
      Into(g, i, j, v, k - 1) + if g.To(g.h.arcs[a]) == j && v < j then Extended(Into(g, i, v, v, 0), a) else []
    else if v > 0 then Into(g, i, j, v - 1, |g.lists[v - 1]|)
    else if i == j then [[]] else []
  }

  /** What `Into` lists, said without it. */
  ghost predicate EndsBelow<W>(g: Adjacency<W>, p: seq<nat>, v: State, k: nat)
    requires g.Valid() && v <= |g.lists| && k <= if v < |g.lists| then |g.lists[v]| else 0
  {
    p == [] ||
    var a := p[|p| - 1];
    a < |g.h.arcs| && (g.From(g.h.arcs[a]) < v || (k > 0 && a in g.lists[v][..k]))
  }

  lemma IntoArc<W>(g: Adjacency<W>, i: State, j: State, v: State, k: nat)
    requires g.Valid() && v < |g.lists| && 0 < k <= |g.lists[v]|
    ensures var a := g.lists[v][k - 1];
            Into(g, i, j, v, k) == Into(g, i, j, v, k - 1) +
              if g.To(g.h.arcs[a]) == j && v < j then Extended(Into(g, i, v, v, 0), a) else []
  {
  }

  lemma IntoState<W>(g: Adjacency<W>, i: State, j: State, v: State)
    requires g.Valid() && v <= |g.lists|
    ensures v > 0 ==> Into(g, i, j, v, 0) == Into(g, i, j, v - 1, |g.lists[v - 1]|)
    ensures v == 0 ==> Into(g, i, j, v, 0) == if i == j then [[]] else []
  {
  }

  /** A path that ends with arc `a` is a path to where `a` begins, with `a` after it. */
  lemma EndsWith<W>(h: HG<W>, i: State, j: State, qs: seq<seq<nat>>, a: nat, p: seq<nat>)
    requires a < |h.arcs| && |h.arcs[a].tails| > 0 && h.arcs[a].head == j
    requires forall q :: q in qs <==> Path(h, i, q, h.arcs[a].tails[0])
    ensures p in Extended(qs, a) <==> Path(h, i, p, j) && p != [] && p[|p| - 1] == a
  {
    if p in Extended(qs, a) {
      var x :| 0 <= x < |qs| && p == qs[x] + [a];
      assert qs[x] in qs;
      ChainAppend(h, ToHead, i, qs[x], h.arcs[a].tails[0], a);
    }
    if Path(h, i, p, j) && p != [] && p[|p| - 1] == a {
      var q := p[..|p| - 1];
      PathInit(h, i, p, j);
      assert q in qs;
      var x :| 0 <= x < |qs| && qs[x] == q;
      assert Extended(qs, a)[x] == p;
    }
  }

  lemma {:induction false} IntoRight<W>(g: Adjacency<W>, i: State, j: State, v: State, k: nat, p: seq<nat>)
    requires OnceEach(g) && Increasing(g) && v <= |g.lists| && k <= if v < |g.lists| then |g.lists[v]| else 0
    ensures p in Into(g, i, j, v, k) <==> Path(g.h, i, p, j) && EndsBelow(g, p, v, k)
    decreases j, v, k
  {
    hide Into, Chain;
    if k > 0 {
      var a := g.lists[v][k - 1];
      IntoArc(g, i, j, v, k);
      assert g.lists[v][..k] == g.lists[v][..k - 1] + [a];
      IntoRight(g, i, j, v, k - 1, p);
      if g.To(g.h.arcs[a]) == j {
        var qs := Into(g, i, v, v, 0);
        forall q ensures q in qs <==> Path(g.h, i, q, v) {
          IntoRight(g, i, v, v, 0, q);
          if Path(g.h, i, q, v) { PathEndsBelow(g, i, q, v); }
        }
        EndsWith(g.h, i, j, qs, a, p);
      } else if Path(g.h, i, p, j) && p != [] {
        PathLast(g.h, i, p, j);
      }
    } else if v > 0 {
      IntoState(g, i, j, v);
      IntoRight(g, i, j, v - 1, |g.lists[v - 1]|, p);
      if p != [] && p[|p| - 1] < |g.h.arcs| {
        var a := p[|p| - 1];
        assert g.lists[v - 1][..|g.lists[v - 1]|] == g.lists[v - 1];
        assert a in g.lists[g.From(g.h.arcs[a])];
      }
    } else {
      IntoState(g, i, j, v);
      assert Path(g.h, i, [], j) <==> i == j by { PathEmpty(g.h, i, j); }
    }
  }

  lemma PathEmpty<W>(h: HG<W>, i: State, j: State)
    ensures Path(h, i, [], j) <==> i == j
  {
  }

  lemma {:induction false} PathLast<W>(h: HG<W>, i: State, p: seq<nat>, j: State)
    requires Path(h, i, p, j) && p != []
    ensures p[|p| - 1] < |h.arcs| && h.arcs[p[|p| - 1]].head == j
    decreases |p|
  {
    if |p| == 1 {
      assert Chain(h, ToHead, h.arcs[p[0]].head, p[1..], j);
    } else {
      PathLast(h, h.arcs[p[0]].head, p[1..], j);
    }
  }

  lemma PathEndsBelow<W>(g: Adjacency<W>, i: State, p: seq<nat>, v: State)
    requires OnceEach(g) && Increasing(g) && v < |g.lists| && Path(g.h, i, p, v)
    ensures EndsBelow(g, p, v, 0)
  {
    if p != [] { PathLast(g.h, i, p, v); }
  }

  lemma OnceExtended(ps: seq<seq<nat>>, qs: seq<seq<nat>>, a: nat)
    requires Once(ps) && Once(qs)
    requires forall p :: p in ps && p != [] ==> p[|p| - 1] != a
    ensures Once(ps + Extended(qs, a))
  {
    forall x, y | 0 <= x < |ps| && 0 <= y < |qs| ensures ps[x] != qs[y] + [a] {
      assert ps[x] in ps;
    }
    forall x, y | 0 <= x < y < |qs| ensures qs[x] + [a] != qs[y] + [a] {
      assert (qs[x] + [a])[..|qs[x]|] == qs[x] && (qs[y] + [a])[..|qs[y]|] == qs[y];
    }
  }

  lemma {:induction false} IntoOnce<W>(g: Adjacency<W>, i: State, j: State, v: State, k: nat)
    requires OnceEach(g) && Increasing(g) && v <= |g.lists| && k <= if v < |g.lists| then |g.lists[v]| else 0
    ensures Once(Into(g, i, j, v, k))
    decreases j, v, k
  {
    hide Into, Once, Chain;
    if k > 0 {
      var a := g.lists[v][k - 1];
      var ps := Into(g, i, j, v, k - 1);
      IntoArc(g, i, j, v, k);
      IntoOnce(g, i, j, v, k - 1);
      if g.To(g.h.arcs[a]) == j {
        IntoOnce(g, i, v, v, 0);
        forall p | p in ps && p != [] ensures p[|p| - 1] != a {
          IntoRight(g, i, j, v, k - 1, p);
        }
        OnceExtended(ps, Into(g, i, v, v, 0), a);
      } else {
        assert ps + [] == ps;
      }
    } else if v > 0 {
      IntoState(g, i, j, v);
      IntoOnce(g, i, j, v - 1, |g.lists[v - 1]|);
    } else {
      IntoState(g, i, j, v);
      OnceShort(Into(g, i, j, v, 0));
    }
  }

  lemma OnceShort(ps: seq<seq<nat>>)
    requires |ps| <= 1
    ensures Once(ps)
  {
  }

  lemma IntoEnumerates<W>(g: Adjacency<W>, i: State, j: State, v: State)
    requires OnceEach(g) && Increasing(g) && j <= v <= |g.lists| && j < |g.lists|
    ensures Enumerates(g.h, i, j, Into(g, i, j, v, 0))
  {
    IntoOnce(g, i, j, v, 0);
    forall p ensures p in Into(g, i, j, v, 0) <==> Path(g.h, i, p, j) {
      IntoRight(g, i, j, v, 0, p);
      if Path(g.h, i, p, j) { PathEndsBelow(g, i, p, j); }
    }
  }

  /** No path leads down. */
  lemma {:induction false} NothingBelow<W>(g: Adjacency<W>, i: State, j: State, v: State, k: nat)
    requires g.Valid() && v <= i && v < |g.lists| && k <= |g.lists[v]| && (v == i ==> k == 0)
    ensures Into(g, i, j, v, k) == if i == j then [[]] else []
    decreases v, k
  {
    hide Into;
    if k > 0 {
      IntoArc(g, i, j, v, k);
      NothingBelow(g, i, j, v, k - 1);
      NothingBelow(g, i, v, v, 0);
    } else if v > 0 {
      IntoState(g, i, j, v);
      NothingBelow(g, i, j, v - 1, |g.lists[v - 1]|);
    } else {
      IntoState(g, i, j, v);
    }
  }
}
