/** Floyd-Warshall in place over the matrix of a graph's least costs. */
module FloydWarshall {
  import opened Hypergraph
  import opened StateOrder
  import opened GraphPaths
  import opened PathSums
  import opened AllPairs

  // ----- Least cost as a semiring -----

  function Least(a: Distance, b: Distance): Distance {
    if Better(b, a) then b else a
  }

  function Along(a: Distance, b: Distance): Distance {
    if a.Finite? && b.Finite? then Finite(a.value + b.value) else Infinite
  }

  const MIN_PLUS: Semiring<Distance> := Semiring(Infinite, Finite(0), Least, Along)

  lemma LeastAlong(a: Distance, b: Distance, c: Distance)
    ensures Along(Along(a, b), c) == Along(a, Along(b, c))
    ensures Along(Least(a, b), c) == Least(Along(a, c), Along(b, c))
    ensures Along(c, Least(a, b)) == Least(Along(c, a), Along(c, b))
    ensures Least(Least(a, b), c) == Least(a, Least(b, c)) && Least(a, b) == Least(b, a)
  {
  }

  lemma MinPlusIsLawful()
    ensures Lawful(MIN_PLUS)
  {
    hide Least, Along;
    forall a, b ensures MIN_PLUS.plus(a, b) == MIN_PLUS.plus(b, a) {
      LeastAlong(a, b, a);
    }
    forall a, b, c ensures MIN_PLUS.plus(MIN_PLUS.plus(a, b), c) == MIN_PLUS.plus(a, MIN_PLUS.plus(b, c)) {
      LeastAlong(a, b, c);
    }
    forall a, b, c ensures MIN_PLUS.times(MIN_PLUS.times(a, b), c) == MIN_PLUS.times(a, MIN_PLUS.times(b, c)) {
      LeastAlong(a, b, c);
    }
    forall a, b, c
      ensures MIN_PLUS.times(MIN_PLUS.plus(a, b), c)
              == MIN_PLUS.plus(MIN_PLUS.times(a, c), MIN_PLUS.times(b, c))
    {
      LeastAlong(a, b, c);
    }
    forall a, b, c
      ensures MIN_PLUS.times(c, MIN_PLUS.plus(a, b))
              == MIN_PLUS.plus(MIN_PLUS.times(c, a), MIN_PLUS.times(c, b))
    {
      LeastAlong(a, b, c);
    }
    forall a
      ensures MIN_PLUS.plus(MIN_PLUS.zero, a) == a
    {
      Neutral(a);
    }
    forall a ensures MIN_PLUS.times(MIN_PLUS.one, a) == a && MIN_PLUS.times(a, MIN_PLUS.one) == a {
      Neutral(a);
    }
    forall a
      ensures MIN_PLUS.times(MIN_PLUS.zero, a) == MIN_PLUS.zero && MIN_PLUS.times(a, MIN_PLUS.zero) == MIN_PLUS.zero
    {
      Neutral(a);
    }
  }

  lemma Neutral(a: Distance)
    ensures Least(Infinite, a) == a && Along(Finite(0), a) == a && Along(a, Finite(0)) == a
    ensures Along(Infinite, a) == Infinite && Along(a, Infinite) == Infinite
  {
  }

  /** The same graph with its costs as weights of that semiring. */
  function Weighted(h: HG<int>): HG<Distance> {
    HG(seq(|h.arcs|, a requires 0 <= a < |h.arcs| => Arc(h.arcs[a].head, h.arcs[a].tails, Finite(h.arcs[a].weight))),
       h.start, h.final, h.labels)
  }

  lemma {:induction false} SamePaths(h: HG<int>, i: State, p: seq<nat>, j: State)
    ensures Path(Weighted(h), i, p, j) <==> Path(h, i, p, j)
    decreases |p|
  {
    if p != [] && p[0] < |h.arcs| && |h.arcs[p[0]].tails| > 0 {
      SamePaths(h, h.arcs[p[0]].head, p[1..], j);
    }
  }

  lemma {:induction false} ProductIsWeight(h: HG<int>, p: seq<nat>)
    ensures Product(MIN_PLUS, Weighted(h), p) == Finite(Weight(h, p))
  {
    if p != [] {
      var n := |p| - 1;
      assert p == p[..n] + [p[n]];
      ProductIsWeight(h, p[..n]);
      WeightAppend(h, p[..n], p[n]);
      assert [p[n]][1..] == [];
    }
  }

  /** In this semiring the sum of a list of paths is the weight of the lightest. */
  lemma {:induction false} TotalIsLeast(h: HG<int>, ps: seq<seq<nat>>)
    ensures var c := Total(MIN_PLUS, Weighted(h), ps);
            && (c.Finite? ==> exists p :: p in ps && Weight(h, p) == c.value)
            && (forall p :: p in ps ==> AtMost(c, Finite(Weight(h, p))))
  {
    if ps != [] {
      var n := |ps| - 1;
      TotalIsLeast(h, ps[..n]);
      ProductIsWeight(h, ps[n]);
      assert ps == ps[..n] + [ps[n]];
    }
  }

  lemma PathSumIsLeast(h: HG<int>, i: State, j: State, c: Distance)
    requires IsPathSum(MIN_PLUS, Weighted(h), i, j, c)
    ensures IsLeast(h, ToHead, i, j, c)
  {
    var ps :| Enumerates(Weighted(h), i, j, ps);
    TotalIsLeast(h, ps);
    forall p ensures p in ps <==> Chain(h, ToHead, i, p, j) {
      assert p in ps <==> Path(Weighted(h), i, p, j);
      SamePaths(h, i, p, j);
    }
  }

  // ----- What one round does to the matrix -----

  type Matrix = seq<seq<Distance>>

  ghost predicate Square(m: Matrix, n: nat) {
    |m| == n && forall i :: 0 <= i < n ==> |m[i]| == n
  }

  /** A finite cost is the weight of some path. */
  ghost predicate IsWay(h: HG<int>, i: State, j: State, c: Distance) {
    c.Finite? ==> exists p :: Path(h, i, p, j) && Weight(h, p) == c.value
  }

  /** Every entry is the weight of some path or infinite, no more than any single arc, and zero on the diagonal. */
  ghost predicate Sound(h: HG<int>, m: Matrix, n: nat) {
    && Square(m, n)
    && (forall i, j :: 0 <= i < n && 0 <= j < n ==> IsWay(h, i, j, m[i][j]))
    && (forall a :: 0 <= a < |h.arcs| && |h.arcs[a].tails| > 0 ==>
          h.arcs[a].tails[0] < n && h.arcs[a].head < n
            && AtMost(m[h.arcs[a].tails[0]][h.arcs[a].head], Finite(h.arcs[a].weight)))
    && (forall i :: 0 <= i < n ==> m[i][i] == Finite(0))
  }

  /** A detour over one of the first `k` states is never shorter. */
  ghost predicate Triangle(m: Matrix, n: nat, k: nat)
    requires Square(m, n) && k <= n
  {
    forall v, i, j {:trigger Along(m[i][v], m[v][j])} :: 0 <= v < k && 0 <= i < n && 0 <= j < n ==>
      AtMost(m[i][j], Along(m[i][v], m[v][j]))
  }

  /** The better of an entry and the way over `k`. */
  ghost function Over(m: Matrix, n: nat, k: nat, i: nat, j: nat): Distance
    requires Square(m, n) && k < n && i < n && j < n
  {
    if i == j then m[i][j] else Least(m[i][j], Along(m[i][k], m[k][j]))
  }

  ghost predicate Improved(m: Matrix, m': Matrix, n: nat, k: nat)
    requires Square(m, n) && k < n
  {
    Square(m', n) && forall i, j :: 0 <= i < n && 0 <= j < n ==> m'[i][j] == Over(m, n, k, i, j)
  }

  ghost predicate NoNegativeCycle(h: HG<int>) {
    forall i, p :: Path(h, i, p, i) ==> Weight(h, p) >= 0
  }

  lemma {:induction false} PathJoin(h: HG<int>, i: State, p: seq<nat>, j: State, q: seq<nat>, k: State)
    requires Path(h, i, p, j) && Path(h, j, q, k)
    ensures Path(h, i, p + q, k) && Weight(h, p + q) == Weight(h, p) + Weight(h, q)
    decreases |p|
  {
    if p == [] {
      assert p + q == q;
    } else {
      assert (p + q)[1..] == p[1..] + q;
      PathJoin(h, h.arcs[p[0]].head, p[1..], j, q, k);
    }
  }

  /** Two ways put together are a way. */
  lemma AlongIsWay(h: HG<int>, i: State, v: State, j: State, a: Distance, b: Distance)
    requires IsWay(h, i, v, a) && IsWay(h, v, j, b)
    ensures IsWay(h, i, j, Along(a, b))
  {
    if a.Finite? && b.Finite? {
      var p :| Path(h, i, p, v) && Weight(h, p) == a.value;
      var q :| Path(h, v, q, j) && Weight(h, q) == b.value;
      PathJoin(h, i, p, v, q, j);
    }
  }

  lemma NoNegativeDetour(h: HG<int>, m: Matrix, n: nat, i: nat, v: nat)
    requires Sound(h, m, n) && NoNegativeCycle(h) && i < n && v < n
    ensures AtMost(Finite(0), Along(m[i][v], m[v][i]))
  {
    AlongIsWay(h, i, v, i, m[i][v], m[v][i]);
  }

  lemma RoundIsSound(h: HG<int>, m: Matrix, m': Matrix, n: nat, k: nat)
    requires Sound(h, m, n) && k < n && Improved(m, m', n, k)
    ensures Sound(h, m', n)
  {
    forall i, j | 0 <= i < n && 0 <= j < n ensures IsWay(h, i, j, m'[i][j]) {
      hide IsWay;
      assert m'[i][j] == Over(m, n, k, i, j);
      AlongIsWay(h, i, k, j, m[i][k], m[k][j]);
    }
    forall a | 0 <= a < |h.arcs| && |h.arcs[a].tails| > 0
      ensures AtMost(m'[h.arcs[a].tails[0]][h.arcs[a].head], Finite(h.arcs[a].weight))
    {
      assert m'[h.arcs[a].tails[0]][h.arcs[a].head] == Over(m, n, k, h.arcs[a].tails[0], h.arcs[a].head);
    }
    forall i | 0 <= i < n ensures m'[i][i] == Finite(0) {
      assert m'[i][i] == Over(m, n, k, i, i);
    }
  }

  /** The arithmetic of one detour over `v` in the round of `k`: whichever halves themselves go over
      `k`, nothing is gained. */
  lemma Detour(ij: Distance, ik: Distance, kj: Distance, iv: Distance, vj: Distance, kv: Distance, vk: Distance)
    requires AtMost(Finite(0), Along(kv, vk))
    requires AtMost(ij, Along(iv, vj)) && AtMost(kj, Along(kv, vj)) && AtMost(ik, Along(iv, vk))
    ensures AtMost(Least(ij, Along(ik, kj)), Along(Least(iv, Along(ik, kv)), Least(vj, Along(vk, kj))))
  {
  }

  lemma RoundDetour(m: Matrix, m': Matrix, n: nat, k: nat, v: nat, i: nat, j: nat)
    requires Square(m, n) && v < k < n && i < n && j < n && Improved(m, m', n, k) && i != j && i != v && j != v
    requires AtMost(Finite(0), Along(m[k][v], m[v][k]))
    requires AtMost(m[i][j], Along(m[i][v], m[v][j]))
    requires AtMost(m[k][j], Along(m[k][v], m[v][j])) && AtMost(m[i][k], Along(m[i][v], m[v][k]))
    ensures AtMost(m'[i][j], Along(m'[i][v], m'[v][j]))
  {
    hide AtMost, Along, Least;
    assert m'[i][j] == Over(m, n, k, i, j) && m'[i][v] == Over(m, n, k, i, v) && m'[v][j] == Over(m, n, k, v, j);
    Detour(m[i][j], m[i][k], m[k][j], m[i][v], m[v][j], m[k][v], m[v][k]);
  }

  /** The detours that need no triangle: over `k` itself, or over an end. */
  lemma RoundDetourPlain(m: Matrix, m': Matrix, n: nat, k: nat, v: nat, i: nat, j: nat)
    requires Square(m, n) && v <= k < n && Improved(m, m', n, k) && m[v][v] == Finite(0)
    requires i < n && j < n && i != j && (v == k || i == v || j == v)
    ensures AtMost(m'[i][j], Along(m'[i][v], m'[v][j]))
  {
    assert m'[i][j] == Over(m, n, k, i, j) && m'[i][v] == Over(m, n, k, i, v) && m'[v][j] == Over(m, n, k, v, j);
    assert m'[v][v] == Over(m, n, k, v, v);
  }

  lemma TriangleAt(m: Matrix, n: nat, k: nat, v: nat, i: nat, j: nat)
    requires Square(m, n) && k <= n && Triangle(m, n, k) && v < k && i < n && j < n
    ensures AtMost(m[i][j], Along(m[i][v], m[v][j]))
  {
  }

  lemma RoundKeepsTriangle(h: HG<int>, m: Matrix, m': Matrix, n: nat, k: nat)
    requires Sound(h, m, n) && NoNegativeCycle(h) && k < n && Improved(m, m', n, k) && Triangle(m, n, k)
    ensures Square(m', n) && Triangle(m', n, k + 1)
  {
    hide Triangle, Improved, Sound, NoNegativeCycle;
    RoundIsSound(h, m, m', n, k);
    SoundIsSquare(h, m', n);
    SoundIsSquare(h, m, n);
    forall v, i, j | 0 <= v < k + 1 && 0 <= i < n && 0 <= j < n ensures AtMost(m'[i][j], Along(m'[i][v], m'[v][j])) {
      if i == j {
        NoNegativeDetour(h, m', n, i, v);
      } else if v == k || i == v || j == v {
        RoundDetourPlain(m, m', n, k, v, i, j);
      } else {
        NoNegativeDetour(h, m, n, k, v);
        TriangleAt(m, n, k, v, i, j);
        TriangleAt(m, n, k, v, k, j);
        TriangleAt(m, n, k, v, i, k);
        RoundDetour(m, m', n, k, v, i, j);
      }
    }
    ShowTriangle(m', n, k + 1);
  }

  lemma SoundIsSquare(h: HG<int>, m: Matrix, n: nat)
    requires Sound(h, m, n)
    ensures Square(m, n) && forall i :: 0 <= i < n ==> m[i][i] == Finite(0)
  {
  }

  lemma ShowTriangle(m: Matrix, n: nat, k: nat)
    requires Square(m, n) && k <= n
    requires forall v, i, j {:trigger Along(m[i][v], m[v][j])} :: 0 <= v < k && 0 <= i < n && 0 <= j < n ==>
               AtMost(m[i][j], Along(m[i][v], m[v][j]))
    ensures Triangle(m, n, k)
  {
  }

  lemma {:induction false} NoPathIsShorter(h: HG<int>, m: Matrix, n: nat, i: nat, p: seq<nat>, j: State)
    requires Sound(h, m, n) && Triangle(m, n, n) && i < n && Path(h, i, p, j)
    ensures j < n && AtMost(m[i][j], Finite(Weight(h, p)))
    decreases |p|
  {
    if p != [] {
      var u := h.arcs[p[0]].head;
      NoPathIsShorter(h, m, n, u, p[1..], j);
      assert AtMost(m[i][j], Along(m[i][u], m[u][j]));
    }
  }

  lemma RoundsAreLeast(h: HG<int>, m: Matrix, n: nat)
    requires Sound(h, m, n) && Triangle(m, n, n)
    ensures forall i, j :: 0 <= i < n && 0 <= j < n ==> IsLeast(h, ToHead, i, j, m[i][j])
  {
    forall i, j | 0 <= i < n && 0 <= j < n ensures IsLeast(h, ToHead, i, j, m[i][j]) {
      forall p | Chain(h, ToHead, i, p, j) ensures AtMost(m[i][j], Finite(Weight(h, p))) {
        NoPathIsShorter(h, m, n, i, p, j);
      }
    }
  }

  // ----- The loops -----

  ghost function Values(dist: array2<Distance>): (m: Matrix)
    reads dist
    ensures |m| == dist.Length0 && forall i :: 0 <= i < |m| ==> |m[i]| == dist.Length1
    ensures forall i, j :: 0 <= i < dist.Length0 && 0 <= j < dist.Length1 ==> m[i][j] == dist[i, j]
  {
    seq(dist.Length0, i requires 0 <= i < dist.Length0 reads dist =>
      seq(dist.Length1, j requires 0 <= j < dist.Length1 reads dist => dist[i, j]))
  }

  method PlusBy(dist: array2<Distance>, i: nat, j: nat, c: Distance)
    requires i < dist.Length0 && j < dist.Length1
    modifies dist
    ensures var m := old(Values(dist)); Values(dist) == m[i := m[i][j := Least(m[i][j], c)]]
  {
    ghost var m := Values(dist);
    dist[i, j] := Least(dist[i, j], c);
    forall x | 0 <= x < dist.Length0 ensures Values(dist)[x] == m[i := m[i][j := Least(m[i][j], c)]][x] {
    }
  }

  /** The diagonal of ones, then every arc's weight added to its entry. */
  method FloydWarshallInit(g: Adjacency<int>, dist: array2<Distance>)
    requires g.Valid() && g.direction == ToHead && NoNegativeCycle(g.h)
    requires dist.Length0 == dist.Length1 == |g.lists|
    modifies dist
    ensures Sound(g.h, Values(dist), |g.lists|)
  {
    var n := |g.lists|;
    forall i, j | 0 <= i < n && 0 <= j < n {
      dist[i, j] := if i == j then Finite(0) else Infinite;
    }
    SeedsBegin(g.h, Values(dist), n);
    hide *;
    for tail := 0 to n
      invariant SeededTo(g, Values(dist), n, tail, 0)
    {
      for k := 0 to |g.lists[tail]|
        invariant SeededTo(g, Values(dist), n, tail, k)
      {
        var arc := ListedArc(g, tail, k);
        SeedArc(g, Values(dist), n, tail, k);
        PlusBy(dist, tail, arc.head, Finite(arc.weight));
      }
      SeedNext(g, Values(dist), n, tail);
    }
  }

  function ListedArc(g: Adjacency<int>, tail: State, k: nat): (arc: Arc<int>)
    requires g.Valid() && g.direction == ToHead && tail < |g.lists| && k < |g.lists[tail]|
    ensures arc.head < |g.lists| && |arc.tails| > 0 && arc.tails[0] == tail
  {
    g.h.arcs[g.lists[tail][k]]
  }

  /** What seeding keeps: every entry stands for a path, and the diagonal is zero. */
  ghost predicate Seeded(h: HG<int>, m: Matrix, n: nat) {
    && Square(m, n)
    && (forall i, j :: 0 <= i < n && 0 <= j < n ==> IsWay(h, i, j, m[i][j]))
    && (forall i :: 0 <= i < n ==> m[i][i] == Finite(0))
  }

  ghost predicate InMatrix(h: HG<int>, m: Matrix, n: nat, a: nat) {
    && Square(m, n) && a < |h.arcs| && |h.arcs[a].tails| > 0 && h.arcs[a].tails[0] < n && h.arcs[a].head < n
    && AtMost(m[h.arcs[a].tails[0]][h.arcs[a].head], Finite(h.arcs[a].weight))
  }

  lemma SeedsBegin(h: HG<int>, m: Matrix, n: nat)
    requires Square(m, n)
    requires forall i, j :: 0 <= i < n && 0 <= j < n ==> m[i][j] == if i == j then Finite(0) else Infinite
    ensures Seeded(h, m, n)
  {
    forall i, j | 0 <= i < n && 0 <= j < n ensures IsWay(h, i, j, m[i][j]) {
      if i == j {
        assert Path(h, i, [], j) && Weight(h, []) == 0;
      }
    }
  }

  /** The arcs of the states before `tail`, and the first `k` of `tail`, are in the matrix. */
  ghost predicate SeededTo(g: Adjacency<int>, m: Matrix, n: nat, tail: State, k: nat) {
    && g.Valid() && g.direction == ToHead && n == |g.lists| && NoNegativeCycle(g.h) && Seeded(g.h, m, n)
    && (forall a :: 0 <= a < |g.h.arcs| && g.h.arcs[a].tails[0] < tail ==> InMatrix(g.h, m, n, a))
    && (k > 0 ==> tail < n && k <= |g.lists[tail]| && forall l :: 0 <= l < k ==> InMatrix(g.h, m, n, g.lists[tail][l]))
  }

  lemma OneArcIsWay(h: HG<int>, a: nat)
    requires a < |h.arcs| && |h.arcs[a].tails| > 0
    ensures IsWay(h, h.arcs[a].tails[0], h.arcs[a].head, Finite(h.arcs[a].weight))
  {
    assert Chain(h, ToHead, h.arcs[a].head, [a][1..], h.arcs[a].head) && [a][1..] == [];
    assert Path(h, h.arcs[a].tails[0], [a], h.arcs[a].head) && Weight(h, [a]) == h.arcs[a].weight;
  }

  lemma SeedArc(g: Adjacency<int>, m: Matrix, n: nat, tail: State, k: nat)
    requires SeededTo(g, m, n, tail, k) && tail < n && k < |g.lists[tail]|
    ensures var arc := ListedArc(g, tail, k);
            Square(m, n) && SeededTo(g, m[tail := m[tail][arc.head := Least(m[tail][arc.head], Finite(arc.weight))]],
                                     n, tail, k + 1)
  {
    var a := g.lists[tail][k];
    var arc := ListedArc(g, tail, k);
    var c := Finite(arc.weight);
    var m' := m[tail := m[tail][arc.head := Least(m[tail][arc.head], c)]];
    OneArcIsWay(g.h, a);
    SeededPut(g.h, m, n, tail, arc.head, c);
    hide Seeded, IsWay, NoNegativeCycle;
    forall b | InMatrix(g.h, m, n, b) ensures InMatrix(g.h, m', n, b) {
    }
    assert InMatrix(g.h, m', n, a);
  }

  function Put(m: Matrix, i: nat, j: nat, c: Distance): Matrix
    requires i < |m| && j < |m[i]|
  {
    m[i := m[i][j := Least(m[i][j], c)]]
  }

  /** The weight of one more path is added to its entry. */
  lemma SeededPut(h: HG<int>, m: Matrix, n: nat, i: nat, j: nat, c: Distance)
    requires Seeded(h, m, n) && NoNegativeCycle(h) && i < n && j < n && c.Finite? && IsWay(h, i, j, c)
    ensures Seeded(h, Put(m, i, j, c), n)
  {
    var m' := Put(m, i, j, c);
    assert i == j ==> c.value >= 0;
    hide NoNegativeCycle;
    forall x, y | 0 <= x < n && 0 <= y < n ensures IsWay(h, x, y, m'[x][y]) {
      assert IsWay(h, x, y, m[x][y]);
    }
  }

  lemma SeedNext(g: Adjacency<int>, m: Matrix, n: nat, tail: State)
    requires tail < n && n == |g.lists| && SeededTo(g, m, n, tail, |g.lists[tail]|)
    ensures SeededTo(g, m, n, tail + 1, 0)
  {
    forall a | 0 <= a < |g.h.arcs| && g.h.arcs[a].tails[0] < tail + 1 ensures InMatrix(g.h, m, n, a) {
      if g.h.arcs[a].tails[0] == tail {
        var l :| 0 <= l < |g.lists[tail]| && g.lists[tail][l] == a;
      }
    }
  }

  /** Row `i` by way of `k`, reading row `i` while it is rewritten. */
  method RelaxRow(dist: array2<Distance>, k: nat, i: nat)
    requires dist.Length0 == dist.Length1 && k < dist.Length0 && i < dist.Length0 && dist[k, k] == Finite(0)
    modifies dist
    ensures forall j :: 0 <= j < dist.Length1 ==> dist[i, j] == Over(old(Values(dist)), dist.Length0, k, i, j)
    ensures forall x, y :: 0 <= x < dist.Length0 && 0 <= y < dist.Length1 && x != i ==> dist[x, y] == old(dist[x, y])
  {
    if k == i {
      return;
    }
    if dist[i, k].Infinite? {
      return;
    }
    for j := 0 to dist.Length1
      invariant forall y :: 0 <= y < j ==> dist[i, y] == Over(old(Values(dist)), dist.Length0, k, i, y)
      invariant forall y :: j <= y < dist.Length1 ==> dist[i, y] == old(dist[i, y])
      invariant forall x, y :: 0 <= x < dist.Length0 && 0 <= y < dist.Length1 && x != i ==>
                dist[x, y] == old(dist[x, y])
      invariant dist[i, k] == old(dist[i, k])
    {
      if i == j || dist[k, j].Infinite? {
        continue;
      }
      dist[i, j] := Least(dist[i, j], Along(dist[i, k], dist[k, j]));
    }
  }

  method FloydWarshallOverMatrix(h: HG<int>, dist: array2<Distance>)
    requires dist.Length0 == dist.Length1 && Sound(h, Values(dist), dist.Length0) && NoNegativeCycle(h)
    modifies dist
    ensures forall i, j :: 0 <= i < dist.Length0 && 0 <= j < dist.Length1 ==> IsLeast(h, ToHead, i, j, dist[i, j])
  {
    hide Sound, Triangle, NoNegativeCycle, IsLeast;
    var n := dist.Length0;
    ShowTriangle(Values(dist), n, 0);
    for k := 0 to n
      invariant Sound(h, Values(dist), n) && Triangle(Values(dist), n, k)
    {
      ghost var m := Values(dist);
      SoundIsSquare(h, m, n);
      for i := 0 to n
        invariant forall x, y :: 0 <= x < i && 0 <= y < n ==> dist[x, y] == Over(m, n, k, x, y)
        invariant forall x, y :: i <= x < n && 0 <= y < n ==> dist[x, y] == m[x][y]
      {
        ghost var m1 := Values(dist);
        assert forall y :: 0 <= y < n ==> m1[k][y] == m[k][y];
        RelaxRow(dist, k, i);
        assert forall y :: 0 <= y < n ==> Over(m1, n, k, i, y) == Over(m, n, k, i, y);
      }
      assert Improved(m, Values(dist), n, k);
      RoundIsSound(h, m, Values(dist), n, k);
      RoundKeepsTriangle(h, m, Values(dist), n, k);
    }
    RoundsAreLeast(h, Values(dist), n);
  }

  method FloydWarshall(g: Adjacency<int>, dist: array2<Distance>)
    requires g.Valid() && g.direction == ToHead && NoNegativeCycle(g.h)
    requires dist.Length0 == dist.Length1 == |g.lists|
    modifies dist
    ensures forall i, j :: 0 <= i < dist.Length0 && 0 <= j < dist.Length1 ==> IsLeast(g.h, ToHead, i, j, dist[i, j])
  {
    FloydWarshallInit(g, dist);
    FloydWarshallOverMatrix(g.h, dist);
  }

  /** Where a cycle has negative weight there is no least cost to fill in. */
  lemma NegativeCycleHasNoLeast(h: HG<int>, i: State, p: seq<nat>, c: Distance)
    requires Path(h, i, p, i) && Weight(h, p) < 0
    ensures !IsLeast(h, ToHead, i, i, c)
  {
    if IsLeast(h, ToHead, i, i, c) {
      var q :| Chain(h, ToHead, i, q, i) && Weight(h, q) == c.value;
      PathJoin(h, i, q, i, p, i);
      assert false;
    }
  }

  // ----- Both algorithms on a sorted graph -----

  lemma SortedHasNoCycle(g: Adjacency<int>)
    requires g.Valid() && g.direction == ToHead && Increasing(g)
    ensures NoNegativeCycle(g.h)
  {
    forall i, p | Path(g.h, i, p, i) ensures Weight(g.h, p) >= 0 {
      PathRises(g, i, p, i);
    }
  }

  lemma {:induction false} PathRises(g: Adjacency<int>, i: State, p: seq<nat>, j: State)
    requires g.Valid() && g.direction == ToHead && Increasing(g) && Path(g.h, i, p, j)
    ensures i + |p| <= j
    decreases |p|
  {
    if p != [] { PathRises(g, g.h.arcs[p[0]].head, p[1..], j); }
  }

  function WeightedArcs(g: Adjacency<int>): Adjacency<Distance> {
    Adjacency(Weighted(g.h), g.direction, g.lists)
  }

  /** Runs both algorithms. The first succeeds exactly when the graph is sorted; then the tables are equal,
      whatever the signs of the costs. */
  method BothOnSorted(g: Adjacency<int>) returns (ok: bool, sorted: array2<Distance>, cubic: array2<Distance>)
    requires OnceEach(g)
    ensures ok <==> Increasing(g)
    ensures fresh(sorted) && sorted.Length0 == sorted.Length1 == |g.lists|
    ensures fresh(cubic) && cubic.Length0 == cubic.Length1 == |g.lists|
    ensures ok ==> forall i, j :: 0 <= i < |g.lists| && 0 <= j < |g.lists| ==> sorted[i, j] == cubic[i, j]
    ensures ok ==> forall i, j :: 0 <= i < |g.lists| && 0 <= j < |g.lists| ==> IsLeast(g.h, ToHead, i, j, cubic[i, j])
  {
    hide IsPathSum, IsLeast, Lawful;
    sorted := new Distance[|g.lists|, |g.lists|]((_, _) => Infinite);
    cubic := new Distance[|g.lists|, |g.lists|]((_, _) => Infinite);
    MinPlusIsLawful();
    var a := new AllPairsSortedDag(WeightedArcs(g), MIN_PLUS, sorted);
    ok := a.Compute();
    if ok {
      SortedHasNoCycle(g);
      FloydWarshall(g, cubic);
      forall i, j | 0 <= i < |g.lists| && 0 <= j < |g.lists| ensures sorted[i, j] == cubic[i, j] {
        PathSumIsLeast(g.h, i, j, sorted[i, j]);
        LeastUnique(g.h, ToHead, i, j, sorted[i, j], cubic[i, j]);
      }
    }
  }
}
