/** The finite-state side of composition: sorted out-arcs, and what it means for a path to read a
    string when sigma, phi and rho stand for "any symbol" and "any symbol not named here". */
module Transducer {
  import opened Hypergraph

  datatype FstArc = FstArc(input: Sym, head: State, weight: nat)

  datatype Fst = Fst(out: seq<seq<FstArc>>, start: State, final: Option<State>) {

    ghost predicate Valid() {
      && start < |out|
      && (forall s, k :: 0 <= s < |out| && 0 <= k < |out[s]| ==> out[s][k].head < |out|)
      && (forall s :: 0 <= s < |out| ==> Sorted(out[s]))
    }
  }

  ghost predicate Sorted(arcs: seq<FstArc>) {
    forall i, j :: 0 <= i < j < |arcs| ==> arcs[i].input <= arcs[j].input
  }

  datatype MatchOptions = MatchOptions(enablePhiRhoMatch: bool, sigmaPreventsPhiRhoMatch: bool)

  predicate Names(arcs: seq<FstArc>, a: Sym) {
    exists k :: 0 <= k < |arcs| && arcs[k].input == a
  }

  /** The "else" arcs of a state apply to `a`. */
  predicate Unmatched(o: MatchOptions, arcs: seq<FstArc>, a: Sym) {
    && o.enablePhiRhoMatch
    && !Names(arcs, a)
    && (o.sigmaPreventsPhiRhoMatch ==> !Names(arcs, SIGMA))
  }

  /** Arc `e`, one of `arcs`, reads symbol `a`. */
  predicate Consumes(o: MatchOptions, arcs: seq<FstArc>, e: FstArc, a: Sym) {
    && Ordinary(a)
    && (e.input == a || e.input == SIGMA || (e.input == RHO && Unmatched(o, arcs, a)))
  }

  /** Arc `e`, one of `arcs`, may be taken without reading when `next` is the symbol ahead. */
  predicate Skips(o: MatchOptions, arcs: seq<FstArc>, e: FstArc, next: Option<Sym>) {
    || e.input == EPSILON
    || (e.input == PHI && next.Some? && Ordinary(next.value) && Unmatched(o, arcs, next.value))
  }

  function Ahead(ys: seq<Sym>, la: Option<Sym>): Option<Sym> {
    if ys == [] then la else Some(ys[0])
  }

  /** `path` reads exactly `ys` on its way from `s` to `t`; `la` is the symbol known to follow. */
  ghost predicate Run(f: Fst, o: MatchOptions, s: State, ys: seq<Sym>, la: Option<Sym>, path: seq<FstArc>, t: State)
    decreases |path|
  {
    if path == [] then ys == [] && s == t && s < |f.out|
    else
      && s < |f.out| && path[0] in f.out[s]
      && (|| (Skips(o, f.out[s], path[0], Ahead(ys, la)) && Run(f, o, path[0].head, ys, la, path[1..], t))
          || (ys != [] && Consumes(o, f.out[s], path[0], ys[0])
              && Run(f, o, path[0].head, ys[1..], la, path[1..], t)))
  }

  ghost function PathCost(path: seq<FstArc>): nat {
    if path == [] then 0 else path[0].weight + PathCost(path[1..])
  }

  lemma {:induction false} PathCostAppend(p: seq<FstArc>, q: seq<FstArc>)
    ensures PathCost(p + q) == PathCost(p) + PathCost(q)
  {
    if p == [] {
      assert p + q == q;
    } else {
      assert (p + q)[1..] == p[1..] + q;
      PathCostAppend(p[1..], q);
    }
  }

  /** Two runs meet: the first must not have relied on a symbol to come. */
  lemma {:induction false} RunJoin(f: Fst, o: MatchOptions, s: State, y: seq<Sym>, p: seq<FstArc>, m: State,
                                   z: seq<Sym>, la: Option<Sym>, q: seq<FstArc>, t: State)
    requires Run(f, o, s, y, None, p, m) && Run(f, o, m, z, la, q, t)
    ensures Run(f, o, s, y + z, la, p + q, t)
    decreases |p|
  {
    if p == [] {
      assert y + z == z && p + q == q;
    } else {
      assert (p + q)[1..] == p[1..] + q;
      if Skips(o, f.out[s], p[0], Ahead(y, None)) && Run(f, o, p[0].head, y, None, p[1..], m) {
        RunJoin(f, o, p[0].head, y, p[1..], m, z, la, q, t);
      } else {
        RunJoin(f, o, p[0].head, y[1..], p[1..], m, z, la, q, t);
        assert (y + z)[1..] == y[1..] + z;
      }
    }
  }

  /** One more arc at the end, taken without reading. */
  lemma {:induction false} RunSkip(f: Fst, o: MatchOptions, s: State, y: seq<Sym>, la: Option<Sym>, p: seq<FstArc>,
                                   m: State, e: FstArc)
    requires Run(f, o, s, y, la, p, m) && m < |f.out| && e in f.out[m] && Skips(o, f.out[m], e, la) && e.head < |f.out|
    ensures Run(f, o, s, y, la, p + [e], e.head)
    decreases |p|
  {
    if p == [] {
      assert (p + [e])[1..] == [];
      assert Run(f, o, e.head, y, la, [], e.head);
    } else {
      assert (p + [e])[1..] == p[1..] + [e];
      if Skips(o, f.out[s], p[0], Ahead(y, la)) && Run(f, o, p[0].head, y, la, p[1..], m) {
        RunSkip(f, o, p[0].head, y, la, p[1..], m, e);
      } else {
        RunSkip(f, o, p[0].head, y[1..], la, p[1..], m, e);
      }
    }
  }

  /** One more arc at the end, reading the symbol that was ahead. */
  lemma {:induction false} RunConsume(f: Fst, o: MatchOptions, s: State, y: seq<Sym>, p: seq<FstArc>, m: State,
                                      e: FstArc, a: Sym)
    requires Run(f, o, s, y, Some(a), p, m) && m < |f.out| && e in f.out[m] && Consumes(o, f.out[m], e, a)
    requires e.head < |f.out|
    ensures Run(f, o, s, y + [a], None, p + [e], e.head)
    decreases |p|
  {
    if p == [] {
      assert (p + [e])[1..] == [] && (y + [a])[1..] == [];
      assert Run(f, o, e.head, [], None, [], e.head);
    } else {
      assert (p + [e])[1..] == p[1..] + [e];
      if Skips(o, f.out[s], p[0], Ahead(y, Some(a))) && Run(f, o, p[0].head, y, Some(a), p[1..], m) {
        RunConsume(f, o, p[0].head, y, p[1..], m, e, a);
      } else {
        RunConsume(f, o, p[0].head, y[1..], p[1..], m, e, a);
        assert (y + [a])[1..] == y[1..] + [a];
      }
    }
  }

  lemma RunWeaken(f: Fst, o: MatchOptions, s: State, y: seq<Sym>, p: seq<FstArc>, m: State, la: Option<Sym>)
    requires Run(f, o, s, y, None, p, m)
    ensures Run(f, o, s, y, la, p, m)
  {
    RunEndsInside(f, o, s, y, None, p, m);
    RunJoin(f, o, s, y, p, m, [], la, [], m);
    assert y + [] == y && p + [] == p;
  }

  lemma {:induction false} RunEndsInside(f: Fst, o: MatchOptions, s: State, y: seq<Sym>, la: Option<Sym>,
                                         p: seq<FstArc>, m: State)
    requires Run(f, o, s, y, la, p, m)
    ensures s < |f.out| && m < |f.out|
    decreases |p|
  {
    if p != [] {
      if Run(f, o, p[0].head, y, la, p[1..], m) {
        RunEndsInside(f, o, p[0].head, y, la, p[1..], m);
      } else {
        RunEndsInside(f, o, p[0].head, y[1..], la, p[1..], m);
      }
    }
  }

  /** A run over `y + z` can be cut after `y` so that the second half does not begin with epsilon. */
  lemma {:induction false} RunSplit(f: Fst, o: MatchOptions, s: State, y: seq<Sym>, z: seq<Sym>, path: seq<FstArc>,
                                    t: State)
    returns (p: seq<FstArc>, m: State, q: seq<FstArc>)
    requires Run(f, o, s, y + z, None, path, t)
    ensures path == p + q && Run(f, o, s, y, None, p, m) && Run(f, o, m, z, None, q, t)
    ensures q == [] || q[0].input != EPSILON
    decreases |path|
  {
    if y == [] && (path == [] || path[0].input != EPSILON) {
      p, m, q := [], s, path;
      assert y + z == z;
    } else if path[0].input == EPSILON || Skips(o, f.out[s], path[0], Ahead(y + z, None)) {
      var p', m', q' := RunSplit(f, o, path[0].head, y, z, path[1..], t);
      p, m, q := [path[0]] + p', m', q';
      assert p[1..] == p';
      assert Ahead(y + z, None) == Ahead(y, None) || path[0].input == EPSILON;
    } else {
      assert (y + z)[1..] == y[1..] + z;
      var p', m', q' := RunSplit(f, o, path[0].head, y[1..], z, path[1..], t);
      p, m, q := [path[0]] + p', m', q';
      assert p[1..] == p';
    }
  }
}
