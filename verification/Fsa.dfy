/** Unweighted acceptors whose states may have an "else" (rho) arc: what strings they accept, and
    the subset of states reached by a string. */
module Fsa {
  import opened Hypergraph

  datatype FsaArc = FsaArc(sym: Sym, head: State)

  datatype Fsa = Fsa(out: seq<seq<FsaArc>>, start: Option<State>, final: Option<State>) {

    ghost predicate Valid() {
      && (forall s, k :: 0 <= s < |out| && 0 <= k < |out[s]| ==> out[s][k].head < |out|)
      && (start.Some? ==> start.value < |out|)
    }

    ghost predicate NoSilentArcs(f: Flags) {
      forall s, k :: 0 <= s < |out| && 0 <= k < |out[s]| ==> !f.Silent(out[s][k].sym)
    }
  }

  /** Which of the special symbols the caller wants treated as letters. */
  datatype Flags = Flags(epsNormal: bool, rhoNormal: bool, phiNormal: bool, sigmaNormal: bool) {

    /** Arcs with this symbol read nothing. */
    predicate Silent(a: Sym) {
      a == EPSILON && !epsNormal
    }

    predicate RhoSpecial(a: Sym) {
      a == RHO && !rhoNormal
    }

    /** Symbols that determinization refuses to give a meaning to. */
    predicate Rejected(a: Sym) {
      (a == PHI && !phiNormal) || (a == SIGMA && !sigmaNormal)
    }

    /** Symbols that strings are made of. */
    predicate Letter(a: Sym) {
      !Silent(a) && !RhoSpecial(a) && !Rejected(a)
    }
  }

  predicate Names(arcs: seq<FsaArc>, a: Sym) {
    exists k :: 0 <= k < |arcs| && arcs[k].sym == a
  }

  /** Arc `e`, one of `arcs`, reads `a`: by name, or as rho when no arc of the state names `a`. */
  predicate Reads(f: Flags, arcs: seq<FsaArc>, e: FsaArc, a: Sym) {
    e.sym == a || (f.RhoSpecial(e.sym) && !Names(arcs, a))
  }

  /** `path` spells `w` from `s` to `t`; epsilon arcs are silent unless epsilon is a letter. */
  ghost predicate Spells(m: Fsa, f: Flags, s: State, w: seq<Sym>, path: seq<FsaArc>, t: State)
    decreases |path|
  {
    if path == [] then w == [] && s == t
    else
      && s < |m.out| && path[0] in m.out[s]
      && (|| (f.Silent(path[0].sym) && Spells(m, f, path[0].head, w, path[1..], t))
          || (w != [] && Reads(f, m.out[s], path[0], w[0]) && Spells(m, f, path[0].head, w[1..], path[1..], t)))
  }

  ghost predicate Accepts(m: Fsa, f: Flags, w: seq<Sym>) {
    m.start.Some? && m.final.Some? && exists path :: Spells(m, f, m.start.value, w, path, m.final.value)
  }

  ghost predicate Word(f: Flags, w: seq<Sym>) {
    forall k :: 0 <= k < |w| ==> f.Letter(w[k])
  }

  ghost predicate CanMove(m: Fsa, f: Flags, qs: set<State>, a: Sym, t: State) {
    exists s, k :: s in qs && Hop(m, f, s, k, a, t)
  }

  /** The `k`th arc of `s` reads `a` and leads to `t`. */
  ghost predicate Hop(m: Fsa, f: Flags, s: State, k: int, a: Sym, t: State) {
    s < |m.out| && 0 <= k < |m.out[s]| && Reads(f, m.out[s], m.out[s][k], a) && m.out[s][k].head == t
  }

  /** The states one reading of `a` away from the members of `qs`. */
  ghost function Move(m: Fsa, f: Flags, qs: set<State>, a: Sym): set<State>
    requires m.Valid()
  {
    set t | 0 <= t < |m.out| && CanMove(m, f, qs, a, t)
  }

  ghost function MoveAll(m: Fsa, f: Flags, qs: set<State>, w: seq<Sym>): set<State>
    requires m.Valid()
    decreases w
  {
    if w == [] then qs else MoveAll(m, f, Move(m, f, qs, w[0]), w[1..])
  }

  /** Without silent arcs, a path's end is among the states reached by following all at once. */
  lemma {:induction false} SpelledIsReached(m: Fsa, f: Flags, qs: set<State>, w: seq<Sym>, s: State, path: seq<FsaArc>,
                                            t: State)
    requires m.Valid() && m.NoSilentArcs(f) && s in qs && Spells(m, f, s, w, path, t)
    ensures t in MoveAll(m, f, qs, w)
    decreases |path|
  {
    if path != [] {
      var k :| 0 <= k < |m.out[s]| && m.out[s][k] == path[0];
      assert !f.Silent(m.out[s][k].sym);
      assert Hop(m, f, s, k, w[0], path[0].head);
      SpelledIsReached(m, f, Move(m, f, qs, w[0]), w[1..], path[0].head, path[1..], t);
    }
  }

  lemma {:induction false} ReachedIsSpelled(m: Fsa, f: Flags, qs: set<State>, w: seq<Sym>, t: State)
    returns (s: State, path: seq<FsaArc>)
    requires m.Valid() && t in MoveAll(m, f, qs, w)
    ensures s in qs && Spells(m, f, s, w, path, t)
    decreases w
  {
    if w == [] {
      s, path := t, [];
    } else {
      var r, rest := ReachedIsSpelled(m, f, Move(m, f, qs, w[0]), w[1..], t);
      var s', k :| s' in qs && Hop(m, f, s', k, w[0], r);
      s, path := s', [m.out[s'][k]] + rest;
      assert path[1..] == rest;
    }
  }

  lemma AcceptsIffReached(m: Fsa, f: Flags, w: seq<Sym>)
    requires m.Valid() && m.NoSilentArcs(f) && m.start.Some?
    ensures Accepts(m, f, w) <==> m.final.Some? && m.final.value in MoveAll(m, f, {m.start.value}, w)
  {
    if m.final.Some? {
      if m.final.value in MoveAll(m, f, {m.start.value}, w) {
        var s, path := ReachedIsSpelled(m, f, {m.start.value}, w, m.final.value);
      }
      forall path | Spells(m, f, m.start.value, w, path, m.final.value)
        ensures m.final.value in MoveAll(m, f, {m.start.value}, w)
      {
        SpelledIsReached(m, f, {m.start.value}, w, m.start.value, path, m.final.value);
      }
    }
  }

  ghost function Subsets(qs: set<State>): set<set<State>> {
    set s | s <= qs
  }

  function Pow2(n: nat): nat {
    if n == 0 then 1 else 2 * Pow2(n - 1)
  }

  lemma NoSubsets()
    ensures |Subsets({})| == 1
  {
    var none: set<State> := {};
    forall s | s in Subsets(none) ensures s == none {
    }
    assert none in Subsets(none);
    assert Subsets(none) == {none};
  }

  lemma {:induction false} SubsetsCount(qs: set<State>)
    ensures |Subsets(qs)| == Pow2(|qs|)
    decreases qs
  {
    hide Subsets, AddToEach;
    if qs == {} {
      NoSubsets();
    } else {
      var x :| x in qs;
      SubsetsCount(qs - {x});
      SubsetsSplit(qs, x);
      SameSize(Subsets(qs - {x}), x);
    }
  }

  ghost function AddToEach(ss: set<set<State>>, x: State): set<set<State>> {
    set s | s in ss :: s + {x}
  }

  lemma SubsetsSplit(qs: set<State>, x: State)
    requires x in qs
    ensures Subsets(qs) == Subsets(qs - {x}) + AddToEach(Subsets(qs - {x}), x)
    ensures Subsets(qs - {x}) !! AddToEach(Subsets(qs - {x}), x)
    ensures forall s :: s in Subsets(qs - {x}) ==> x !in s
  {
    forall s | s in Subsets(qs) ensures s in Subsets(qs - {x}) + AddToEach(Subsets(qs - {x}), x) {
      if x in s {
        assert s == (s - {x}) + {x} && s - {x} in Subsets(qs - {x});
      }
    }
  }

  lemma {:induction false} SameSize(ss: set<set<State>>, x: State)
    requires forall s :: s in ss ==> x !in s
    ensures |AddToEach(ss, x)| == |ss|
    decreases ss
  {
    if ss != {} {
      var s :| s in ss;
      assert AddToEach(ss, x) == AddToEach(ss - {s}, x) + {s + {x}};
      forall r | r in ss - {s} ensures r + {x} != s + {x} {
        assert r == (r + {x}) - {x} && s == (s + {x}) - {x};
      }
      SameSize(ss - {s}, x);
    }
  }
}
