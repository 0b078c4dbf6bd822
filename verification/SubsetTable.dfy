/** Subset construction for acceptors with "else" (rho) arcs. */
module SubsetTable {
  import opened Hypergraph
  import opened Fsa

  // ----- What the arcs of a subset state must be -----

  ghost predicate NamedIn(m: Fsa, f: Flags, qs: set<State>, a: Sym) {
    f.Letter(a) && exists s :: s in qs && s < |m.out| && Names(m.out[s], a)
  }

  ghost predicate ElseHop(m: Fsa, f: Flags, s: State, t: State) {
    s < |m.out| && exists k :: 0 <= k < |m.out[s]| && f.RhoSpecial(m.out[s][k].sym) && m.out[s][k].head == t
  }

  ghost predicate CanElse(m: Fsa, f: Flags, qs: set<State>, t: State) {
    exists s :: s in qs && ElseHop(m, f, s, t)
  }

  /** Where the "else" arcs of the members lead. */
  ghost function ElseMove(m: Fsa, f: Flags, qs: set<State>): set<State>
    requires m.Valid()
  {
    set t | 0 <= t < |m.out| && CanElse(m, f, qs, t)
  }

  lemma UnnamedMovesElse(m: Fsa, f: Flags, qs: set<State>, a: Sym)
    requires m.Valid() && f.Letter(a) && !NamedIn(m, f, qs, a)
    ensures Move(m, f, qs, a) == ElseMove(m, f, qs)
  {
    forall t | t in Move(m, f, qs, a) ensures t in ElseMove(m, f, qs) {
      var s, k :| s in qs && Hop(m, f, s, k, a, t);
      assert ElseHop(m, f, s, t);
    }
    forall t | t in ElseMove(m, f, qs) ensures t in Move(m, f, qs, a) {
      var s :| s in qs && ElseHop(m, f, s, t);
      var k :| 0 <= k < |m.out[s]| && f.RhoSpecial(m.out[s][k].sym) && m.out[s][k].head == t;
      assert Hop(m, f, s, k, a, t);
    }
  }

  ghost predicate Deterministic(arcs: seq<FsaArc>) {
    forall i, j :: 0 <= i < j < |arcs| ==> arcs[i].sym != arcs[j].sym
  }

  /** The output arc `e` of subset `qs` leads to the subset that its symbol leads to. */
  ghost predicate ArcRight(m: Fsa, f: Flags, explored: map<set<State>, State>, qs: set<State>, e: FsaArc)
    requires m.Valid()
  {
    if f.RhoSpecial(e.sym) then
      ElseMove(m, f, qs) != {} && ElseMove(m, f, qs) in explored && explored[ElseMove(m, f, qs)] == e.head
    else
      NamedIn(m, f, qs, e.sym) && Move(m, f, qs, e.sym) in explored && explored[Move(m, f, qs, e.sym)] == e.head
  }

  /** `arcs` are the finished output arcs of subset `qs`. */
  ghost predicate Expanded(m: Fsa, f: Flags, explored: map<set<State>, State>, qs: set<State>, arcs: seq<FsaArc>)
    requires m.Valid()
  {
    && Deterministic(arcs)
    && (forall k :: 0 <= k < |arcs| ==> ArcRight(m, f, explored, qs, arcs[k]))
    && (forall a :: NamedIn(m, f, qs, a) ==> Names(arcs, a))
    && (ElseMove(m, f, qs) != {} ==> Names(arcs, RHO))
  }

  ghost predicate Extends<K, V>(a: map<K, V>, b: map<K, V>) {
    forall k :: k in a ==> k in b && b[k] == a[k]
  }

  lemma ExpandedKept(m: Fsa, f: Flags, e0: map<set<State>, State>, e1: map<set<State>, State>, qs: set<State>,
                     arcs: seq<FsaArc>)
    requires m.Valid() && Expanded(m, f, e0, qs, arcs) && Extends(e0, e1)
    ensures Expanded(m, f, e1, qs, arcs)
  {
    forall k | 0 <= k < |arcs| ensures ArcRight(m, f, e1, qs, arcs[k]) {
      assert ArcRight(m, f, e0, qs, arcs[k]);
    }
  }

  // ----- The finished table accepts the same words -----

  /** Every subset state has its arcs; `subsets[q]` is what state `q` stands for. */
  ghost predicate Table(m: Fsa, f: Flags, explored: map<set<State>, State>, subsets: seq<set<State>>,
                        out: seq<seq<FsaArc>>) {
    && m.Valid() && m.NoSilentArcs(f)
    && |out| == |subsets|
    && (forall q :: 0 <= q < |subsets| ==> subsets[q] in explored && explored[subsets[q]] == q)
    && (forall qs :: qs in explored ==> explored[qs] < |subsets| && subsets[explored[qs]] == qs)
    && (forall q :: 0 <= q < |subsets| ==> Expanded(m, f, explored, subsets[q], out[q]))
  }

  ghost predicate IsFinalSubset(m: Fsa, qs: set<State>) {
    m.final.Some? && m.final.value in qs
  }

  /** `r` is the table with its final states joined: none, one, or all through a new last state. */
  ghost predicate Joined(m: Fsa, f: Flags, subsets: seq<set<State>>, out: seq<seq<FsaArc>>, r: Fsa) {
    && |out| == |subsets| <= |r.out|
    && (forall q :: 0 <= q < |out| ==> r.out[q] == out[q] || r.out[q] == out[q] + [FsaArc(EPSILON, |out|)])
    && (|| (r.final == None && r.out == out && forall q :: 0 <= q < |out| ==> !IsFinalSubset(m, subsets[q]))
        || (r.final.Some? && r.final.value < |out| && r.out == out
            && forall q :: 0 <= q < |out| ==> (IsFinalSubset(m, subsets[q]) <==> q == r.final.value))
        || (r.final == Some(|out|) && |r.out| == |out| + 1 && r.out[|out|] == []
            && forall q :: 0 <= q < |out| ==>
                 (IsFinalSubset(m, subsets[q]) <==> r.out[q] == out[q] + [FsaArc(EPSILON, |out|)])))
  }

  /** The arcs that join the final states are silent, or there are none. */
  ghost predicate JoinsSilently(f: Flags, out: seq<seq<FsaArc>>, r: Fsa) {
    f.epsNormal ==> r.out == out
  }

  /** An output arc that reads `a` leads to the subset that `a` leads to. */
  lemma StepRight(m: Fsa, f: Flags, explored: map<set<State>, State>, subsets: seq<set<State>>, out: seq<seq<FsaArc>>,
                  r: Fsa, q: State, e: FsaArc, a: Sym)
    requires Table(m, f, explored, subsets, out) && Joined(m, f, subsets, out, r)
    requires q < |out| && e in r.out[q] && f.Letter(a) && Reads(f, r.out[q], e, a) && (f.epsNormal ==> e in out[q])
    ensures e.head < |subsets| && subsets[e.head] == Move(m, f, subsets[q], a)
  {
    assert e in out[q];
    var k :| 0 <= k < |out[q]| && out[q][k] == e;
    assert ArcRight(m, f, explored, subsets[q], out[q][k]);
    if e.sym != a {
      assert !Names(out[q], a) by {
        forall j | 0 <= j < |out[q]| ensures out[q][j].sym != a { assert r.out[q][j] == out[q][j]; }
      }
      UnnamedMovesElse(m, f, subsets[q], a);
    }
  }

  lemma {:induction false} OutputIsInput(m: Fsa, f: Flags, explored: map<set<State>, State>, subsets: seq<set<State>>,
                                         out: seq<seq<FsaArc>>, r: Fsa, q: State, w: seq<Sym>, path: seq<FsaArc>,
                                           t: State)
    requires Table(m, f, explored, subsets, out) && Joined(m, f, subsets, out, r)
    requires JoinsSilently(f, out, r) && q < |out| && Word(f, w) && Spells(r, f, q, w, path, t)
    ensures t < |out| ==> subsets[t] == MoveAll(m, f, subsets[q], w)
    ensures t >= |out| ==> r.final == Some(t) && IsFinalSubset(m, MoveAll(m, f, subsets[q], w))
    decreases |path|
  {
    if path != [] {
      var e := path[0];
      if f.Silent(e.sym) && Spells(r, f, e.head, w, path[1..], t) {
        assert e == FsaArc(EPSILON, |out|);
      } else {
        StepRight(m, f, explored, subsets, out, r, q, e, w[0]);
        OutputIsInput(m, f, explored, subsets, out, r, e.head, w[1..], path[1..], t);
      }
    }
  }

  /** A letter that leads anywhere is read by an arc of the subset state. */
  lemma ReadingArc(m: Fsa, f: Flags, explored: map<set<State>, State>, subsets: seq<set<State>>, out: seq<seq<FsaArc>>,
                   r: Fsa, q: State, a: Sym) returns (e: FsaArc)
    requires Table(m, f, explored, subsets, out) && Joined(m, f, subsets, out, r)
    requires JoinsSilently(f, out, r) && q < |out| && f.Letter(a) && Move(m, f, subsets[q], a) != {}
    ensures q < |r.out| && e in r.out[q] && Reads(f, r.out[q], e, a)
  {
    var qs := subsets[q];
    var k: nat;
    if NamedIn(m, f, qs, a) {
      k :| 0 <= k < |out[q]| && out[q][k].sym == a;
    } else {
      UnnamedMovesElse(m, f, qs, a);
      k :| 0 <= k < |out[q]| && out[q][k].sym == RHO;
      forall j | 0 <= j < |r.out[q]| ensures r.out[q][j].sym != a {
        if j < |out[q]| { assert ArcRight(m, f, explored, qs, out[q][j]); }
      }
    }
    e := out[q][k];
    assert r.out[q][k] == e;
  }

  lemma {:induction false} InputIsOutput(m: Fsa, f: Flags, explored: map<set<State>, State>, subsets: seq<set<State>>,
                                         out: seq<seq<FsaArc>>, r: Fsa, q: State, w: seq<Sym>)
    returns (path: seq<FsaArc>, t: State)
    requires Table(m, f, explored, subsets, out) && Joined(m, f, subsets, out, r)
    requires JoinsSilently(f, out, r) && q < |out| == |subsets| && Word(f, w) && MoveAll(m, f, subsets[q], w) != {}
    ensures t < |out| && subsets[t] == MoveAll(m, f, subsets[q], w) && Spells(r, f, q, w, path, t)
    decreases w
  {
    if w == [] {
      path, t := [], q;
    } else {
      var qs, a := subsets[q], w[0];
      MoveAllOfNone(m, f, w[1..]);
      var e := ReadingArc(m, f, explored, subsets, out, r, q, a);
      hide Table, Joined;
      StepRight(m, f, explored, subsets, out, r, q, e, a);
      var rest;
      rest, t := InputIsOutput(m, f, explored, subsets, out, r, e.head, w[1..]);
      path := [e] + rest;
      assert path[1..] == rest;
    }
  }

  lemma {:induction false} MoveAllOfNone(m: Fsa, f: Flags, w: seq<Sym>)
    requires m.Valid()
    ensures MoveAll(m, f, {}, w) == {}
    decreases w
  {
    if w != [] {
      assert Move(m, f, {}, w[0]) == {};
      MoveAllOfNone(m, f, w[1..]);
    }
  }

  /** The language is preserved, unless final states are joined by epsilon arcs that count as letters. */
  lemma SameLanguage(m: Fsa, f: Flags, explored: map<set<State>, State>, subsets: seq<set<State>>,
                     out: seq<seq<FsaArc>>, r: Fsa, w: seq<Sym>)
    requires Table(m, f, explored, subsets, out) && Joined(m, f, subsets, out, r)
    requires m.start.Some? && {m.start.value} in explored && r.start == Some(explored[{m.start.value}])
    requires JoinsSilently(f, out, r) && Word(f, w)
    ensures Accepts(r, f, w) <==> Accepts(m, f, w)
  {
    var qs, q := {m.start.value}, r.start.value;
    AcceptsIffReached(m, f, w);
    if Accepts(r, f, w) {
      var path :| Spells(r, f, q, w, path, r.final.value);
      OutputIsInput(m, f, explored, subsets, out, r, q, w, path, r.final.value);
    }
    if IsFinalSubset(m, MoveAll(m, f, qs, w)) {
      var path, t := InputIsOutput(m, f, explored, subsets, out, r, q, w);
      if r.final.value == |out| {
        SpellsEpsilon(r, f, q, w, path, t, FsaArc(EPSILON, |out|));
      }
      assert Accepts(r, f, w);
    }
  }

  // ----- Final states joined by a letter -----

  lemma {:induction false} EndsInLetter(m: Fsa, f: Flags, explored: map<set<State>, State>, subsets: seq<set<State>>,
                                        out: seq<seq<FsaArc>>, r: Fsa, q: State, w: seq<Sym>, path: seq<FsaArc>)
    requires Table(m, f, explored, subsets, out) && Joined(m, f, subsets, out, r) && f.epsNormal
    requires r.final == Some(|out|) && q < |out| && Word(f, w) && Spells(r, f, q, w, path, |out|)
    ensures w != [] && w[|w| - 1] == EPSILON && IsFinalSubset(m, MoveAll(m, f, subsets[q], w[..|w| - 1]))
    decreases |path|
  {
    var e := path[0];
    if e in out[q] {
      StepRight(m, f, explored, subsets, out, r, q, e, w[0]);
      EndsInLetter(m, f, explored, subsets, out, r, e.head, w[1..], path[1..]);
      assert w[1..][..|w| - 2] == w[..|w| - 1][1..];
    } else {
      assert e == FsaArc(EPSILON, |out|) && path[1..] == [];
    }
  }

  /** With epsilon as a letter, joined final states make every accepted word end in an epsilon too many. */
  lemma JoinedByLetter(m: Fsa, f: Flags, explored: map<set<State>, State>, subsets: seq<set<State>>,
                       out: seq<seq<FsaArc>>, r: Fsa, w: seq<Sym>)
    requires Table(m, f, explored, subsets, out) && Joined(m, f, subsets, out, r) && f.epsNormal
    requires m.start.Some? && {m.start.value} in explored && r.start == Some(explored[{m.start.value}])
    requires r.final == Some(|out|) && Word(f, w) && Accepts(r, f, w)
    ensures w != [] && w[|w| - 1] == EPSILON && Accepts(m, f, w[..|w| - 1])
  {
    var path :| Spells(r, f, r.start.value, w, path, r.final.value);
    EndsInLetter(m, f, explored, subsets, out, r, r.start.value, w, path);
    AcceptsIffReached(m, f, w[..|w| - 1]);
  }

  lemma {:induction false} SpellsEpsilon(r: Fsa, f: Flags, q: State, w: seq<Sym>, path: seq<FsaArc>, t: State,
                                         e: FsaArc)
    requires Spells(r, f, q, w, path, t) && t < |r.out| && e in r.out[t] && f.Silent(e.sym)
    ensures Spells(r, f, q, w, path + [e], e.head)
    decreases |path|
  {
    if path == [] {
      assert (path + [e])[1..] == [];
      assert Spells(r, f, e.head, w, [], e.head);
    } else {
      assert (path + [e])[1..] == path[1..] + [e];
      if f.Silent(path[0].sym) && Spells(r, f, path[0].head, w, path[1..], t) {
        SpellsEpsilon(r, f, path[0].head, w, path[1..], t, e);
      } else {
        SpellsEpsilon(r, f, path[0].head, w[1..], path[1..], t, e);
      }
    }
  }

  // ----- The subsets of the table are those that words reach -----

  ghost predicate ReachedBy(m: Fsa, f: Flags, qs: set<State>)
    requires m.Valid()
  {
    m.start.Some? && exists w :: Word(f, w) && MoveAll(m, f, {m.start.value}, w) == qs
  }

  ghost predicate AllReached(m: Fsa, f: Flags, explored: map<set<State>, State>)
    requires m.Valid()
  {
    forall qs :: qs in explored ==> ReachedBy(m, f, qs)
  }

  lemma StartReached(m: Fsa, f: Flags)
    requires m.Valid() && m.start.Some?
    ensures ReachedBy(m, f, {m.start.value})
  {
    assert Word(f, []) && MoveAll(m, f, {m.start.value}, []) == {m.start.value};
  }

  lemma {:induction false} MoveAllAppend(m: Fsa, f: Flags, qs: set<State>, w: seq<Sym>, a: Sym)
    requires m.Valid()
    ensures MoveAll(m, f, qs, w + [a]) == Move(m, f, MoveAll(m, f, qs, w), a)
    decreases w
  {
    if w == [] {
      assert (w + [a])[1..] == [];
    } else {
      assert (w + [a])[1..] == w[1..] + [a];
      MoveAllAppend(m, f, Move(m, f, qs, w[0]), w[1..], a);
    }
  }

  lemma MoveReached(m: Fsa, f: Flags, qs: set<State>, a: Sym)
    requires m.Valid() && ReachedBy(m, f, qs) && f.Letter(a)
    ensures ReachedBy(m, f, Move(m, f, qs, a))
  {
    var w :| Word(f, w) && MoveAll(m, f, {m.start.value}, w) == qs;
    MoveAllAppend(m, f, {m.start.value}, w, a);
    assert Word(f, w + [a]);
  }

  /** Some letter is named nowhere. */
  lemma FreshLetter(m: Fsa, f: Flags) returns (a: Sym)
    ensures f.Letter(a) && forall s :: 0 <= s < |m.out| ==> !Names(m.out[s], a)
  {
    a := RHO + 1;
    for s := 0 to |m.out|
      invariant RHO < a && forall r, k :: 0 <= r < s && 0 <= k < |m.out[r]| ==> m.out[r][k].sym < a
    {
      for j := 0 to |m.out[s]|
        invariant RHO < a && forall r, k :: 0 <= r < s && 0 <= k < |m.out[r]| ==> m.out[r][k].sym < a
        invariant forall k :: 0 <= k < j ==> m.out[s][k].sym < a
      {
        a := if m.out[s][j].sym < a then a else m.out[s][j].sym + 1;
      }
    }
  }

  /** By such a letter the "else" arcs are taken. */
  lemma ElseReached(m: Fsa, f: Flags, qs: set<State>)
    requires m.Valid() && ReachedBy(m, f, qs)
    ensures ReachedBy(m, f, ElseMove(m, f, qs))
  {
    var a := FreshLetter(m, f);
    UnnamedMovesElse(m, f, qs, a);
    MoveReached(m, f, qs, a);
  }

  /** Wherever a word leads, the table has a state for it. */
  lemma {:induction false} MoveAllTabled(m: Fsa, f: Flags, explored: map<set<State>, State>, subsets: seq<set<State>>,
                                         out: seq<seq<FsaArc>>, qs: set<State>, w: seq<Sym>)
    requires Table(m, f, explored, subsets, out) && qs in explored && Word(f, w) && MoveAll(m, f, qs, w) != {}
    ensures MoveAll(m, f, qs, w) in explored
    decreases w
  {
    if w != [] {
      MoveAllOfNone(m, f, w[1..]);
      MoveTabled(m, f, explored, subsets, out, qs, w[0]);
      hide Table;
      MoveAllTabled(m, f, explored, subsets, out, Move(m, f, qs, w[0]), w[1..]);
    }
  }

  lemma MoveTabled(m: Fsa, f: Flags, explored: map<set<State>, State>, subsets: seq<set<State>>,
                   out: seq<seq<FsaArc>>, qs: set<State>, a: Sym)
    requires Table(m, f, explored, subsets, out) && qs in explored && f.Letter(a) && Move(m, f, qs, a) != {}
    ensures Move(m, f, qs, a) in explored
  {
    var q := explored[qs];
    var k: nat;
    if NamedIn(m, f, qs, a) {
      k :| 0 <= k < |out[q]| && out[q][k].sym == a;
    } else {
      UnnamedMovesElse(m, f, qs, a);
      k :| 0 <= k < |out[q]| && out[q][k].sym == RHO;
    }
    assert ArcRight(m, f, explored, qs, out[q][k]);
  }
}
