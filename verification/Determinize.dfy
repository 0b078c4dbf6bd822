/** The worklist that builds the subset table. */
module Determinize {
  import opened Counting
  import opened Hypergraph
  import opened Fsa
  import opened LetterOptions
  import opened SubsetTable

  /** The arcs of one input state, sorted by kind. */
  datatype Outi = Outi(normals: set<Sym>, arcs: seq<FsaArc>, qrhos: seq<State>)

  /** A set of states on the heap, which grows while the arcs of a subset are gathered. */
  class QSet {
    var qs: set<State>

    constructor (qs: set<State>)
      ensures this.qs == qs
    {
      this.qs := qs;
    }
  }

  datatype QueuedSet = QueuedSet(qs: QSet, q: State)

  /** What stands in the agenda. */
  datatype ToDo = ToDo(qs: set<State>, q: State)

  ghost predicate OutiOf(f: Flags, out: seq<FsaArc>, p: Outi) {
    && (forall a :: a in p.normals <==> f.Letter(a) && Names(out, a))
    && (forall e :: e in p.arcs <==> e in out && f.Letter(e.sym))
    && (forall t :: t in p.qrhos <==> exists k :: 0 <= k < |out| && f.RhoSpecial(out[k].sym) && out[k].head == t)
  }

  /** Where the arcs of `qs` that name `a` lead. */
  ghost predicate NamedHop(m: Fsa, qs: set<State>, a: Sym, t: State) {
    exists s :: s in qs && s < |m.out| && FsaArc(a, t) in m.out[s]
  }

  ghost predicate Gathered(m: Fsa, f: Flags, qs: set<State>, d: map<Sym, set<State>>, qrho: set<State>,
                           qallrho: set<State>)
    requires m.Valid()
  {
    && (forall a :: a in d <==> NamedIn(m, f, qs, a))
    && (forall a, t :: a in d ==> (t in d[a] <==> NamedHop(m, qs, a, t)))
    && (forall s :: s in qrho <==> s in qs && s < |m.out| && Names(m.out[s], RHO) && f.RhoSpecial(RHO))
    && qallrho == ElseMove(m, f, qs)
  }

  /** `explored` and `subsets` are inverse to each other; the final list is what it says. */
  ghost predicate NamedBy(i: Fsa, explored: map<set<State>, State>, qfinals: seq<State>, subsets: seq<set<State>>) {
    && i.Valid()
    && (forall q :: 0 <= q < |subsets| ==> subsets[q] in explored && explored[subsets[q]] == q)
    && (forall qs :: qs in explored ==> explored[qs] < |subsets| && subsets[explored[qs]] == qs)
    && (forall q, s :: 0 <= q < |subsets| && s in subsets[q] ==> s < |i.out|)
    && (forall k :: 0 <= k < |qfinals| ==> qfinals[k] < |subsets| && IsFinalSubset(i, subsets[qfinals[k]]))
    && (forall q :: 0 <= q < |subsets| && IsFinalSubset(i, subsets[q]) ==> q in qfinals)
    && (forall j, k :: 0 <= j < k < |qfinals| ==> qfinals[j] != qfinals[k])
  }

  /** Each state but those in `busy` is either finished, or empty and queued exactly once. */
  ghost predicate ScheduledBy(i: Fsa, f: Flags, explored: map<set<State>, State>, agenda: seq<ToDo>,
                              expanded: set<State>, out: seq<seq<FsaArc>>, subsets: seq<set<State>>, busy: set<State>)
    requires i.Valid() && |out| == |subsets|
  {
    && (forall q :: 0 <= q < |out| && q !in busy && q in expanded ==> Expanded(i, f, explored, subsets[q], out[q]))
    && (forall q :: 0 <= q < |out| && q !in busy && q !in expanded ==> out[q] == [] && ToDo(subsets[q], q) in agenda)
    && (forall k :: 0 <= k < |agenda| ==>
          agenda[k].q < |out| && agenda[k].q !in expanded && agenda[k].qs == subsets[agenda[k].q])
    && (forall j, k :: 0 <= j < k < |agenda| ==> agenda[j].q != agenda[k].q)
    && (forall q :: q in expanded ==> q < |out|)
  }

  lemma NamedAfterAdding(i: Fsa, explored: map<set<State>, State>, qfinals: seq<State>, subsets: seq<set<State>>,
                         qs: set<State>)
    requires NamedBy(i, explored, qfinals, subsets) && qs !in explored && (forall s :: s in qs ==> s < |i.out|)
    ensures var more := if IsFinalSubset(i, qs) then [|subsets|] else [];
            NamedBy(i, explored[qs := |subsets|], qfinals + more, subsets + [qs])
  {
  }

  lemma ScheduledAfterAdding(i: Fsa, f: Flags, explored: map<set<State>, State>, agenda: seq<ToDo>,
                             expanded: set<State>,
                             out: seq<seq<FsaArc>>, subsets: seq<set<State>>, busy: set<State>, qs: set<State>)
    requires i.Valid() && |out| == |subsets| && ScheduledBy(i, f, explored, agenda, expanded, out, subsets, busy)
    requires qs !in explored && |out| !in busy
    ensures ScheduledBy(i, f, explored[qs := |out|], agenda + [ToDo(qs, |out|)], expanded, out + [[]],
                        subsets + [qs], busy)
  {
    hide Expanded;
    forall q | 0 <= q < |out| && q !in busy && q in expanded
      ensures Expanded(i, f, explored[qs := |out|], (subsets + [qs])[q], (out + [[]])[q])
    {
      ExpandedKept(i, f, explored, explored[qs := |out|], subsets[q], out[q]);
    }
  }

  /** A state is taken up ... */
  lemma ScheduledTaken(i: Fsa, f: Flags, explored: map<set<State>, State>, agenda: seq<ToDo>, expanded: set<State>,
                       out: seq<seq<FsaArc>>, subsets: seq<set<State>>, q: State)
    requires i.Valid() && |out| == |subsets| && ScheduledBy(i, f, explored, agenda, expanded, out, subsets, {q})
    requires q < |out| && forall k :: 0 <= k < |agenda| ==> agenda[k].q != q
    ensures ScheduledBy(i, f, explored, agenda, expanded + {q}, out, subsets, {q})
  {
    hide Expanded;
  }

  /** ... and put aside when its arcs are complete. */
  lemma ScheduledDone(i: Fsa, f: Flags, explored: map<set<State>, State>, agenda: seq<ToDo>, expanded: set<State>,
                      out: seq<seq<FsaArc>>, subsets: seq<set<State>>, q: State)
    requires i.Valid() && |out| == |subsets| && ScheduledBy(i, f, explored, agenda, expanded, out, subsets, {q})
    requires q < |out| && q in expanded && Expanded(i, f, explored, subsets[q], out[q])
    ensures ScheduledBy(i, f, explored, agenda, expanded, out, subsets, {})
  {
    hide Expanded;
  }

  /** Sorts one more arc `e` of a state by kind. */
  method AddLetter(f: Flags, ghost before: seq<FsaArc>, e: FsaArc, l: Outi) returns (l': Outi, ok: bool)
    requires OutiOf(f, before, l)
    ensures ok <==> (e.sym == PHI ==> f.phiNormal) && (e.sym == SIGMA ==> f.sigmaNormal)
    ensures ok ==> OutiOf(f, before + [e], l')
  {
    ok, l' := true, l;
    ghost var after := before + [e];
    assert forall k :: 0 <= k < |before| ==> after[k] == before[k];
    assert after[|before|] == e;
    if f.RhoSpecial(e.sym) {
      l' := l.(qrhos := l.qrhos + [e.head]);
      forall t | t in l'.qrhos
        ensures exists k :: 0 <= k < |after| && f.RhoSpecial(after[k].sym) && after[k].head == t
      {
        if t in l.qrhos {
          var k :| 0 <= k < |before| && f.RhoSpecial(before[k].sym) && before[k].head == t;
          assert after[k] == before[k];
        }
      }
    } else if f.Silent(e.sym) {
      // Left to the closure of subsets.
    } else if f.Rejected(e.sym) {
      ok := false;
    } else {
      l' := l.(normals := l.normals + {e.sym}, arcs := l.arcs + [e]);
    }
    if ok {
      forall a ensures Names(after, a) <==> Names(before, a) || a == e.sym {
        if Names(before, a) {
          var k :| 0 <= k < |before| && before[k].sym == a;
          assert after[k].sym == a;
        }
      }
      forall t | t in l.qrhos ensures exists k :: 0 <= k < |after| && f.RhoSpecial(after[k].sym) && after[k].head == t {
        var k :| 0 <= k < |before| && f.RhoSpecial(before[k].sym) && before[k].head == t;
        assert after[k] == before[k];
      }
    }
  }

  /** Each letter has a set of its own. */
  ghost predicate DeltaOf(d: map<Sym, QSet>, v: map<Sym, set<State>>)
    reads d.Values
  {
    && d.Keys == v.Keys && (forall a :: a in d ==> d[a].qs == v[a])
    && forall a, b :: a in d && b in d && a != b ==> d[a] != d[b]
  }

  lemma NoDelta()
    ensures DeltaOf(map[], map[])
  {
  }

  ghost function WithTarget(v: map<Sym, set<State>>, a: Sym, t: State): map<Sym, set<State>> {
    v[a := (if a in v then v[a] else {}) + {t}]
  }

  /** Adds the letter arcs of one member to the table under construction, in place. */
  method AddNamed(arcs: seq<FsaArc>, d: map<Sym, QSet>, ghost v: map<Sym, set<State>>)
    returns (d': map<Sym, QSet>, ghost v': map<Sym, set<State>>)
    requires DeltaOf(d, v)
    modifies d.Values
    ensures DeltaOf(d', v') && forall a :: a in d' ==> d'[a] in d.Values || fresh(d'[a])
    ensures forall a :: a in v' <==> a in v || exists t :: FsaArc(a, t) in arcs
    ensures forall a, t :: a in v' ==> (t in v'[a] <==> (a in v && t in v[a]) || FsaArc(a, t) in arcs)
  {
    hide DeltaOf;
    d', v' := d, v;
    for k := 0 to |arcs|
      invariant DeltaOf(d', v') && forall a :: a in d' ==> d'[a] in d.Values || fresh(d'[a])
      invariant forall a :: a in v' <==> a in v || exists t :: FsaArc(a, t) in arcs[..k]
      invariant forall a, t :: a in v' ==> (t in v'[a] <==> (a in v && t in v[a]) || FsaArc(a, t) in arcs[..k])
    {
      var e := arcs[k];
      assert arcs[..k + 1] == arcs[..k] + [e];
      assert forall a, t :: FsaArc(a, t) in arcs[..k + 1] <==> FsaArc(a, t) in arcs[..k] || FsaArc(a, t) == e;
      d' := AddTo(d', v', e.sym, e.head);
      v' := WithTarget(v', e.sym, e.head);
    }
    assert arcs[..|arcs|] == arcs;
  }

  /** The set of letter `a`, a new one if need be, gets one more member. */
  method AddTo(d: map<Sym, QSet>, ghost v: map<Sym, set<State>>, a: Sym, t: State) returns (d': map<Sym, QSet>)
    requires DeltaOf(d, v)
    modifies d.Values
    ensures DeltaOf(d', WithTarget(v, a, t))
    ensures forall b :: b in d' ==> d'[b] in d.Values || fresh(d'[b])
  {
    d' := d;
    if a in d {
      d[a].qs := d[a].qs + {t};
    } else {
      var one := new QSet({t});
      d' := d[a := one];
    }
  }

  lemma GatheredMore(i: Fsa, f: Flags, done: set<State>, d: map<Sym, set<State>>, qrho: set<State>, qallrho: set<State>,
                     s: State, p: Outi, d': map<Sym, set<State>>, qrho': set<State>, qallrho': set<State>)
    requires i.Valid() && Gathered(i, f, done, d, qrho, qallrho) && s < |i.out| && OutiOf(f, i.out[s], p)
    requires forall a :: a in d' <==> a in d || exists t :: FsaArc(a, t) in p.arcs
    requires forall a, t :: a in d' ==> (t in d'[a] <==> (a in d && t in d[a]) || FsaArc(a, t) in p.arcs)
    requires qrho' == if p.qrhos != [] then qrho + {s} else qrho
    requires qallrho' == qallrho + (set t | t in p.qrhos)
    ensures Gathered(i, f, done + {s}, d', qrho', qallrho')
  {
    hide OutiOf, NamedIn, NamedHop, ElseMove, Names;
    var qs := done + {s};
    forall a ensures a in d' <==> NamedIn(i, f, qs, a) {
      NamedMore(i, f, done, s, p, a);
    }
    forall a, t | a in d' ensures t in d'[a] <==> NamedHop(i, qs, a, t) {
      NamedMore(i, f, done, s, p, a);
      HopMore(i, f, done, s, a, t);
      NamedIsLetter(i, f, qs, a);
      assert a !in d ==> !NamedHop(i, done, a, t) by { HopIsNamed(i, f, done, a, t); }
    }
    ElseMoveMore(i, f, done, s, p);
    HasElse(i, f, s, p);
  }

  lemma NamedIsLetter(m: Fsa, f: Flags, qs: set<State>, a: Sym)
    requires NamedIn(m, f, qs, a)
    ensures f.Letter(a)
  {
  }

  lemma HopMore(i: Fsa, f: Flags, done: set<State>, s: State, a: Sym, t: State)
    requires s < |i.out|
    ensures NamedHop(i, done + {s}, a, t) <==> NamedHop(i, done, a, t) || FsaArc(a, t) in i.out[s]
  {
  }

  lemma HopIsNamed(i: Fsa, f: Flags, qs: set<State>, a: Sym, t: State)
    requires f.Letter(a)
    ensures NamedHop(i, qs, a, t) ==> NamedIn(i, f, qs, a)
  {
    if s :| s in qs && s < |i.out| && FsaArc(a, t) in i.out[s] {
      var k :| 0 <= k < |i.out[s]| && i.out[s][k] == FsaArc(a, t);
      assert Names(i.out[s], a);
    }
  }

  lemma NamedMore(i: Fsa, f: Flags, done: set<State>, s: State, p: Outi, a: Sym)
    requires s < |i.out| && OutiOf(f, i.out[s], p)
    ensures NamedIn(i, f, done + {s}, a) <==> NamedIn(i, f, done, a) || exists t :: FsaArc(a, t) in p.arcs
    ensures f.Letter(a) ==> forall t :: FsaArc(a, t) in i.out[s] <==> FsaArc(a, t) in p.arcs
  {
    if t :| FsaArc(a, t) in p.arcs {
      var k :| 0 <= k < |i.out[s]| && i.out[s][k] == FsaArc(a, t);
      assert Names(i.out[s], a);
    }
    if f.Letter(a) && Names(i.out[s], a) {
      var k :| 0 <= k < |i.out[s]| && i.out[s][k].sym == a;
      assert FsaArc(a, i.out[s][k].head) in p.arcs;
    }
  }

  lemma HasElse(i: Fsa, f: Flags, s: State, p: Outi)
    requires s < |i.out| && OutiOf(f, i.out[s], p)
    ensures p.qrhos != [] <==> Names(i.out[s], RHO) && f.RhoSpecial(RHO)
  {
    if p.qrhos != [] {
      assert p.qrhos[0] in p.qrhos;
    }
    if Names(i.out[s], RHO) && f.RhoSpecial(RHO) {
      var k :| 0 <= k < |i.out[s]| && i.out[s][k].sym == RHO;
      assert i.out[s][k].head in p.qrhos;
    }
  }

  lemma GatheredNothing(i: Fsa, f: Flags)
    requires i.Valid()
    ensures Gathered(i, f, {}, map[], {}, {})
  {
  }

  lemma ElseMoveMore(i: Fsa, f: Flags, done: set<State>, s: State, p: Outi)
    requires i.Valid() && s < |i.out| && OutiOf(f, i.out[s], p)
    ensures ElseMove(i, f, done + {s}) == ElseMove(i, f, done) + (set t | t in p.qrhos)
  {
    forall t ensures ElseHop(i, f, s, t) <==> t in p.qrhos {
    }
    forall t | t in ElseMove(i, f, done + {s}) ensures t in ElseMove(i, f, done) + (set t | t in p.qrhos) {
      var r :| r in done + {s} && ElseHop(i, f, r, t);
    }
    forall t | t in p.qrhos ensures t in ElseMove(i, f, done + {s}) {
      assert ElseHop(i, f, s, t);
    }
    forall t | t in ElseMove(i, f, done) ensures t in ElseMove(i, f, done + {s}) {
      var r :| r in done && ElseHop(i, f, r, t);
      assert r in done + {s};
    }
  }

  /** With no accepting subset the input accepts nothing, and the cleared output says so. */
  lemma ResultEmpty(m: Fsa, f: Flags, explored: map<set<State>, State>, subsets: seq<set<State>>, out: seq<seq<FsaArc>>)
    requires Table(m, f, explored, subsets, out) && m.start.Some? && {m.start.value} in explored
    requires forall q :: 0 <= q < |subsets| ==> !IsFinalSubset(m, subsets[q])
    ensures IsDeterminization(m, f, Fsa([], None, None))
  {
    forall w | Word(f, w) ensures !Accepts(m, f, w) {
      SameLanguage(m, f, explored, subsets, out, Fsa(out, Some(explored[{m.start.value}]), None), w);
    }
  }

  /** The arcs of `qs` so far: its "else" arc if any, and those of the letters in `done`. */
  ghost predicate Partial(m: Fsa, f: Flags, explored: map<set<State>, State>, qs: set<State>, arcs: seq<FsaArc>,
                          done: set<Sym>)
    requires m.Valid()
  {
    && Deterministic(arcs)
    && (forall k :: 0 <= k < |arcs| ==> ArcRight(m, f, explored, qs, arcs[k]))
    && (forall a :: a in done ==> Names(arcs, a))
    && (forall k :: 0 <= k < |arcs| ==> arcs[k].sym in done || f.RhoSpecial(arcs[k].sym))
    && (ElseMove(m, f, qs) != {} ==> Names(arcs, RHO))
  }

  lemma PartialMore(m: Fsa, f: Flags, e0: map<set<State>, State>, e1: map<set<State>, State>, qs: set<State>,
                    arcs: seq<FsaArc>, done: set<Sym>, e: FsaArc)
    requires m.Valid() && Partial(m, f, e0, qs, arcs, done) && Extends(e0, e1)
    requires e.sym !in done && !f.RhoSpecial(e.sym) && ArcRight(m, f, e1, qs, e)
    ensures Partial(m, f, e1, qs, arcs + [e], done + {e.sym})
  {
    var arcs' := arcs + [e];
    forall k | 0 <= k < |arcs'| ensures ArcRight(m, f, e1, qs, arcs'[k]) {
      if k < |arcs| { assert ArcRight(m, f, e0, qs, arcs[k]); }
    }
    forall a | Names(arcs, a) || a == e.sym ensures Names(arcs', a) {
      if Names(arcs, a) {
        var k :| 0 <= k < |arcs| && arcs[k].sym == a;
        assert arcs'[k].sym == a;
      } else {
        assert arcs'[|arcs|].sym == a;
      }
    }
  }

  lemma PartialElse(m: Fsa, f: Flags, explored: map<set<State>, State>, qs: set<State>, arcs: seq<FsaArc>)
    requires m.Valid()
    requires if ElseMove(m, f, qs) == {} then arcs == []
             else |arcs| == 1 && arcs[0].sym == RHO && f.RhoSpecial(RHO) && ArcRight(m, f, explored, qs, arcs[0])
    ensures Partial(m, f, explored, qs, arcs, {})
  {
  }

  lemma PartialAll(m: Fsa, f: Flags, explored: map<set<State>, State>, qs: set<State>, arcs: seq<FsaArc>,
                   done: set<Sym>)
    requires m.Valid() && Partial(m, f, explored, qs, arcs, done)
    requires forall a :: NamedIn(m, f, qs, a) ==> a in done
    ensures Expanded(m, f, explored, qs, arcs)
  {
  }

  lemma GatheredElse(m: Fsa, f: Flags, qs: set<State>, d: map<Sym, set<State>>, qrho: set<State>, qallrho: set<State>)
    requires m.Valid() && Gathered(m, f, qs, d, qrho, qallrho) && (forall s :: s in qs ==> s < |m.out|)
    ensures qrho != {} <==> ElseMove(m, f, qs) != {}
    ensures qallrho == ElseMove(m, f, qs) && forall t :: t in qallrho ==> t < |m.out|
  {
    if s :| s in qrho {
      var k :| 0 <= k < |m.out[s]| && m.out[s][k].sym == RHO;
      assert ElseHop(m, f, s, m.out[s][k].head);
      assert m.out[s][k].head in ElseMove(m, f, qs);
    }
    if t :| t in ElseMove(m, f, qs) {
      var s :| s in qs && ElseHop(m, f, s, t);
      assert s in qrho;
    }
  }

  lemma LetterArcRight(m: Fsa, f: Flags, explored: map<set<State>, State>, qs: set<State>, d: map<Sym, set<State>>,
                       qrho: set<State>, qallrho: set<State>, a: Sym)
    requires m.Valid() && Gathered(m, f, qs, d, qrho, qallrho) && a in d && Move(m, f, qs, a) in explored
    ensures !f.RhoSpecial(a) && ArcRight(m, f, explored, qs, FsaArc(a, explored[Move(m, f, qs, a)]))
  {
  }

  lemma GatheredLetter(m: Fsa, f: Flags, qs: set<State>, d: map<Sym, set<State>>, qrho: set<State>,
                       qallrho: set<State>, a: Sym)
    requires m.Valid() && Gathered(m, f, qs, d, qrho, qallrho) && a in d
    ensures f.Letter(a)
  {
  }

  lemma AllNamedGathered(m: Fsa, f: Flags, qs: set<State>, d: map<Sym, set<State>>, qrho: set<State>,
                         qallrho: set<State>)
    requires m.Valid() && Gathered(m, f, qs, d, qrho, qallrho)
    ensures forall a :: NamedIn(m, f, qs, a) ==> a in d
  {
  }

  lemma ResultRight(m: Fsa, f: Flags, explored: map<set<State>, State>, subsets: seq<set<State>>, out: seq<seq<FsaArc>>,
                    r: Fsa)
    requires Table(m, f, explored, subsets, out) && Joined(m, f, subsets, out, r) && |out| <= Pow2(|m.out|)
    requires |r.out| <= |out| + 1 && JoinsSilently(f, out, r)
    requires m.start.Some? && {m.start.value} in explored && r.start == Some(explored[{m.start.value}])
    ensures IsDeterminization(m, f, r)
  {
    forall w | Word(f, w) ensures Accepts(r, f, w) <==> Accepts(m, f, w) {
      SameLanguage(m, f, explored, subsets, out, r, w);
    }
    forall q | 0 <= q < |r.out| ensures Deterministic(r.out[q]) && EpsilonToLast(f, r, q) {
      if q < |out| {
        RowRight(f, out, r, q);
      }
    }
  }

  /** A silent epsilon leads only to a final state that was added last. */
  ghost predicate EpsilonToLast(f: Flags, r: Fsa, q: State)
    requires q < |r.out|
  {
    forall k :: 0 <= k < |r.out[q]| && f.Silent(r.out[q][k].sym) ==>
      r.final == Some(r.out[q][k].head) && r.out[q][k].head == |r.out| - 1 && r.out[|r.out| - 1] == []
  }

  lemma RowRight(f: Flags, out: seq<seq<FsaArc>>, r: Fsa, q: State)
    requires q < |out| <= |r.out| && Deterministic(out[q]) && JoinsSilently(f, out, r)
    requires forall k :: 0 <= k < |out[q]| ==> !f.Silent(out[q][k].sym)
    requires || r.out[q] == out[q]
             || (r.out[q] == out[q] + [FsaArc(EPSILON, |out|)] && r.final == Some(|out|) && |r.out| == |out| + 1
                 && r.out[|out|] == [])
    ensures Deterministic(r.out[q]) && EpsilonToLast(f, r, q)
  {
  }

  /** Epsilon counts as a letter and two words lead to different accepting subsets. */
  ghost predicate TwoEndings(m: Fsa, f: Flags)
    requires m.Valid() && m.start.Some?
  {
    && f.epsNormal
    && exists w, v ::
         Ending(m, f, w) && Ending(m, f, v) && MoveAll(m, f, {m.start.value}, w) != MoveAll(m, f, {m.start.value}, v)
  }

  ghost predicate Ending(m: Fsa, f: Flags, w: seq<Sym>) {
    Word(f, w) && Accepts(m, f, w)
  }

  /** Two accepting subsets are different endings ... */
  lemma TwoFinals(m: Fsa, f: Flags, explored: map<set<State>, State>, qfinals: seq<State>, subsets: seq<set<State>>)
    requires NamedBy(m, explored, qfinals, subsets) && AllReached(m, f, explored) && m.NoSilentArcs(f)
    requires m.start.Some? && |qfinals| >= 2 && f.epsNormal
    ensures TwoEndings(m, f)
  {
    var p, q := subsets[qfinals[0]], subsets[qfinals[1]];
    assert p in explored && q in explored && p != q;
    assert ReachedBy(m, f, p) && ReachedBy(m, f, q);
    var w :| Word(f, w) && MoveAll(m, f, {m.start.value}, w) == p;
    var v :| Word(f, v) && MoveAll(m, f, {m.start.value}, v) == q;
    AcceptsIffReached(m, f, w);
    AcceptsIffReached(m, f, v);
    assert Ending(m, f, w) && Ending(m, f, v);
  }

  /** ... and different endings are two accepting subsets. */
  lemma OneFinal(m: Fsa, f: Flags, explored: map<set<State>, State>, qfinals: seq<State>, subsets: seq<set<State>>,
                 out: seq<seq<FsaArc>>)
    requires NamedBy(m, explored, qfinals, subsets) && Table(m, f, explored, subsets, out)
    requires m.start.Some? && {m.start.value} in explored && TwoEndings(m, f)
    ensures |qfinals| >= 2
  {
    assert m.Valid();
    hide NamedBy, Table, Ending, MoveAll;
    var w, v :| Ending(m, f, w) && Ending(m, f, v)
      && MoveAll(m, f, {m.start.value}, w) != MoveAll(m, f, {m.start.value}, v);
    EndingIsFinal(m, f, explored, qfinals, subsets, out, w);
    EndingIsFinal(m, f, explored, qfinals, subsets, out, v);
    var p, q := MoveAll(m, f, {m.start.value}, w), MoveAll(m, f, {m.start.value}, v);
    TwoInList(qfinals, explored[p], explored[q]);
  }

  lemma TwoInList(xs: seq<State>, x: State, y: State)
    requires x in xs && y in xs && x != y
    ensures |xs| >= 2
  {
  }

  lemma EndingsExactly(m: Fsa, f: Flags, explored: map<set<State>, State>, qfinals: seq<State>,
                       subsets: seq<set<State>>, out: seq<seq<FsaArc>>)
    requires NamedBy(m, explored, qfinals, subsets) && Table(m, f, explored, subsets, out)
    requires m.start.Some? && {m.start.value} in explored && AllReached(m, f, explored)
    ensures TwoEndings(m, f) <==> f.epsNormal && |qfinals| >= 2
  {
    if f.epsNormal && |qfinals| >= 2 {
      TwoFinals(m, f, explored, qfinals, subsets);
    }
    if TwoEndings(m, f) {
      OneFinal(m, f, explored, qfinals, subsets, out);
    }
  }

  lemma EndingIsFinal(m: Fsa, f: Flags, explored: map<set<State>, State>, qfinals: seq<State>,
                      subsets: seq<set<State>>, out: seq<seq<FsaArc>>, w: seq<Sym>)
    requires NamedBy(m, explored, qfinals, subsets) && Table(m, f, explored, subsets, out)
    requires m.start.Some? && {m.start.value} in explored && Ending(m, f, w)
    ensures var qs := MoveAll(m, f, {m.start.value}, w);
            qs in explored && explored[qs] in qfinals && explored[qs] < |subsets| && subsets[explored[qs]] == qs
  {
    AcceptsIffReached(m, f, w);
    MoveAllTabled(m, f, explored, subsets, out, {m.start.value}, w);
    assert IsFinalSubset(m, subsets[explored[MoveAll(m, f, {m.start.value}, w)]]);
  }

  /** Every word that `r` accepts ends in an epsilon more than a word that `m` accepts. */
  ghost predicate EpsilonTooMany(m: Fsa, f: Flags, r: Fsa) {
    forall w :: Ending(r, f, w) ==> w != [] && w[|w| - 1] == EPSILON && Ending(m, f, w[..|w| - 1])
  }

  /** So it cannot accept the same words if there are any. */
  lemma {:induction false} NotTheSame(m: Fsa, f: Flags, r: Fsa, w: seq<Sym>)
    requires EpsilonTooMany(m, f, r) && Ending(m, f, w)
    ensures !IsDeterminization(m, f, r)
    decreases |w|
  {
    if IsDeterminization(m, f, r) {
      assert Ending(r, f, w);
      NotTheSame(m, f, r, w[..|w| - 1]);
    }
  }

  lemma ResultWrong(m: Fsa, f: Flags, explored: map<set<State>, State>, subsets: seq<set<State>>, out: seq<seq<FsaArc>>,
                    r: Fsa)
    requires Table(m, f, explored, subsets, out) && Joined(m, f, subsets, out, r) && r.final == Some(|out|)
    requires m.start.Some? && {m.start.value} in explored && r.start == Some(explored[{m.start.value}])
    requires TwoEndings(m, f)
    ensures EpsilonTooMany(m, f, r) && !IsDeterminization(m, f, r)
  {
    hide Table, Joined, IsDeterminization;
    forall w | Ending(r, f, w) ensures w != [] && w[|w| - 1] == EPSILON && Ending(m, f, w[..|w| - 1]) {
      JoinedByLetter(m, f, explored, subsets, out, r, w);
    }
    var w :| Ending(m, f, w);
    NotTheSame(m, f, r, w);
  }

  /** The keys are different sets, none twice; the agenda refers to keys. */
  ghost predicate KeyedBy(explored: map<QSet, State>, known: map<set<State>, State>, agenda: seq<QueuedSet>,
                          queued: seq<ToDo>)
    reads explored.Keys
  {
    && (forall k :: k in explored ==> k.qs in known && known[k.qs] == explored[k])
    && (forall qs :: qs in known ==> HasKey(explored, qs))
    && (forall j, k :: j in explored && k in explored && j.qs == k.qs ==> j == k)
    && |agenda| == |queued|
    && forall j :: 0 <= j < |agenda| ==>
         agenda[j].qs in explored && agenda[j].qs.qs == queued[j].qs && agenda[j].q == queued[j].q
  }

  ghost predicate HasKey(explored: map<QSet, State>, qs: set<State>)
    reads explored.Keys
  {
    exists k :: k in explored && k.qs == qs
  }

  lemma KeyedAfterAdding(explored: map<QSet, State>, known: map<set<State>, State>, agenda: seq<QueuedSet>,
                         queued: seq<ToDo>, qs: QSet, id: State)
    requires KeyedBy(explored, known, agenda, queued) && qs !in explored && !HasKey(explored, qs.qs)
    ensures qs.qs !in known
    ensures KeyedBy(explored[qs := id], known[qs.qs := id], agenda + [QueuedSet(qs, id)], queued + [ToDo(qs.qs, id)])
  {
    var e := explored[qs := id];
    forall x | x in known[qs.qs := id] ensures HasKey(e, x) {
      if x == qs.qs {
        assert qs in e;
      } else {
        var k :| k in explored && k.qs == x;
        assert k in e;
      }
    }
  }

  /** The last entry of the agenda is taken. */
  lemma KeyedTaken(explored: map<QSet, State>, known: map<set<State>, State>, agenda: seq<QueuedSet>, queued: seq<ToDo>)
    requires KeyedBy(explored, known, agenda, queued) && agenda != []
    ensures |queued| == |agenda| && agenda[|agenda| - 1].qs in explored
    ensures queued[|queued| - 1] == ToDo(agenda[|agenda| - 1].qs.qs, agenda[|agenda| - 1].q)
    ensures KeyedBy(explored, known, agenda[..|agenda| - 1], queued[..|queued| - 1])
  {
  }

  lemma ExtendsFurther<K, V>(a: map<K, V>, b: map<K, V>, c: map<K, V>)
    requires Extends(a, b) && Extends(b, c)
    ensures Extends(a, c)
  {
  }

  lemma KeyedLength(explored: map<QSet, State>, known: map<set<State>, State>, agenda: seq<QueuedSet>,
                    queued: seq<ToDo>)
    requires KeyedBy(explored, known, agenda, queued)
    ensures |queued| == |agenda|
  {
  }

  lemma KeyedNames(explored: map<QSet, State>, known: map<set<State>, State>, agenda: seq<QueuedSet>,
                   queued: seq<ToDo>, k: QSet)
    requires KeyedBy(explored, known, agenda, queued) && k in explored
    ensures k.qs in known && known[k.qs] == explored[k]
  {
  }

  class DeterminizeFsa {
    const i: Fsa
    const flags: Flags
    var rhos: seq<Outi>
    // Keyed by sets on the heap, compared by what they hold.
    var explored: map<QSet, State>
    var agenda: seq<QueuedSet>
    var expanded: set<State>
    var qfinals: seq<State>
    // The output's arcs, one entry a state added.
    var out: seq<seq<FsaArc>>
    // What each output state stands for, and what the keys and the agenda hold.
    ghost var subsets: seq<set<State>>
    ghost var known: map<set<State>, State>
    ghost var queued: seq<ToDo>

    constructor (i: Fsa, flags: Flags)
      ensures this.i == i && this.flags == flags
      ensures rhos == [] && explored == map[] && agenda == [] && expanded == {} && qfinals == []
      ensures out == [] && subsets == [] && known == map[] && queued == []
    {
      this.i, this.flags := i, flags;
      rhos, explored, agenda, expanded, qfinals := [], map[], [], {}, [];
      out, subsets, known, queued := [], [], map[], [];
    }

    ghost predicate RhosValid()
      reads `rhos
    {
      |rhos| == |i.out| && forall s :: 0 <= s < |rhos| ==> OutiOf(flags, i.out[s], rhos[s])
    }

    ghost predicate Named()
      reads `known, `qfinals, `out, `subsets
    {
      && i.Valid() && i.NoSilentArcs(flags) && |out| == |subsets| && NamedBy(i, known, qfinals, subsets)
      && AllReached(i, flags, known)
    }

    ghost predicate Scheduled(busy: set<State>)
      requires i.Valid() && |out| == |subsets|
      reads `known, `queued, `expanded, `out, `subsets
    {
      ScheduledBy(i, flags, known, queued, expanded, out, subsets, busy)
    }

    ghost predicate Keyed()
      reads `explored, `agenda, `known, `queued, explored.Keys
    {
      KeyedBy(explored, known, agenda, queued)
    }

    /** Splits every state's arcs into letters and "else"; refuses phi and sigma. */
    method InitRhos() returns (ok: bool)
      requires i.Valid()
      modifies `rhos
      ensures ok ==> RhosValid()
      ensures ok <==> forall s, k :: 0 <= s < |i.out| && 0 <= k < |i.out[s]| ==>
                (i.out[s][k].sym == PHI ==> flags.phiNormal) && (i.out[s][k].sym == SIGMA ==> flags.sigmaNormal)
    {
      rhos := [];
      for s := 0 to |i.out|
        invariant |rhos| == s
        invariant forall r :: 0 <= r < s ==> OutiOf(flags, i.out[r], rhos[r])
        invariant forall r, k :: 0 <= r < s && 0 <= k < |i.out[r]| ==>
                    (i.out[r][k].sym == PHI ==> flags.phiNormal) && (i.out[r][k].sym == SIGMA ==> flags.sigmaNormal)
      {
        var l := Outi({}, [], []);
        ghost var soFar := rhos;
        for k := 0 to |i.out[s]|
          invariant rhos == soFar && OutiOf(flags, i.out[s][..k], l)
          invariant forall j :: 0 <= j < k ==>
                      (i.out[s][j].sym == PHI ==> flags.phiNormal) && (i.out[s][j].sym == SIGMA ==> flags.sigmaNormal)
        {
          assert i.out[s][..k + 1] == i.out[s][..k] + [i.out[s][k]];
          l, ok := AddLetter(flags, i.out[s][..k], i.out[s][k], l);
          if !ok {
            return;
          }
        }
        assert i.out[s][..|i.out[s]|] == i.out[s];
        rhos := rhos + [l];
      }
      ok := true;
    }

    /** The output state of a subset, added and queued the first time it is asked for; `qs` becomes a key then. */
    method SubsetId(qs: QSet, ghost busy: set<State>) returns (id: State)
      requires Named() && Keyed() && Scheduled(busy) && |out| !in busy && (forall s :: s in qs.qs ==> s < |i.out|)
      requires ReachedBy(i, flags, qs.qs) && qs !in explored
      modifies `explored, `known, `agenda, `queued, `qfinals, `out, `subsets
      ensures Named() && Keyed() && Scheduled(busy)
      ensures Extends(old(known), known) && qs.qs in known && known[qs.qs] == id
      ensures Extends(old(explored), explored) && explored.Keys <= old(explored.Keys) + {qs}
      ensures old(subsets) <= subsets && old(out) <= out
      ensures forall q :: old(|out|) <= q < |out| ==> q !in busy
    {
      hide NamedBy, ScheduledBy, ReachedBy, KeyedBy;
      if k :| k in explored && k.qs == qs.qs {
        KeyedNames(explored, known, agenda, queued, k);
        return explored[k];
      }
      KeyedAfterAdding(explored, known, agenda, queued, qs, |out|);
      NamedAfterAdding(i, known, qfinals, subsets, qs.qs);
      ScheduledAfterAdding(i, flags, known, queued, expanded, out, subsets, busy, qs.qs);
      id := |out|;
      explored, known := explored[qs := id], known[qs.qs := id];
      out, subsets := out + [[]], subsets + [qs.qs];
      if i.final.Some? && i.final.value in qs.qs {
        qfinals := qfinals + [id];
      }
      assert qfinals == old(qfinals) + (if IsFinalSubset(i, qs.qs) then [id] else []);
      agenda, queued := agenda + [QueuedSet(qs, id)], queued + [ToDo(qs.qs, id)];
    }

    /** The letters of the members, where they lead by name, and the members with "else" arcs. */
    method Gather(qs: QSet)
      returns (d: map<Sym, QSet>, ghost v: map<Sym, set<State>>, qrho: set<State>, qallrho: QSet)
      requires i.Valid() && RhosValid() && (forall s :: s in qs.qs ==> s < |i.out|)
      ensures DeltaOf(d, v) && fresh(qallrho) && forall a :: a in d ==> fresh(d[a]) && d[a] != qallrho
      ensures Gathered(i, flags, qs.qs, v, qrho, qallrho.qs)
    {
      hide Gathered, OutiOf, DeltaOf, RhosValid;
      d, v, qrho := map[], map[], {};
      qallrho := new QSet({});
      GatheredNothing(i, flags);
      NoDelta();
      var todo := qs.qs;
      assert qs.qs - todo == {};
      while todo != {}
        invariant todo <= qs.qs && fresh(qallrho)
        invariant DeltaOf(d, v) && forall a :: a in d ==> fresh(d[a]) && d[a] != qallrho
        invariant Gathered(i, flags, qs.qs - todo, v, qrho, qallrho.qs)
      {
        var s :| s in todo;
        ghost var done := qs.qs - todo;
        d, v, qrho := GatherOne(done, s, d, v, qrho, qallrho);
        todo := todo - {s};
        assert qs.qs - todo == done + {s};
      }
      assert qs.qs - todo == qs.qs;
    }

    /** What one member adds. */
    method GatherOne(ghost done: set<State>, s: State, d: map<Sym, QSet>, ghost v: map<Sym, set<State>>,
                     qrho: set<State>, qallrho: QSet)
      returns (d': map<Sym, QSet>, ghost v': map<Sym, set<State>>, qrho': set<State>)
      requires i.Valid() && RhosValid() && s < |i.out| && Gathered(i, flags, done, v, qrho, qallrho.qs)
      requires DeltaOf(d, v) && forall a :: a in d ==> d[a] != qallrho
      modifies d.Values, qallrho
      ensures DeltaOf(d', v') && forall a :: a in d' ==> (d'[a] in d.Values || fresh(d'[a])) && d'[a] != qallrho
      ensures Gathered(i, flags, done + {s}, v', qrho', qallrho.qs)
    {
      hide Gathered, OutiOf, DeltaOf;
      var p := rhos[s];
      ghost var qallrho0 := qallrho.qs;
      d', v' := AddNamed(p.arcs, d, v);
      qrho' := if p.qrhos != [] then qrho + {s} else qrho;
      GatheredMore(i, flags, done, v, qrho, qallrho0, s, p, v', qrho', qallrho0 + (set t | t in p.qrhos));
      qallrho.qs := qallrho.qs + (set t | t in p.qrhos);
    }

    /** Symbols named elsewhere in the subset follow the "else" arcs of the members that do not name them. */
    method WithElse(ghost qs: set<State>, ghost v: map<Sym, set<State>>, ghost qallrho: set<State>, qrho: set<State>,
                    a: Sym, dqs: QSet)
      requires i.Valid() && RhosValid() && Gathered(i, flags, qs, v, qrho, qallrho) && a in v && dqs.qs == v[a]
      modifies dqs
      ensures dqs.qs == Move(i, flags, qs, a)
    {
      var todo := qrho;
      while todo != {}
        invariant todo <= qrho
        invariant forall t :: t in dqs.qs <==> NamedHop(i, qs, a, t) || ElseFor(qrho - todo, a, t)
      {
        var s :| s in todo;
        var p := rhos[s];
        ghost var done, before := qrho - todo, dqs.qs;
        if a !in p.normals {
          dqs.qs := dqs.qs + (set t | t in p.qrhos);
        }
        todo := todo - {s};
        assert qrho - todo == done + {s};
      }
      assert qrho - todo == qrho;
      MoveParts(qs, qrho, a);
    }

    /** Some member of `qrho` that does not name `a` has an "else" arc to `t`. */
    ghost predicate ElseFor(qrho: set<State>, a: Sym, t: State) {
      exists s :: s in qrho && s < |i.out| && !Names(i.out[s], a) && ElseHop(i, flags, s, t)
    }

    lemma MoveParts(qs: set<State>, qrho: set<State>, a: Sym)
      requires i.Valid() && flags.Letter(a)
      requires forall s :: s in qrho <==> s in qs && s < |i.out| && Names(i.out[s], RHO) && flags.RhoSpecial(RHO)
      ensures forall t :: t in Move(i, flags, qs, a) <==> NamedHop(i, qs, a, t) || ElseFor(qrho, a, t)
    {
      forall t | t in Move(i, flags, qs, a) ensures NamedHop(i, qs, a, t) || ElseFor(qrho, a, t) {
        var s, k :| s in qs && Hop(i, flags, s, k, a, t);
        if i.out[s][k].sym == a {
          assert FsaArc(a, t) == i.out[s][k];
        } else {
          assert s in qrho && ElseHop(i, flags, s, t);
        }
      }
      forall t | NamedHop(i, qs, a, t) ensures t in Move(i, flags, qs, a) {
        var s :| s in qs && s < |i.out| && FsaArc(a, t) in i.out[s];
        var k :| 0 <= k < |i.out[s]| && i.out[s][k] == FsaArc(a, t);
        assert Hop(i, flags, s, k, a, t);
      }
      forall t | ElseFor(qrho, a, t) ensures t in Move(i, flags, qs, a) {
        var s :| s in qrho && s < |i.out| && !Names(i.out[s], a) && ElseHop(i, flags, s, t);
        var k :| 0 <= k < |i.out[s]| && flags.RhoSpecial(i.out[s][k].sym) && i.out[s][k].head == t;
        assert Hop(i, flags, s, k, a, t);
      }
    }

    method AddArc(q: State, dqs: QSet, a: Sym)
      requires Named() && Keyed() && Scheduled({q}) && q < |out| && q in expanded
      requires ReachedBy(i, flags, dqs.qs) && dqs !in explored && (forall s :: s in dqs.qs ==> s < |i.out|)
      modifies `explored, `known, `agenda, `queued, `qfinals, `out, `subsets
      ensures Named() && Keyed() && Scheduled({q}) && Extends(old(known), known) && old(subsets) <= subsets
      ensures Extends(old(explored), explored) && explored.Keys <= old(explored.Keys) + {dqs}
      ensures |out| >= old(|out|)
      ensures dqs.qs in known && out[q] == old(out)[q] + [FsaArc(a, known[dqs.qs])]
    {
      hide NamedBy, ReachedBy, KeyedBy;
      var id := SubsetId(dqs, {q});
      out := out[q := out[q] + [FsaArc(a, id)]];
    }

    /** Writes all arcs of subset `qs`, whose state is `q`; once per state. The sets gathered for the letters grow
        before they become keys; no key ever changes. */
    method GenOut(qs: QSet, q: State)
      requires RhosValid() && Named() && Keyed() && q < |out| && qs in explored && subsets[q] == qs.qs
      requires Scheduled({q}) && if q in expanded then Expanded(i, flags, known, qs.qs, out[q]) else out[q] == []
      requires forall k :: 0 <= k < |queued| ==> queued[k].q != q
      modifies `explored, `known, `agenda, `queued, `expanded, `qfinals, `out, `subsets
      ensures RhosValid() && Named() && Keyed() && Scheduled({})
      ensures Extends(old(known), known) && Extends(old(explored), explored) && old(subsets) <= subsets
      ensures expanded == old(expanded) + {q} && |out| >= old(|out|)
    {
      hide NamedBy, ScheduledBy, Gathered, Partial, Expanded, OutiOf, ArcRight, ReachedBy, KeyedBy, DeltaOf;
      InRange(q);
      ScheduledTaken(i, flags, known, queued, expanded, out, subsets, q);
      if q in expanded {
        assert expanded == old(expanded) + {q};
        ScheduledDone(i, flags, known, queued, expanded, out, subsets, q);
        return;
      }
      expanded := expanded + {q};
      var d, v, qrho, qallrho := Gather(qs);
      GatheredElse(i, flags, qs.qs, v, qrho, qallrho.qs);
      ghost var qallrho0 := qallrho.qs;
      if qrho != {} {
        ElseReached(i, flags, qs.qs);
        AddArc(q, qallrho, RHO);
      }
      PartialElse(i, flags, known, qs.qs, out[q]);
      GenLetters(qs.qs, q, d, v, qrho, qallrho0);
      ScheduledDone(i, flags, known, queued, expanded, out, subsets, q);
    }

    /** The arcs of all letters of the subset. */
    method GenLetters(ghost qs: set<State>, q: State, d: map<Sym, QSet>, ghost v: map<Sym, set<State>>,
                      qrho: set<State>, ghost qallrho: set<State>)
      requires RhosValid() && Named() && Keyed() && Scheduled({q}) && q < |out| && q in expanded
      requires Gathered(i, flags, qs, v, qrho, qallrho) && ReachedBy(i, flags, qs)
      requires DeltaOf(d, v) && forall a :: a in d ==> d[a] !in explored
      requires Partial(i, flags, known, qs, out[q], {})
      modifies `explored, `known, `agenda, `queued, `qfinals, `out, `subsets, d.Values
      ensures Named() && Keyed() && Scheduled({q}) && |out| >= old(|out|) && Expanded(i, flags, known, qs, out[q])
      ensures Extends(old(known), known) && Extends(old(explored), explored) && old(subsets) <= subsets
    {
      hide NamedBy, ScheduledBy, Gathered, Partial, Expanded, OutiOf, ArcRight, ReachedBy, KeyedBy;
      var todo := d.Keys;
      assert d.Keys - todo == {};
      while todo != {}
        invariant todo <= d.Keys
        invariant RhosValid() && Named() && Keyed() && Scheduled({q}) && q < |out|
        invariant forall a :: a in todo ==> d[a] !in explored && d[a].qs == v[a]
        invariant Extends(old(known), known) && Extends(old(explored), explored)
        invariant old(subsets) <= subsets && |out| >= old(|out|)
        invariant Partial(i, flags, known, qs, out[q], d.Keys - todo)
      {
        hide RhosValid, Scheduled, Keyed;
        var a :| a in todo;
        ghost var done := d.Keys - todo;
        GenLetter(qs, q, d[a], v, qrho, qallrho, a, done);
        todo := todo - {a};
        assert d.Keys - todo == done + {a};
      }
      assert d.Keys - todo == d.Keys;
      AllNamedGathered(i, flags, qs, v, qrho, qallrho);
      PartialAll(i, flags, known, qs, out[q], d.Keys);
    }

    /** The arc of one letter of the subset. */
    method GenLetter(ghost qs: set<State>, q: State, dqs: QSet, ghost v: map<Sym, set<State>>, qrho: set<State>,
                     ghost qallrho: set<State>, a: Sym, ghost done: set<Sym>)
      requires RhosValid() && Named() && Keyed() && Scheduled({q}) && q < |out| && q in expanded
      requires Gathered(i, flags, qs, v, qrho, qallrho) && a in v && a !in done && ReachedBy(i, flags, qs)
      requires dqs.qs == v[a] && dqs !in explored
      requires Partial(i, flags, known, qs, out[q], done)
      modifies `explored, `known, `agenda, `queued, `qfinals, `out, `subsets, dqs
      ensures Named() && Keyed() && Scheduled({q}) && Extends(old(known), known) && old(subsets) <= subsets
      ensures Extends(old(explored), explored) && explored.Keys <= old(explored.Keys) + {dqs}
      ensures |out| >= old(|out|)
      ensures Partial(i, flags, known, qs, out[q], done + {a})
    {
      hide NamedBy, Gathered, Partial, OutiOf, ArcRight, ScheduledBy, ReachedBy, KeyedBy;
      ghost var e0, arcs := known, out[q];
      WithElse(qs, v, qallrho, qrho, a, dqs);
      GatheredLetter(i, flags, qs, v, qrho, qallrho, a);
      MoveReached(i, flags, qs, a);
      AddArc(q, dqs, a);
      LetterArcRight(i, flags, known, qs, v, qrho, qallrho, a);
      PartialMore(i, flags, e0, known, qs, arcs, done, FsaArc(a, known[dqs.qs]));
    }

    lemma InRange(q: State)
      requires Named() && q < |subsets|
      ensures forall s :: s in subsets[q] ==> s < |i.out|
      ensures ReachedBy(i, flags, subsets[q])
    {
    }

    /** There are no more states than subsets of input states, and no more expanded than added. */
    lemma StatesBounded()
      requires Named()
      ensures |out| <= Pow2(|i.out|)
      ensures (forall q :: q in expanded ==> q < |out|) ==> |expanded| <= |out|
    {
      var all := UpTo(|i.out|);
      SubsetsCount(all);
      DistinctSize(subsets, Subsets(all));
      if forall q :: q in expanded ==> q < |out| {
        SubsetSize(expanded, UpTo(|out|));
      }
    }

    /** Every state is finished or queued once, and nothing is half done. */
    ghost predicate Ready()
      reads `rhos, `explored, `agenda, `known, `queued, `expanded, `qfinals, `out, `subsets, explored.Keys
    {
      RhosValid() && Named() && Keyed() && Scheduled({}) && |expanded| <= |out| <= Pow2(|i.out|)
    }

    method FinishAgenda()
      requires RhosValid() && Named() && Keyed() && Scheduled({})
      modifies `explored, `known, `agenda, `queued, `expanded, `qfinals, `out, `subsets
      ensures Named() && Keyed() && Scheduled({}) && queued == []
      ensures Extends(old(known), known) && Extends(old(explored), explored) && old(subsets) <= subsets
    {
      hide NamedBy, ReachedBy, KeyedBy;
      StatesBounded();
      assert Ready();
      while agenda != []
        invariant Ready()
        invariant Extends(old(known), known) && Extends(old(explored), explored) && old(subsets) <= subsets
        decreases Pow2(|i.out|) - |expanded|
      {
        hide Ready, Extends;
        ghost var known0, explored0 := known, explored;
        TakeOne();
        ExtendsFurther(old(known), known0, known);
        ExtendsFurther(old(explored), explored0, explored);
      }
      KeyedLength(explored, known, agenda, queued);
    }

    /** The subset queued last gets its arcs. */
    method TakeOne()
      requires Ready() && agenda != []
      modifies `explored, `known, `agenda, `queued, `expanded, `qfinals, `out, `subsets
      ensures Ready() && |old(expanded)| < |expanded| <= Pow2(|i.out|)
      ensures Extends(old(known), known) && Extends(old(explored), explored) && old(subsets) <= subsets
    {
      hide NamedBy, Expanded, OutiOf, ReachedBy, KeyedBy;
      var t := agenda[|agenda| - 1];
      KeyedTaken(explored, known, agenda, queued);
      assert t.q !in expanded;
      assert out[t.q] == [];
      agenda, queued := agenda[..|agenda| - 1], queued[..|queued| - 1];
      GenOut(t.qs, t.q);
      StatesBounded();
    }

    /** The whole construction. None when the input has a symbol that is refused. */
    method Run() returns (r: Option<Fsa>)
      requires i.Valid() && i.NoSilentArcs(flags) && i.start.Some?
      requires explored == map[] && agenda == [] && expanded == {} && qfinals == [] && out == [] && subsets == []
      requires known == map[] && queued == []
      modifies this
      ensures r.Some? <==> forall s, k :: 0 <= s < |i.out| && 0 <= k < |i.out[s]| ==>
                (i.out[s][k].sym == PHI ==> flags.phiNormal) && (i.out[s][k].sym == SIGMA ==> flags.sigmaNormal)
      ensures r.Some? ==> Determinized(i, flags, r.value)
    {
      hide Table, Joined, Determinized, IsFinalSubset, Expanded, OutiOf, ReachedBy, NamedBy, ScheduledBy, KeyedBy;
      hide AllReached;
      var ok := InitRhos();
      if !ok {
        return None;
      }
      NothingNamed();
      StartReached(i, flags);
      var first := new QSet({i.start.value});
      var start := SubsetId(first, {});
      FinishAgenda();
      var m := Finished(start);
      r := Some(m);
    }

    lemma NothingNamed()
      requires i.Valid() && i.NoSilentArcs(flags)
      requires explored == map[] && agenda == [] && expanded == {} && qfinals == [] && out == [] && subsets == []
      requires known == map[] && queued == []
      ensures Named() && Keyed() && Scheduled({})
    {
    }

    /** The table is complete; what is left is to join the accepting subsets. */
    method Finished(start: State) returns (m: Fsa)
      requires Named() && Scheduled({}) && queued == []
      requires i.start.Some? && {i.start.value} in known && known[{i.start.value}] == start
      modifies `out
      ensures Determinized(i, flags, m)
    {
      hide NamedBy, ScheduledBy, Table, Joined, IsDeterminization, IsFinalSubset, Expanded, AllReached, TwoEndings;
      StatesBounded();
      TableDone();
      ghost var table := out;
      EndingsExactly(i, flags, known, qfinals, subsets, table);
      m := JoinFinals(start);
      if qfinals == [] {
        ResultEmpty(i, flags, known, subsets, table);
      } else if TwoEndings(i, flags) {
        ResultWrong(i, flags, known, subsets, table, m);
      } else {
        ResultRight(i, flags, known, subsets, table, m);
      }
    }

    lemma TableDone()
      requires Named() && Scheduled({}) && queued == []
      ensures Table(i, flags, known, subsets, out)
    {
    }

    /** No accepting subset: the empty language. One: it is final. More: epsilon arcs to a new final state. */
    method JoinFinals(start: State) returns (m: Fsa)
      requires Named()
      modifies `out
      ensures qfinals == [] ==>
                && m == Fsa(out, None, None) && out == []
                && forall q :: 0 <= q < |subsets| ==> !IsFinalSubset(i, subsets[q])
      ensures qfinals != [] ==>
                m.start == Some(start) && |m.out| <= old(|out|) + 1 && Joined(i, flags, subsets, old(out), m)
      ensures |qfinals| == 1 ==> m.out == old(out)
      ensures |qfinals| >= 2 ==> m.final == Some(old(|out|))
    {
      hide Expanded;
      if |qfinals| == 0 {
        out := [];
        return Fsa([], None, None);
      } else if |qfinals| == 1 {
        return Fsa(out, Some(start), Some(qfinals[0]));
      }
      ghost var table := out;
      var f := |out|;
      out := out + [[]];
      var arc := FsaArc(EPSILON, f);
      for k := 0 to |qfinals|
        invariant |out| == f + 1 && out[f] == []
        invariant forall q :: 0 <= q < f ==> out[q] == if q in qfinals[..k] then table[q] + [arc] else table[q]
      {
        var q := qfinals[k];
        assert qfinals[..k + 1] == qfinals[..k] + [q];
        assert q !in qfinals[..k];
        out := out[q := out[q] + [arc]];
      }
      assert qfinals[..|qfinals|] == qfinals;
      m := Fsa(out, Some(start), Some(f));
    }
  }

  /** Same words, one arc a label, and silent epsilon only into a state added last. */
  ghost predicate IsDeterminization(m: Fsa, f: Flags, r: Fsa) {
    && (forall w :: Word(f, w) ==> (Accepts(r, f, w) <==> Accepts(m, f, w)))
    && (forall q :: 0 <= q < |r.out| ==> Deterministic(r.out[q]))
    && (forall q :: 0 <= q < |r.out| ==> EpsilonToLast(f, r, q))
  }

  /** What the construction makes: at most one state more than subsets, and a determinization unless the epsilon arcs
      that join the final states count as letters. */
  ghost predicate Determinized(m: Fsa, f: Flags, r: Fsa)
    requires m.Valid() && m.start.Some?
  {
    && |r.out| <= Pow2(|m.out|) + 1
    && (IsDeterminization(m, f, r) <==> !TwoEndings(m, f))
    && (TwoEndings(m, f) ==> EpsilonTooMany(m, f, r))
  }

  method DeterminizeAlways(m: Fsa, f: Flags) returns (r: Option<Fsa>)
    requires m.Valid() && m.NoSilentArcs(f) && m.start.Some?
    ensures r.Some? <==> forall s, k :: 0 <= s < |m.out| && 0 <= k < |m.out[s]| ==>
              (m.out[s][k].sym == PHI ==> f.phiNormal) && (m.out[s][k].sym == SIGMA ==> f.sigmaNormal)
    ensures r.Some? ==> Determinized(m, f, r.value)
    ensures r.Some? && !TwoEndings(m, f) ==> SameWordsPlainly(m, f, r.value)
  {
    var d := new DeterminizeFsa(m, f);
    r := d.Run();
    if r.Some? && !TwoEndings(m, f) {
      WordsArePlain(m, f, r.value);
    }
  }

  /** The same words over any finite alphabet of letters, with "else" arcs replaced by plain ones on both sides. */
  ghost predicate SameWordsPlainly(m: Fsa, f: Flags, r: Fsa) {
    forall alphabet: set<Sym>, w: seq<Sym> :: (forall a :: a in w ==> a in alphabet && IsLetter(f, a)) ==>
      (AcceptsPlainly(r, f, alphabet, w) <==> AcceptsPlainly(m, f, alphabet, w))
  }

  lemma WordsArePlain(m: Fsa, f: Flags, r: Fsa)
    requires IsDeterminization(m, f, r)
    ensures SameWordsPlainly(m, f, r)
  {
    forall alphabet: set<Sym>, w: seq<Sym> | forall a :: a in w ==> a in alphabet && IsLetter(f, a)
      ensures AcceptsPlainly(r, f, alphabet, w) <==> AcceptsPlainly(m, f, alphabet, w)
    {
      hide Accepts, AcceptsPlainly;
      forall k | 0 <= k < |w| ensures f.Letter(w[k]) {
        LettersAreLetters(f, w[k]);
      }
      AcceptsAlike(m, f, alphabet, w);
      AcceptsAlike(r, f, alphabet, w);
    }
  }

  /** Such an input: from 0, one symbol leads to the final state 1 alone, another to 1 and 2. */
  lemma EpsilonAsLetterFails(f: Flags) returns (m: Fsa)
    requires f.epsNormal
    ensures m.Valid() && m.NoSilentArcs(f) && m.start.Some? && TwoEndings(m, f)
  {
    m := Fsa([[FsaArc(5, 1), FsaArc(6, 1), FsaArc(6, 2)], [], []], Some(0), Some(1));
    assert Hop(m, f, 0, 0, 5, 1) && Hop(m, f, 0, 1, 6, 1) && Hop(m, f, 0, 2, 6, 2);
    assert 1 in Move(m, f, {0}, 5) && 1 in Move(m, f, {0}, 6) && 2 in Move(m, f, {0}, 6);
    assert 2 !in Move(m, f, {0}, 5);
    AcceptsIffReached(m, f, [5]);
    AcceptsIffReached(m, f, [6]);
    assert Ending(m, f, [5]) && Ending(m, f, [6]);
  }

}
