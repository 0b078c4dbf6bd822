/** Which pairs of a derivation and a path an item of the composition chart stands for, said without
    items: the pair is accepted and every epsilon arc has a place where it may attach. */
module EpsilonPlaces {
  import opened Hypergraph
  import opened Transducer
  import opened EarleyItems

  /** A derivation of the grammar's final state whose yield the transducer accepts along `path`. */
  ghost predicate Accepted(p: Input, t: Tree, path: seq<FstArc>) {
    && t.Node? && p.cfg.final.Some? && Derives(p.cfg, true, t, p.cfg.final.value)
    && p.fst.final.Some? && Run(p.fst, p.opts, p.fst.start, Yield(p.cfg, t), None, path, p.fst.final.value)
  }

  ghost function PairCost(p: Input, t: Tree, path: seq<FstArc>): int {
    Cost(p.cfg, t) + PathCost(path)
  }

  // ----- The places of epsilon -----

  /** What epsilons can hold on to along the leaves of a derivation: a place (a silent leaf, or the end
      of a constituent), or a symbol; `bare` symbols are start states in first position. */
  datatype Mark = Place | Symbol(a: Sym, bare: bool)

  ghost function LeafMark(cfg: HG<nat>, s: State, first: bool): Mark {
    if s in cfg.labels && cfg.labels[s] != EPSILON then Symbol(cfg.labels[s], first && cfg.start == Some(s)) else Place
  }

  ghost function KidMarks(cfg: HG<nat>, t: Tree, first: bool): seq<Mark>
    decreases t, 1
  {
    match t
    case Axiom(s) => [LeafMark(cfg, s, first)]
    case Node(_, kids) => Marks(cfg, kids, true) + [Place]
  }

  /** The marks of adjacent derivations; `first` when the first of them is the first tail of its arc. */
  ghost function Marks(cfg: HG<nat>, ts: seq<Tree>, first: bool): seq<Mark>
    decreases ts, 0
  {
    if ts == [] then [] else KidMarks(cfg, ts[0], first) + Marks(cfg, ts[1..], false)
  }

  /** What is left of a path behind the marks, and whether there was a place since the last symbol that was read. */
  datatype Rest = Stuck | Left(path: seq<FstArc>, room: bool)

  /** An epsilon arc before a bare symbol needs a place since the last symbol that was read, and must not
      follow a phi arc; elsewhere epsilon arcs may stand freely. `room` tells whether there was a place. */
  ghost function After(ms: seq<Mark>, path: seq<FstArc>, room: bool): Rest
    decreases |ms| + |path|
  {
    if ms == [] then Left(path, room)
    else match ms[0]
      case Place => After(ms[1..], path, true)
      case Symbol(_, bare) =>
        if path == [] then Stuck
        else if path[0].input == EPSILON then if bare && !room then Stuck else After(ms, path[1..], room)
        else if path[0].input == PHI then After(ms, path[1..], room && !bare)
        else After(ms[1..], path[1..], false)
  }

  ghost predicate EpsilonsFit(ms: seq<Mark>, path: seq<FstArc>, room: bool) {
    After(ms, path, room).Left?
  }

  ghost predicate Attachable(p: Input, t: Tree, path: seq<FstArc>) {
    t.Node? && EpsilonsFit(Marks(p.cfg, t.kids, true), path, false)
  }

  // ----- Simple facts about marks -----

  lemma {:induction false} MarksAppend(cfg: HG<nat>, ts: seq<Tree>, t: Tree, first: bool)
    ensures Marks(cfg, ts + [t], first) == Marks(cfg, ts, first) + KidMarks(cfg, t, first && ts == [])
  {
    if ts == [] {
      assert (ts + [t])[1..] == [];
    } else {
      assert (ts + [t])[1..] == ts[1..] + [t];
      MarksAppend(cfg, ts[1..], t, false);
    }
  }

  ghost function Symbols(ms: seq<Mark>): seq<Sym> {
    if ms == [] then [] else (if ms[0].Symbol? then [ms[0].a] else []) + Symbols(ms[1..])
  }

  lemma {:induction false} SymbolsJoin(ms: seq<Mark>, ns: seq<Mark>)
    ensures Symbols(ms + ns) == Symbols(ms) + Symbols(ns)
  {
    if ms == [] {
      assert ms + ns == ns;
    } else {
      assert (ms + ns)[0] == ms[0] && (ms + ns)[1..] == ms[1..] + ns;
      SymbolsJoin(ms[1..], ns);
      var first := if ms[0].Symbol? then [ms[0].a] else [];
      assert first + Symbols(ms[1..]) + Symbols(ns) == first + (Symbols(ms[1..]) + Symbols(ns));
    }
  }

  lemma {:induction false} KidSymbols(cfg: HG<nat>, t: Tree, first: bool)
    ensures Symbols(KidMarks(cfg, t, first)) == Yield(cfg, t)
    decreases t, 1
  {
    match t
    case Axiom(s) =>
      assert [LeafMark(cfg, s, first)][1..] == [];
    case Node(_, kids) =>
      SymbolsAreYield(cfg, kids, true);
      SymbolsJoin(Marks(cfg, kids, true), [Place]);
      assert [Place][1..] == [];
  }

  lemma {:induction false} SymbolsAreYield(cfg: HG<nat>, ts: seq<Tree>, first: bool)
    ensures Symbols(Marks(cfg, ts, first)) == YieldAll(cfg, ts)
    decreases ts, 0
  {
    if ts != [] {
      KidSymbols(cfg, ts[0], first);
      SymbolsAreYield(cfg, ts[1..], false);
      SymbolsJoin(KidMarks(cfg, ts[0], first), Marks(cfg, ts[1..], false));
    }
  }

  ghost predicate NothingBare(ms: seq<Mark>) {
    forall k :: 0 <= k < |ms| && ms[k].Symbol? ==> !ms[k].bare
  }

  /** The start state reads an ordinary symbol (or one that no transducer arc can match). */
  ghost predicate StartReads(cfg: HG<nat>) {
    cfg.start.Some? && cfg.start.value in cfg.labels && cfg.labels[cfg.start.value] != EPSILON
  }

  lemma {:induction false} NothingIsBare(cfg: HG<nat>, ts: seq<Tree>, first: bool)
    requires !StartReads(cfg)
    ensures NothingBare(Marks(cfg, ts, first))
    decreases ts
  {
    if ts != [] {
      NothingIsBare(cfg, ts[1..], false);
      if ts[0].Node? {
        NothingIsBare(cfg, ts[0].kids, true);
      }
    }
  }

  lemma {:induction false} RoomUnneeded(ms: seq<Mark>, path: seq<FstArc>, room: bool)
    requires EpsilonsFit(ms, path, room) && (NothingBare(ms) || path == [] || path[0].input != EPSILON)
    ensures EpsilonsFit(ms, path, false)
    decreases |ms| + |path|
  {
    if ms != [] && ms[0].Symbol? {
      if path[0].input == EPSILON {
        RoomUnneeded(ms, path[1..], room);
      } else if path[0].input == PHI {
        if room && !ms[0].bare {
          PhiUnneeded(ms, path[1..]);
        }
      }
    }
  }

  /** Before a symbol that is not bare, room makes no difference. */
  lemma {:induction false} PhiUnneeded(ms: seq<Mark>, path: seq<FstArc>)
    requires ms != [] && ms[0].Symbol? && !ms[0].bare && EpsilonsFit(ms, path, true)
    ensures EpsilonsFit(ms, path, false)
    decreases |path|
  {
    if path[0].input == EPSILON || path[0].input == PHI {
      PhiUnneeded(ms, path[1..]);
    }
  }

  // ----- What is left of a path after some marks -----

  ghost predicate Silences(path: seq<FstArc>) {
    forall k :: 0 <= k < |path| ==> path[k].input == EPSILON
  }

  lemma {:induction false} AfterJoin(ms: seq<Mark>, ns: seq<Mark>, path: seq<FstArc>, room: bool)
    ensures var l := After(ms, path, room);
            After(ms + ns, path, room) == if l.Left? then After(ns, l.path, l.room) else Stuck
    decreases |ms| + |path|
  {
    if ms == [] {
      assert ms + ns == ns;
    } else {
      assert (ms + ns)[0] == ms[0] && (ms + ns)[1..] == ms[1..] + ns;
      if ms[0].Place? {
        AfterJoin(ms[1..], ns, path, true);
      } else if path != [] {
        if path[0].input == EPSILON {
          AfterJoin(ms, ns, path[1..], room);
        } else if path[0].input == PHI {
          AfterJoin(ms, ns, path[1..], room && !ms[0].bare);
        } else {
          AfterJoin(ms[1..], ns, path[1..], false);
        }
      }
    }
  }

  /** A longer path leaves that much more. */
  lemma {:induction false} AfterMore(ms: seq<Mark>, path: seq<FstArc>, more: seq<FstArc>, room: bool)
    requires After(ms, path, room).Left?
    ensures After(ms, path + more, room) == Left(After(ms, path, room).path + more, After(ms, path, room).room)
    decreases |ms| + |path|
  {
    if ms != [] {
      if ms[0].Place? {
        AfterMore(ms[1..], path, more, true);
      } else {
        assert (path + more)[1..] == path[1..] + more;
        if path[0].input == EPSILON {
          AfterMore(ms, path[1..], more, room);
        } else if path[0].input == PHI {
          AfterMore(ms, path[1..], more, room && !ms[0].bare);
        } else {
          AfterMore(ms[1..], path[1..], more, false);
        }
      }
    }
  }

  /** Epsilons put in front do no harm where there is room. */
  lemma {:induction false} AfterPrefixed(ms: seq<Mark>, eps: seq<FstArc>, path: seq<FstArc>, r0: bool, room: bool)
    requires Silences(eps) && (eps == [] || room) && (r0 ==> room)
    requires After(ms, path, r0).Left? && Silences(After(ms, path, r0).path)
    ensures After(ms, eps + path, room).Left? && Silences(After(ms, eps + path, room).path)
    decreases |ms| + |eps| + |path|
  {
    if ms != [] {
      if ms[0].Place? {
        AfterPrefixed(ms[1..], eps, path, true, true);
      } else if eps != [] {
        assert (eps + path)[1..] == eps[1..] + path;
        AfterPrefixed(ms, eps[1..], path, r0, room);
      } else {
        assert eps + path == path;
        if path[0].input == EPSILON {
          AfterPrefixed(ms, [], path[1..], r0, room);
          assert [] + path[1..] == path[1..];
        } else if path[0].input == PHI {
          AfterPrefixed(ms, [], path[1..], r0 && !ms[0].bare, room && !ms[0].bare);
          assert [] + path[1..] == path[1..];
        } else {
          AfterPrefixed(ms[1..], [], path[1..], false, false);
          assert [] + path[1..] == path[1..];
        }
      }
    }
  }

  /** Arcs that read nothing, and then one that reads the symbol. */
  lemma {:induction false} AfterRead(a: Sym, bare: bool, path: seq<FstArc>, e: FstArc, room: bool)
    requires forall k :: 0 <= k < |path| ==> path[k].input == PHI || (path[k].input == EPSILON && !bare)
    requires e.input != EPSILON && e.input != PHI
    ensures After([Symbol(a, bare)], path + [e], room) == Left([], false)
    decreases |path|
  {
    if path == [] {
      assert path + [e] == [e] && [e][1..] == [] && [Symbol(a, bare)][1..] == [];
    } else {
      assert (path + [e])[1..] == path[1..] + [e];
      AfterRead(a, bare, path[1..], e, if path[0].input == PHI then room && !bare else room);
    }
  }

  lemma {:induction false} DropSilence(ms: seq<Mark>, eps: seq<FstArc>, path: seq<FstArc>, room: bool)
    requires Silences(eps) && EpsilonsFit(ms, eps + path, room)
    ensures EpsilonsFit(ms, path, room)
    decreases |ms| + |eps|
  {
    if eps == [] {
      assert eps + path == path;
    } else if ms != [] {
      if ms[0].Place? {
        DropSilence(ms[1..], eps, path, true);
      } else {
        assert (eps + path)[1..] == eps[1..] + path;
        DropSilence(ms, eps[1..], path, room);
      }
    }
  }

  // ----- Marks and runs -----

  lemma {:induction false} SilentRun(f: Fst, o: MatchOptions, s: State, path: seq<FstArc>, t: State)
    requires Run(f, o, s, [], None, path, t)
    ensures Silences(path)
    decreases |path|
  {
    if path != [] {
      SilentRun(f, o, path[0].head, path[1..], t);
      assert forall k :: 0 < k < |path| ==> path[k] == path[1..][k - 1];
    }
  }

  /** A run over the symbols of `ms` leaves nothing but epsilons, whatever comes behind it. */
  lemma {:induction false} AfterRun(f: Fst, o: MatchOptions, s: State, ms: seq<Mark>, path: seq<FstArc>, t: State,
                                    more: seq<FstArc>, room: bool)
    requires Run(f, o, s, Symbols(ms), None, path, t) && After(ms, path + more, room).Left?
    ensures After(ms, path, room).Left? && Silences(After(ms, path, room).path)
    decreases |ms| + |path|
  {
    if ms == [] {
      SilentRun(f, o, s, path, t);
    } else if ms[0].Place? {
      assert Symbols(ms) == Symbols(ms[1..]);
      AfterRun(f, o, s, ms[1..], path, t, more, true);
    } else {
      var ys := Symbols(ms);
      assert ys == [ms[0].a] + Symbols(ms[1..]) && ys[1..] == Symbols(ms[1..]);
      assert (path + more)[1..] == path[1..] + more;
      if path[0].input == EPSILON {
        AfterRun(f, o, path[0].head, ms, path[1..], t, more, room);
      } else if path[0].input == PHI {
        AfterRun(f, o, path[0].head, ms, path[1..], t, more, room && !ms[0].bare);
      } else {
        AfterRun(f, o, path[0].head, ms[1..], path[1..], t, more, false);
      }
    }
  }

  /** A fitting path that is cut after the symbols of `ms` fits on both sides. */
  lemma FitsCut(f: Fst, o: MatchOptions, s: State, ms: seq<Mark>, ns: seq<Mark>, path: seq<FstArc>, t: State,
                more: seq<FstArc>)
    requires Run(f, o, s, Symbols(ms), None, path, t) && EpsilonsFit(ms + [Place] + ns, path + more, false)
    ensures EpsilonsFit(ms, path, false) && EpsilonsFit(ns, more, true)
  {
    assert ms + [Place] + ns == ms + ([Place] + ns);
    AfterJoin(ms, [Place] + ns, path + more, false);
    AfterRun(f, o, s, ms, path, t, more, false);
    var l := After(ms, path, false);
    AfterMore(ms, path, more, false);
    assert ([Place] + ns)[1..] == ns;
    DropSilence(ns, l.path, more, true);
  }
}
