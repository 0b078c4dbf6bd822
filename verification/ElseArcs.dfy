/** What "any symbol" and "else" arcs mean, without them: over a finite alphabet each sigma, phi and rho arc is replaced
    by plain arcs, which read their own symbol or nothing, and the same paths read the same strings. */
module ElseArcs {
  import opened Hypergraph
  import opened Transducer
  import opened EarleyItems
  import opened EpsilonPlaces

  /** A state of the plain machine: which state, and the symbol that a phi arc has found to be ahead. */
  datatype At = At(s: State, due: Option<Sym>)

  /** A plain arc, and the arc that it comes from. */
  datatype PlainArc = PlainArc(via: FstArc, symbol: Option<Sym>, to: At)

  /** The symbols that are left for the "else" arcs of a state: none where they are switched off or a sigma arc
      counts as a match, otherwise those of the alphabet that no arc of the state names. */
  ghost function Left(o: MatchOptions, arcs: seq<FstArc>, alphabet: set<Sym>): set<Sym> {
    var named := set e | e in arcs :: e.input;
    if !o.enablePhiRhoMatch || (o.sigmaPreventsPhiRhoMatch && SIGMA in named) then {} else alphabet - named
  }

  /** What an arc can read in place of itself. */
  ghost function InPlaceOf(o: MatchOptions, arcs: seq<FstArc>, alphabet: set<Sym>, e: FstArc): set<Sym> {
    if e.input == SIGMA then alphabet
    else if e.input == RHO then Left(o, arcs, alphabet)
    else if e.input in {EPSILON, PHI} then {}
    else {e.input} * alphabet
  }

  /** Epsilon keeps what is ahead, phi settles it, and reading uses it up. */
  ghost predicate IsPlain(f: Fst, o: MatchOptions, alphabet: set<Sym>, x: At, p: PlainArc) {
    && x.s < |f.out| && p.via in f.out[x.s] && p.to.s == p.via.head
    && match p.symbol
       case Some(a) =>
         a in InPlaceOf(o, f.out[x.s], alphabet, p.via) && (x.due.None? || x.due == p.symbol) && p.to.due == None
       case None =>
         if p.via.input == EPSILON then p.to.due == x.due
         else p.via.input == PHI && p.to.due.Some? && p.to.due.value in Left(o, f.out[x.s], alphabet)
              && (x.due.None? || x.due == p.to.due)
  }

  /** A path of plain arcs: those that read spell `ys`. */
  ghost predicate Spells(ys: seq<Sym>, path: seq<PlainArc>) {
    if path == [] then ys == []
    else if path[0].symbol.Some? then ys != [] && ys[0] == path[0].symbol.value && Spells(ys[1..], path[1..])
    else Spells(ys, path[1..])
  }

  ghost predicate PlainPath(f: Fst, o: MatchOptions, alphabet: set<Sym>, x: At, path: seq<PlainArc>, y: At)
    decreases |path|
  {
    if path == [] then x == y && x.s < |f.out|
    else IsPlain(f, o, alphabet, x, path[0]) && PlainPath(f, o, alphabet, path[0].to, path[1..], y)
  }

  function Via(path: seq<PlainArc>): seq<FstArc> {
    if path == [] then [] else [path[0].via] + Via(path[1..])
  }

  /** All symbols that stand for themselves among `ys` are in the alphabet, which has no other. */
  ghost predicate HasLetters(alphabet: set<Sym>, ys: seq<Sym>) {
    (forall a :: a in alphabet ==> Ordinary(a)) && forall a :: a in ys && Ordinary(a) ==> a in alphabet
  }

  /** The path reads `ys` when its arcs are replaced by plain ones. */
  ghost predicate ReadsPlainly(f: Fst, o: MatchOptions, alphabet: set<Sym>, s: State, ys: seq<Sym>, path: seq<FstArc>,
                               t: State) {
    exists plain ::
      Via(plain) == path && Spells(ys, plain) && PlainPath(f, o, alphabet, At(s, None), plain, At(t, None))
  }

  lemma LeftIsUnmatched(o: MatchOptions, arcs: seq<FstArc>, alphabet: set<Sym>, a: Sym)
    requires a in alphabet
    ensures a in Left(o, arcs, alphabet) <==> Unmatched(o, arcs, a)
  {
    var named := set e | e in arcs :: e.input;
    forall b ensures b in named <==> Names(arcs, b) {
      if b in named {
        var e :| e in arcs && e.input == b;
        var k :| 0 <= k < |arcs| && arcs[k] == e;
      }
    }
  }

  /** A run can be made of plain arcs, from a state that knows what is ahead as well as from one that does not. */
  lemma {:induction false} RunIsPlain(f: Fst, o: MatchOptions, alphabet: set<Sym>, x: At, ys: seq<Sym>,
                                      path: seq<FstArc>, t: State) returns (plain: seq<PlainArc>)
    requires Run(f, o, x.s, ys, None, path, t) && HasLetters(alphabet, ys)
    requires x.due.Some? ==> ys != [] && x.due.value == ys[0]
    ensures Via(plain) == path && Spells(ys, plain) && PlainPath(f, o, alphabet, x, plain, At(t, None))
    decreases |path|
  {
    if path == [] {
      plain := [];
    } else {
      var e, arcs := path[0], f.out[x.s];
      var p: PlainArc;
      var rest;
      if Skips(o, arcs, e, Ahead(ys, None)) && Run(f, o, e.head, ys, None, path[1..], t) {
        var due := if e.input == EPSILON then x.due else Some(ys[0]);
        if e.input != EPSILON { LeftIsUnmatched(o, arcs, alphabet, ys[0]); }
        p := PlainArc(e, None, At(e.head, due));
        rest := RunIsPlain(f, o, alphabet, p.to, ys, path[1..], t);
      } else {
        LeftIsUnmatched(o, arcs, alphabet, ys[0]);
        p := PlainArc(e, Some(ys[0]), At(e.head, None));
        rest := RunIsPlain(f, o, alphabet, p.to, ys[1..], path[1..], t);
      }
      assert IsPlain(f, o, alphabet, x, p);
      plain := [p] + rest;
      assert plain[1..] == rest;
    }
  }

  /** Plain arcs make a run; and what was said to be ahead is. */
  lemma {:induction false} PlainIsRun(f: Fst, o: MatchOptions, alphabet: set<Sym>, x: At, ys: seq<Sym>,
                                      plain: seq<PlainArc>, t: State)
    requires Spells(ys, plain) && PlainPath(f, o, alphabet, x, plain, At(t, None)) && HasLetters(alphabet, ys)
    ensures Run(f, o, x.s, ys, None, Via(plain), t)
    ensures x.due.Some? ==> ys != [] && x.due.value == ys[0]
    decreases |plain|
  {
    if plain != [] {
      var p, arcs := plain[0], f.out[x.s];
      assert Via(plain)[1..] == Via(plain[1..]);
      if p.symbol.Some? {
        PlainIsRun(f, o, alphabet, p.to, ys[1..], plain[1..], t);
        LeftIsUnmatched(o, arcs, alphabet, ys[0]);
        assert Consumes(o, arcs, p.via, ys[0]);
      } else {
        PlainIsRun(f, o, alphabet, p.to, ys, plain[1..], t);
        if p.via.input != EPSILON { LeftIsUnmatched(o, arcs, alphabet, ys[0]); }
        assert Skips(o, arcs, p.via, Ahead(ys, None));
      }
    }
  }

  /** So a path reads a string exactly if it does without sigma, phi and rho. */
  lemma ReadsAlike(f: Fst, o: MatchOptions, alphabet: set<Sym>, s: State, ys: seq<Sym>, path: seq<FstArc>, t: State)
    requires HasLetters(alphabet, ys)
    ensures Run(f, o, s, ys, None, path, t) <==> ReadsPlainly(f, o, alphabet, s, ys, path, t)
  {
    if Run(f, o, s, ys, None, path, t) {
      var plain := RunIsPlain(f, o, alphabet, At(s, None), ys, path, t);
    }
    if ReadsPlainly(f, o, alphabet, s, ys, path, t) {
      var plain :| Via(plain) == path && Spells(ys, plain)
        && PlainPath(f, o, alphabet, At(s, None), plain, At(t, None));
      PlainIsRun(f, o, alphabet, At(s, None), ys, plain, t);
    }
  }

  // ----- Composition -----

  /** The symbols on the grammar's leaves that stand for themselves. */
  ghost function Letters(cfg: HG<nat>): set<Sym> {
    set s | s in cfg.labels && Ordinary(cfg.labels[s]) :: cfg.labels[s]
  }

  /** A derivation of the final state whose yield plain arcs spell along `path`. */
  ghost predicate AcceptedPlainly(p: Input, t: Tree, path: seq<FstArc>) {
    && t.Node? && p.cfg.final.Some? && Derives(p.cfg, true, t, p.cfg.final.value)
    && p.fst.final.Some?
    && ReadsPlainly(p.fst, p.opts, Letters(p.cfg), p.fst.start, Yield(p.cfg, t), path, p.fst.final.value)
  }

  lemma AcceptedAlike(p: Input, t: Tree, path: seq<FstArc>)
    ensures Accepted(p, t, path) <==> AcceptedPlainly(p, t, path)
  {
    YieldCovered(p.cfg, t);
    if p.fst.final.Some? {
      ReadsAlike(p.fst, p.opts, Letters(p.cfg), p.fst.start, Yield(p.cfg, t), path, p.fst.final.value);
    }
  }

  lemma {:induction false} YieldCovered(cfg: HG<nat>, t: Tree)
    ensures HasLetters(Letters(cfg), Yield(cfg, t))
    decreases t, 1
  {
    if t.Node? { YieldsCovered(cfg, t.kids); }
  }

  lemma {:induction false} YieldsCovered(cfg: HG<nat>, ts: seq<Tree>)
    ensures HasLetters(Letters(cfg), YieldAll(cfg, ts))
    decreases ts, 0
  {
    if ts != [] {
      YieldCovered(cfg, ts[0]);
      YieldsCovered(cfg, ts[1..]);
    }
  }

  /** By root rule `a`, a derivation and a path of plain arcs that cost at most `w` and attach every epsilon. */
  ghost predicate PlainPair(p: Input, a: nat, w: int) {
    exists t, path :: AcceptedPlainly(p, t, path) && Attachable(p, t, path) && t.arc == a && PairCost(p, t, path) <= w
  }
}
