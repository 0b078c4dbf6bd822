/** What the options for special symbols mean, told without them. A special symbol whose option is set behaves like any
    letter, so that renaming it to a fresh one changes nothing. And over a finite alphabet each "else" arc can be
    replaced by plain arcs. */
module LetterOptions {
  import opened Hypergraph
  import opened Fsa

  // ----- Renaming -----

  /** `y` for `x`. */
  function RenamedSym(x: Sym, y: Sym, a: Sym): Sym {
    if a == x then y else a
  }

  function RenamedArc(x: Sym, y: Sym, e: FsaArc): FsaArc {
    e.(sym := RenamedSym(x, y, e.sym))
  }

  function RenamedArcs(x: Sym, y: Sym, arcs: seq<FsaArc>): seq<FsaArc> {
    seq(|arcs|, k requires 0 <= k < |arcs| => RenamedArc(x, y, arcs[k]))
  }

  function Renamed(x: Sym, y: Sym, m: Fsa): Fsa {
    m.(out := seq(|m.out|, s requires 0 <= s < |m.out| => RenamedArcs(x, y, m.out[s])))
  }

  function RenamedWord(x: Sym, y: Sym, w: seq<Sym>): seq<Sym> {
    seq(|w|, k requires 0 <= k < |w| => RenamedSym(x, y, w[k]))
  }

  /** `x` is special, and only `f` has its option set. */
  ghost predicate OptionFor(x: Sym, f: Flags, g: Flags) {
    || (x == EPSILON && f.epsNormal && g == f.(epsNormal := false))
    || (x == SIGMA && f.sigmaNormal && g == f.(sigmaNormal := false))
    || (x == PHI && f.phiNormal && g == f.(phiNormal := false))
    || (x == RHO && f.rhoNormal && g == f.(rhoNormal := false))
  }

  /** No arc has the symbol. */
  ghost predicate Fresh(y: Sym, m: Fsa) {
    Ordinary(y) && forall s, k :: 0 <= s < |m.out| && 0 <= k < |m.out[s]| ==> m.out[s][k].sym != y
  }

  /** Determinization has no meaning for this symbol. */
  predicate Meaningless(f: Flags, a: Sym) {
    (a == PHI && !f.phiNormal) || (a == SIGMA && !f.sigmaNormal)
  }

  ghost predicate Refused(f: Flags, m: Fsa) {
    exists s, k :: 0 <= s < |m.out| && 0 <= k < |m.out[s]| && Meaningless(f, m.out[s][k].sym)
  }

  lemma NamesRenamed(x: Sym, y: Sym, arcs: seq<FsaArc>, a: Sym)
    requires a != y && forall k :: 0 <= k < |arcs| ==> arcs[k].sym != y
    ensures Names(RenamedArcs(x, y, arcs), RenamedSym(x, y, a)) <==> Names(arcs, a)
  {
    var arcs' := RenamedArcs(x, y, arcs);
    if Names(arcs, a) {
      var k :| 0 <= k < |arcs| && arcs[k].sym == a;
      assert arcs'[k].sym == RenamedSym(x, y, a);
    }
    if Names(arcs', RenamedSym(x, y, a)) {
      var k :| 0 <= k < |arcs'| && arcs'[k].sym == RenamedSym(x, y, a);
      assert arcs[k].sym == a;
    }
  }

  lemma {:induction false} SpellsRenamed(x: Sym, y: Sym, m: Fsa, f: Flags, g: Flags, s: State, w: seq<Sym>,
                                         path: seq<FsaArc>, t: State)
    requires OptionFor(x, f, g) && Fresh(y, m) && y !in w && Spells(m, f, s, w, path, t)
    ensures Spells(Renamed(x, y, m), g, s, RenamedWord(x, y, w), RenamedArcs(x, y, path), t)
    decreases |path|
  {
    if path != [] {
      var e := path[0];
      var w', path' := RenamedWord(x, y, w), RenamedArcs(x, y, path);
      assert path'[1..] == RenamedArcs(x, y, path[1..]);
      var k :| 0 <= k < |m.out[s]| && m.out[s][k] == e;
      assert Renamed(x, y, m).out[s][k] == path'[0];
      if f.Silent(e.sym) && Spells(m, f, e.head, w, path[1..], t) {
        SpellsRenamed(x, y, m, f, g, e.head, w, path[1..], t);
      } else {
        SpellsRenamed(x, y, m, f, g, e.head, w[1..], path[1..], t);
        NamesRenamed(x, y, m.out[s], w[0]);
        assert w'[1..] == RenamedWord(x, y, w[1..]);
      }
    }
  }

  lemma {:induction false} RenamedSpells(x: Sym, y: Sym, m: Fsa, f: Flags, g: Flags, s: State, w: seq<Sym>,
                                         path': seq<FsaArc>, t: State) returns (path: seq<FsaArc>)
    requires OptionFor(x, f, g) && Fresh(y, m) && y !in w
    requires Spells(Renamed(x, y, m), g, s, RenamedWord(x, y, w), path', t)
    ensures Spells(m, f, s, w, path, t)
    decreases |path'|
  {
    if path' == [] {
      path := [];
    } else {
      var m', e', w' := Renamed(x, y, m), path'[0], RenamedWord(x, y, w);
      var k :| 0 <= k < |m'.out[s]| && m'.out[s][k] == e';
      var e := m.out[s][k];
      var rest;
      if g.Silent(e'.sym) && Spells(m', g, e'.head, w', path'[1..], t) {
        rest := RenamedSpells(x, y, m, f, g, e.head, w, path'[1..], t);
      } else {
        assert w'[1..] == RenamedWord(x, y, w[1..]);
        NamesRenamed(x, y, m.out[s], w[0]);
        rest := RenamedSpells(x, y, m, f, g, e.head, w[1..], path'[1..], t);
      }
      path := [e] + rest;
      assert path[1..] == rest;
    }
  }

  /** A special symbol whose option is set can be renamed to a letter that does not occur, and the option cleared: the
      same words are accepted up to the renaming, and the machine is refused as before. */
  lemma OptionMakesLetter(x: Sym, y: Sym, m: Fsa, f: Flags, g: Flags, w: seq<Sym>)
    requires OptionFor(x, f, g) && Fresh(y, m) && y !in w
    ensures Accepts(m, f, w) <==> Accepts(Renamed(x, y, m), g, RenamedWord(x, y, w))
    ensures Refused(f, m) <==> Refused(g, Renamed(x, y, m))
  {
    hide Renamed, RenamedWord, Refused, Spells;
    var m' := Renamed(x, y, m);
    SameEnds(x, y, m);
    if Accepts(m, f, w) {
      var path :| Spells(m, f, m.start.value, w, path, m.final.value);
      SpellsRenamed(x, y, m, f, g, m.start.value, w, path, m.final.value);
    }
    if Accepts(m', g, RenamedWord(x, y, w)) {
      var path' :| Spells(m', g, m.start.value, RenamedWord(x, y, w), path', m.final.value);
      var path := RenamedSpells(x, y, m, f, g, m.start.value, w, path', m.final.value);
    }
    RefusedAlike(x, y, m, f, g);
  }

  lemma SameEnds(x: Sym, y: Sym, m: Fsa)
    ensures Renamed(x, y, m).start == m.start && Renamed(x, y, m).final == m.final
  {
  }

  lemma RefusedAlike(x: Sym, y: Sym, m: Fsa, f: Flags, g: Flags)
    requires OptionFor(x, f, g) && Fresh(y, m)
    ensures Refused(f, m) <==> Refused(g, Renamed(x, y, m))
  {
    var m' := Renamed(x, y, m);
    if Refused(f, m) {
      var s, k :| 0 <= s < |m.out| && 0 <= k < |m.out[s]| && Meaningless(f, m.out[s][k].sym);
      assert m'.out[s][k] == RenamedArc(x, y, m.out[s][k]);
    }
    if Refused(g, m') {
      var s, k :| 0 <= s < |m'.out| && 0 <= k < |m'.out[s]| && Meaningless(g, m'.out[s][k].sym);
      assert m'.out[s][k] == RenamedArc(x, y, m.out[s][k]);
    }
  }

  // ----- Plain arcs -----

  /** An arc's replacements: it reads its own symbol, but silent epsilon nothing, and rho, unless it is a letter,
      everything in the alphabet that its state does not name. */
  datatype PlainArc = PlainArc(symbol: Option<Sym>, head: State)

  ghost function PlainArcs(f: Flags, alphabet: set<Sym>, arcs: seq<FsaArc>): set<PlainArc> {
    var named := set e | e in arcs :: e.sym;
    (set e | e in arcs && (e.sym != EPSILON || f.epsNormal) && (e.sym != RHO || f.rhoNormal) ::
      PlainArc(Some(e.sym), e.head))
    + (set e | e in arcs && e.sym == EPSILON && !f.epsNormal :: PlainArc(None, e.head))
    + (set e, a | e in arcs && a in alphabet - named && e.sym == RHO && !f.rhoNormal :: PlainArc(Some(a), e.head))
  }

  ghost predicate SpellsPlainly(m: Fsa, f: Flags, alphabet: set<Sym>, s: State, w: seq<Sym>, path: seq<PlainArc>,
                                t: State)
    decreases |path|
  {
    if path == [] then w == [] && s == t
    else
      && s < |m.out| && path[0] in PlainArcs(f, alphabet, m.out[s])
      && match path[0].symbol
         case None => SpellsPlainly(m, f, alphabet, path[0].head, w, path[1..], t)
         case Some(a) => w != [] && w[0] == a && SpellsPlainly(m, f, alphabet, path[0].head, w[1..], path[1..], t)
  }

  ghost predicate AcceptsPlainly(m: Fsa, f: Flags, alphabet: set<Sym>, w: seq<Sym>) {
    && m.start.Some? && m.final.Some?
    && exists path :: SpellsPlainly(m, f, alphabet, m.start.value, w, path, m.final.value)
  }

  /** The letters, spelled out: special symbols are letters where their options say so. */
  predicate IsLetter(f: Flags, a: Sym) {
    && (a == EPSILON ==> f.epsNormal) && (a == SIGMA ==> f.sigmaNormal)
    && (a == PHI ==> f.phiNormal) && (a == RHO ==> f.rhoNormal)
  }

  lemma LettersAreLetters(f: Flags, a: Sym)
    ensures f.Letter(a) <==> IsLetter(f, a)
    ensures f.Rejected(a) <==> Meaningless(f, a)
  {
  }

  lemma NamedIsNames(arcs: seq<FsaArc>, a: Sym)
    ensures Names(arcs, a) <==> exists e :: e in arcs && e.sym == a
  {
    if e :| e in arcs && e.sym == a {
      var k :| 0 <= k < |arcs| && arcs[k] == e;
    }
  }

  lemma ReadIsPlain(f: Flags, alphabet: set<Sym>, arcs: seq<FsaArc>, e: FsaArc, a: Sym)
    requires e in arcs && Reads(f, arcs, e, a) && a in alphabet && IsLetter(f, a)
    ensures PlainArc(Some(a), e.head) in PlainArcs(f, alphabet, arcs)
  {
    NamedIsNames(arcs, a);
  }

  lemma {:induction false} SpellsIsPlain(m: Fsa, f: Flags, alphabet: set<Sym>, s: State, w: seq<Sym>,
                                         path: seq<FsaArc>, t: State) returns (plain: seq<PlainArc>)
    requires Spells(m, f, s, w, path, t) && forall a :: a in w ==> a in alphabet && IsLetter(f, a)
    ensures SpellsPlainly(m, f, alphabet, s, w, plain, t)
    decreases |path|
  {
    if path == [] {
      plain := [];
    } else {
      var e := path[0];
      var rest;
      if f.Silent(e.sym) && Spells(m, f, e.head, w, path[1..], t) {
        rest := SpellsIsPlain(m, f, alphabet, e.head, w, path[1..], t);
        plain := [PlainArc(None, e.head)] + rest;
      } else {
        ReadIsPlain(f, alphabet, m.out[s], e, w[0]);
        rest := SpellsIsPlain(m, f, alphabet, e.head, w[1..], path[1..], t);
        plain := [PlainArc(Some(w[0]), e.head)] + rest;
      }
      assert plain[1..] == rest;
    }
  }

  lemma {:induction false} PlainIsSpelled(m: Fsa, f: Flags, alphabet: set<Sym>, s: State, w: seq<Sym>,
                                          plain: seq<PlainArc>, t: State) returns (path: seq<FsaArc>)
    requires SpellsPlainly(m, f, alphabet, s, w, plain, t)
    ensures Spells(m, f, s, w, path, t)
    decreases |plain|
  {
    if plain == [] {
      path := [];
    } else {
      var p := plain[0];
      var e: FsaArc;
      var rest;
      if p.symbol.None? {
        e := FsaArc(EPSILON, p.head);
        rest := PlainIsSpelled(m, f, alphabet, p.head, w, plain[1..], t);
      } else {
        NamedIsNames(m.out[s], w[0]);
        e :| e in m.out[s] && e.head == p.head && Reads(f, m.out[s], e, w[0]);
        rest := PlainIsSpelled(m, f, alphabet, p.head, w[1..], plain[1..], t);
      }
      path := [e] + rest;
      assert path[1..] == rest;
    }
  }

  /** So a word is accepted exactly if it is by plain arcs. */
  lemma AcceptsAlike(m: Fsa, f: Flags, alphabet: set<Sym>, w: seq<Sym>)
    requires forall a :: a in w ==> a in alphabet && IsLetter(f, a)
    ensures Accepts(m, f, w) <==> AcceptsPlainly(m, f, alphabet, w)
  {
    if Accepts(m, f, w) {
      var path :| Spells(m, f, m.start.value, w, path, m.final.value);
      var plain := SpellsIsPlain(m, f, alphabet, m.start.value, w, path, m.final.value);
    }
    if AcceptsPlainly(m, f, alphabet, w) {
      var plain :| SpellsPlainly(m, f, alphabet, m.start.value, w, plain, m.final.value);
      var path := PlainIsSpelled(m, f, alphabet, m.start.value, w, plain, m.final.value);
    }
  }
}
