/** Splitting one arc in two at a fresh state keeps every derivation, its yield and its cost. */
module SplitArc {
  import opened Hypergraph

  /** A derivation of `s` in `h0` goes over to one in `h1` with its yield and cost, and comes back. */
  ghost predicate GoesOver(h0: HG<int>, h1: HG<int>, to: Tree -> Tree, back: Tree -> Tree, leafAxioms: bool, t: Tree,
                           s: State) {
    Derives(h0, leafAxioms, t, s) ==>
      && Derives(h1, leafAxioms, to(t), s) && back(to(t)) == t
      && Cost(h1, to(t)) == Cost(h0, t) && Yield(h1, to(t)) == Yield(h0, t)
  }

  ghost predicate ComesBack(h0: HG<int>, h1: HG<int>, to: Tree -> Tree, back: Tree -> Tree, leafAxioms: bool, t: Tree,
                            s: State) {
    Derives(h1, leafAxioms, t, s) ==> Derives(h0, leafAxioms, back(t), s) && to(back(t)) == t
  }

  /** `to` and `back` match up the derivations that two hypergraphs give the states below `n`. */
  ghost predicate Matches(h0: HG<int>, h1: HG<int>, n: nat, to: Tree -> Tree, back: Tree -> Tree) {
    && (forall leafAxioms, t, s: State {:trigger GoesOver(h0, h1, to, back, leafAxioms, t, s)} ::
          s < n ==> GoesOver(h0, h1, to, back, leafAxioms, t, s))
    && (forall leafAxioms, t, s: State {:trigger ComesBack(h0, h1, to, back, leafAxioms, t, s)} ::
          s < n ==> ComesBack(h0, h1, to, back, leafAxioms, t, s))
  }

  /** Every state below `n` has the same derivations in both, one for one, with yields and costs. */
  ghost predicate SameDerivations(h0: HG<int>, h1: HG<int>, n: nat) {
    exists to, back :: Matches(h0, h1, n, to, back)
  }

  lemma SameReflexive(h: HG<int>, n: nat)
    ensures SameDerivations(h, h, n)
  {
    var id: Tree -> Tree := t => t;
    assert Matches(h, h, n, id, id);
  }

  lemma SameTransitive(h0: HG<int>, h1: HG<int>, h2: HG<int>, n: nat, m: nat)
    requires SameDerivations(h0, h1, n) && SameDerivations(h1, h2, m) && n <= m
    ensures SameDerivations(h0, h2, n)
  {
    hide Matches;
    var to, back :| Matches(h0, h1, n, to, back);
    var to', back' :| Matches(h1, h2, m, to', back');
    MatchesCompose(h0, h1, h2, n, m, to, back, to', back');
  }

  lemma GoesOverTwice(h0: HG<int>, h1: HG<int>, h2: HG<int>, to: Tree -> Tree, back: Tree -> Tree, to': Tree -> Tree,
                      back': Tree -> Tree,
                      there: Tree -> Tree, again: Tree -> Tree, leafAxioms: bool, t: Tree, s: State)
    requires GoesOver(h0, h1, to, back, leafAxioms, t, s) && GoesOver(h1, h2, to', back', leafAxioms, to(t), s)
    requires there(t) == to'(to(t)) && again(there(t)) == back(back'(there(t)))
    ensures GoesOver(h0, h2, there, again, leafAxioms, t, s)
  {
  }

  lemma ComesBackTwice(h0: HG<int>, h1: HG<int>, h2: HG<int>, to: Tree -> Tree, back: Tree -> Tree, to': Tree -> Tree,
                       back': Tree -> Tree,
                       there: Tree -> Tree, again: Tree -> Tree, leafAxioms: bool, t: Tree, s: State)
    requires ComesBack(h1, h2, to', back', leafAxioms, t, s) && ComesBack(h0, h1, to, back, leafAxioms, back'(t), s)
    requires again(t) == back(back'(t)) && there(again(t)) == to'(to(again(t)))
    ensures ComesBack(h0, h2, there, again, leafAxioms, t, s)
  {
  }

  ghost function Then(f: Tree -> Tree, g: Tree -> Tree): Tree -> Tree {
    t => g(f(t))
  }

  lemma ThenAt(f: Tree -> Tree, g: Tree -> Tree, t: Tree)
    ensures Then(f, g)(t) == g(f(t))
  {
  }

  lemma MatchesCompose(h0: HG<int>, h1: HG<int>, h2: HG<int>, n: nat, m: nat,
                       to: Tree -> Tree, back: Tree -> Tree, to': Tree -> Tree, back': Tree -> Tree)
    requires Matches(h0, h1, n, to, back) && Matches(h1, h2, m, to', back') && n <= m
    ensures Matches(h0, h2, n, Then(to, to'), Then(back', back))
  {
    hide GoesOver, ComesBack, Then;
    var there, again := Then(to, to'), Then(back', back);
    forall leafAxioms, t, s: State | s < n ensures GoesOver(h0, h2, there, again, leafAxioms, t, s) {
      ThenAt(to, to', t);
      ThenAt(back', back, there(t));
      assert GoesOver(h0, h1, to, back, leafAxioms, t, s);
      assert GoesOver(h1, h2, to', back', leafAxioms, to(t), s);
      GoesOverTwice(h0, h1, h2, to, back, to', back', there, again, leafAxioms, t, s);
    }
    forall leafAxioms, t, s: State | s < n ensures ComesBack(h0, h2, there, again, leafAxioms, t, s) {
      ThenAt(back', back, t);
      ThenAt(to, to', again(t));
      assert ComesBack(h1, h2, to', back', leafAxioms, t, s);
      assert ComesBack(h0, h1, to, back, leafAxioms, back'(t), s);
      ComesBackTwice(h0, h1, h2, to, back, to', back', there, again, leafAxioms, t, s);
    }
  }

  /** Heads, tails, labels and the start state all lie below `n`. */
  ghost predicate Inside<W>(h: HG<W>, n: nat) {
    && (forall a :: 0 <= a < |h.arcs| ==> h.arcs[a].head < n && forall k :: 0 <= k < |h.arcs[a].tails| ==>
        h.arcs[a].tails[k] < n)
    && (forall s :: s in h.labels ==> s < n)
    && (h.start.Some? ==> h.start.value < n)
  }

  /** Arc `a` keeps its first `j` tails and its weight and now leads to `f`; a new arc of weight one goes on from
      there. */
  function Split(h: HG<int>, a: nat, j: nat, f: State): HG<int>
    requires a < |h.arcs| && j <= |h.arcs[a].tails|
  {
    var arc := h.arcs[a];
    h.(arcs := h.arcs[a := Arc(f, arc.tails[..j], arc.weight)] + [Arc(arc.head, [f] + arc.tails[j..], 0)])
  }

  ghost function Fold(a: nat, j: nat, b: nat, t: Tree): Tree
    decreases t, 1
  {
    match t
    case Axiom(_) => t
    case Node(c, kids) =>
      var ks := FoldAll(a, j, b, kids);
      if c == a && j <= |ks| then Node(b, [Node(a, ks[..j])] + ks[j..]) else Node(c, ks)
  }

  ghost function FoldAll(a: nat, j: nat, b: nat, ts: seq<Tree>): (r: seq<Tree>)
    ensures |r| == |ts|
    decreases ts, 0
  {
    if ts == [] then [] else [Fold(a, j, b, ts[0])] + FoldAll(a, j, b, ts[1..])
  }

  ghost function Unfold(b: nat, t: Tree): Tree
    decreases t, 1
  {
    match t
    case Axiom(_) => t
    case Node(c, kids) =>
      if c == b && kids != [] && kids[0].Node? then
        Node(kids[0].arc, UnfoldAll(b, kids[0].kids) + UnfoldAll(b, kids[1..]))
      else Node(c, UnfoldAll(b, kids))
  }

  ghost function UnfoldAll(b: nat, ts: seq<Tree>): (r: seq<Tree>)
    ensures |r| == |ts|
    decreases ts, 0
  {
    if ts == [] then [] else [Unfold(b, ts[0])] + UnfoldAll(b, ts[1..])
  }

  // ----- Lists of trees, cut in two -----

  lemma {:induction false} DerivesAllCut<W>(h: HG<W>, leafAxioms: bool, ts: seq<Tree>, ss: seq<State>, j: nat)
    requires |ts| == |ss| && j <= |ts|
    ensures DerivesAll(h, leafAxioms, ts, ss) <==>
              DerivesAll(h, leafAxioms, ts[..j], ss[..j]) && DerivesAll(h, leafAxioms, ts[j..], ss[j..])
    decreases j
  {
    if j == 0 {
      assert ts[..j] == [] && ss[..j] == [] && ts[j..] == ts && ss[j..] == ss;
    } else {
      assert ts[..j][1..] == ts[1..][..j - 1] && ss[..j][1..] == ss[1..][..j - 1];
      assert ts[1..][j - 1..] == ts[j..] && ss[1..][j - 1..] == ss[j..];
      DerivesAllCut(h, leafAxioms, ts[1..], ss[1..], j - 1);
    }
  }

  lemma {:induction false} CostAllCut(h: HG<int>, ts: seq<Tree>, j: nat)
    requires j <= |ts|
    ensures CostAll(h, ts) == CostAll(h, ts[..j]) + CostAll(h, ts[j..])
    decreases j
  {
    if j == 0 {
      assert ts[..j] == [] && ts[j..] == ts;
    } else {
      assert ts[..j][1..] == ts[1..][..j - 1] && ts[1..][j - 1..] == ts[j..];
      CostAllCut(h, ts[1..], j - 1);
    }
  }

  lemma {:induction false} YieldAllCut<W>(h: HG<W>, ts: seq<Tree>, j: nat)
    requires j <= |ts|
    ensures YieldAll(h, ts) == YieldAll(h, ts[..j]) + YieldAll(h, ts[j..])
    decreases j
  {
    if j == 0 {
      assert ts[..j] == [] && ts[j..] == ts;
    } else {
      assert ts[..j][1..] == ts[1..][..j - 1] && ts[1..][j - 1..] == ts[j..];
      YieldAllCut(h, ts[1..], j - 1);
    }
  }

  lemma {:induction false} UnfoldAllJoin(b: nat, ts: seq<Tree>, us: seq<Tree>)
    ensures UnfoldAll(b, ts + us) == UnfoldAll(b, ts) + UnfoldAll(b, us)
  {
    if ts == [] {
      assert ts + us == us;
    } else {
      assert (ts + us)[1..] == ts[1..] + us;
      UnfoldAllJoin(b, ts[1..], us);
    }
  }

  lemma {:induction false} FoldAllJoin(a: nat, j: nat, b: nat, ts: seq<Tree>, us: seq<Tree>)
    ensures FoldAll(a, j, b, ts + us) == FoldAll(a, j, b, ts) + FoldAll(a, j, b, us)
  {
    if ts == [] {
      assert ts + us == us;
    } else {
      assert (ts + us)[1..] == ts[1..] + us;
      FoldAllJoin(a, j, b, ts[1..], us);
    }
  }

  // ----- Folding -----

  ghost predicate CanSplit(h: HG<int>, n: nat, a: nat, j: nat, f: State) {
    Inside(h, n) && n <= f && a < |h.arcs| && j <= |h.arcs[a].tails|
  }

  lemma {:induction false} FoldRight(h: HG<int>, n: nat, a: nat, j: nat, f: State, leafAxioms: bool, t: Tree, s: State)
    requires CanSplit(h, n, a, j, f) && Derives(h, leafAxioms, t, s) && s < n
    ensures var h', t' := Split(h, a, j, f), Fold(a, j, |h.arcs|, t);
            && Derives(h', leafAxioms, t', s) && Unfold(|h.arcs|, t') == t
            && Cost(h', t') == Cost(h, t) && Yield(h', t') == Yield(h, t)
    decreases t, 1
  {
    var b, h' := |h.arcs|, Split(h, a, j, f);
    match t
    case Axiom(_) =>
    case Node(c, kids) =>
      var tails := h.arcs[c].tails;
      FoldAllRight(h, n, a, j, f, leafAxioms, kids, tails);
      if c == a {
        var ks := FoldAll(a, j, b, kids);
        FoldNode(h, n, a, j, f, leafAxioms, ks);
        UnfoldNode(a, j, b, ks);
      }
  }

  lemma UnfoldNode(a: nat, j: nat, b: nat, ks: seq<Tree>)
    requires j <= |ks|
    ensures Unfold(b, Node(b, [Node(a, ks[..j])] + ks[j..])) == Node(a, UnfoldAll(b, ks))
  {
    UnfoldAllJoin(b, ks[..j], ks[j..]);
    assert ks[..j] + ks[j..] == ks;
    assert ([Node(a, ks[..j])] + ks[j..])[1..] == ks[j..];
  }

  /** The two nodes that stand for one: what they derive, cost and yield. */
  lemma FoldNode(h: HG<int>, n: nat, a: nat, j: nat, f: State, leafAxioms: bool, ks: seq<Tree>)
    requires CanSplit(h, n, a, j, f) && DerivesAll(Split(h, a, j, f), leafAxioms, ks, h.arcs[a].tails)
    requires leafAxioms ==> !h.IsAxiom(h.arcs[a].head)
    ensures var h', t' := Split(h, a, j, f), Node(|h.arcs|, [Node(a, ks[..j])] + ks[j..]);
            && Derives(h', leafAxioms, t', h.arcs[a].head)
            && Cost(h', t') == h.arcs[a].weight + CostAll(h', ks) && Yield(h', t') == YieldAll(h', ks)
  {
    var h', b := Split(h, a, j, f), |h.arcs|;
    var inner := Node(a, ks[..j]);
    var kids' := [inner] + ks[j..];
    DerivesAllCut(h', leafAxioms, ks, h.arcs[a].tails, j);
    CostAllCut(h', ks, j);
    YieldAllCut(h', ks, j);
    assert kids'[1..] == ks[j..] && ([f] + h.arcs[a].tails[j..])[1..] == h.arcs[a].tails[j..];
    assert !h.IsAxiom(f);
    assert Derives(h', leafAxioms, inner, f);
    assert DerivesAll(h', leafAxioms, kids', h'.arcs[b].tails);
    assert CostAll(h', kids') == Cost(h', inner) + CostAll(h', ks[j..]);
    assert YieldAll(h', kids') == Yield(h', inner) + YieldAll(h', ks[j..]);
  }

  lemma {:induction false} FoldAllRight(h: HG<int>, n: nat, a: nat, j: nat, f: State, leafAxioms: bool, ts: seq<Tree>,
                                        ss: seq<State>)
    requires CanSplit(h, n, a, j, f) && DerivesAll(h, leafAxioms, ts, ss) && forall k :: 0 <= k < |ss| ==> ss[k] < n
    ensures var h', ts' := Split(h, a, j, f), FoldAll(a, j, |h.arcs|, ts);
            && DerivesAll(h', leafAxioms, ts', ss) && UnfoldAll(|h.arcs|, ts') == ts
            && CostAll(h', ts') == CostAll(h, ts) && YieldAll(h', ts') == YieldAll(h, ts)
    decreases ts, 0
  {
    if ts != [] {
      FoldRight(h, n, a, j, f, leafAxioms, ts[0], ss[0]);
      FoldAllRight(h, n, a, j, f, leafAxioms, ts[1..], ss[1..]);
    }
  }

  lemma {:induction false} UnfoldRight(h: HG<int>, n: nat, a: nat, j: nat, f: State, leafAxioms: bool, t: Tree,
                                       s: State)
    requires CanSplit(h, n, a, j, f) && Derives(Split(h, a, j, f), leafAxioms, t, s) && s < n
    ensures Derives(h, leafAxioms, Unfold(|h.arcs|, t), s) && Fold(a, j, |h.arcs|, Unfold(|h.arcs|, t)) == t
    decreases t, 1
  {
    var b, h' := |h.arcs|, Split(h, a, j, f);
    match t
    case Axiom(_) =>
    case Node(c, kids) =>
      if c == b {
        var inner := kids[0];
        var tails := h.arcs[a].tails;
        SplitNode(h, n, a, j, f, leafAxioms, kids);
        UnfoldAllRight(h, n, a, j, f, leafAxioms, inner.kids, tails[..j]);
        UnfoldAllRight(h, n, a, j, f, leafAxioms, kids[1..], tails[j..]);
        var us, vs := UnfoldAll(b, inner.kids), UnfoldAll(b, kids[1..]);
        assert (us + vs)[..j] == us && (us + vs)[j..] == vs;
        DerivesAllCut(h, leafAxioms, us + vs, tails, j);
        FoldAllJoin(a, j, b, us, vs);
        assert (inner.kids + kids[1..])[..j] == inner.kids && (inner.kids + kids[1..])[j..] == kids[1..];
        assert [inner] + kids[1..] == kids;
      } else {
        UnfoldAllRight(h, n, a, j, f, leafAxioms, kids, h.arcs[c].tails);
      }
  }

  /** A node of the new arc has a node of the shortened one as its first child. */
  lemma SplitNode(h: HG<int>, n: nat, a: nat, j: nat, f: State, leafAxioms: bool, kids: seq<Tree>)
    requires CanSplit(h, n, a, j, f) && DerivesAll(Split(h, a, j, f), leafAxioms, kids, [f] + h.arcs[a].tails[j..])
    ensures kids != [] && kids[0].Node? && kids[0].arc == a
    ensures DerivesAll(Split(h, a, j, f), leafAxioms, kids[0].kids, h.arcs[a].tails[..j])
    ensures DerivesAll(Split(h, a, j, f), leafAxioms, kids[1..], h.arcs[a].tails[j..])
  {
    var h' := Split(h, a, j, f);
    assert Derives(h', leafAxioms, kids[0], f) && !h.IsAxiom(f);
    assert ([f] + h.arcs[a].tails[j..])[1..] == h.arcs[a].tails[j..];
  }

  lemma {:induction false} UnfoldAllRight(h: HG<int>, n: nat, a: nat, j: nat, f: State, leafAxioms: bool, ts: seq<Tree>,
                                          ss: seq<State>)
    requires CanSplit(h, n, a, j, f) && DerivesAll(Split(h, a, j, f), leafAxioms, ts, ss)
    requires forall k :: 0 <= k < |ss| ==> ss[k] < n
    ensures DerivesAll(h, leafAxioms, UnfoldAll(|h.arcs|, ts), ss)
    ensures FoldAll(a, j, |h.arcs|, UnfoldAll(|h.arcs|, ts)) == ts
    decreases ts, 0
  {
    if ts != [] {
      UnfoldRight(h, n, a, j, f, leafAxioms, ts[0], ss[0]);
      UnfoldAllRight(h, n, a, j, f, leafAxioms, ts[1..], ss[1..]);
    }
  }

  lemma SplitKeepsDerivations(h: HG<int>, n: nat, a: nat, j: nat, f: State)
    requires CanSplit(h, n, a, j, f)
    ensures SameDerivations(h, Split(h, a, j, f), n)
  {
    var to: Tree -> Tree, back: Tree -> Tree := t => Fold(a, j, |h.arcs|, t), t => Unfold(|h.arcs|, t);
    var h' := Split(h, a, j, f);
    forall leafAxioms, t, s: State | s < n ensures GoesOver(h, h', to, back, leafAxioms, t, s) {
      if Derives(h, leafAxioms, t, s) {
        FoldRight(h, n, a, j, f, leafAxioms, t, s);
      }
    }
    forall leafAxioms, t, s: State | s < n ensures ComesBack(h, h', to, back, leafAxioms, t, s) {
      if Derives(h', leafAxioms, t, s) {
        UnfoldRight(h, n, a, j, f, leafAxioms, t, s);
      }
    }
    assert Matches(h, h', n, to, back);
  }
}
