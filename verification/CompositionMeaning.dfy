/** The items of the composition chart and the pairs of a derivation and a path they stand for. */
module CompositionMeaning {
  import opened Hypergraph
  import opened Transducer
  import opened EarleyItems
  import opened EpsilonPlaces

  ghost function NextState(p: Input, x: Item): State {
    if p.InRange(x) && !p.IsComplete(x) then p.Next(x) else 0
  }

  /** The derivations of the tails before the dot. */
  ghost function KidsOf(p: Input, h: Story): seq<Tree> {
    match h
    case Begin(_, _) => []
    case Skip(b, _) => KidsOf(p, b)
    case Silent(b) => KidsOf(p, b) + [Axiom(NextState(p, ItemOf(b)))]
    case Read(b, _) => KidsOf(p, b) + [Axiom(NextState(p, ItemOf(b)))]
    case Join(b, k) => KidsOf(p, b) + [Node(ItemOf(k).arc, KidsOf(p, k))]
  }

  /** The path from the item's beginning to its end. */
  ghost function PathOf(h: Story): seq<FstArc> {
    match h
    case Begin(_, _) => []
    case Skip(b, e) => PathOf(b) + [e]
    case Silent(b) => PathOf(b)
    case Read(b, e) => PathOf(b) + [e]
    case Join(b, k) => PathOf(b) + PathOf(k)
  }

  /** Item `z` stands for the pair: it can come about by that derivation and along that path. */
  ghost predicate Covers(p: Input, z: Item, t: Tree, path: seq<FstArc>) {
    exists h :: CoversBy(p, z, t, path, h)
  }

  ghost predicate CoversBy(p: Input, z: Item, t: Tree, path: seq<FstArc>, h: Story) {
    p.InRange(z) && p.IsFinal(z) && Told(p, h) && ItemOf(h) == z && t == Node(z.arc, KidsOf(p, h)) && path == PathOf(h)
  }

  // ----- What a story means -----

  /** Derivations `kids` of the tails before the dot, and a path that reads their yield. */
  ghost predicate Witness(p: Input, x: Item, kids: seq<Tree>, path: seq<FstArc>) {
    && p.InRange(x) && |kids| == x.dot
    && DerivesAll(p.cfg, true, kids, p.cfg.arcs[x.arc].tails[..x.dot])
    && Run(p.fst, p.opts, x.from, YieldAll(p.cfg, kids), p.Lookahead(x), path, x.to)
  }

  ghost function WitnessCost(p: Input, x: Item, kids: seq<Tree>, path: seq<FstArc>): int
    requires x.arc < |p.cfg.arcs|
  {
    p.cfg.arcs[x.arc].weight + CostAll(p.cfg, kids) + PathCost(path)
  }

  lemma WitnessAdvance(p: Input, x: Item, kids: seq<Tree>, t: Tree)
    requires p.InRange(x) && !p.IsComplete(x) && |kids| == x.dot
    requires DerivesAll(p.cfg, true, kids, p.cfg.arcs[x.arc].tails[..x.dot]) && Derives(p.cfg, true, t, p.Next(x))
    ensures DerivesAll(p.cfg, true, kids + [t], p.cfg.arcs[x.arc].tails[..x.dot + 1])
    ensures CostAll(p.cfg, kids + [t]) == CostAll(p.cfg, kids) + Cost(p.cfg, t)
    ensures YieldAll(p.cfg, kids + [t]) == YieldAll(p.cfg, kids) + Yield(p.cfg, t)
  {
    var tails := p.cfg.arcs[x.arc].tails;
    assert tails[..x.dot + 1] == tails[..x.dot] + [tails[x.dot]];
    DerivesAllAppend(p.cfg, true, kids, t, tails[..x.dot], tails[x.dot]);
    CostAllAppend(p.cfg, kids, t);
    YieldAllAppend(p.cfg, kids, t);
  }

  lemma PathCostOne(path: seq<FstArc>, e: FstArc)
    ensures PathCost(path + [e]) == PathCost(path) + e.weight
  {
    PathCostAppend(path, [e]);
    assert PathCost([e]) == e.weight + PathCost([e][1..]);
  }

  lemma WitnessSkip(p: Input, x: Item, kids: seq<Tree>, path: seq<FstArc>, e: FstArc)
    requires p.Valid() && Witness(p, x, kids, path) && e in p.fst.out[x.to] && SkipsAt(p, x, e)
    ensures Witness(p, Skipped(x, e.head), kids, path + [e])
    ensures WitnessCost(p, x, kids, path + [e]) == WitnessCost(p, x, kids, path) + e.weight
  {
    RunSkip(p.fst, p.opts, x.from, YieldAll(p.cfg, kids), p.Lookahead(x), path, x.to, e);
    PathCostOne(path, e);
  }

  lemma WitnessRead(p: Input, x: Item, kids: seq<Tree>, path: seq<FstArc>, e: FstArc)
    requires p.Valid() && Witness(p, x, kids, path) && e in p.fst.out[x.to] && ReadsAt(p, x, e)
    ensures Witness(p, Advanced(x, e.head), kids + [Axiom(p.Next(x))], path + [e])
    ensures WitnessCost(p, x, kids + [Axiom(p.Next(x))], path + [e]) == WitnessCost(p, x, kids, path) + e.weight
  {
    var t, y, a := Axiom(p.Next(x)), Advanced(x, e.head), p.Lookahead(x).value;
    WitnessAdvance(p, x, kids, t);
    RunConsume(p.fst, p.opts, x.from, YieldAll(p.cfg, kids), path, x.to, e, a);
    RunWeaken(p.fst, p.opts, x.from, YieldAll(p.cfg, kids) + [a], path + [e], e.head, p.Lookahead(y));
    PathCostOne(path, e);
  }

  lemma WitnessSilent(p: Input, x: Item, kids: seq<Tree>, path: seq<FstArc>)
    requires p.Valid() && Witness(p, x, kids, path) && SilentAt(p, x)
    ensures Witness(p, Advanced(x, x.to), kids + [Axiom(p.Next(x))], path)
    ensures WitnessCost(p, x, kids + [Axiom(p.Next(x))], path) == WitnessCost(p, x, kids, path)
  {
    var t, y := Axiom(p.Next(x)), Advanced(x, x.to);
    WitnessAdvance(p, x, kids, t);
    assert YieldAll(p.cfg, kids + [t]) == YieldAll(p.cfg, kids);
    RunWeaken(p.fst, p.opts, x.from, YieldAll(p.cfg, kids), path, x.to, p.Lookahead(y));
  }

  lemma WitnessJoin(p: Input, x: Item, kids: seq<Tree>, path: seq<FstArc>, y: Item, kids': seq<Tree>,
                    path': seq<FstArc>)
    requires p.Valid() && Witness(p, x, kids, path) && Witness(p, y, kids', path') && p.Fits(x, y)
    requires !p.cfg.IsAxiom(p.Head(y))
    ensures Witness(p, Advanced(x, y.to), kids + [Node(y.arc, kids')], path + path')
    ensures WitnessCost(p, x, kids + [Node(y.arc, kids')], path + path')
         == WitnessCost(p, x, kids, path) + WitnessCost(p, y, kids', path')
  {
    var t, z := Node(y.arc, kids'), Advanced(x, y.to);
    var ys, ys' := YieldAll(p.cfg, kids), YieldAll(p.cfg, kids');
    assert p.cfg.arcs[y.arc].tails[..y.dot] == p.cfg.arcs[y.arc].tails;
    assert Derives(p.cfg, true, t, p.Next(x));
    WitnessAdvance(p, x, kids, t);
    RunJoin(p.fst, p.opts, x.from, ys, path, x.to, ys', None, path', y.to);
    RunWeaken(p.fst, p.opts, x.from, ys + ys', path + path', y.to, p.Lookahead(z));
    PathCostAppend(path, path');
  }

  /** A story is told by derivations and a path that together cost what it costs. */
  lemma {:induction false} StoryWitness(p: Input, h: Story)
    requires p.Valid() && Told(p, h)
    ensures Witness(p, ItemOf(h), KidsOf(p, h), PathOf(h))
    ensures CostOf(p, h) == WitnessCost(p, ItemOf(h), KidsOf(p, h), PathOf(h))
    decreases h
  {
    match h
    case Begin(_, _) =>
    case Skip(b, e) =>
      StoryWitness(p, b);
      WitnessSkip(p, ItemOf(b), KidsOf(p, b), PathOf(b), e);
    case Silent(b) =>
      StoryWitness(p, b);
      WitnessSilent(p, ItemOf(b), KidsOf(p, b), PathOf(b));
    case Read(b, e) =>
      StoryWitness(p, b);
      WitnessRead(p, ItemOf(b), KidsOf(p, b), PathOf(b), e);
    case Join(b, k) =>
      StoryWitness(p, b);
      StoryWitness(p, k);
      WitnessJoin(p, ItemOf(b), KidsOf(p, b), PathOf(b), ItemOf(k), KidsOf(p, k), PathOf(k));
  }

  // ----- A story puts epsilons only where they fit -----

  /** What is known of each arc after the last symbol that was read. */
  ghost predicate Trails(p: Input, x: Item, e: FstArc, room: bool)
    requires p.InRange(x)
  {
    && e.input in {EPSILON, PHI}
    && (p.Lookahead(x).None? ==> e.input == EPSILON)
    && (!p.IsComplete(x) && p.Next(x) !in p.cfg.labels ==> room || p.cfg.start == Some(p.Next(x)))
    && (x.dot == 0 && p.cfg.start == Some(p.cfg.arcs[x.arc].tails[0]) ==> e.input == PHI)
  }

  ghost predicate TrailingRight(p: Input, x: Item, rest: Rest)
    requires p.InRange(x)
  {
    match rest
    case Stuck => false
    case Left(tr, room) => forall k :: 0 <= k < |tr| ==> Trails(p, x, tr[k], room)
  }

  /** Every epsilon arc so far has a place. */
  ghost predicate WellPlaced(p: Input, x: Item, kids: seq<Tree>, path: seq<FstArc>) {
    p.InRange(x) && |kids| == x.dot && TrailingRight(p, x, After(Marks(p.cfg, kids, true), path, false))
  }

  lemma PlacedSkip(p: Input, x: Item, kids: seq<Tree>, path: seq<FstArc>, e: FstArc)
    requires p.Valid() && WellPlaced(p, x, kids, path) && e in p.fst.out[x.to] && SkipsAt(p, x, e)
    ensures WellPlaced(p, Skipped(x, e.head), kids, path + [e])
  {
    AfterMore(Marks(p.cfg, kids, true), path, [e], false);
  }

  lemma PlacedSilent(p: Input, x: Item, kids: seq<Tree>, path: seq<FstArc>)
    requires p.Valid() && WellPlaced(p, x, kids, path) && SilentAt(p, x)
    ensures WellPlaced(p, Advanced(x, x.to), kids + [Axiom(p.Next(x))], path)
  {
    MarksAppend(p.cfg, kids, Axiom(p.Next(x)), true);
    AfterJoin(Marks(p.cfg, kids, true), [Place], path, false);
    assert [Place][1..] == [];
  }

  lemma PlacedRead(p: Input, x: Item, kids: seq<Tree>, path: seq<FstArc>, e: FstArc)
    requires p.Valid() && WellPlaced(p, x, kids, path) && e in p.fst.out[x.to] && ReadsAt(p, x, e)
    ensures WellPlaced(p, Advanced(x, e.head), kids + [Axiom(p.Next(x))], path + [e])
  {
    var ms := Marks(p.cfg, kids, true);
    var l := After(ms, path, false);
    MarksAppend(p.cfg, kids, Axiom(p.Next(x)), true);
    var m := LeafMark(p.cfg, p.Next(x), kids == []);
    AfterMore(ms, path, [e], false);
    AfterJoin(ms, [m], path + [e], false);
    AfterRead(m.a, m.bare, l.path, e, l.room);
  }

  lemma PlacedJoin(p: Input, x: Item, kids: seq<Tree>, path: seq<FstArc>, y: Item, kids': seq<Tree>, path': seq<FstArc>)
    requires p.Valid() && WellPlaced(p, x, kids, path) && WellPlaced(p, y, kids', path') && p.Fits(x, y)
    requires !p.cfg.IsAxiom(p.Head(y))
    ensures WellPlaced(p, Advanced(x, y.to), kids + [Node(y.arc, kids')], path + path')
  {
    var ms, ms' := Marks(p.cfg, kids, true), Marks(p.cfg, kids', true);
    var l := After(ms, path, false);
    MarksAppend(p.cfg, kids, Node(y.arc, kids'), true);
    AfterMore(ms, path, path', false);
    AfterJoin(ms, ms' + [Place], path + path', false);
    assert l.path != [] ==> Trails(p, x, l.path[0], l.room);
    AfterPrefixed(ms', l.path, path', false, l.room);
    AfterJoin(ms', [Place], l.path + path', l.room);
    assert [Place][1..] == [];
  }

  lemma {:induction false} StoryPlaces(p: Input, h: Story)
    requires p.Valid() && Told(p, h)
    ensures WellPlaced(p, ItemOf(h), KidsOf(p, h), PathOf(h))
    decreases h
  {
    match h
    case Begin(_, _) =>
    case Skip(b, e) =>
      StoryPlaces(p, b);
      PlacedSkip(p, ItemOf(b), KidsOf(p, b), PathOf(b), e);
    case Silent(b) =>
      StoryPlaces(p, b);
      PlacedSilent(p, ItemOf(b), KidsOf(p, b), PathOf(b));
    case Read(b, e) =>
      StoryPlaces(p, b);
      PlacedRead(p, ItemOf(b), KidsOf(p, b), PathOf(b), e);
    case Join(b, k) =>
      StoryPlaces(p, b);
      StoryPlaces(p, k);
      PlacedJoin(p, ItemOf(b), KidsOf(p, b), PathOf(b), ItemOf(k), KidsOf(p, k), PathOf(k));
  }

  // ----- Where epsilons fit there is a story -----

  /** An epsilon at the front of `path` is not stranded behind a constituent. */
  ghost predicate CanTakeEpsilon(p: Input, x: Item, path: seq<FstArc>)
    requires p.InRange(x)
  {
    path != [] && path[0].input == EPSILON && x.dot > 0 && !x.lastWasPhiOrEps ==>
      p.cfg.IsAxiom(p.cfg.arcs[x.arc].tails[x.dot - 1])
  }

  /** The rest of the item's tails is derived by `ts`, whose yield `path` reads on the way to `t`, with
      every epsilon in its place. */
  ghost predicate LiesAhead(p: Input, x: Item, ts: seq<Tree>, path: seq<FstArc>, t: State) {
    && p.InRange(x)
    && DerivesAll(p.cfg, true, ts, p.cfg.arcs[x.arc].tails[x.dot..])
    && Run(p.fst, p.opts, x.to, YieldAll(p.cfg, ts), None, path, t)
    && CanTakeEpsilon(p, x, path)
    && EpsilonsFit(Marks(p.cfg, ts, x.dot == 0), path, false)
  }

  /** `g` goes on from `h` over `ts` along `path` to the end of the arc. */
  ghost predicate GoesOn(p: Input, h: Story, ts: seq<Tree>, path: seq<FstArc>, t: State, g: Story) {
    && Told(p, g) && p.IsComplete(ItemOf(g)) && ItemOf(g).from == ItemOf(h).from && ItemOf(g).to == t
    && ItemOf(g).arc == ItemOf(h).arc && KidsOf(p, g) == KidsOf(p, h) + ts && PathOf(g) == PathOf(h) + path
  }

  lemma GoesOnFrom(p: Input, h: Story, h': Story, k: seq<Tree>, e: seq<FstArc>, ts: seq<Tree>, path: seq<FstArc>,
                   t: State, g: Story)
    requires GoesOn(p, h', ts, path, t, g)
    requires ItemOf(h').from == ItemOf(h).from && ItemOf(h').arc == ItemOf(h).arc
    requires KidsOf(p, h') == KidsOf(p, h) + k && PathOf(h') == PathOf(h) + e
    ensures GoesOn(p, h, k + ts, e + path, t, g)
  {
    hide Told, KidsOf, PathOf, ItemOf;
    assert KidsOf(p, h) + k + ts == KidsOf(p, h) + (k + ts);
    assert PathOf(h) + e + path == PathOf(h) + (e + path);
  }

  lemma FirstKid(p: Input, x: Item, ts: seq<Tree>)
    requires p.InRange(x) && ts != [] && DerivesAll(p.cfg, true, ts, p.cfg.arcs[x.arc].tails[x.dot..])
    ensures !p.IsComplete(x) && Derives(p.cfg, true, ts[0], p.Next(x))
    ensures DerivesAll(p.cfg, true, ts[1..], p.cfg.arcs[x.arc].tails[x.dot + 1..])
  {
    var tails := p.cfg.arcs[x.arc].tails;
    assert tails[x.dot..][0] == tails[x.dot] && tails[x.dot..][1..] == tails[x.dot + 1..];
  }

  lemma {:induction false} StoryExists(p: Input, h: Story, ts: seq<Tree>, path: seq<FstArc>, t: State)
    returns (g: Story)
    requires p.Valid() && Told(p, h) && LiesAhead(p, ItemOf(h), ts, path, t)
    ensures GoesOn(p, h, ts, path, t, g)
    decreases ts, 1, |path|
  {
    var x := ItemOf(h);
    if ts == [] {
      g := StoryEnds(p, h, path, t);
    } else if p.Next(x) in p.cfg.labels {
      g := StoryOverLeaf(p, h, ts, path, t);
    } else if p.cfg.start == Some(p.Next(x)) {
      g := StoryOverSilence(p, h, ts, path, t);
    } else {
      var kid, rest := ts[0], ts[1..];
      var path1, m, path2 := CutAtKid(p, x, ts, path, t);
      var k0 := Begin(x.to, kid.arc);
      assert p.cfg.arcs[kid.arc].tails[0..] == p.cfg.arcs[kid.arc].tails;
      var k := StoryExists(p, k0, kid.kids, path1, m);
      assert [] + kid.kids == kid.kids && [] + path1 == path1;
      var h' := Join(h, k);
      g := StoryExists(p, h', rest, path2, t);
      GoesOnFrom(p, h, h', [kid], path1, rest, path2, t, g);
      assert [kid] + rest == ts;
    }
  }

  /** Before a constituent the path is cut so that leading epsilons go with it. */
  lemma CutAtKid(p: Input, x: Item, ts: seq<Tree>, path: seq<FstArc>, t: State)
    returns (path1: seq<FstArc>, m: State, path2: seq<FstArc>)
    requires p.Valid() && LiesAhead(p, x, ts, path, t) && ts != [] && p.Next(x) !in p.cfg.labels
    requires p.cfg.start != Some(p.Next(x))
    ensures path == path1 + path2 && ts[0].Node? && ts[0].arc < |p.cfg.arcs| && p.cfg.arcs[ts[0].arc].head == p.Next(x)
    ensures x.to < |p.fst.out| && m < |p.fst.out| && !p.cfg.IsAxiom(p.Next(x))
    ensures |p.cfg.arcs[ts[0].arc].tails| > 0
    ensures LiesAhead(p, Item(x.to, x.to, ts[0].arc, 0, false), ts[0].kids, path1, m)
    ensures LiesAhead(p, Advanced(x, m), ts[1..], path2, t)
  {
    var kid, rest := ts[0], ts[1..];
    FirstKid(p, x, ts);
    path1, m, path2 := RunSplit(p.fst, p.opts, x.to, Yield(p.cfg, kid), YieldAll(p.cfg, rest), path, t);
    RunEndsInside(p.fst, p.opts, x.to, Yield(p.cfg, kid), None, path1, m);
    var ms, ns := Marks(p.cfg, kid.kids, true), Marks(p.cfg, rest, false);
    SymbolsAreYield(p.cfg, kid.kids, true);
    assert Marks(p.cfg, ts, x.dot == 0) == ms + [Place] + ns;
    FitsCut(p.fst, p.opts, x.to, ms, ns, path1, m, path2);
    RoomUnneeded(ns, path2, true);
    assert p.cfg.arcs[kid.arc].tails[0..] == p.cfg.arcs[kid.arc].tails;
  }

  lemma {:induction false} StoryEnds(p: Input, h: Story, path: seq<FstArc>, t: State) returns (g: Story)
    requires p.Valid() && Told(p, h) && LiesAhead(p, ItemOf(h), [], path, t)
    ensures GoesOn(p, h, [], path, t, g)
    decreases |path|
  {
    if path == [] {
      g := h;
    } else {
      var h' := Skip(h, path[0]);
      g := StoryEnds(p, h', path[1..], t);
      GoesOnFrom(p, h, h', [], [path[0]], [], path[1..], t, g);
      assert [path[0]] + path[1..] == path;
    }
  }

  /** Over a leaf that reads nothing. */
  lemma StoryOverSilence(p: Input, h: Story, ts: seq<Tree>, path: seq<FstArc>, t: State) returns (g: Story)
    requires p.Valid() && Told(p, h) && LiesAhead(p, ItemOf(h), ts, path, t) && ts != [] && SilentAt(p, ItemOf(h))
    requires p.cfg.start == Some(p.Next(ItemOf(h))) || path == [] || path[0].input != EPSILON
    ensures GoesOn(p, h, ts, path, t, g)
    decreases ts, 0, 0
  {
    var h', rest := Silent(h), ts[1..];
    SilenceAhead(p, ItemOf(h), ts, path, t);
    g := StoryExists(p, h', rest, path, t);
    GoesOnFrom(p, h, h', [ts[0]], [], rest, path, t, g);
    assert [ts[0]] + rest == ts && [] + path == path;
  }

  /** What lies ahead of a leaf that reads nothing lies ahead of its end. */
  lemma SilenceAhead(p: Input, x: Item, ts: seq<Tree>, path: seq<FstArc>, t: State)
    requires p.Valid() && LiesAhead(p, x, ts, path, t) && ts != [] && SilentAt(p, x)
    requires p.cfg.start == Some(p.Next(x)) || path == [] || path[0].input != EPSILON
    ensures ts[0] == Axiom(p.Next(x)) && LiesAhead(p, Advanced(x, x.to), ts[1..], path, t)
  {
    var rest := ts[1..];
    FirstKid(p, x, ts);
    assert ts[0] == Axiom(p.Next(x)) && YieldAll(p.cfg, ts) == YieldAll(p.cfg, rest);
    var ms := Marks(p.cfg, rest, false);
    assert EpsilonsFit(ms, path, true) by {
      assert Marks(p.cfg, ts, x.dot == 0) == [Place] + ms;
      assert ([Place] + ms)[1..] == ms;
    }
    assert EpsilonsFit(ms, path, false) by {
      if p.cfg.start == Some(p.Next(x)) {
        NothingIsBare(p.cfg, rest, false);
      }
      RoomUnneeded(ms, path, true);
    }
  }

  lemma {:induction false} StoryOverLeaf(p: Input, h: Story, ts: seq<Tree>, path: seq<FstArc>, t: State)
    returns (g: Story)
    requires p.Valid() && Told(p, h) && LiesAhead(p, ItemOf(h), ts, path, t) && ts != []
    requires !p.IsComplete(ItemOf(h)) && p.Next(ItemOf(h)) in p.cfg.labels
    ensures GoesOn(p, h, ts, path, t, g)
    decreases ts, 0, |path| + 1
  {
    hide LiesAhead, GoesOn, SkipsAt, ReadsAt;
    var x := ItemOf(h);
    var rest, a := ts[1..], p.cfg.labels[p.Next(x)];
    LeafAhead(p, x, ts, path, t);
    if path != [] && MaySkip(p, x, path[0], a) {
      var h' := Skip(h, path[0]);
      g := StoryOverLeaf(p, h', ts, path[1..], t);
      GoesOnFrom(p, h, h', [], [path[0]], ts, path[1..], t, g);
      assert [path[0]] + path[1..] == path && [] + ts == ts;
    } else if a == EPSILON {
      g := StoryOverSilence(p, h, ts, path, t);
    } else {
      var h' := Read(h, path[0]);
      g := StoryExists(p, h', rest, path[1..], t);
      GoesOnFrom(p, h, h', [ts[0]], [path[0]], rest, path[1..], t, g);
      assert [path[0]] + path[1..] == path && [ts[0]] + rest == ts;
    }
  }

  /** The arc is taken without reading, before the leaf labelled `a`. */
  ghost predicate MaySkip(p: Input, x: Item, e: FstArc, a: Sym)
    requires p.InRange(x)
  {
    (e.input == EPSILON && p.EpsilonAllowed(x)) || (e.input == PHI && a != EPSILON)
  }

  /** What the first arc of the path does at a leaf. */
  lemma LeafAhead(p: Input, x: Item, ts: seq<Tree>, path: seq<FstArc>, t: State)
    requires p.Valid() && LiesAhead(p, x, ts, path, t) && ts != [] && p.Next(x) in p.cfg.labels
    ensures ts[0] == Axiom(p.Next(x)) && (path != [] ==> path[0] in p.fst.out[x.to] && path[0].head < |p.fst.out|)
    ensures path != [] && MaySkip(p, x, path[0], p.cfg.labels[p.Next(x)]) ==>
              SkipsAt(p, x, path[0]) && LiesAhead(p, Skipped(x, path[0].head), ts, path[1..], t)
    ensures path != [] && path[0].input == EPSILON && !p.EpsilonAllowed(x) ==>
              p.cfg.start == Some(p.Next(x)) && p.cfg.labels[p.Next(x)] == EPSILON
    ensures p.cfg.labels[p.Next(x)] != EPSILON && (path == [] || (path[0].input != PHI && path[0].input != EPSILON)) ==>
              path != [] && ReadsAt(p, x, path[0]) && LiesAhead(p, Advanced(x, path[0].head), ts[1..], path[1..], t)
  {
    var a, rest := p.cfg.labels[p.Next(x)], ts[1..];
    FirstKid(p, x, ts);
    assert ts[0] == Axiom(p.Next(x));
    var m, ms := LeafMark(p.cfg, p.Next(x), x.dot == 0), Marks(p.cfg, rest, false);
    assert Marks(p.cfg, ts, x.dot == 0) == [m] + ms && ([m] + ms)[1..] == ms;
    assert a != EPSILON ==> YieldAll(p.cfg, ts) == [a] + YieldAll(p.cfg, rest);
    assert ([a] + YieldAll(p.cfg, rest))[1..] == YieldAll(p.cfg, rest);
    if path != [] && path[0].input == EPSILON {
      assert [path[0]] + path[1..] == path;
      DropSilence([m] + ms, [path[0]], path[1..], false);
    }
  }

  // ----- The pairs a final item stands for -----

  lemma CoversCost(p: Input, z: Item, t: Tree, path: seq<FstArc>, h: Story)
    requires p.Valid() && CoversBy(p, z, t, path, h)
    ensures Accepted(p, t, path) && Attachable(p, t, path) && CostOf(p, h) == PairCost(p, t, path)
  {
    StoryWitness(p, h);
    StoryPlaces(p, h);
    assert p.cfg.arcs[z.arc].tails[..z.dot] == p.cfg.arcs[z.arc].tails;
  }

  lemma CoveredRule(p: Input, z: Item, t: Tree, path: seq<FstArc>)
    requires Covers(p, z, t, path)
    ensures t.Node? && t.arc == z.arc
  {
  }

  lemma FinalCoversPair(p: Input, z: Item, w: nat) returns (t: Tree, path: seq<FstArc>)
    requires p.Valid() && Promised(p, z, w) && p.InRange(z) && p.IsFinal(z)
    ensures Covers(p, z, t, path) && PairCost(p, t, path) == w
  {
    var h :| Tells(p, h, z, w);
    t, path := Node(z.arc, KidsOf(p, h)), PathOf(h);
    assert CoversBy(p, z, t, path, h);
    CoversCost(p, z, t, path, h);
  }

  /** Some final item stands for a pair exactly when the pair is accepted and every epsilon has its place. */
  lemma CoveredIffAttachable(p: Input, t: Tree, path: seq<FstArc>)
    requires p.Valid()
    ensures (exists z :: Covers(p, z, t, path)) <==> Accepted(p, t, path) && Attachable(p, t, path)
  {
    if z :| Covers(p, z, t, path) {
      var h :| CoversBy(p, z, t, path, h);
      CoversCost(p, z, t, path, h);
    }
    if Accepted(p, t, path) && Attachable(p, t, path) {
      var h := Begin(p.fst.start, t.arc);
      assert p.cfg.arcs[t.arc].tails[0..] == p.cfg.arcs[t.arc].tails;
      var g := StoryExists(p, h, t.kids, path, p.fst.final.value);
      assert [] + t.kids == t.kids && [] + path == path;
      assert CoversBy(p, ItemOf(g), t, path, g);
      assert Covers(p, ItemOf(g), t, path);
    }
  }

  /** Either the transducer has no epsilon arc, or no arc begins with a start state that reads something. */
  ghost predicate HarmlessStarts(p: Input) {
    || (forall s, k :: 0 <= s < |p.fst.out| && 0 <= k < |p.fst.out[s]| ==> p.fst.out[s][k].input != EPSILON)
    || !StartReads(p.cfg)
    || (forall a :: 0 <= a < |p.cfg.arcs| && |p.cfg.arcs[a].tails| > 0 ==> p.cfg.start != Some(p.cfg.arcs[a].tails[0]))
  }

  /** Then epsilons fit wherever they are. */
  lemma HarmlessIsAttachable(p: Input, t: Tree, path: seq<FstArc>)
    requires p.Valid() && HarmlessStarts(p) && Accepted(p, t, path)
    ensures Attachable(p, t, path)
  {
    var ms := Marks(p.cfg, t.kids, true);
    SymbolsAreYield(p.cfg, t.kids, true);
    if !StartReads(p.cfg) {
      NothingIsBare(p.cfg, t.kids, true);
    } else if forall a :: 0 <= a < |p.cfg.arcs| && |p.cfg.arcs[a].tails| > 0 ==>
      p.cfg.start != Some(p.cfg.arcs[a].tails[0]) {
      NothingStartsBare(p, t.kids, p.cfg.arcs[t.arc].tails, true);
    } else {
      NoEpsilonOnRun(p, p.fst.start, Symbols(ms), path, p.fst.final.value);
    }
    RunFits(p, p.fst.start, ms, path, p.fst.final.value, false);
  }

  lemma {:induction false} NothingStartsBare(p: Input, ts: seq<Tree>, ss: seq<State>, first: bool)
    requires p.Valid() && DerivesAll(p.cfg, true, ts, ss)
    requires first && ss != [] ==> p.cfg.start != Some(ss[0])
    requires forall a :: 0 <= a < |p.cfg.arcs| ==> p.cfg.start != Some(p.cfg.arcs[a].tails[0])
    ensures NothingBare(Marks(p.cfg, ts, first))
    decreases ts
  {
    if ts != [] {
      NothingStartsBare(p, ts[1..], ss[1..], false);
      if ts[0].Node? {
        NothingStartsBare(p, ts[0].kids, p.cfg.arcs[ts[0].arc].tails, true);
      }
    }
  }

  lemma {:induction false} NoEpsilonOnRun(p: Input, s: State, ys: seq<Sym>, path: seq<FstArc>, t: State)
    requires Run(p.fst, p.opts, s, ys, None, path, t)
    requires forall s, k :: 0 <= s < |p.fst.out| && 0 <= k < |p.fst.out[s]| ==> p.fst.out[s][k].input != EPSILON
    ensures forall k :: 0 <= k < |path| ==> path[k].input != EPSILON
    decreases |path|
  {
    if path != [] {
      if Run(p.fst, p.opts, path[0].head, ys, None, path[1..], t) {
        NoEpsilonOnRun(p, path[0].head, ys, path[1..], t);
      } else {
        NoEpsilonOnRun(p, path[0].head, ys[1..], path[1..], t);
      }
      assert forall k :: 0 < k < |path| ==> path[k] == path[1..][k - 1];
    }
  }

  lemma {:induction false} RunFits(p: Input, s: State, ms: seq<Mark>, path: seq<FstArc>, t: State, room: bool)
    requires Run(p.fst, p.opts, s, Symbols(ms), None, path, t)
    requires NothingBare(ms) || forall k :: 0 <= k < |path| ==> path[k].input != EPSILON
    ensures EpsilonsFit(ms, path, room)
    decreases |ms| + |path|
  {
    if ms != [] {
      if ms[0].Place? {
        assert Symbols(ms) == Symbols(ms[1..]);
        RunFits(p, s, ms[1..], path, t, true);
      } else {
        var ys := Symbols(ms);
        assert ys == [ms[0].a] + Symbols(ms[1..]) && ys[1..] == Symbols(ms[1..]);
        if path[0].input == EPSILON {
          RunFits(p, path[0].head, ms, path[1..], t, room);
        } else if path[0].input == PHI {
          RunFits(p, path[0].head, ms, path[1..], t, room && !ms[0].bare);
        } else {
          RunFits(p, path[0].head, ms[1..], path[1..], t, false);
        }
      }
    }
  }

  /** Where the condition fails a pair can be lost: here the only rule is F <- S, S is the start state and
      reads 4, the transducer reads epsilon and then 4, and the chart that holds nothing but the initial
      item is already closed. */
  lemma LabelledStartMissesEpsilon() returns (p: Input, t: Tree, path: seq<FstArc>, c: Chart)
    ensures p.Valid() && !HarmlessStarts(p) && Accepted(p, t, path) && !Attachable(p, t, path)
    ensures Closed(p, c, map[]) && Sound(p, c) && forall z :: z in c ==> !p.IsFinal(z)
  {
    var e, d := FstArc(EPSILON, 1, 0), FstArc(4, 2, 0);
    p := Input(HG([Arc(1, [0], 0)], Some(0), Some(1), map[0 := 4]), Fst([[e], [d], []], 0, Some(2)),
               MatchOptions(true, false));
    t, path := Node(0, [Axiom(0)]), [e, d];
    c := map[Item(0, 0, 0, 0, false) := 0];
    assert p.fst.out[0][0] == e && p.cfg.arcs[0].tails[0] == 0;
    assert Accepted(p, t, path) by {
      LoneLeaf(p.cfg, t);
      LonePath(p.fst, p.opts, e, d);
    }
    assert Marks(p.cfg, t.kids, true)[0] == Symbol(4, true);
    PromisedAtDotZero(p, 0, 0);
    assert OwnDone(p, c, map[], Item(0, 0, 0, 0, false));
  }

  lemma LoneLeaf(h: HG<nat>, t: Tree)
    requires h == HG([Arc(1, [0], 0)], Some(0), Some(1), map[0 := 4]) && t == Node(0, [Axiom(0)])
    ensures Derives(h, true, t, 1) && Yield(h, t) == [4]
  {
    assert [Axiom(0)][1..] == [] && YieldAll(h, [Axiom(0)]) == Yield(h, Axiom(0)) + YieldAll(h, []);
    assert DerivesAll(h, true, [Axiom(0)], [0]);
  }

  lemma LonePath(f: Fst, o: MatchOptions, e: FstArc, d: FstArc)
    requires f == Fst([[e], [d], []], 0, Some(2)) && e == FstArc(EPSILON, 1, 0) && d == FstArc(4, 2, 0)
    ensures Run(f, o, 0, [4], None, [e, d], 2)
  {
    assert Run(f, o, 2, [], None, [], 2);
    assert [4][1..] == [] && [d][1..] == [] && [e, d][1..] == [d];
    assert Run(f, o, 1, [4], None, [d], 2);
  }
}
