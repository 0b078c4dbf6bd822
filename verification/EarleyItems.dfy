/** Items of the composition chart and the rules that make them: what an item promises, which items
    follow from which, and why a chart closed under the rules misses none and overprices none. */
module EarleyItems {
  import opened Hypergraph
  import opened Transducer

  datatype Item = Item(from: State, to: State, arc: nat, dot: nat, lastWasPhiOrEps: bool)

  type Chart = map<Item, nat>

  datatype Input = Input(cfg: HG<nat>, fst: Fst, opts: MatchOptions) {

    ghost predicate Valid() {
      && fst.Valid()
      && (forall a :: 0 <= a < |cfg.arcs| ==> |cfg.arcs[a].tails| > 0)
      && cfg.final.Some? && !cfg.IsAxiom(cfg.final.value)
    }

    predicate InRange(x: Item) {
      && x.from < |fst.out| && x.to < |fst.out|
      && x.arc < |cfg.arcs| && x.dot <= |cfg.arcs[x.arc].tails| && |cfg.arcs[x.arc].tails| > 0
    }

    predicate IsComplete(x: Item)
      requires InRange(x)
    {
      x.dot == |cfg.arcs[x.arc].tails|
    }

    function Next(x: Item): State
      requires InRange(x) && !IsComplete(x)
    {
      cfg.arcs[x.arc].tails[x.dot]
    }

    function Head(x: Item): State
      requires InRange(x)
    {
      cfg.arcs[x.arc].head
    }

    predicate IsFinal(x: Item)
      requires InRange(x)
    {
      IsComplete(x) && cfg.final == Some(Head(x)) && fst.start == x.from && fst.final == Some(x.to)
    }

    /** The lexical symbol right after the dot, if there is one. */
    function Lookahead(x: Item): Option<Sym>
      requires InRange(x)
    {
      if !IsComplete(x) && Next(x) in cfg.labels && Ordinary(cfg.labels[Next(x)]) then Some(cfg.labels[Next(x)])
      else None
    }

    /** `y` is a finished constituent that `x` is waiting for. */
    predicate Fits(x: Item, y: Item)
      requires InRange(x) && InRange(y)
    {
      !IsComplete(x) && IsComplete(y) && y.from == x.to && Next(x) == Head(y)
    }

    /** Right after the dot of `x` is a state whose derivations have to be predicted. */
    predicate Predicts(x: Item)
      requires InRange(x)
    {
      !IsComplete(x) && Next(x) !in cfg.labels && cfg.start != Some(Next(x))
    }

    /** Where epsilon may attach: next to a leaf or after another non-reading arc, and never in
        front of a constituent that can take it in. */
    predicate EpsilonAllowed(x: Item)
      requires InRange(x)
    {
      var tails := cfg.arcs[x.arc].tails;
      && (if x.dot > 0 then tails[x.dot - 1] in cfg.labels || x.lastWasPhiOrEps || cfg.start == Some(tails[x.dot - 1])
          else cfg.start != Some(tails[0]))
      && (IsComplete(x) || Next(x) in cfg.labels)
    }
  }

  function Advanced(x: Item, to: State): Item {
    Item(x.from, to, x.arc, x.dot + 1, false)
  }

  function Skipped(x: Item, to: State): Item {
    Item(x.from, to, x.arc, x.dot, true)
  }

  // ----- What an item promises -----

  /** How an item comes about: predicted, moved along a non-reading arc, over a silent leaf, over a leaf
      that an arc reads, or over a finished constituent. */
  datatype Story =
    | Begin(at: State, arc: nat)
    | Skip(before: Story, e: FstArc)
    | Silent(before: Story)
    | Read(before: Story, e: FstArc)
    | Join(before: Story, part: Story)

  ghost function ItemOf(h: Story): Item {
    match h
    case Begin(at, arc) => Item(at, at, arc, 0, false)
    case Skip(b, e) => Skipped(ItemOf(b), e.head)
    case Silent(b) => Advanced(ItemOf(b), ItemOf(b).to)
    case Read(b, e) => Advanced(ItemOf(b), e.head)
    case Join(b, k) => Advanced(ItemOf(b), ItemOf(k).to)
  }

  /** Each step is one that the rules of the chart allow. */
  ghost predicate Told(p: Input, h: Story) {
    && p.InRange(ItemOf(h)) && !p.cfg.IsAxiom(p.Head(ItemOf(h)))
    && match h
       case Begin(at, arc) => true
       case Skip(b, e) => Told(p, b) && e in p.fst.out[ItemOf(b).to] && SkipsAt(p, ItemOf(b), e)
       case Silent(b) => Told(p, b) && SilentAt(p, ItemOf(b))
       case Read(b, e) => Told(p, b) && e in p.fst.out[ItemOf(b).to] && ReadsAt(p, ItemOf(b), e)
       case Join(b, k) => Told(p, b) && Told(p, k) && p.Fits(ItemOf(b), ItemOf(k))
  }

  /** Epsilon where it may attach, or phi when the symbol after the dot matches nothing here. */
  ghost predicate SkipsAt(p: Input, x: Item, e: FstArc)
    requires p.InRange(x)
  {
    if e.input == EPSILON then p.EpsilonAllowed(x) else Skips(p.opts, p.fst.out[x.to], e, p.Lookahead(x))
  }

  /** After the dot is the grammar's own epsilon leaf, or its unlabelled start state. */
  predicate SilentAt(p: Input, x: Item)
    requires p.InRange(x)
  {
    && !p.IsComplete(x)
    && if p.Next(x) in p.cfg.labels then p.cfg.labels[p.Next(x)] == EPSILON else p.cfg.start == Some(p.Next(x))
  }

  ghost predicate ReadsAt(p: Input, x: Item, e: FstArc)
    requires p.InRange(x)
  {
    p.Lookahead(x).Some? && Consumes(p.opts, p.fst.out[x.to], e, p.Lookahead(x).value)
  }

  ghost function CostOf(p: Input, h: Story): nat {
    match h
    case Begin(_, arc) => if arc < |p.cfg.arcs| then p.cfg.arcs[arc].weight else 0
    case Skip(b, e) => CostOf(p, b) + e.weight
    case Silent(b) => CostOf(p, b)
    case Read(b, e) => CostOf(p, b) + e.weight
    case Join(b, k) => CostOf(p, b) + CostOf(p, k)
  }

  ghost predicate Tells(p: Input, h: Story, x: Item, w: nat) {
    Told(p, h) && ItemOf(h) == x && CostOf(p, h) == w
  }

  /** The item can come about at this cost. */
  ghost predicate Promised(p: Input, x: Item, w: nat) {
    exists h :: Tells(p, h, x, w)
  }

  ghost predicate Sound(p: Input, c: Chart) {
    forall x :: x in c ==> Promised(p, x, c[x])
  }

  lemma PromisedAtDotZero(p: Input, s: State, a: nat)
    requires p.Valid() && s < |p.fst.out| && a < |p.cfg.arcs| && !p.cfg.IsAxiom(p.cfg.arcs[a].head)
    ensures Promised(p, Item(s, s, a, 0, false), p.cfg.arcs[a].weight)
  {
    assert Tells(p, Begin(s, a), Item(s, s, a, 0, false), p.cfg.arcs[a].weight);
  }

  lemma PromisedSkip(p: Input, x: Item, w: nat, e: FstArc)
    requires p.Valid() && p.InRange(x) && Promised(p, x, w) && e in p.fst.out[x.to] && SkipsAt(p, x, e)
    ensures Promised(p, Skipped(x, e.head), w + e.weight)
  {
    var h :| Tells(p, h, x, w);
    assert Tells(p, Skip(h, e), Skipped(x, e.head), w + e.weight);
  }

  lemma PromisedConsume(p: Input, x: Item, w: nat, e: FstArc, a: Sym)
    requires p.Valid() && p.InRange(x) && Promised(p, x, w) && p.Lookahead(x) == Some(a) && e in p.fst.out[x.to]
    requires Consumes(p.opts, p.fst.out[x.to], e, a)
    ensures Promised(p, Advanced(x, e.head), w + e.weight)
  {
    var h :| Tells(p, h, x, w);
    assert Tells(p, Read(h, e), Advanced(x, e.head), w + e.weight);
  }

  lemma PromisedSilentLeaf(p: Input, x: Item, w: nat)
    requires p.Valid() && p.InRange(x) && Promised(p, x, w) && SilentAt(p, x)
    ensures Promised(p, Advanced(x, x.to), w)
  {
    var h :| Tells(p, h, x, w);
    assert Tells(p, Silent(h), Advanced(x, x.to), w);
  }

  lemma PromisedConstituent(p: Input, x: Item, w: nat, y: Item, v: nat)
    requires p.Valid() && p.InRange(x) && p.InRange(y) && Promised(p, x, w) && Promised(p, y, v) && p.Fits(x, y)
    ensures Promised(p, Advanced(x, y.to), w + v)
  {
    var h :| Tells(p, h, x, w);
    var k :| Tells(p, k, y, v);
    assert Tells(p, Join(h, k), Advanced(x, y.to), w + v);
  }

  // ----- Which items must follow -----

  /** `z` is known, in the chart or on the agenda, at a cost of at most `w`. */
  predicate Known(c: Chart, agenda: Chart, z: Item, w: nat) {
    (z in c && c[z] <= w) || (z in agenda && agenda[z] <= w)
  }

  ghost predicate InitDone(p: Input, c: Chart, g: Chart) {
    forall a :: 0 <= a < |p.cfg.arcs| && Some(p.cfg.arcs[a].head) == p.cfg.final ==>
      Known(c, g, Item(p.fst.start, p.fst.start, a, 0, false), p.cfg.arcs[a].weight)
  }

  ghost predicate PredictedAt(p: Input, c: Chart, g: Chart, at: State, s: State) {
    forall a :: 0 <= a < |p.cfg.arcs| && p.cfg.arcs[a].head == s ==>
      Known(c, g, Item(at, at, a, 0, false), p.cfg.arcs[a].weight)
  }

  ghost predicate EpsilonDone(p: Input, c: Chart, g: Chart, x: Item) {
    p.InRange(x) && x in c && p.EpsilonAllowed(x) ==>
      forall e :: e in p.fst.out[x.to] && e.input == EPSILON ==> Known(c, g, Skipped(x, e.head), c[x] + e.weight)
  }

  /** The leaf after the dot has been handled. A special symbol there has no meaning. */
  ghost predicate LeafDone(p: Input, c: Chart, g: Chart, x: Item) {
    p.InRange(x) && x in c && !p.IsComplete(x) && p.Next(x) in p.cfg.labels ==>
      var a := p.cfg.labels[p.Next(x)];
      && (a == EPSILON ==> Known(c, g, Advanced(x, x.to), c[x]))
      && a !in {SIGMA, PHI, RHO}
      && (Ordinary(a) ==> forall e :: e in p.fst.out[x.to] ==>
            && (Consumes(p.opts, p.fst.out[x.to], e, a) ==> Known(c, g, Advanced(x, e.head), c[x] + e.weight))
            && (e.input == PHI && Unmatched(p.opts, p.fst.out[x.to], a) ==>
                  Known(c, g, Skipped(x, e.head), c[x] + e.weight)))
  }

  ghost predicate PredictDone(p: Input, c: Chart, g: Chart, x: Item) {
    && p.InRange(x) && x in c
    && (p.Predicts(x) ==> PredictedAt(p, c, g, x.to, p.Next(x)))
    && (!p.IsComplete(x) && p.Next(x) !in p.cfg.labels && p.cfg.start == Some(p.Next(x)) ==>
          Known(c, g, Advanced(x, x.to), c[x]))
  }

  ghost predicate PairDone(p: Input, c: Chart, g: Chart, x: Item, y: Item) {
    p.InRange(x) && x in c && p.InRange(y) && y in c && p.Fits(x, y) ==> Known(c, g, Advanced(x, y.to), c[x] + c[y])
  }

  /** Everything that follows from one charted item alone. */
  ghost predicate OwnDone(p: Input, c: Chart, g: Chart, x: Item) {
    EpsilonDone(p, c, g, x) && LeafDone(p, c, g, x) && PredictDone(p, c, g, x)
  }

  ghost predicate AllInRange(p: Input, c: Chart) {
    forall x :: x in c ==> p.InRange(x)
  }

  /** Every rule has been applied to the chart; what follows is in the chart or on the agenda. */
  ghost predicate Closed(p: Input, c: Chart, g: Chart) {
    && AllInRange(p, c)
    && InitDone(p, c, g)
    && (forall x :: x in c ==> OwnDone(p, c, g, x))
    && (forall x, y :: x in c && y in c ==> PairDone(p, c, g, x, y))
  }

  /** As `Closed`, but for the rules that have `x` as a premise. */
  ghost predicate ClosedExcept(p: Input, c: Chart, g: Chart, x: Item) {
    && AllInRange(p, c)
    && InitDone(p, c, g)
    && (forall y :: y in c && y != x ==> OwnDone(p, c, g, y))
    && (forall y, z :: y in c && z in c && y != x && z != x ==> PairDone(p, c, g, y, z))
  }

  /** Agenda `g'` knows all that `g` knew. */
  ghost predicate Grew(g: Chart, g': Chart) {
    forall z :: z in g ==> z in g' && g'[z] <= g[z]
  }

  lemma ClosedAgain(p: Input, c: Chart, g: Chart, g': Chart, x: Item)
    requires ClosedExcept(p, c, g, x) && Grew(g, g')
    requires x in c && OwnDone(p, c, g', x)
    requires forall y :: y in c ==> PairDone(p, c, g', x, y) && PairDone(p, c, g', y, x)
    ensures Closed(p, c, g')
  {
    forall y | y in c ensures OwnDone(p, c, g', y) {
      if y != x { assert OwnDone(p, c, g, y); }
    }
    forall y, z | y in c && z in c ensures PairDone(p, c, g', y, z) {
      if y != x && z != x { assert PairDone(p, c, g, y, z); }
    }
  }

  lemma PoppedIsKnown(c: Chart, g: Chart, x: Item, c': Chart)
    requires x in g && c' == (if x in c && c[x] <= g[x] then c else c[x := g[x]])
    ensures forall z, w :: Known(c, g, z, w) ==> Known(c', g - {x}, z, w)
  {
  }

  /** Moving an item from the agenda to the chart forgets nothing. */
  lemma PoppedKeepsKnown(p: Input, c: Chart, g: Chart, x: Item, c': Chart)
    requires Closed(p, c, g) && x in g && p.InRange(x)
    requires c' == (if x in c && c[x] <= g[x] then c else c[x := g[x]])
    ensures ClosedExcept(p, c', g - {x}, x)
    ensures c' == c ==> Closed(p, c', g - {x})
    ensures forall at, s :: PredictedAt(p, c, g, at, s) ==> PredictedAt(p, c', g - {x}, at, s)
  {
    var g' := g - {x};
    PoppedIsKnown(c, g, x, c');
    hide Known;
    forall y | y in c' && (y != x || c' == c) ensures OwnDone(p, c', g', y) {
      assert OwnDone(p, c, g, y);
    }
    forall y, z | y in c' && z in c' && (c' == c || (y != x && z != x)) ensures PairDone(p, c', g', y, z) {
      assert PairDone(p, c, g, y, z);
    }
  }

  // ----- A closed chart misses nothing -----

  /** The rule of `x` is charted at the beginning of `x`. */
  ghost predicate Begun(p: Input, c: Chart, x: Item)
    requires p.InRange(x)
  {
    Known(c, map[], Item(x.from, x.from, x.arc, 0, false), p.cfg.arcs[x.arc].weight)
  }

  /** A charted beginning and everything that comes about from it: charted, at no greater cost. Since all final
      items have a charted beginning, each costs the least at which it can come about. */
  lemma {:induction false} StoryIsCharted(p: Input, c: Chart, h: Story)
    requires p.Valid() && Closed(p, c, map[]) && Told(p, h)
    requires Begun(p, c, ItemOf(h))
    ensures ItemOf(h) in c && c[ItemOf(h)] <= CostOf(p, h)
    decreases h
  {
    match h
    case Begin(_, _) =>
    case Skip(b, e) =>
      StoryIsCharted(p, c, b);
      assert OwnDone(p, c, map[], ItemOf(b));
    case Silent(b) =>
      StoryIsCharted(p, c, b);
      assert OwnDone(p, c, map[], ItemOf(b));
    case Read(b, e) =>
      StoryIsCharted(p, c, b);
      assert OwnDone(p, c, map[], ItemOf(b));
    case Join(b, k) =>
      StoryIsCharted(p, c, b);
      assert OwnDone(p, c, map[], ItemOf(b));
      assert p.Predicts(ItemOf(b));
      StoryIsCharted(p, c, k);
      assert PairDone(p, c, map[], ItemOf(b), ItemOf(k));
  }
}
