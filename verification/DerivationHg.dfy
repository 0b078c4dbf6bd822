/** A derivation, possibly with shared subtrees, as a hypergraph of its own, and back. */
module DerivationHg {
  import opened Hypergraph
  import opened SplitArc
  import opened SingleDerivation

  /** A child: the shared axiom placeholder, or a node. */
  datatype Child = AxiomChild | Sub(id: nat)

  /** A derivation node: an arc of the hypergraph it derives and a child for each tail. */
  datatype DNode = DNode(arc: nat, kids: seq<Child>)

  /** The child stands for a derivation of `s`, as far as one can see without going further down. */
  ghost predicate FitsChild(h: HG<int>, nodes: seq<DNode>, c: Child, s: State) {
    match c
    case AxiomChild => h.IsAxiom(s)
    case Sub(id) => id < |nodes| && nodes[id].arc < |h.arcs| && h.arcs[nodes[id].arc].head == s && !h.IsAxiom(s)
  }

  /** Acyclic nodes over arcs of `h`: children lie lower in `rank`. */
  ghost predicate Fits(h: HG<int>, nodes: seq<DNode>, rank: seq<nat>) {
    && |rank| == |nodes|
    && forall id: nat :: id < |nodes| ==> FitsNode(h, nodes, rank, id)
  }

  ghost predicate FitsNode(h: HG<int>, nodes: seq<DNode>, rank: seq<nat>, id: nat)
    requires id < |nodes| == |rank|
  {
    && nodes[id].arc < |h.arcs| && |nodes[id].kids| == |h.arcs[nodes[id].arc].tails|
    && forall k :: 0 <= k < |nodes[id].kids| ==> FitsKid(h, nodes, rank, id, k)
  }

  ghost predicate FitsKid(h: HG<int>, nodes: seq<DNode>, rank: seq<nat>, id: nat, k: nat)
    requires id < |nodes| == |rank| && nodes[id].arc < |h.arcs| && k < |nodes[id].kids| == |h.arcs[nodes[id].arc].tails|
  {
    && FitsChild(h, nodes, nodes[id].kids[k], h.arcs[nodes[id].arc].tails[k])
    && (nodes[id].kids[k].Sub? ==> rank[nodes[id].kids[k].id] < rank[id])
  }

  /** The tree a child unfolds to. */
  ghost predicate UnfoldsTo(h: HG<int>, nodes: seq<DNode>, c: Child, s: State, t: Tree)
    decreases t
  {
    match t
    case Axiom(u) => c == AxiomChild && u == s
    case Node(a, ts) =>
      && c.Sub? && c.id < |nodes| && nodes[c.id].arc == a < |h.arcs|
      && |ts| == |nodes[c.id].kids| == |h.arcs[a].tails|
      && forall k :: 0 <= k < |ts| ==> UnfoldsTo(h, nodes, nodes[c.id].kids[k], h.arcs[a].tails[k], ts[k])
  }

  /** Two trees over two hypergraphs with the same shape, arc weights and labels. */
  ghost predicate Isomorphic(h: HG<int>, o: HG<int>, t: Tree, u: Tree)
    decreases t
  {
    match t
    case Axiom(s) => u.Axiom? && SameLabel(h, o, s, u.state)
    case Node(a, ts) =>
      && u.Node? && a < |h.arcs| && u.arc < |o.arcs| && h.arcs[a].weight == o.arcs[u.arc].weight
      && SameLabel(h, o, h.arcs[a].head, o.arcs[u.arc].head)
      && |u.kids| == |ts| && forall k :: 0 <= k < |ts| ==> Isomorphic(h, o, ts[k], u.kids[k])
  }

  ghost predicate SameLabel(h: HG<int>, o: HG<int>, s: State, u: State) {
    && (s in h.labels <==> u in o.labels) && (s in h.labels ==> h.labels[s] == o.labels[u])
  }

  lemma {:induction false} IsomorphicCost(h: HG<int>, o: HG<int>, t: Tree, u: Tree)
    requires Isomorphic(h, o, t, u)
    ensures Cost(h, t) == Cost(o, u) && Yield(h, t) == Yield(o, u)
    decreases t, 1
  {
    if t.Node? { IsomorphicCosts(h, o, t.kids, u.kids); }
  }

  lemma {:induction false} IsomorphicCosts(h: HG<int>, o: HG<int>, ts: seq<Tree>, us: seq<Tree>)
    requires |us| == |ts| && forall k :: 0 <= k < |ts| ==> Isomorphic(h, o, ts[k], us[k])
    ensures CostAll(h, ts) == CostAll(o, us) && YieldAll(h, ts) == YieldAll(o, us)
    decreases ts, 0
  {
    if ts != [] {
      IsomorphicCost(h, o, ts[0], us[0]);
      IsomorphicCosts(h, o, ts[1..], us[1..]);
    }
  }

  // ----- What the translation has built so far -----

  /** The new hypergraph and its number of states, the states made for nodes and for axioms, and for the
      finished nodes the arc that copies theirs. */
  datatype Made = Made(o: HG<int>, n: nat, once: map<nat, State>, done: map<nat, nat>, forAxiom: map<State, State>)

  /** The state that stands for a child. */
  ghost predicate Stands(m: Made, c: Child, s: State, u: State) {
    match c
    case AxiomChild => s in m.forAxiom && u == m.forAxiom[s]
    case Sub(id) => id in m.once && id in m.done && u == m.once[id]
  }

  /** Arc `a` is the copy of the node's arc, between states that stand for the node and its children. */
  ghost predicate CopyOf(h: HG<int>, nodes: seq<DNode>, m: Made, id: nat, a: nat) {
    && id < |nodes| && nodes[id].arc < |h.arcs| && |nodes[id].kids| == |h.arcs[nodes[id].arc].tails|
    && id in m.once && a < |m.o.arcs| && m.o.arcs[a].head == m.once[id]
    && m.o.arcs[a].weight == h.arcs[nodes[id].arc].weight
    && |m.o.arcs[a].tails| == |nodes[id].kids|
    && forall k :: 0 <= k < |nodes[id].kids| ==>
         Stands(m, nodes[id].kids[k], h.arcs[nodes[id].arc].tails[k], m.o.arcs[a].tails[k])
  }

  ghost predicate CopiesSome(m: Made, a: nat) {
    exists id :: id in m.done && m.done[id] == a
  }

  /** Different nodes and axioms have different states. */
  ghost predicate NamesApart(m: Made) {
    && (forall id :: id in m.once ==> m.once[id] < m.n) && (forall s :: s in m.forAxiom ==> m.forAxiom[s] < m.n)
    && (forall x, y :: x in m.once && y in m.once && m.once[x] == m.once[y] ==> x == y)
    && (forall x, y :: x in m.forAxiom && y in m.forAxiom && m.forAxiom[x] == m.forAxiom[y] ==> x == y)
    && (forall x, y :: x in m.once && y in m.forAxiom ==> m.once[x] != m.forAxiom[y])
  }

  /** Only the states made for axioms have labels, those of the axioms. */
  ghost predicate LabelsRight(h: HG<int>, m: Made) {
    && (forall s :: s in m.forAxiom ==> h.IsAxiom(s) && SameLabel(h, m.o, s, m.forAxiom[s]))
    && (forall u :: u in m.o.labels ==> u < m.n && NamesAxiom(m, u))
  }

  ghost predicate NamesAxiom(m: Made, u: State) {
    exists s :: s in m.forAxiom && m.forAxiom[s] == u
  }

  ghost predicate ArcsInside(m: Made) {
    forall a: nat :: a < |m.o.arcs| ==> m.o.arcs[a].head < m.n && forall k :: 0 <= k < |m.o.arcs[a].tails| ==>
        m.o.arcs[a].tails[k] < m.n
  }

  /** The nodes in `once` but not in `done` are open: their children are being visited. */
  ghost predicate Translated(h: HG<int>, nodes: seq<DNode>, m: Made, open: set<nat>) {
    && Apart(m.once.Keys, m.done.Keys, open)
    && NamesApart(m) && LabelsRight(h, m) && ArcsInside(m) && CopiesRight(h, nodes, m)
  }

  ghost predicate Apart(all: set<nat>, done: set<nat>, open: set<nat>) {
    all == done + open && done !! open
  }

  /** The arcs are the copies of the finished nodes' arcs. */
  ghost predicate CopiesRight(h: HG<int>, nodes: seq<DNode>, m: Made) {
    && (forall id :: id in m.done ==> CopyOf(h, nodes, m, id, m.done[id]))
    && (forall a: nat :: a < |m.o.arcs| ==> CopiesSome(m, a))
  }

  /** Nothing made before is touched. */
  ghost predicate Grown(m: Made, m': Made) {
    && m.o.arcs <= m'.o.arcs
    && (forall id :: id in m.once ==> id in m'.once && m'.once[id] == m.once[id])
    && (forall id :: id in m.done ==> id in m'.done && m'.done[id] == m.done[id])
    && (forall s :: s in m.forAxiom ==> s in m'.forAxiom && m'.forAxiom[s] == m.forAxiom[s])
  }

  lemma GrownFurther(m: Made, m': Made, m'': Made)
    requires Grown(m, m') && Grown(m', m'')
    ensures Grown(m, m'')
  {
  }

  lemma StandsStill(m: Made, m': Made, c: Child, s: State, u: State)
    requires Stands(m, c, s, u) && Grown(m, m')
    ensures Stands(m', c, s, u)
  {
  }

  lemma CopyStill(h: HG<int>, nodes: seq<DNode>, m: Made, m': Made, id: nat, a: nat)
    requires CopyOf(h, nodes, m, id, a) && Grown(m, m')
    ensures CopyOf(h, nodes, m', id, a)
  {
    assert m'.o.arcs[a] == m.o.arcs[a];
    forall k | 0 <= k < |nodes[id].kids|
      ensures Stands(m', nodes[id].kids[k], h.arcs[nodes[id].arc].tails[k], m'.o.arcs[a].tails[k])
    {
      StandsStill(m, m', nodes[id].kids[k], h.arcs[nodes[id].arc].tails[k], m.o.arcs[a].tails[k]);
    }
  }

  lemma CopiesStill(h: HG<int>, nodes: seq<DNode>, m: Made, m': Made)
    requires CopiesRight(h, nodes, m) && Grown(m, m') && m'.done == m.done && m'.o.arcs == m.o.arcs
    ensures CopiesRight(h, nodes, m')
  {
    hide CopyOf;
    forall id | id in m.done ensures CopyOf(h, nodes, m', id, m.done[id]) {
      CopyStill(h, nodes, m, m', id, m.done[id]);
    }
    forall a: nat | a < |m.o.arcs| ensures CopiesSome(m', a) {
      assert CopiesSome(m, a);
    }
  }

  lemma ApartOpened(all: set<nat>, done: set<nat>, open: set<nat>, id: nat)
    requires Apart(all, done, open) && id !in all
    ensures Apart(all + {id}, done, open + {id})
  {
  }

  lemma ApartClosed(all: set<nat>, done: set<nat>, open: set<nat>, id: nat)
    requires Apart(all, done, open) && id in open
    ensures id in all && id !in done && Apart(all, done + {id}, open - {id})
  {
  }

  lemma ArcGrown(m: Made, id: nat, arc: Arc<int>)
    requires id !in m.done
    ensures Grown(m, WithArc(m, id, arc))
  {
  }

  // ----- The steps -----

  /** A state for an axiom met for the first time, with its label. */
  function WithAxiom(h: HG<int>, m: Made, s: State): Made {
    m.(n := m.n + 1, forAxiom := m.forAxiom[s := m.n],
       o := if s in h.labels then m.o.(labels := m.o.labels[m.n := h.labels[s]]) else m.o)
  }

  lemma AxiomAdded(h: HG<int>, nodes: seq<DNode>, m: Made, open: set<nat>, s: State)
    requires Translated(h, nodes, m, open) && h.IsAxiom(s) && s !in m.forAxiom
    ensures Translated(h, nodes, WithAxiom(h, m, s), open) && Grown(m, WithAxiom(h, m, s))
  {
    var m' := WithAxiom(h, m, s);
    hide NamesApart, LabelsRight, ArcsInside, CopiesRight;
    assert Grown(m, m');
    CopiesStill(h, nodes, m, m');
    AxiomNames(m, h, s);
    AxiomLabels(h, m, s);
  }

  lemma AxiomNames(m: Made, h: HG<int>, s: State)
    requires NamesApart(m) && ArcsInside(m) && s !in m.forAxiom
    ensures NamesApart(WithAxiom(h, m, s)) && ArcsInside(WithAxiom(h, m, s))
  {
  }

  lemma AxiomLabels(h: HG<int>, m: Made, s: State)
    requires NamesApart(m) && LabelsRight(h, m) && h.IsAxiom(s) && s !in m.forAxiom
    ensures LabelsRight(h, WithAxiom(h, m, s))
  {
    var m' := WithAxiom(h, m, s);
    forall x | x in m'.forAxiom ensures h.IsAxiom(x) && SameLabel(h, m'.o, x, m'.forAxiom[x]) {
      AxiomLabel(h, m, s, x);
    }
    hide NamesApart, SameLabel, NamesAxiom;
    forall u | u in m'.o.labels ensures u < m'.n && NamesAxiom(m', u) {
      if u in m.o.labels {
        NamedStill(m, m', u);
      } else {
        NamesThis(m', s, u);
      }
    }
  }

  lemma NamesThis(m: Made, s: State, u: State)
    requires s in m.forAxiom && m.forAxiom[s] == u
    ensures NamesAxiom(m, u)
  {
  }

  lemma AxiomLabel(h: HG<int>, m: Made, s: State, x: State)
    requires NamesApart(m) && LabelsRight(h, m) && h.IsAxiom(s) && s !in m.forAxiom && (x == s || x in m.forAxiom)
    ensures h.IsAxiom(x) && SameLabel(h, WithAxiom(h, m, s).o, x, WithAxiom(h, m, s).forAxiom[x])
  {
    hide NamesAxiom;
    if x == s {
      assert m.n !in m.o.labels;
    } else {
      assert m.forAxiom[x] < m.n;
    }
  }

  lemma NamedStill(m: Made, m': Made, u: State)
    requires NamesAxiom(m, u) && forall s :: s in m.forAxiom ==> s in m'.forAxiom && m'.forAxiom[s] == m.forAxiom[s]
    ensures NamesAxiom(m', u)
  {
    var x :| x in m.forAxiom && m.forAxiom[x] == u;
    assert m'.forAxiom[x] == u;
  }

  /** A state for a node met for the first time. */
  function WithNode(m: Made, id: nat): Made {
    m.(n := m.n + 1, once := m.once[id := m.n])
  }

  lemma NodeOpened(h: HG<int>, nodes: seq<DNode>, m: Made, open: set<nat>, id: nat)
    requires Translated(h, nodes, m, open) && id !in m.once
    ensures Translated(h, nodes, WithNode(m, id), open + {id}) && Grown(m, WithNode(m, id))
  {
    var m' := WithNode(m, id);
    assert Grown(m, m') && id !in open;
    hide Apart, NamesApart, LabelsRight, ArcsInside, CopiesRight, Grown;
    ApartOpened(m.once.Keys, m.done.Keys, open, id);
    CopiesStill(h, nodes, m, m');
    NamesStill(h, m, id);
    assert m'.once.Keys == m.once.Keys + {id} && m'.done == m.done && m'.o == m.o;
  }

  lemma NamesStill(h: HG<int>, m: Made, id: nat)
    requires NamesApart(m) && LabelsRight(h, m) && ArcsInside(m) && id !in m.once
    ensures NamesApart(WithNode(m, id)) && LabelsRight(h, WithNode(m, id)) && ArcsInside(WithNode(m, id))
  {
    var m' := WithNode(m, id);
    forall u | u in m'.o.labels ensures u < m'.n && NamesAxiom(m', u) {
      NamedStill(m, m', u);
    }
  }

  /** The copied arc of a node all of whose children are done. */
  function WithArc(m: Made, id: nat, arc: Arc<int>): Made {
    m.(o := m.o.(arcs := m.o.arcs + [arc]), done := m.done[id := |m.o.arcs|])
  }

  ghost predicate ReadyArc(h: HG<int>, nodes: seq<DNode>, m: Made, id: nat, arc: Arc<int>) {
    && id < |nodes| && nodes[id].arc < |h.arcs| && |nodes[id].kids| == |h.arcs[nodes[id].arc].tails|
    && id in m.once && arc.head == m.once[id] && arc.weight == h.arcs[nodes[id].arc].weight
    && |arc.tails| == |nodes[id].kids|
    && forall k :: 0 <= k < |arc.tails| ==> Stands(m, nodes[id].kids[k], h.arcs[nodes[id].arc].tails[k], arc.tails[k])
  }

  lemma NodeClosed(h: HG<int>, nodes: seq<DNode>, m: Made, open: set<nat>, id: nat, arc: Arc<int>)
    requires Translated(h, nodes, m, open) && id in open && ReadyArc(h, nodes, m, id, arc)
    ensures Translated(h, nodes, WithArc(m, id, arc), open - {id}) && Grown(m, WithArc(m, id, arc))
  {
    var m' := WithArc(m, id, arc);
    hide Apart, NamesApart, LabelsRight, ArcsInside, CopiesRight, ReadyArc, Grown;
    ApartClosed(m.once.Keys, m.done.Keys, open, id);
    ArcGrown(m, id, arc);
    ClosedCopies(h, nodes, m, id, arc);
    ClosedInside(h, nodes, m, id, arc);
    assert m'.done.Keys == m.done.Keys + {id};
  }

  lemma ClosedCopies(h: HG<int>, nodes: seq<DNode>, m: Made, id: nat, arc: Arc<int>)
    requires CopiesRight(h, nodes, m) && ReadyArc(h, nodes, m, id, arc) && id !in m.done
    ensures CopiesRight(h, nodes, WithArc(m, id, arc))
  {
    hide CopyOf, ReadyArc;
    var m' := WithArc(m, id, arc);
    assert Grown(m, m');
    ClosedCopy(h, nodes, m, id, arc);
    CopiesThis(m', id, |m.o.arcs|);
    forall x | x in m.done ensures CopyOf(h, nodes, m', x, m.done[x]) {
      CopyStill(h, nodes, m, m', x, m.done[x]);
    }
    forall a: nat | a < |m.o.arcs| ensures CopiesSome(m', a) {
      assert CopiesSome(m, a);
      var x :| x in m.done && m.done[x] == a;
      CopiesThis(m', x, a);
    }
  }

  lemma CopiesThis(m: Made, id: nat, a: nat)
    requires id in m.done && m.done[id] == a
    ensures CopiesSome(m, a)
  {
  }

  lemma ClosedCopy(h: HG<int>, nodes: seq<DNode>, m: Made, id: nat, arc: Arc<int>)
    requires ReadyArc(h, nodes, m, id, arc) && id !in m.done
    ensures CopyOf(h, nodes, WithArc(m, id, arc), id, |m.o.arcs|)
  {
    var m' := WithArc(m, id, arc);
    assert Grown(m, m');
    forall k | 0 <= k < |arc.tails|
      ensures Stands(m', nodes[id].kids[k], h.arcs[nodes[id].arc].tails[k], arc.tails[k])
    {
      StandsStill(m, m', nodes[id].kids[k], h.arcs[nodes[id].arc].tails[k], arc.tails[k]);
    }
  }

  lemma ClosedInside(h: HG<int>, nodes: seq<DNode>, m: Made, id: nat, arc: Arc<int>)
    requires ReadyArc(h, nodes, m, id, arc) && NamesApart(m) && LabelsRight(h, m) && ArcsInside(m)
    ensures NamesApart(WithArc(m, id, arc)) && LabelsRight(h, WithArc(m, id, arc)) && ArcsInside(WithArc(m, id, arc))
  {
    var m' := WithArc(m, id, arc);
    forall k | 0 <= k < |arc.tails| ensures arc.tails[k] < m.n {
      assert Stands(m, nodes[id].kids[k], h.arcs[nodes[id].arc].tails[k], arc.tails[k]);
    }
    forall u | u in m'.o.labels ensures u < m'.n && NamesAxiom(m', u) {
      NamedStill(m, m', u);
    }
  }

  // ----- The program -----

  class ToSingleDerivationHypergraph {
    const h: HG<int>
    const nodes: seq<DNode>
    ghost const rank: seq<nat>
    var o: HG<int>
    var nStates: nat
    var once: map<nat, State>
    var forAxiom: map<State, State>
    ghost var done: map<nat, nat>

    constructor (h: HG<int>, nodes: seq<DNode>, ghost rank: seq<nat>)
      ensures this.h == h && this.nodes == nodes && this.rank == rank
      ensures Now() == Made(HG([], None, None, map[]), 0, map[], map[], map[])
    {
      this.h, this.nodes, this.rank := h, nodes, rank;
      o, nStates, once, forAxiom, done := HG([], None, None, map[]), 0, map[], map[], map[];
    }

    ghost function Now(): Made
      reads this
    {
      Made(o, nStates, once, done, forAxiom)
    }

    method AddState() returns (s: State)
      modifies `nStates
      ensures s == old(nStates) && nStates == old(nStates) + 1
    {
      s := nStates;
      nStates := nStates + 1;
    }

    /** The state for an axiom, made when it is first met. */
    method AxiomState(s: State, ghost open: set<nat>) returns (u: State)
      requires Translated(h, nodes, Now(), open) && h.IsAxiom(s)
      modifies this
      ensures Translated(h, nodes, Now(), open) && Grown(old(Now()), Now()) && s in forAxiom && u == forAxiom[s]
      ensures o.start == old(o.start) && o.final == old(o.final)
    {
      hide Translated;
      if s in forAxiom {
        return forAxiom[s];
      }
      AxiomAdded(h, nodes, Now(), open, s);
      u := AddState();
      if s in h.labels {
        o := o.(labels := o.labels[u := h.labels[s]]);
      }
      forAxiom := forAxiom[s := u];
      assert Now() == WithAxiom(h, old(Now()), s);
    }

    /** The state for a child. A node met before is not visited again, so sharing is kept. */
    method ComputeOnceDfs(c: Child, s: State, ghost open: set<nat>) returns (u: State)
      requires Fits(h, nodes, rank) && FitsChild(h, nodes, c, s) && Translated(h, nodes, Now(), open)
      requires c.Sub? ==> c.id !in open && forall x :: x in open ==> x < |rank| && rank[c.id] < rank[x]
      modifies this
      ensures Translated(h, nodes, Now(), open) && Grown(old(Now()), Now()) && Stands(Now(), c, s, u)
      ensures o.start == old(o.start) && o.final == old(o.final)
      decreases if c.Sub? then rank[c.id] + 1 else 0, 0
    {
      assert |rank| == |nodes| && (c.Sub? ==> c.id < |nodes|);
      GrownSelf(Now());
      if c.AxiomChild? {
        u := AxiomState(s, open);
        return;
      }
      hide Translated, Stands, Grown, FitsChild, Fits, ReadyArc;
      var id := c.id;
      if id in once {
        return once[id];
      }
      ghost var m0 := Now();
      u := Open(id, open);
      ghost var m1 := Now();
      var arc := CopyArc(id, u, open);
      ghost var m2 := Now();
      GrownFurther(m0, m1, m2);
      Close(id, s, u, arc, open);
      GrownFurther(m0, m2, Now());
    }

    /** The hypergraph of one derivation; fails for a lone axiom when there is no final state to derive. */
    method TranslateToSingleDerivationHypergraph(root: Child) returns (ok: bool)
      requires Fits(h, nodes, rank) && Now() == Made(HG([], None, None, map[]), 0, map[], map[], map[])
      requires root.Sub? ==>
                 root.id < |nodes| && nodes[root.id].arc < |h.arcs| && !h.IsAxiom(h.arcs[nodes[root.id].arc].head)
      requires root.AxiomChild? && h.final.Some? ==> h.IsAxiom(h.final.value)
      modifies this
      ensures ok <==> root.Sub? || h.final.Some?
      ensures ok ==> Finished(h, nodes, Now(), root, RootState(h, nodes, root))
    {
      ok := root.Sub? || h.final.Some?;
      if !ok {
        return;
      }
      var iRoot := if root.AxiomChild? then h.final.value else h.arcs[nodes[root.id].arc].head;
      hide Translated, Stands, Grown, Fits;
      var u := ComputeOnceDfs(root, iRoot, {});
      ghost var m := Now();
      var start: Option<State> := None;
      if h.start.Some? {
        var v := AxiomState(h.start.value, {});
        StandsStill(m, Now(), root, iRoot, u);
        start := Some(v);
      }
      EndsSet(h, nodes, Now(), root, iRoot, u, start);
      o := o.(final := Some(u), start := start);
    }

    /** A new state for a node; its arc is added when its children are done. */
    method Open(id: nat, ghost open: set<nat>) returns (u: State)
      requires Translated(h, nodes, Now(), open) && id !in once
      modifies this
      ensures Translated(h, nodes, Now(), open + {id}) && Grown(old(Now()), Now()) && id in once && once[id] == u
      ensures o.start == old(o.start) && o.final == old(o.final)
    {
      hide Translated, Grown;
      ghost var m := Now();
      NodeOpened(h, nodes, m, open, id);
      u := AddState();
      once := once[id := u];
      assert Now() == WithNode(m, id);
    }

    /** Adds the finished arc of a node. */
    method Close(id: nat, ghost s: State, ghost u: State, arc: Arc<int>, ghost open: set<nat>)
      requires Translated(h, nodes, Now(), open + {id}) && id !in open && ReadyArc(h, nodes, Now(), id, arc)
      requires id in once && once[id] == u
      modifies this
      ensures Translated(h, nodes, Now(), open) && Grown(old(Now()), Now()) && Stands(Now(), Sub(id), s, u)
      ensures o.start == old(o.start) && o.final == old(o.final)
    {
      hide Translated, Grown, Stands, ReadyArc;
      ghost var m := Now();
      NodeClosed(h, nodes, m, open + {id}, id, arc);
      o := o.(arcs := o.arcs + [arc]);
      done := done[id := |m.o.arcs|];
      assert Now() == WithArc(m, id, arc);
      assert open + {id} - {id} == open;
      NodeStands(m, Now(), id, s, u, arc);
    }

    /** The node's arc over the new states, its children visited from left to right. */
    method CopyArc(id: nat, u: State, ghost open: set<nat>) returns (copy: Arc<int>)
      requires Fits(h, nodes, rank) && id < |nodes| && id in once && once[id] == u && id !in open
      requires Translated(h, nodes, Now(), open + {id})
      requires forall x :: x in open ==> x < |rank| && rank[id] < rank[x]
      modifies this
      ensures Translated(h, nodes, Now(), open + {id}) && Grown(old(Now()), Now())
      ensures ReadyArc(h, nodes, Now(), id, copy)
      ensures id in once && once[id] == u && o.start == old(o.start) && o.final == old(o.final)
      decreases rank[id], 1
    {
      assert FitsNode(h, nodes, rank, id);
      hide Translated, Stands, Grown, FitsChild, Fits;
      var arc := h.arcs[nodes[id].arc];
      ghost var m0 := Now();
      GrownSelf(m0);
      var tails := arc.tails;
      for i := 0 to |nodes[id].kids|
        invariant |tails| == |arc.tails| && Translated(h, nodes, Now(), open + {id}) && Grown(m0, Now())
        invariant id in once && once[id] == u && o.start == m0.o.start && o.final == m0.o.final
        invariant forall k :: 0 <= k < i ==> Stands(Now(), nodes[id].kids[k], arc.tails[k], tails[k])
      {
        assert FitsKid(h, nodes, rank, id, i);
        ghost var m := Now();
        var v := ComputeOnceDfs(nodes[id].kids[i], arc.tails[i], open + {id});
        GrownFurther(m0, m, Now());
        forall k | 0 <= k < i ensures Stands(Now(), nodes[id].kids[k], arc.tails[k], tails[k]) {
          StandsStill(m, Now(), nodes[id].kids[k], arc.tails[k], tails[k]);
        }
        OnceStill(m, Now(), id);
        tails := tails[i := v];
      }
      copy := Arc(u, tails, arc.weight);
    }
  }

  lemma GrownSelf(m: Made)
    ensures Grown(m, m)
  {
  }

  /** What the finished translation of the derivation `root` of `iRoot` looks like. */
  ghost predicate Finished(h: HG<int>, nodes: seq<DNode>, m: Made, root: Child, iRoot: State) {
    && Translated(h, nodes, m, {}) && m.o.final.Some? && Stands(m, root, iRoot, m.o.final.value)
    && (h.start.None? ==> m.o.start == None)
    && (h.start.Some? ==> h.start.value in m.forAxiom && m.o.start == Some(m.forAxiom[h.start.value]))
  }

  lemma OnceStill(m: Made, m': Made, id: nat)
    requires Grown(m, m') && id in m.once
    ensures id in m'.once && m'.once[id] == m.once[id]
  {
  }

  lemma NodeStands(m: Made, m': Made, id: nat, s: State, u: State, arc: Arc<int>)
    requires id in m.once && m.once[id] == u && m' == WithArc(m, id, arc)
    ensures Stands(m', Sub(id), s, u)
  {
  }

  /** The state the derivation derives: the final state when it is a lone axiom. */
  ghost function RootState(h: HG<int>, nodes: seq<DNode>, root: Child): State
    requires root.Sub? ==> root.id < |nodes| && nodes[root.id].arc < |h.arcs|
    requires root.AxiomChild? ==> h.final.Some?
  {
    if root.AxiomChild? then h.final.value else h.arcs[nodes[root.id].arc].head
  }

  lemma EndsSet(h: HG<int>, nodes: seq<DNode>, m: Made, root: Child, iRoot: State, u: State, start: Option<State>)
    requires Translated(h, nodes, m, {}) && Stands(m, root, iRoot, u)
    requires if h.start.None? then start == None
             else h.start.value in m.forAxiom && start == Some(m.forAxiom[h.start.value])
    ensures Finished(h, nodes, m.(o := m.o.(final := Some(u), start := start)), root, iRoot)
  {
    hide NamesApart, LabelsRight, ArcsInside, CopiesRight;
    var m' := m.(o := m.o.(final := Some(u), start := start));
    assert Grown(m, m');
    CopiesStill(h, nodes, m, m');
    EndsNamed(h, m, m');
  }

  lemma EndsNamed(h: HG<int>, m: Made, m': Made)
    requires m' == m.(o := m'.o) && m'.o.arcs == m.o.arcs && m'.o.labels == m.o.labels
    requires NamesApart(m) && LabelsRight(h, m) && ArcsInside(m)
    ensures NamesApart(m') && LabelsRight(h, m') && ArcsInside(m')
  {
    forall v | v in m.o.labels ensures NamesAxiom(m', v) {
      NamedStill(m, m', v);
    }
  }

  // ----- Reading it back -----

  /** Axioms go to axioms, nodes to other states, each with one in-arc. */
  lemma FinishedStates(h: HG<int>, nodes: seq<DNode>, m: Made, root: Child, iRoot: State)
    requires Finished(h, nodes, m, root, iRoot)
    ensures forall s :: s in m.forAxiom ==> m.o.IsAxiom(m.forAxiom[s])
    ensures forall id :: id in m.once ==> id in m.done && !m.o.IsAxiom(m.once[id])
  {
    forall id | id in m.once ensures !m.o.IsAxiom(m.once[id]) {
    }
  }

  lemma OnlyCopy(h: HG<int>, nodes: seq<DNode>, m: Made, id: nat, b: nat)
    requires Translated(h, nodes, m, {}) && id in m.done && b < |m.o.arcs| && m.o.arcs[b].head == m.once[id]
    ensures b == m.done[id] && CopyOf(h, nodes, m, id, b)
  {
    assert CopiesSome(m, b);
    var x :| x in m.done && m.done[x] == b;
    assert CopyOf(h, nodes, m, x, b);
  }

  /** `t` is what the child unfolds to, and `u` is the same up to names. */
  ghost predicate IsReading(h: HG<int>, nodes: seq<DNode>, o: HG<int>, c: Child, s: State, t: Tree, u: Tree) {
    UnfoldsTo(h, nodes, c, s, t) && Isomorphic(h, o, t, u) && Derives(h, true, t, s)
  }

  /** A derivation in the new hypergraph is the old one's unfolding, up to names. */
  lemma {:induction false} ReadBack(h: HG<int>, nodes: seq<DNode>, rank: seq<nat>, m: Made, root: Child, iRoot: State,
                                    c: Child, s: State, u: Tree, v: State)
    returns (t: Tree)
    requires Fits(h, nodes, rank) && FitsChild(h, nodes, c, s) && Finished(h, nodes, m, root, iRoot)
    requires Stands(m, c, s, v) && Derives(m.o, true, u, v)
    ensures IsReading(h, nodes, m.o, c, s, t, u)
    decreases u, 1, 0
  {
    hide CopyOf, CopiesRight, NamesApart, LabelsRight, ArcsInside, Fits, FitsNode, Stands;
    FinishedStates(h, nodes, m, root, iRoot);
    if c.AxiomChild? {
      AxiomStands(h, nodes, m, s, v);
      t := Axiom(s);
    } else {
      NodeStandsFor(m, c.id, s, v);
      OnlyCopy(h, nodes, m, c.id, u.arc);
      var a := nodes[c.id].arc;
      CopyKids(h, nodes, m, c.id, u.arc);
      var ts := ReadBackAll(h, nodes, rank, m, root, iRoot, c.id, u.kids, |u.kids|);
      DerivesAllFrom(h, ts, h.arcs[a].tails);
      t := Node(a, ts);
    }
  }

  lemma NodeStandsFor(m: Made, id: nat, s: State, v: State)
    requires Stands(m, Sub(id), s, v)
    ensures id in m.once && id in m.done && v == m.once[id]
  {
  }

  lemma AxiomStands(h: HG<int>, nodes: seq<DNode>, m: Made, s: State, v: State)
    requires Translated(h, nodes, m, {}) && Stands(m, AxiomChild, s, v)
    ensures s in m.forAxiom && v == m.forAxiom[s] && SameLabel(h, m.o, s, v) && h.IsAxiom(s)
  {
  }

  lemma CopyKids(h: HG<int>, nodes: seq<DNode>, m: Made, id: nat, a: nat)
    requires CopyOf(h, nodes, m, id, a)
    ensures id < |nodes| && nodes[id].arc < |h.arcs| && a < |m.o.arcs| && m.o.arcs[a].head == m.once[id]
    ensures m.o.arcs[a].weight == h.arcs[nodes[id].arc].weight
    ensures |nodes[id].kids| == |h.arcs[nodes[id].arc].tails| == |m.o.arcs[a].tails|
  {
  }

  lemma {:induction false} ReadBackAll(h: HG<int>, nodes: seq<DNode>, rank: seq<nat>, m: Made, root: Child,
                                       iRoot: State, id: nat, us: seq<Tree>, n: nat)
    returns (ts: seq<Tree>)
    requires Fits(h, nodes, rank) && Finished(h, nodes, m, root, iRoot) && id in m.done
    requires CopyOf(h, nodes, m, id, m.done[id]) && DerivesAll(m.o, true, us, m.o.arcs[m.done[id]].tails) && n <= |us|
    ensures |ts| == n <= |nodes[id].kids| && n <= |h.arcs[nodes[id].arc].tails|
    ensures forall k :: 0 <= k < n ==>
              IsReading(h, nodes, m.o, nodes[id].kids[k], h.arcs[nodes[id].arc].tails[k], ts[k], us[k])
    decreases us, 0, n
  {
    CopyKids(h, nodes, m, id, m.done[id]);
    SameLength(m.o, us, m.o.arcs[m.done[id]].tails);
    hide CopyOf, Finished, Fits, FitsChild, Stands, IsReading, Derives, DerivesAll;
    if n == 0 {
      ts := [];
    } else {
      var k := n - 1;
      KidFits(h, nodes, rank, m, id, us, k);
      ts := ReadBackAll(h, nodes, rank, m, root, iRoot, id, us, k);
      var t := ReadBack(h, nodes, rank, m, root, iRoot, nodes[id].kids[k], h.arcs[nodes[id].arc].tails[k], us[k],
                        m.o.arcs[m.done[id]].tails[k]);
      ts := ts + [t];
    }
  }

  lemma SameLength(o: HG<int>, us: seq<Tree>, ss: seq<State>)
    requires DerivesAll(o, true, us, ss)
    ensures |us| == |ss|
  {
  }

  lemma KidFits(h: HG<int>, nodes: seq<DNode>, rank: seq<nat>, m: Made, id: nat, us: seq<Tree>, k: nat)
    requires Fits(h, nodes, rank) && id in m.done && CopyOf(h, nodes, m, id, m.done[id])
    requires DerivesAll(m.o, true, us, m.o.arcs[m.done[id]].tails) && k < |us|
    ensures k < |nodes[id].kids| == |h.arcs[nodes[id].arc].tails| == |m.o.arcs[m.done[id]].tails|
    ensures FitsChild(h, nodes, nodes[id].kids[k], h.arcs[nodes[id].arc].tails[k])
    ensures Stands(m, nodes[id].kids[k], h.arcs[nodes[id].arc].tails[k], m.o.arcs[m.done[id]].tails[k])
    ensures Derives(m.o, true, us[k], m.o.arcs[m.done[id]].tails[k])
  {
    DerivesAllAt(m.o, true, us, m.o.arcs[m.done[id]].tails, k);
    assert FitsNode(h, nodes, rank, id) && FitsKid(h, nodes, rank, id, k);
  }

  lemma {:induction false} DerivesAllFrom(h: HG<int>, ts: seq<Tree>, ss: seq<State>)
    requires |ts| == |ss| && forall k :: 0 <= k < |ts| ==> Derives(h, true, ts[k], ss[k])
    ensures DerivesAll(h, true, ts, ss)
  {
    if ts != [] { DerivesAllFrom(h, ts[1..], ss[1..]); }
  }

  /** How far down a state lies: axioms at the bottom, nodes by their rank. */
  ghost function Depth(m: Made, rank: seq<nat>, u: State): nat {
    if exists id :: id in m.once && m.once[id] == u && id < |rank|
    then var id :| id in m.once && m.once[id] == u && id < |rank|; rank[id] + 1
    else 0
  }

  /** The state was made for a node or for an axiom. */
  ghost predicate Named(m: Made, u: State) {
    NamesAxiom(m, u) || NamesNode(m, u)
  }

  ghost predicate NamesNode(m: Made, u: State) {
    exists id :: id in m.once && m.once[id] == u
  }

  ghost function Depths(m: Made, rank: seq<nat>): map<State, nat> {
    map u | 0 <= u < m.n && Named(m, u) :: Depth(m, rank, u)
  }

  /** The new hypergraph is as reading it needs it. */
  lemma FinishedIsTame(h: HG<int>, nodes: seq<DNode>, rank: seq<nat>, m: Made, root: Child, iRoot: State)
    requires Fits(h, nodes, rank) && Finished(h, nodes, m, root, iRoot)
    ensures Tame(m.o, Depths(m, rank))
  {
    var depths := Depths(m, rank);
    FinishedStates(h, nodes, m, root, iRoot);
    forall u | u in depths && !m.o.IsAxiom(u) ensures TameAt(m.o, depths, u) {
      assert Named(m, u) && !NamesAxiom(m, u);
      var id :| id in m.once && m.once[id] == u;
      NodeIsTame(h, nodes, rank, m, root, iRoot, id);
    }
  }

  lemma NodeIsTame(h: HG<int>, nodes: seq<DNode>, rank: seq<nat>, m: Made, root: Child, iRoot: State, id: nat)
    requires Fits(h, nodes, rank) && Finished(h, nodes, m, root, iRoot) && id in m.once
    ensures m.once[id] in Depths(m, rank) && TameAt(m.o, Depths(m, rank), m.once[id])
  {
    CopyIsOnlyInArc(h, nodes, m, id);
    hide Fits, Finished, Named, Depth;
    var a := m.done[id];
    forall k | 0 <= k < |m.o.arcs[a].tails|
      ensures m.o.arcs[a].tails[k] in Depths(m, rank)
      ensures Depths(m, rank)[m.o.arcs[a].tails[k]] < Depths(m, rank)[m.once[id]]
    {
      TailIsLower(h, nodes, rank, m, root, iRoot, id, k);
    }
  }

  lemma CopyIsOnlyInArc(h: HG<int>, nodes: seq<DNode>, m: Made, id: nat)
    requires Translated(h, nodes, m, {}) && id in m.once
    ensures id in m.done && m.once[id] < m.n && OnlyInArc(m.o, m.once[id], m.done[id])
  {
    assert CopyOf(h, nodes, m, id, m.done[id]);
    forall b | 0 <= b < |m.o.arcs| && m.o.arcs[b].head == m.once[id] ensures b == m.done[id] {
      OnlyCopy(h, nodes, m, id, b);
    }
  }

  lemma TailIsLower(h: HG<int>, nodes: seq<DNode>, rank: seq<nat>, m: Made, root: Child, iRoot: State, id: nat, k: nat)
    requires Fits(h, nodes, rank) && Finished(h, nodes, m, root, iRoot) && id in m.once && id in m.done
    requires m.done[id] < |m.o.arcs| && k < |m.o.arcs[m.done[id]].tails|
    ensures var v := m.o.arcs[m.done[id]].tails[k];
            v < m.n && Named(m, v) && Depth(m, rank, v) < Depth(m, rank, m.once[id])
  {
    var v := m.o.arcs[m.done[id]].tails[k];
    assert CopyOf(h, nodes, m, id, m.done[id]);
    assert FitsNode(h, nodes, rank, id) && FitsKid(h, nodes, rank, id, k);
    var c := nodes[id].kids[k];
    assert Stands(m, c, h.arcs[nodes[id].arc].tails[k], v);
    if c.AxiomChild? {
      NamesThis(m, h.arcs[nodes[id].arc].tails[k], v);
    }
  }

  lemma FinishedInside(h: HG<int>, nodes: seq<DNode>, m: Made, root: Child, iRoot: State)
    requires Finished(h, nodes, m, root, iRoot)
    ensures Inside(m.o, m.n) && m.o.final.value < m.n
  {
  }

  lemma RootNamed(h: HG<int>, nodes: seq<DNode>, m: Made, root: Child, iRoot: State)
    requires Finished(h, nodes, m, root, iRoot)
    ensures Named(m, m.o.final.value)
  {
    if root.AxiomChild? { NamesThis(m, iRoot, m.o.final.value); }
  }

  /** There is only one unfolding. */
  lemma {:induction false} UnfoldsOnce(h: HG<int>, nodes: seq<DNode>, c: Child, s: State, t: Tree, u: Tree)
    requires UnfoldsTo(h, nodes, c, s, t) && UnfoldsTo(h, nodes, c, s, u)
    ensures t == u
    decreases t
  {
    if t.Node? {
      forall k | 0 <= k < |t.kids| ensures t.kids[k] == u.kids[k] {
        UnfoldsOnce(h, nodes, nodes[c.id].kids[k], h.arcs[t.arc].tails[k], t.kids[k], u.kids[k]);
      }
    }
  }

  ghost predicate OnlyUnfolding(h: HG<int>, nodes: seq<DNode>, c: Child, s: State, t: Tree) {
    UnfoldsTo(h, nodes, c, s, t) && forall u :: UnfoldsTo(h, nodes, c, s, u) ==> u == t
  }

  lemma UnfoldingIsOnly(h: HG<int>, nodes: seq<DNode>, c: Child, s: State, t: Tree)
    requires UnfoldsTo(h, nodes, c, s, t)
    ensures OnlyUnfolding(h, nodes, c, s, t)
  {
    forall u | UnfoldsTo(h, nodes, c, s, u) ensures u == t {
      UnfoldsOnce(h, nodes, c, s, t, u);
    }
  }

  /** The derivation that was read back: of the new final state the only one, and the old derivation's
      unfolding with the same labels, arc weights, total cost and yield. */
  ghost predicate SameAgain(h: HG<int>, nodes: seq<DNode>, root: Child, iRoot: State, o: HG<int>, u: Tree) {
    && o.final.Some? && OnlyDerivation(o, u, o.final.value)
    && exists t :: OnlyUnfolding(h, nodes, root, iRoot, t) && Derives(h, true, t, iRoot) && Isomorphic(h, o, t, u)
                && Cost(h, t) == Cost(o, u) && Yield(h, t) == Yield(o, u)
  }

  /** The quick test for emptiness rejects the new hypergraph exactly for a lone label. */
  lemma RejectedExactly(h: HG<int>, nodes: seq<DNode>, m: Made, root: Child, iRoot: State)
    requires Finished(h, nodes, m, root, iRoot) && (root.AxiomChild? ==> h.final == Some(iRoot))
    ensures Rejected(m.o) <==> root.AxiomChild? && h.start != h.final
  {
    var u := m.o.final.value;
    match root
    case Sub(id) =>
      assert CopyOf(h, nodes, m, id, m.done[id]);
      assert m.o.arcs[m.done[id]].head == u;
    case AxiomChild =>
      forall a: nat | a < |m.o.arcs| ensures m.o.arcs[a].head != u {
        assert CopiesSome(m, a);
        var id :| id in m.done && m.done[id] == a;
        assert CopyOf(h, nodes, m, id, a);
      }
  }

  /** A derivation, made into a hypergraph and read back from the new final state: no exception, and the same
      derivation. Read back as a whole it is the same, too, except that the quick test for emptiness comes first
      and takes a lone label other than the start state for nothing. */
  method RoundTrip(h: HG<int>, nodes: seq<DNode>, ghost rank: seq<nat>, root: Child)
    returns (ok: bool, o: HG<int>, r: Reading, whole: Reading)
    requires Fits(h, nodes, rank)
    requires root.Sub? ==>
               root.id < |nodes| && nodes[root.id].arc < |h.arcs| && !h.IsAxiom(h.arcs[nodes[root.id].arc].head)
    requires root.AxiomChild? && h.final.Some? ==> h.IsAxiom(h.final.value)
    ensures ok <==> root.Sub? || h.final.Some?
    ensures ok ==> r.Read? && SameAgain(h, nodes, root, RootState(h, nodes, root), o, r.tree)
    ensures ok ==> whole == if root.AxiomChild? && h.start != h.final then EmptySetException else r
  {
    hide Fits, Finished, Tame, OnlyUnfolding, UnfoldsTo, Isomorphic, Derives, Inside;
    var x := new ToSingleDerivationHypergraph(h, nodes, rank);
    ok := x.TranslateToSingleDerivationHypergraph(root);
    o, r, whole := x.o, EmptySetException, EmptySetException;
    if ok {
      ghost var m, iRoot := x.Now(), RootState(h, nodes, root);
      FinishedInside(h, nodes, m, root, iRoot);
      FinishedIsTame(h, nodes, rank, m, root, iRoot);
      RootNamed(h, nodes, m, root, iRoot);
      FinalStands(h, nodes, m, root, iRoot);
      RejectedExactly(h, nodes, m, root, iRoot);
      var reader := new Reader(o, x.nStates);
      assert Below(Depths(m, rank), {}, o.final.value);
      r := reader.ReadState(o.final.value);
      whole := ReadFinal(o, x.nStates);
      hide OnlyDerivation;
      ghost var t := ReadBack(h, nodes, rank, m, root, iRoot, root, iRoot, r.tree, o.final.value);
      UnfoldingIsOnly(h, nodes, root, iRoot, t);
      IsomorphicCost(h, o, t, r.tree);
    }
  }

  lemma FinalStands(h: HG<int>, nodes: seq<DNode>, m: Made, root: Child, iRoot: State)
    requires Finished(h, nodes, m, root, iRoot)
    ensures m.o.final.Some? && Stands(m, root, iRoot, m.o.final.value)
  {
  }
}
