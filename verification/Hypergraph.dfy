/** The entities every algorithm shares: states, symbols, hyperarcs, weighted hypergraphs and
    the derivation trees that give a hypergraph its meaning. */
module Hypergraph {

  type State = nat

  /** A terminal symbol, special or lexical, by its vocabulary id. */
  type Sym = nat

  // The first four vocabulary ids, in the order that composition depends on.
  const EPSILON: Sym := 0
  const SIGMA: Sym := 1
  const PHI: Sym := 2
  const RHO: Sym := 3

  /** A symbol that stands for itself. */
  predicate Ordinary(a: Sym) {
    RHO < a
  }

  datatype Option<+T> = None | Some(value: T)

  datatype Arc<+W> = Arc(head: State, tails: seq<State>, weight: W)

  /** `start` and `final` are None for a missing state; `labels` holds the terminal labels only
      (a state absent from it is unlabelled or carries a nonterminal). */
  datatype HG<+W> = HG(arcs: seq<Arc<W>>, start: Option<State>, final: Option<State>, labels: map<State, Sym>) {

    /** The start state and the terminal-labelled states need no derivation. */
    predicate IsAxiom(s: State) {
      start == Some(s) || s in labels
    }
  }

  /** A derivation: arcs are named by their index, as the program names them by address. */
  datatype Tree = Axiom(state: State) | Node(arc: nat, kids: seq<Tree>)

  /** `t` derives `s`. With `leafAxioms` an axiom is derived by its leaf only, which is how
      the program's own derivations stop. */
  ghost predicate Derives<W>(h: HG<W>, leafAxioms: bool, t: Tree, s: State)
    decreases t, 1
  {
    match t
    case Axiom(u) => u == s && h.IsAxiom(s)
    case Node(a, kids) =>
      && a < |h.arcs| && h.arcs[a].head == s
      && (leafAxioms ==> !h.IsAxiom(s))
      && DerivesAll(h, leafAxioms, kids, h.arcs[a].tails)
  }

  ghost predicate DerivesAll<W>(h: HG<W>, leafAxioms: bool, ts: seq<Tree>, ss: seq<State>)
    decreases ts, 0
  {
    && |ts| == |ss|
    && (|ts| > 0 ==> Derives(h, leafAxioms, ts[0], ss[0]) && DerivesAll(h, leafAxioms, ts[1..], ss[1..]))
  }

  /** The total weight of the arcs used, counted once per use. */
  ghost function Cost(h: HG<int>, t: Tree): int
    decreases t, 1
  {
    match t
    case Axiom(_) => 0
    case Node(a, kids) => (if a < |h.arcs| then h.arcs[a].weight else 0) + CostAll(h, kids)
  }

  ghost function CostAll(h: HG<int>, ts: seq<Tree>): int
    decreases ts, 0
  {
    if ts == [] then 0 else Cost(h, ts[0]) + CostAll(h, ts[1..])
  }

  /** The terminals read off the leaves from left to right; epsilon and the start state are silent. */
  ghost function Yield<W>(h: HG<W>, t: Tree): seq<Sym>
    decreases t, 1
  {
    match t
    case Axiom(s) => if s in h.labels && h.labels[s] != EPSILON then [h.labels[s]] else []
    case Node(_, kids) => YieldAll(h, kids)
  }

  ghost function YieldAll<W>(h: HG<W>, ts: seq<Tree>): seq<Sym>
    decreases ts, 0
  {
    if ts == [] then [] else Yield(h, ts[0]) + YieldAll(h, ts[1..])
  }

  lemma {:induction false} DerivesAllAppend<W>(h: HG<W>, leafAxioms: bool, ts: seq<Tree>, t: Tree, ss: seq<State>,
                                               s: State)
    requires DerivesAll(h, leafAxioms, ts, ss) && Derives(h, leafAxioms, t, s)
    ensures DerivesAll(h, leafAxioms, ts + [t], ss + [s])
  {
    if ts == [] {
      assert (ts + [t])[1..] == [] && (ss + [s])[1..] == [];
    } else {
      DerivesAllAppend(h, leafAxioms, ts[1..], t, ss[1..], s);
      assert (ts + [t])[1..] == ts[1..] + [t];
      assert (ss + [s])[1..] == ss[1..] + [s];
    }
  }

  lemma {:induction false} CostAllAppend(h: HG<int>, ts: seq<Tree>, t: Tree)
    ensures CostAll(h, ts + [t]) == CostAll(h, ts) + Cost(h, t)
  {
    if ts == [] {
      assert (ts + [t])[1..] == [];
    } else {
      CostAllAppend(h, ts[1..], t);
      assert (ts + [t])[1..] == ts[1..] + [t];
    }
  }

  lemma {:induction false} YieldAllAppend<W>(h: HG<W>, ts: seq<Tree>, t: Tree)
    ensures YieldAll(h, ts + [t]) == YieldAll(h, ts) + Yield(h, t)
  {
    if ts == [] {
      assert (ts + [t])[1..] == [];
    } else {
      YieldAllAppend(h, ts[1..], t);
      assert (ts + [t])[1..] == ts[1..] + [t];
    }
  }

  lemma {:induction false} DerivesAllAt<W>(h: HG<W>, leafAxioms: bool, ts: seq<Tree>, ss: seq<State>, i: nat)
    requires DerivesAll(h, leafAxioms, ts, ss) && i < |ts|
    ensures |ts| == |ss| && Derives(h, leafAxioms, ts[i], ss[i])
  {
    if i > 0 { DerivesAllAt(h, leafAxioms, ts[1..], ss[1..], i - 1); }
  }
}
