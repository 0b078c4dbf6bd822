/** From best predecessors to a derivation, with an explicit stack and one node a state. */
module BuildDerivation {
  import opened Counting
  import opened Hypergraph

  /** A child pointer: not yet filled, the shared axiom, or the node of a state. */
  datatype Child = Unset | AxiomChild | Sub(state: State)

  /** What the memo holds for a state: the shared axiom, or a node. */
  datatype Memo = AxiomMemo | NodeMemo(arc: nat, kids: seq<Child>)

  /** Where a finished derivation is to be written: the caller's own, or a child of a state's node. */
  datatype Slot = Root | ChildOf(state: State, index: nat)

  datatype StateResult = StateResult(head: State, slot: Slot)

  ghost predicate ValidPi<W>(h: HG<W>, pi: seq<Option<nat>>) {
    forall s :: 0 <= s < |pi| && pi[s].Some? && !h.IsAxiom(s) ==>
      pi[s].value < |h.arcs| && forall k :: 0 <= k < |h.arcs[pi[s].value].tails| ==> h.arcs[pi[s].value].tails[k] < |pi|
  }

  /** The pointer to a state's derivation once the state is in the memo. */
  function PointerTo(pi: seq<Option<nat>>, s: State): Child
    requires s < |pi|
  {
    if pi[s].None? then AxiomChild else Sub(s)
  }

  /** Child `k` of the node of `s` is right, or its slot is on the stack. */
  ghost predicate KidRight<W>(h: HG<W>, pi: seq<Option<nat>>, memo: map<State, Memo>, pending: set<StateResult>,
                              s: State, k: nat)
    requires s < |pi| && s in memo && memo[s].NodeMemo? && k < |memo[s].kids|
  {
    && pi[s].Some? && pi[s].value < |h.arcs| && k < |h.arcs[pi[s].value].tails|
    && var t, c := h.arcs[pi[s].value].tails[k], memo[s].kids[k];
    && t < |pi|
    && if h.IsAxiom(t) then c == AxiomChild
       else if c == Unset then StateResult(t, ChildOf(s, k)) in pending
       else t in memo && c == PointerTo(pi, t)
  }

  /** A state's memo is what `pi` says, up to children still on the stack. */
  ghost predicate MemoRight<W>(h: HG<W>, pi: seq<Option<nat>>, memo: map<State, Memo>, pending: set<StateResult>,
                               s: State)
    requires s in memo
  {
    && s < |pi| && !h.IsAxiom(s)
    && if pi[s].None? then memo[s] == AxiomMemo
       else
         && memo[s].NodeMemo? && memo[s].arc == pi[s].value < |h.arcs| && |memo[s].kids| == |h.arcs[pi[s].value].tails|
         && forall k :: 0 <= k < |memo[s].kids| ==> KidRight(h, pi, memo, pending, s, k)
  }

  ghost predicate EntryRight<W>(h: HG<W>, pi: seq<Option<nat>>, memo: map<State, Memo>, r: StateResult) {
    && r.head < |pi| && !h.IsAxiom(r.head)
    && (r.slot.ChildOf? ==>
          && r.slot.state in memo && memo[r.slot.state].NodeMemo? && memo[r.slot.state].arc < |h.arcs|
          && r.slot.index < |memo[r.slot.state].kids| == |h.arcs[memo[r.slot.state].arc].tails|
          && h.arcs[memo[r.slot.state].arc].tails[r.slot.index] == r.head)
  }

  /** The tree one gets by following `pi` from `s` down to axioms. */
  ghost predicate PiTree<W>(h: HG<W>, pi: seq<Option<nat>>, s: State, t: Tree)
    decreases t
  {
    match t
    case Axiom(u) => u == s && h.IsAxiom(s)
    case Node(a, kids) =>
      && s < |pi| && !h.IsAxiom(s) && pi[s] == Some(a) && a < |h.arcs| && |kids| == |h.arcs[a].tails|
      && forall k :: 0 <= k < |kids| ==> PiTree(h, pi, h.arcs[a].tails[k], kids[k])
  }

  /** The tree that a pointer unfolds to; `s` is the state it stands for. */
  ghost predicate Unfolds<W>(h: HG<W>, memo: map<State, Memo>, c: Child, s: State, t: Tree)
    decreases t
  {
    match t
    case Axiom(u) => c == AxiomChild && u == s
    case Node(a, kids) =>
      && c.Sub? && c.state == s && s in memo && memo[s].NodeMemo? && memo[s].arc == a && a < |h.arcs|
      && |kids| == |memo[s].kids| == |h.arcs[a].tails|
      && forall k :: 0 <= k < |kids| ==> Unfolds(h, memo, memo[s].kids[k], h.arcs[a].tails[k], kids[k])
  }

  /** A finished memo unfolds to the tree that `pi` describes. */
  lemma {:induction false} FinishedUnfolds<W>(h: HG<W>, pi: seq<Option<nat>>, memo: map<State, Memo>, s: State, t: Tree)
    requires forall u :: u in memo ==> MemoRight(h, pi, memo, {}, u)
    requires s < |pi| && PiTree(h, pi, s, t) && (h.IsAxiom(s) || s in memo)
    ensures Unfolds(h, memo, if h.IsAxiom(s) then AxiomChild else PointerTo(pi, s), s, t)
    decreases t
  {
    if t.Node? {
      assert MemoRight(h, pi, memo, {}, s);
      forall k | 0 <= k < |t.kids|
        ensures Unfolds(h, memo, memo[s].kids[k], h.arcs[t.arc].tails[k], t.kids[k])
      {
        assert KidRight(h, pi, memo, {}, s, k);
        FinishedUnfolds(h, pi, memo, h.arcs[t.arc].tails[k], t.kids[k]);
      }
    }
  }

  ghost predicate BuildingBy<W>(h: HG<W>, pi: seq<Option<nat>>, memo: map<State, Memo>, root: State,
                                pending: set<StateResult>) {
    && ValidPi(h, pi)
    && (forall s :: s in memo ==> MemoRight(h, pi, memo, pending, s))
    && (forall r :: r in pending ==> EntryRight(h, pi, memo, r))
    && (root in memo || StateResult(root, Root) in pending)
  }

  ghost predicate NewEntry<W>(h: HG<W>, tails: seq<State>, head: State, r: StateResult) {
    r.slot.ChildOf? && r.slot.state == head && r.slot.index < |tails| && r.head == tails[r.slot.index]
      && !h.IsAxiom(r.head)
  }

  ghost function Pushed(agenda: seq<StateResult>, n: nat): set<StateResult>
    requires n <= |agenda|
  {
    set r | r in agenda[n..]
  }

  lemma PushedOne(before: seq<StateResult>, r: StateResult, n: nat)
    requires n <= |before|
    ensures Pushed(before + [r], n) == Pushed(before, n) + {r}
  {
    assert (before + [r])[n..] == before[n..] + [r];
  }

  lemma NodeMade<W>(h: HG<W>, pi: seq<Option<nat>>, memo: map<State, Memo>, root: State, pending: set<StateResult>,
                    head: State, kids: seq<Child>, pending': set<StateResult>)
    requires BuildingBy(h, pi, memo, root, pending) && head !in memo && head < |pi| && !h.IsAxiom(head)
    requires pi[head].Some?
    requires pending <= pending' && |kids| == |h.arcs[pi[head].value].tails|
    requires forall r :: r in pending' - pending ==> NewEntry(h, h.arcs[pi[head].value].tails, head, r)
    requires forall k :: 0 <= k < |kids| ==>
               var t := h.arcs[pi[head].value].tails[k];
               if h.IsAxiom(t) then kids[k] == AxiomChild
               else kids[k] == Unset && StateResult(t, ChildOf(head, k)) in pending'
    ensures BuildingBy(h, pi, memo[head := NodeMemo(pi[head].value, kids)], root, pending')
  {
    var memo' := memo[head := NodeMemo(pi[head].value, kids)];
    forall s | s in memo' ensures MemoRight(h, pi, memo', pending', s) {
      if s == head {
        forall k | 0 <= k < |kids| ensures KidRight(h, pi, memo', pending', head, k) {
        }
      } else {
        assert MemoRight(h, pi, memo, pending, s);
        if memo[s].NodeMemo? {
          forall k | 0 <= k < |memo[s].kids| ensures KidRight(h, pi, memo', pending', s, k) {
            assert KidRight(h, pi, memo, pending, s, k);
          }
        }
      }
    }
    forall r | r in pending' ensures EntryRight(h, pi, memo', r) {
      if r in pending {
        assert EntryRight(h, pi, memo, r);
      } else {
        assert NewEntry(h, h.arcs[pi[head].value].tails, head, r);
      }
    }
  }

  lemma EntryOf<W>(h: HG<W>, pi: seq<Option<nat>>, memo: map<State, Memo>, root: State, pending: set<StateResult>,
                   r: StateResult)
    requires BuildingBy(h, pi, memo, root, pending) && r in pending
    ensures EntryRight(h, pi, memo, r)
  {
  }

  /** Writes the finished pointer where it is wanted. */
  function FillSlot(pi: seq<Option<nat>>, memo: map<State, Memo>, r: StateResult): map<State, Memo>
    requires r.head < |pi|
    requires r.slot.ChildOf? ==>
               r.slot.state in memo && memo[r.slot.state].NodeMemo? && r.slot.index < |memo[r.slot.state].kids|
  {
    if r.slot == Root then memo
    else
      var node := memo[r.slot.state];
      memo[r.slot.state := node.(kids := node.kids[r.slot.index := PointerTo(pi, r.head)])]
  }

  /** Filling the slot settles the entry, whether or not the same entry is still on the stack. */
  lemma Filled<W>(h: HG<W>, pi: seq<Option<nat>>, memo: map<State, Memo>, root: State, pending: set<StateResult>,
                  r: StateResult, pending': set<StateResult>)
    requires BuildingBy(h, pi, memo, root, pending) && r in pending && r.head in memo
    requires pending - {r} <= pending' <= pending
    ensures EntryRight(h, pi, memo, r)
    ensures BuildingBy(h, pi, FillSlot(pi, memo, r), root, pending')
    ensures FillSlot(pi, memo, r).Keys == memo.Keys
  {
    assert EntryRight(h, pi, memo, r);
    var memo' := FillSlot(pi, memo, r);
    forall s | s in memo' ensures MemoRight(h, pi, memo', pending', s) {
      assert MemoRight(h, pi, memo, pending, s);
      if memo[s].NodeMemo? {
        forall k | 0 <= k < |memo[s].kids| ensures KidRight(h, pi, memo', pending', s, k) {
          assert KidRight(h, pi, memo, pending, s, k);
        }
      }
    }
    forall x | x in pending' ensures EntryRight(h, pi, memo', x) {
      assert EntryRight(h, pi, memo, x);
    }
    assert root in memo || StateResult(root, Root) in pending;
  }

  lemma AxiomMade<W>(h: HG<W>, pi: seq<Option<nat>>, memo: map<State, Memo>, root: State, pending: set<StateResult>,
                     head: State)
    requires BuildingBy(h, pi, memo, root, pending) && head !in memo && head < |pi| && !h.IsAxiom(head)
    requires pi[head].None?
    ensures BuildingBy(h, pi, memo[head := AxiomMemo], root, pending)
  {
    var memo' := memo[head := AxiomMemo];
    forall s | s in memo' ensures MemoRight(h, pi, memo', pending, s) {
      if s != head {
        assert MemoRight(h, pi, memo, pending, s);
        if memo[s].NodeMemo? {
          forall k | 0 <= k < |memo[s].kids| ensures KidRight(h, pi, memo', pending, s, k) {
            assert KidRight(h, pi, memo, pending, s, k);
          }
        }
      }
    }
    forall r | r in pending ensures EntryRight(h, pi, memo', r) {
      assert EntryRight(h, pi, memo, r);
    }
  }

  class BuildDerivation<W> {
    const h: HG<W>
    const pi: seq<Option<nat>>
    var memo: map<State, Memo>
    var agenda: seq<StateResult>

    constructor (h: HG<W>, pi: seq<Option<nat>>)
      ensures this.h == h && this.pi == pi && memo == map[] && agenda == []
    {
      this.h, this.pi, memo, agenda := h, pi, map[], [];
    }

    ghost predicate Building(root: State, pending: set<StateResult>)
      reads this
    {
      BuildingBy(h, pi, memo, root, pending)
    }

    /** Makes the node of `head`: its axiom children filled, the others put on the stack. */
    method MakeNode(ghost root: State, head: State, ghost pending: set<StateResult>)
      returns (ghost pending': set<StateResult>)
      requires Building(root, pending) && head !in memo && head < |pi| && !h.IsAxiom(head)
      modifies this
      ensures Building(root, pending') && memo.Keys == old(memo).Keys + {head}
      ensures old(agenda) <= agenda && pending' == pending + Pushed(agenda, |old(agenda)|)
    {
      pending' := pending;
      if pi[head].None? {
        AxiomMade(h, pi, memo, root, pending, head);
        memo := memo[head := AxiomMemo];
      } else {
        var arc := pi[head].value;
        var tails := h.arcs[arc].tails;
        var kids := seq(|tails|, _ => Unset);
        var t: int := |tails|;
        ghost var memo0 := memo;
        while t > 0
          invariant 0 <= t <= |tails| == |kids| && memo == memo0 && old(agenda) <= agenda
          invariant forall k :: 0 <= k < t ==> kids[k] == Unset
          invariant forall k :: t <= k < |tails| ==>
                      if h.IsAxiom(tails[k]) then kids[k] == AxiomChild
                      else kids[k] == Unset && StateResult(tails[k], ChildOf(head, k)) in pending'
          invariant pending' == pending + Pushed(agenda, |old(agenda)|)
          invariant forall r :: r in pending' - pending ==> NewEntry(h, tails, head, r)
        {
          t := t - 1;
          if h.IsAxiom(tails[t]) {
            kids := kids[t := AxiomChild];
          } else {
            ghost var before := agenda;
            agenda := agenda + [StateResult(tails[t], ChildOf(head, t))];
            pending' := pending' + {StateResult(tails[t], ChildOf(head, t))};
            PushedOne(before, StateResult(tails[t], ChildOf(head, t)), |old(agenda)|);
          }
        }
        NodeMade(h, pi, memo, root, pending, head, kids, pending');
        memo := memo[head := NodeMemo(arc, kids)];
      }
    }

    /** Takes one state off the stack, makes its node if it has none, and fills the slot. */
    method BuildOneNode(ghost root: State)
      requires Building(root, Pushed(agenda, 0)) && agenda != []
      modifies this
      ensures Building(root, Pushed(agenda, 0))
      ensures old(memo).Keys < memo.Keys || (old(memo).Keys == memo.Keys && |agenda| < |old(agenda)|)
    {
      hide BuildingBy;
      ghost var all := Pushed(agenda, 0);
      var r := agenda[|agenda| - 1];
      EntryOf(h, pi, memo, root, all, r);
      agenda := agenda[..|agenda| - 1];
      ghost var agenda0 := agenda;
      assert all == Pushed(agenda0, 0) + {r};
      var head := r.head;
      if head !in memo {
        all := MakeNode(root, head, all);
      }
      assert all == Pushed(agenda, 0) + {r};
      Filled(h, pi, memo, root, all, r, Pushed(agenda, 0));
      memo := FillSlot(pi, memo, r);
    }

    /** The derivation of `head`: the shared axiom, or what the memo holds for it. */
    method Derivation(head: State) returns (d: Child)
      requires ValidPi(h, pi) && head < |pi| && memo == map[] && agenda == []
      modifies this
      ensures forall s :: s in memo ==> MemoRight(h, pi, memo, {}, s)
      ensures d == if h.IsAxiom(head) then AxiomChild else PointerTo(pi, head)
      ensures forall t :: PiTree(h, pi, head, t) ==> Unfolds(h, memo, d, head, t)
    {
      if h.IsAxiom(head) {
        return AxiomChild;
      }
      agenda := agenda + [StateResult(head, Root)];
      while agenda != []
        invariant Building(head, Pushed(agenda, 0))
        decreases UpTo(|pi|) - memo.Keys, |agenda|
      {
        hide MemoRight, EntryRight, ValidPi;
        BuildOneNode(head);
      }
      assert Pushed(agenda, 0) == {};
      d := match memo[head] case AxiomMemo => AxiomChild case NodeMemo(_, _) => Sub(head);
      assert MemoRight(h, pi, memo, {}, head);
      forall t | PiTree(h, pi, head, t) ensures Unfolds(h, memo, d, head, t) {
        FinishedUnfolds(h, pi, memo, head, t);
      }
    }
  }

}
