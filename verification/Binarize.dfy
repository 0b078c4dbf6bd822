/** Left-branching binarization in place: arcs with many tails become chains of shorter ones. */
module Binarize {
  import opened Hypergraph
  import opened SplitArc

  /** When to start a new arc: past the third tail, or at a second lexical tail. */
  datatype When = Always | OneLexical

  predicate Lexical(labels: map<State, Sym>, s: State) {
    s in labels && Ordinary(labels[s])
  }

  ghost function LexicalTails(labels: map<State, Sym>, ss: seq<State>): nat {
    if ss == [] then 0
    else
      LexicalTails(labels, ss[..|ss| - 1])
      + if ss[|ss| - 1] in labels && labels[ss[|ss| - 1]] !in {EPSILON, SIGMA, PHI, RHO} then 1 else 0
  }

  lemma LexicalTailsAppend(labels: map<State, Sym>, ss: seq<State>, s: State)
    ensures LexicalTails(labels, ss + [s]) == LexicalTails(labels, ss) + if Lexical(labels, s) then 1 else 0
  {
    assert (ss + [s])[..|ss|] == ss;
  }

  lemma {:induction false} LexicalTailsFirst(labels: map<State, Sym>, ss: seq<State>)
    requires ss != []
    ensures LexicalTails(labels, ss) == LexicalTails(labels, ss[1..]) + if Lexical(labels, ss[0]) then 1 else 0
  {
    var n := |ss| - 1;
    if n > 0 {
      LexicalTailsFirst(labels, ss[..n]);
      assert ss[..n][1..] == ss[1..][..n - 1];
    }
  }

  /** Exactly one arc leads to `s`. */
  ghost predicate OneInArc<W>(h: HG<W>, s: State) {
    exists a :: IsOneInArc(h, s, a)
  }

  ghost predicate IsOneInArc<W>(h: HG<W>, s: State, a: nat) {
    a < |h.arcs| && h.arcs[a].head == s && forall b :: 0 <= b < |h.arcs| && h.arcs[b].head == s ==> b == a
  }

  /** The hypergraph as it would be if the rest of the tails went to arc `last` now. */
  ghost function Settled(h: HG<int>, last: nat, head: State, rest: seq<State>): HG<int>
    requires last < |h.arcs|
  {
    h.(arcs := h.arcs[last := Arc(head, h.arcs[last].tails + rest, h.arcs[last].weight)])
  }

  /** What cutting arcs up keeps, seen from the hypergraph `h0` with `n0` states it began with. */
  ghost predicate Kept(h0: HG<int>, n0: nat, h: HG<int>, n: nat) {
    && n0 <= n && |h0.arcs| <= |h.arcs| && Inside(h, n)
    && h.start == h0.start && h.final == h0.final && h.labels == h0.labels
    && SameDerivations(h0, h, n0)
    && (forall s :: n0 <= s < n ==> OneInArc(h, s))
  }

  lemma KeptNothingDone(h: HG<int>, n: nat)
    requires Inside(h, n)
    ensures Kept(h, n, h, n)
  {
    SameReflexive(h, n);
  }

  lemma KeptJoins(h0: HG<int>, n0: nat, h1: HG<int>, n1: nat, h2: HG<int>, n2: nat)
    requires Kept(h0, n0, h1, n1) && Kept(h1, n1, h2, n2)
    requires forall a :: 0 <= a < |h1.arcs| && n0 <= h1.arcs[a].head < n1 ==> h2.arcs[a] == h1.arcs[a]
    requires forall a :: 0 <= a < |h2.arcs| && n0 <= h2.arcs[a].head < n1 ==> a < |h1.arcs| && h2.arcs[a] == h1.arcs[a]
    ensures Kept(h0, n0, h2, n2)
  {
    SameTransitive(h0, h1, h2, n0, n1);
    forall s | n0 <= s < n2 ensures OneInArc(h2, s) {
      if s < n1 {
        assert OneInArc(h1, s);
        var a :| IsOneInArc(h1, s, a);
        assert IsOneInArc(h2, s, a);
      }
    }
  }

  /** One more cut: the fresh state gets its one in-arc and the others keep theirs. */
  lemma CutKeeps(h0: HG<int>, n0: nat, h: HG<int>, n: nat, last: nat, j: nat)
    requires Kept(h0, n0, h, n) && last < |h.arcs| && j <= |h.arcs[last].tails| && h.arcs[last].head < n0
    ensures Kept(h0, n0, Split(h, last, j, n), n + 1)
  {
    var h' := Split(h, last, j, n);
    SplitKeepsDerivations(h, n, last, j, n);
    SameTransitive(h0, h, h', n0, n);
    forall s | n0 <= s < n + 1 ensures OneInArc(h', s) {
      if s == n {
        assert IsOneInArc(h', s, last);
      } else {
        assert OneInArc(h, s);
        var a :| IsOneInArc(h, s, a);
        assert IsOneInArc(h', s, a);
      }
    }
  }

  /** Arc `arc` of `h0` is being cut up: its first `i` tails are placed, the pieces so far are the arc
      itself and the new arcs, and `lastArc` is the piece still open. */
  ghost predicate Cutting(h0: HG<int>, n0: nat, arc: nat, h: HG<int>, n: nat, lastArc: nat, i: nat) {
    && arc < |h0.arcs| <= |h.arcs| && lastArc < |h.arcs| && (lastArc == arc || |h0.arcs| <= lastArc)
    && 1 <= i <= |h0.arcs[arc].tails| && h0.arcs[arc].head < n0
    && Kept(h0, n0, Settled(h, lastArc, h0.arcs[arc].head, h0.arcs[arc].tails[i..]), n)
    && (forall a :: 0 <= a < |h0.arcs| && a != arc ==> h.arcs[a] == h0.arcs[a])
    && (forall a :: 0 <= a < |h.arcs| && (a == arc || |h0.arcs| <= a) && a != lastArc ==> n0 <= h.arcs[a].head)
    && h.labels == h0.labels && h.arcs[arc].weight == h0.arcs[arc].weight
    && (forall a :: |h0.arcs| <= a < |h.arcs| ==> h.arcs[a].weight == 0)
    && 1 <= |h.arcs[arc].tails| <= i && h.arcs[arc].tails == h0.arcs[arc].tails[..|h.arcs[arc].tails|]
    && (lastArc == arc ==> |h.arcs[arc].tails| == i)
    && |h.arcs[lastArc].tails| > 0
  }

  /** How many tails the pieces have, by the policy. */
  ghost predicate Sized(h0: HG<int>, arc: nat, h: HG<int>, lastArc: nat, i: nat, when: When, anyLex: bool)
    requires arc < |h0.arcs| <= |h.arcs| && 1 <= i <= |h0.arcs[arc].tails|
    requires 1 <= |h.arcs[arc].tails| <= i
  {
    var tails, c := h0.arcs[arc].tails, |h.arcs[arc].tails|;
    match when
    case Always =>
      && c == (if i <= 3 then i else 3) && (i <= 3 ==> lastArc == arc)
      && forall a :: |h0.arcs| <= a < |h.arcs| ==> |h.arcs[a].tails| == 2
    case OneLexical =>
      && (anyLex <==> LexicalTails(h0.labels, tails[1..i]) > 0)
      && (lastArc != arc ==> anyLex)
      && LexicalTails(h0.labels, tails[1..c]) == (if anyLex then 1 else 0)
      && (if lastArc == arc then c == i else c < i && Lexical(h0.labels, tails[c]))
      && forall a :: |h0.arcs| <= a < |h.arcs| ==>
           LexicalTails(h0.labels, h.arcs[a].tails) == 1 && BeginsLexical(h0.labels, h.arcs[a].tails)
  }

  /** A later piece was begun by a lexical tail, which follows its first one. */
  ghost predicate BeginsLexical(labels: map<State, Sym>, tails: seq<State>) {
    |tails| > 1 && tails[1] in labels && labels[tails[1]] !in {EPSILON, SIGMA, PHI, RHO}
  }

  function Range(lo: nat, hi: nat): seq<nat>
    requires lo <= hi
  {
    seq(hi - lo, k requires 0 <= k => lo + k)
  }

  lemma CutBegins(h0: HG<int>, n0: nat, arc: nat, when: When)
    requires Inside(h0, n0) && arc < |h0.arcs| && |h0.arcs[arc].tails| > 0
    ensures var h := h0.(arcs := h0.arcs[arc := h0.arcs[arc].(tails := [h0.arcs[arc].tails[0]])]);
            Cutting(h0, n0, arc, h, n0, arc, 1) && Sized(h0, arc, h, arc, 1, when, false)
  {
    var h := h0.(arcs := h0.arcs[arc := h0.arcs[arc].(tails := [h0.arcs[arc].tails[0]])]);
    assert [h0.arcs[arc].tails[0]] + h0.arcs[arc].tails[1..] == h0.arcs[arc].tails;
    assert Settled(h, arc, h0.arcs[arc].head, h0.arcs[arc].tails[1..]) == h0;
    KeptNothingDone(h0, n0);
    assert h0.arcs[arc].tails[1..1] == [];
  }

  /** A new piece is begun. */
  lemma CutHere(h0: HG<int>, n0: nat, arc: nat, h: HG<int>, n: nat, lastArc: nat, i: nat)
    requires Cutting(h0, n0, arc, h, n, lastArc, i) && i < |h0.arcs[arc].tails|
    ensures var cut := h.arcs[lastArc := h.arcs[lastArc].(head := n)];
            var h' := h.(arcs := cut + [Arc(0, [n, h0.arcs[arc].tails[i]], 0)]);
            Cutting(h0, n0, arc, h', n + 1, |h.arcs|, i + 1)
  {
    var dst, tails := h0.arcs[arc].head, h0.arcs[arc].tails;
    var h' := h.(arcs := h.arcs[lastArc := h.arcs[lastArc].(head := n)] + [Arc(0, [n, tails[i]], 0)]);
    var before := Settled(h, lastArc, dst, tails[i..]);
    var j := |h.arcs[lastArc].tails|;
    assert before.arcs[lastArc].tails[..j] == h.arcs[lastArc].tails && before.arcs[lastArc].tails[j..] == tails[i..];
    assert [n, tails[i]] + tails[i + 1..] == [n] + tails[i..];
    assert Settled(h', |h.arcs|, dst, tails[i + 1..]).arcs == Split(before, lastArc, j, n).arcs;
    CutKeeps(h0, n0, before, n, lastArc, j);
  }

  /** The tail goes to the piece still open. */
  lemma PutHere(h0: HG<int>, n0: nat, arc: nat, h: HG<int>, n: nat, lastArc: nat, i: nat)
    requires Cutting(h0, n0, arc, h, n, lastArc, i) && i < |h0.arcs[arc].tails|
    ensures var last := h.arcs[lastArc];
            var h' := h.(arcs := h.arcs[lastArc := last.(tails := last.tails + [h0.arcs[arc].tails[i]])]);
            Cutting(h0, n0, arc, h', n, lastArc, i + 1)
  {
    var dst, tails := h0.arcs[arc].head, h0.arcs[arc].tails;
    var h' := h.(arcs := h.arcs[lastArc := h.arcs[lastArc].(tails := h.arcs[lastArc].tails + [tails[i]])]);
    assert tails[i..] == [tails[i]] + tails[i + 1..];
    assert h.arcs[lastArc].tails + [tails[i]] + tails[i + 1..] == h.arcs[lastArc].tails + tails[i..];
    assert Settled(h', lastArc, dst, tails[i + 1..]) == Settled(h, lastArc, dst, tails[i..]);
    assert lastArc == arc ==> h'.arcs[arc].tails == tails[..i + 1];
  }

  lemma CutSized(h0: HG<int>, n0: nat, arc: nat, h: HG<int>, n: nat, lastArc: nat, i: nat, when: When, anyLex: bool)
    requires Cutting(h0, n0, arc, h, n, lastArc, i) && i < |h0.arcs[arc].tails|
    requires Sized(h0, arc, h, lastArc, i, when, anyLex)
    requires match when case Always => i > 2 case OneLexical => anyLex && Lexical(h0.labels, h0.arcs[arc].tails[i])
    ensures var cut := h.arcs[lastArc := h.arcs[lastArc].(head := n)];
            var h' := h.(arcs := cut + [Arc(0, [n, h0.arcs[arc].tails[i]], 0)]);
            Sized(h0, arc, h', |h.arcs|, i + 1, when, anyLex || Lexical(h0.labels, h0.arcs[arc].tails[i]))
  {
    var tails := h0.arcs[arc].tails;
    assert n !in h0.labels;
    hide Kept, LexicalTails;
    LexicalTailsAppend(h0.labels, tails[1..i], tails[i]);
    assert tails[1..i + 1] == tails[1..i] + [tails[i]];
    LexicalTailsPair(h0.labels, n, tails[i]);
  }

  lemma LexicalTailsPair(labels: map<State, Sym>, n: State, s: State)
    requires n !in labels
    ensures LexicalTails(labels, [n, s]) == if Lexical(labels, s) then 1 else 0
  {
    assert [n] + [s] == [n, s] && [] + [n] == [n];
    LexicalTailsAppend(labels, [], n);
    LexicalTailsAppend(labels, [n], s);
  }

  lemma PutSized(h0: HG<int>, n0: nat, arc: nat, h: HG<int>, n: nat, lastArc: nat, i: nat, when: When, anyLex: bool)
    requires Cutting(h0, n0, arc, h, n, lastArc, i) && i < |h0.arcs[arc].tails|
    requires Sized(h0, arc, h, lastArc, i, when, anyLex)
    requires !match when case Always => i > 2 case OneLexical => anyLex && Lexical(h0.labels, h0.arcs[arc].tails[i])
    ensures var last := h.arcs[lastArc];
            var h' := h.(arcs := h.arcs[lastArc := last.(tails := last.tails + [h0.arcs[arc].tails[i]])]);
            Sized(h0, arc, h', lastArc, i + 1, when, anyLex || Lexical(h0.labels, h0.arcs[arc].tails[i]))
  {
    hide Kept, LexicalTails;
    var tails := h0.arcs[arc].tails;
    LexicalTailsAppend(h0.labels, tails[1..i], tails[i]);
    LexicalTailsAppend(h0.labels, h.arcs[lastArc].tails, tails[i]);
    assert tails[1..i + 1] == tails[1..i] + [tails[i]];
  }

  /** Arc `arc` of `h0` is cut up into itself and the new arcs of `h`. */
  ghost predicate Cut(h0: HG<int>, n0: nat, arc: nat, h: HG<int>, n: nat, when: When) {
    && Kept(h0, n0, h, n) && arc < |h0.arcs|
    && (forall a :: 0 <= a < |h0.arcs| && a != arc ==> h.arcs[a] == h0.arcs[a])
    && (forall a :: 0 <= a < |h.arcs| && (a == arc || |h0.arcs| <= a) ==>
          h.arcs[a].head == h0.arcs[arc].head || n0 <= h.arcs[a].head)
    && (forall a :: |h0.arcs| <= a < |h.arcs| ==> h.arcs[a].weight == 0 && NewPiece(h, a, when))
    && |h0.arcs[arc].tails| > 0 && FirstPiece(h0.labels, h0.arcs[arc], h.arcs[arc], when)
  }

  ghost predicate NewPiece(h: HG<int>, a: nat, when: When)
    requires a < |h.arcs|
  {
    if when == Always then |h.arcs[a].tails| == 2
    else LexicalTails(h.labels, h.arcs[a].tails) == 1 && BeginsLexical(h.labels, h.arcs[a].tails)
  }

  /** What becomes of the arc itself: it keeps its weight and its first tails, at most three of them; or those up to
      where, after the first, a second lexical one comes. */
  ghost predicate FirstPiece(labels: map<State, Sym>, arc0: Arc<int>, arc: Arc<int>, when: When)
    requires |arc0.tails| > 0
  {
    && arc.weight == arc0.weight && 1 <= |arc.tails| <= |arc0.tails| && arc.tails == arc0.tails[..|arc.tails|]
    && if when == Always then |arc.tails| == (if |arc0.tails| <= 3 then |arc0.tails| else 3)
       else
         && (LexicalTails(labels, arc.tails) > 1 <==> TwoLexical(labels, arc0))
         && LexicalTails(labels, arc.tails[1..]) <= 1
         && (|arc.tails| < |arc0.tails| ==>
               LexicalTails(labels, arc.tails[1..]) == 1 && Lexical(labels, arc0.tails[|arc.tails|]))
  }

  /** The first tail is lexical and so is a later one: the policy for lexical tails does not look at the first. */
  ghost predicate TwoLexical(labels: map<State, Sym>, arc0: Arc<int>)
    requires |arc0.tails| > 0
  {
    Lexical(labels, arc0.tails[0]) && LexicalTails(labels, arc0.tails[1..]) > 0
  }

  lemma CutEnds(h0: HG<int>, n0: nat, arc: nat, h: HG<int>, n: nat, lastArc: nat, when: When, anyLex: bool)
    requires arc < |h0.arcs| && Cutting(h0, n0, arc, h, n, lastArc, |h0.arcs[arc].tails|)
    requires Sized(h0, arc, h, lastArc, |h0.arcs[arc].tails|, when, anyLex)
    ensures Cut(h0, n0, arc, h.(arcs := h.arcs[lastArc := h.arcs[lastArc].(head := h0.arcs[arc].head)]), n, when)
  {
    hide Kept;
    var tails := h0.arcs[arc].tails;
    var c := |h.arcs[arc].tails|;
    var h' := h.(arcs := h.arcs[lastArc := h.arcs[lastArc].(head := h0.arcs[arc].head)]);
    assert tails[|tails|..] == [] && h.arcs[lastArc].tails + [] == h.arcs[lastArc].tails;
    assert Settled(h, lastArc, h0.arcs[arc].head, tails[|tails|..]) == h';
    LexicalTailsFirst(h0.labels, tails[..c]);
    assert tails[..c][1..] == tails[1..c] && tails[1..|tails|] == tails[1..];
  }

  lemma RangeEmpty(n: nat)
    ensures Range(n, n) == []
  {
  }

  lemma RangeMore(lo: nat, hi: nat)
    requires lo <= hi
    ensures Range(lo, hi + 1) == Range(lo, hi) + [hi]
  {
  }

  /** The first `a` arcs are cut up, the others untouched. */
  ghost predicate CutUpTo(h0: HG<int>, n0: nat, h: HG<int>, n: nat, when: When, a: nat)
    requires forall b :: 0 <= b < |h0.arcs| ==> |h0.arcs[b].tails| > 0
  {
    && Kept(h0, n0, h, n) && a <= |h0.arcs|
    && (forall b :: 0 <= b < a ==> FirstPiece(h0.labels, h0.arcs[b], h.arcs[b], when))
    && (forall b :: a <= b < |h0.arcs| ==> h.arcs[b] == h0.arcs[b])
    && (forall b :: |h0.arcs| <= b < |h.arcs| ==> h.arcs[b].weight == 0 && NewPiece(h, b, when))
  }

  lemma CutUpToAt(h0: HG<int>, n0: nat, h: HG<int>, n: nat, when: When, a: nat)
    requires forall b :: 0 <= b < |h0.arcs| ==> |h0.arcs[b].tails| > 0
    requires CutUpTo(h0, n0, h, n, when, a) && a < |h0.arcs|
    ensures |h0.arcs| <= |h.arcs| && Inside(h, n) && |h.arcs[a].tails| > 0
  {
  }

  lemma CutOneMore(h0: HG<int>, n0: nat, h1: HG<int>, n1: nat, h2: HG<int>, n2: nat, when: When, a: nat)
    requires Inside(h0, n0) && forall b :: 0 <= b < |h0.arcs| ==> |h0.arcs[b].tails| > 0
    requires CutUpTo(h0, n0, h1, n1, when, a) && a < |h0.arcs| && Cut(h1, n1, a, h2, n2, when)
    ensures CutUpTo(h0, n0, h2, n2, when, a + 1)
  {
    hide FirstPiece, LexicalTails;
    KeptJoins(h0, n0, h1, n1, h2, n2);
    forall b | |h0.arcs| <= b < |h2.arcs| ensures h2.arcs[b].weight == 0 && NewPiece(h2, b, when) {
      if b < |h1.arcs| {
        assert NewPiece(h1, b, when);
      }
    }
  }

  /** The arcs put aside so far: the first `a`, and those made since there were `m`; each once. */
  ghost predicate Listed(later: seq<nat>, a: nat, m: nat, total: nat) {
    && (forall x, y :: 0 <= x < y < |later| ==> later[x] != later[y])
    && (forall b :: b in later <==> 0 <= b < a || m <= b < total)
  }

  ghost predicate StoredOnce(later: seq<nat>, total: nat) {
    && (forall x, y :: 0 <= x < y < |later| ==> later[x] != later[y])
    && (forall b :: b in later <==> 0 <= b < total)
  }

  lemma ListedMore(later: seq<nat>, a: nat, m: nat, total: nat, total': nat)
    requires Listed(later, a, m, total) && a < m <= total <= total'
    ensures Listed(later + [a] + Range(total, total'), a + 1, m, total')
  {
    var all := later + [a] + Range(total, total');
    var l := |later|;
    forall x | 0 <= x < |all| ensures all[x] == if x < l then later[x] else if x == l then a else total + (x - l - 1) {
    }
    forall x | 0 <= x < l ensures later[x] in later && later[x] != a && later[x] < total {
    }
    forall b | 0 <= b < a + 1 || m <= b < total' ensures b in all {
      if b in later {
        var x :| 0 <= x < l && later[x] == b;
        assert all[x] == b;
      } else if b == a {
        assert all[l] == b;
      } else {
        assert all[l + 1 + b - total] == b;
      }
    }
    forall b | b in all ensures 0 <= b < a + 1 || m <= b < total' {
      var x :| 0 <= x < |all| && all[x] == b;
    }
  }

  lemma LexicalAfterwards(h0: HG<int>, n0: nat, h: HG<int>, n: nat)
    requires forall b :: 0 <= b < |h0.arcs| ==> |h0.arcs[b].tails| > 0
    requires CutUpTo(h0, n0, h, n, OneLexical, |h0.arcs|)
    ensures (forall a :: 0 <= a < |h.arcs| ==> LexicalTails(h.labels, h.arcs[a].tails) <= 1) <==>
            (forall a :: 0 <= a < |h0.arcs| ==> !TwoLexical(h0.labels, h0.arcs[a]))
  {
    hide LexicalTails, TwoLexical, Inside, SameDerivations;
    forall a | 0 <= a < |h0.arcs|
      ensures LexicalTails(h.labels, h.arcs[a].tails) > 1 <==> TwoLexical(h0.labels, h0.arcs[a])
    {
      assert FirstPiece(h0.labels, h0.arcs[a], h.arcs[a], OneLexical);
    }
    forall a | |h0.arcs| <= a < |h.arcs| ensures LexicalTails(h.labels, h.arcs[a].tails) == 1 {
      assert NewPiece(h, a, OneLexical);
    }
  }

  class Binarizer {
    var h: HG<int>
    var nStates: nat
    var later: seq<nat>

    constructor (h: HG<int>, nStates: nat)
      ensures this.h == h && this.nStates == nStates && later == []
    {
      this.h, this.nStates, later := h, nStates, [];
    }

    method AddState() returns (s: State)
      modifies `nStates
      ensures s == old(nStates) && nStates == old(nStates) + 1
    {
      s := nStates;
      nStates := nStates + 1;
    }

    /** Cuts up one arc. The arc itself becomes the first piece; every further piece is put aside. */
    method BinarizeSingleArcDeferAdditional(arc: nat, when: When)
      requires Inside(h, nStates) && arc < |h.arcs| && |h.arcs[arc].tails| > 0
      modifies this
      ensures Cut(old(h), old(nStates), arc, h, nStates, when)
      ensures |old(h).arcs| <= |h.arcs| && later == old(later) + Range(|old(h).arcs|, |h.arcs|)
    {
      hide Cutting, Sized, Kept, Inside, LexicalTails, Cut, Range, Settled;
      var oldTails := h.arcs[arc].tails;
      var dst := h.arcs[arc].head;
      ghost var h0, n0 := h, nStates;
      CutBegins(h0, n0, arc, when);
      h := h.(arcs := h.arcs[arc := h.arcs[arc].(tails := [oldTails[0]])]);
      var anyLex := false;
      var lastArc: nat := arc;
      RangeEmpty(|h.arcs|);
      assert later == old(later) + [];
      for i := 1 to |oldTails|
        invariant lastArc < |h.arcs| && |h0.arcs| <= |h.arcs| && 1 <= |h.arcs[arc].tails| <= i
        invariant Cutting(h0, n0, arc, h, nStates, lastArc, i) && Sized(h0, arc, h, lastArc, i, when, anyLex)
        invariant later == old(later) + Range(|h0.arcs|, |h.arcs|) && h.labels == h0.labels
      {
        var tail := oldTails[i];
        var split := match when case Always => i > 2 case OneLexical => anyLex && Lexical(h.labels, tail);
        if split {
          CutHere(h0, n0, arc, h, nStates, lastArc, i);
          CutSized(h0, n0, arc, h, nStates, lastArc, i, when, anyLex);
          RangeMore(|h0.arcs|, |h.arcs|);
          assert old(later) + (Range(|h0.arcs|, |h.arcs|) + [|h.arcs|]) == later + [|h.arcs|];
          var lastHead := AddState();
          h := h.(arcs := h.arcs[lastArc := h.arcs[lastArc].(head := lastHead)] + [Arc(0, [lastHead, tail], 0)]);
          lastArc := |h.arcs| - 1;
          later := later + [lastArc];
        } else {
          PutHere(h0, n0, arc, h, nStates, lastArc, i);
          PutSized(h0, n0, arc, h, nStates, lastArc, i, when, anyLex);
          h := h.(arcs := h.arcs[lastArc := h.arcs[lastArc].(tails := h.arcs[lastArc].tails + [tail])]);
        }
        anyLex := anyLex || Lexical(h.labels, tail);
      }
      CutEnds(h0, n0, arc, h, nStates, lastArc, when, anyLex);
      h := h.(arcs := h.arcs[lastArc := h.arcs[lastArc].(head := dst)]);
    }

    /** Cuts up every arc that was there at the start; `later` is the order in which the arcs are then stored. */
    method LeftBranchingBinarize(when: When)
      requires Inside(h, nStates) && later == []
      requires forall a :: 0 <= a < |h.arcs| ==> |h.arcs[a].tails| > 0
      modifies this
      ensures Kept(old(h), old(nStates), h, nStates)
      ensures StoredOnce(later, |h.arcs|)
      ensures forall a :: 0 <= a < |old(h).arcs| ==> FirstPiece(old(h).labels, old(h).arcs[a], h.arcs[a], when)
      ensures forall a :: |old(h).arcs| <= a < |h.arcs| ==> h.arcs[a].weight == 0 && NewPiece(h, a, when)
      ensures when == OneLexical ==>
                ((forall a :: 0 <= a < |h.arcs| ==> LexicalTails(h.labels, h.arcs[a].tails) <= 1) <==>
                 (forall a :: 0 <= a < |old(h).arcs| ==> !TwoLexical(old(h).labels, old(h).arcs[a])))
    {
      hide CutUpTo, Cut, Kept, Inside, LexicalTails, Listed, Range;
      ghost var h0, n0, m := h, nStates, |h.arcs|;
      NothingCut(h0, n0, when);
      for a := 0 to |h.arcs|
        invariant |h0.arcs| <= |h.arcs|
        invariant CutUpTo(h0, n0, h, nStates, when, a) && Listed(later, a, m, |h.arcs|)
      {
        ghost var h1, n1, l1 := h, nStates, later;
        CutUpToAt(h0, n0, h, nStates, when, a);
        later := later + [a];
        BinarizeSingleArcDeferAdditional(a, when);
        CutOneMore(h0, n0, h1, n1, h, nStates, when, a);
        ListedMore(l1, a, m, |h1.arcs|, |h.arcs|);
      }
      AllCut(h0, n0, h, nStates, when, later);
      if when == OneLexical {
        LexicalAfterwards(h0, n0, h, nStates);
      }
    }
  }

  lemma NothingCut(h: HG<int>, n: nat, when: When)
    requires Inside(h, n) && forall b :: 0 <= b < |h.arcs| ==> |h.arcs[b].tails| > 0
    ensures CutUpTo(h, n, h, n, when, 0) && Listed([], 0, |h.arcs|, |h.arcs|)
  {
    KeptNothingDone(h, n);
  }

  lemma AllCut(h0: HG<int>, n0: nat, h: HG<int>, n: nat, when: When, later: seq<nat>)
    requires forall b :: 0 <= b < |h0.arcs| ==> |h0.arcs[b].tails| > 0
    requires CutUpTo(h0, n0, h, n, when, |h0.arcs|) && Listed(later, |h0.arcs|, |h0.arcs|, |h.arcs|)
    ensures Kept(h0, n0, h, n) && StoredOnce(later, |h.arcs|)
    ensures forall a :: 0 <= a < |h0.arcs| ==> FirstPiece(h0.labels, h0.arcs[a], h.arcs[a], when)
    ensures forall a :: |h0.arcs| <= a < |h.arcs| ==> h.arcs[a].weight == 0 && NewPiece(h, a, when)
  {
  }

  /** Such an arc: 2 <- 0 1 with both tails lexical keeps both. */
  method BothStayLexical() returns (h: HG<int>)
    ensures |h.arcs| > 0 && LexicalTails(h.labels, h.arcs[0].tails) > 1
  {
    var b := new Binarizer(HG([Arc(2, [0, 1], 0)], None, None, map[0 := 4, 1 := 5]), 3);
    ghost var arc := Arc(2, [0, 1], 0);
    assert b.h.arcs[0] == arc && arc.tails[1..] == [1] && [1][..0] == [];
    assert TwoLexical(b.h.labels, arc);
    assert Inside(b.h, 3);
    hide Kept, LexicalTails, TwoLexical, Inside, StoredOnce;
    b.LeftBranchingBinarize(OneLexical);
    h := b.h;
    assert FirstPiece(map[0 := 4, 1 := 5], arc, h.arcs[0], OneLexical);
  }
}
